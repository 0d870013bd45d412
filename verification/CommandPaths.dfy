/**
  What the nested command table means: a map from paths to handlers.  A path is a chain of
  steps from the root table.  Registering a handler at a path replaces whatever was at or
  under that path, which is what assigning into the innermost Go map does.
*/
module CommandPaths {
  import opened Text

  datatype Path = Root | Step(parent: Path, name: string)

  function PathOf(tokens: seq<string>): Path {
    if tokens == [] then Root else Step(PathOf(tokens[..|tokens| - 1]), tokens[|tokens| - 1])
  }

  /** q is p or lies below p. */
  predicate Under(p: Path, q: Path) {
    p == q || (q.Step? && Under(p, q.parent))
  }

  function Depth(p: Path): nat {
    match p case Root => 0 case Step(q, _) => Depth(q) + 1
  }

  lemma {:induction false} UnderDepth(p: Path, q: Path)
    requires Under(p, q)
    ensures Depth(p) <= Depth(q) && (Depth(p) == Depth(q) ==> p == q)
  {
    if p != q { UnderDepth(p, q.parent); }
  }

  lemma {:induction false} UnderTransitive(p: Path, q: Path, r: Path)
    requires Under(p, q) && Under(q, r)
    ensures Under(p, r)
  {
    if q != r { UnderTransitive(p, q, r.parent); }
  }

  /** Two ancestors of one path are comparable. */
  lemma {:induction false} Comparable(p: Path, q: Path, r: Path)
    requires Under(p, r) && Under(q, r)
    ensures Under(p, q) || Under(q, p)
  {
    if p != r && q != r { Comparable(p, q, r.parent); }
  }

  lemma {:induction false} PathOfPrefix(ts: seq<string>, i: nat)
    requires i <= |ts|
    ensures Under(PathOf(ts[..i]), PathOf(ts)) && Depth(PathOf(ts)) == |ts|
  {
    if i == |ts| {
      assert ts[..i] == ts;
      if ts != [] { PathOfPrefix(ts[..|ts| - 1], |ts| - 1); }
    } else {
      PathOfPrefix(ts[..|ts| - 1], i);
      assert ts[..|ts| - 1][..i] == ts[..i];
    }
  }

  // ---------- registrations ----------

  /** How a handler callback answers: text, an error with its own response, or a plain error. */
  datatype Answer = Answered(text: string) | Custom(response: string) | Failed

  datatype Handler = Handler(name: string, shortName: string, cb: seq<string> -> Answer,
                             requiredArgs: seq<string>, minArgs: Option<int>, maxArgs: Option<int>,
                             allArgs: bool, errResponse: Option<string>, fieldNames: seq<string>)

  type Leaves = map<Path, Handler>

  ghost function Register(leaves: Leaves, p: Path, h: Handler): Leaves {
    (map q | q in leaves && !Under(p, q) :: leaves[q])[p := h]
  }

  datatype Registration = Registration(path: Path, handler: Handler)

  ghost function RegisterAll(leaves: Leaves, regs: seq<Registration>): Leaves {
    if regs == [] then leaves
    else
      var n := |regs| - 1;
      Register(RegisterAll(leaves, regs[..n]), regs[n].path, regs[n].handler)
  }

  /** No handler sits strictly above the path; otherwise the source's type assertion panics. */
  ghost predicate Clear(leaves: Leaves, p: Path) {
    forall q :: q in leaves && Under(q, p) ==> q == p
  }

  /** No registered path lies strictly below another. */
  ghost predicate PrefixFree(leaves: Leaves) {
    forall p, q :: p in leaves && q in leaves && Under(p, q) ==> p == q
  }

  lemma RegisterPrefixFree(leaves: Leaves, p: Path, h: Handler)
    requires PrefixFree(leaves) && Clear(leaves, p)
    ensures PrefixFree(Register(leaves, p, h))
  {
  }

  /** A registration changes the lookup of no path but its own and those below it. */
  lemma RegisterFrame(leaves: Leaves, p: Path, h: Handler, q: Path)
    requires !Under(p, q)
    ensures q in Register(leaves, p, h) <==> q in leaves
    ensures q in leaves ==> Register(leaves, p, h)[q] == leaves[q]
  {
  }

  ghost predicate PathsPrefixFree(regs: seq<Registration>) {
    forall i, j ::
      0 <= i < |regs| && 0 <= j < |regs| && Under(regs[i].path, regs[j].path) ==> regs[i].path == regs[j].path
  }

  ghost predicate LastAt(regs: seq<Registration>, i: nat, p: Path) {
    i < |regs| && regs[i].path == p && forall j :: i < j < |regs| ==> regs[j].path != p
  }

  /** Registration i put q's handler there, and nothing later fell on q or above it. */
  ghost predicate Settles(regs: seq<Registration>, i: nat, q: Path) {
    i < |regs| && regs[i].path == q && forall j :: i < j < |regs| ==> !Under(regs[j].path, q)
  }

  ghost predicate Untouched(regs: seq<Registration>, q: Path) {
    forall j :: 0 <= j < |regs| ==> !Under(regs[j].path, q)
  }

  /** A further registration that is not at or above q decides nothing about q. */
  lemma NotAbove(regs: seq<Registration>, q: Path)
    requires regs != [] && !Under(regs[|regs| - 1].path, q)
    ensures Untouched(regs, q) <==> Untouched(regs[..|regs| - 1], q)
    ensures forall i: nat :: Settles(regs, i, q) <==> i < |regs| - 1 && Settles(regs[..|regs| - 1], i, q)
  {
    var n := |regs| - 1;
    var init := regs[..n];
    assert forall j :: 0 <= j < n ==> init[j] == regs[j];
  }

  /**
    What any registrations into any table leave behind: at q there is h exactly if the last
    registration at or above q put it there, or there was none and q held it before.
  */
  lemma {:induction false} TableExactly(leaves: Leaves, regs: seq<Registration>, q: Path, h: Handler)
    ensures var after := RegisterAll(leaves, regs);
            q in after && after[q] == h <==>
            || (exists i: nat :: Settles(regs, i, q) && regs[i].handler == h)
            || (q in leaves && leaves[q] == h && Untouched(regs, q))
  {
    if regs != [] {
      var n := |regs| - 1;
      if !Under(regs[n].path, q) {
        TableExactly(leaves, regs[..n], q, h);
        NotAbove(regs, q);
        RegisterFrame(RegisterAll(leaves, regs[..n]), regs[n].path, regs[n].handler, q);
        assert forall i: nat :: i < n ==> regs[..n][i] == regs[i];
      } else {
        assert regs[n].path == q ==> Settles(regs, n, q);
      }
    }
  }

  lemma SettlesIsLast(regs: seq<Registration>, i: nat, p: Path)
    requires PathsPrefixFree(regs)
    ensures Settles(regs, i, p) <==> LastAt(regs, i, p)
  {
    if LastAt(regs, i, p) {
      forall j | i < j < |regs| ensures !Under(regs[j].path, p) {
        assert regs[j].path != regs[i].path;
      }
    }
  }

  /** After prefix-free registrations a path holds the handler last registered there, and nothing otherwise. */
  lemma LastRegistered(regs: seq<Registration>, p: Path)
    requires PathsPrefixFree(regs)
    ensures p in RegisterAll(map[], regs) <==> exists i: nat :: LastAt(regs, i, p)
    ensures forall i: nat :: LastAt(regs, i, p) ==>
              p in RegisterAll(map[], regs) && RegisterAll(map[], regs)[p] == regs[i].handler
  {
    forall i: nat | LastAt(regs, i, p)
      ensures p in RegisterAll(map[], regs) && RegisterAll(map[], regs)[p] == regs[i].handler
    {
      SettlesIsLast(regs, i, p);
      TableExactly(map[], regs, p, regs[i].handler);
    }
    if p in RegisterAll(map[], regs) {
      TableExactly(map[], regs, p, RegisterAll(map[], regs)[p]);
      var i: nat :| Settles(regs, i, p);
      SettlesIsLast(regs, i, p);
    }
  }

  lemma IndependentCommute(leaves: Leaves, p: Path, h: Handler, q: Path, k: Handler)
    requires !Under(p, q) && !Under(q, p)
    ensures Register(Register(leaves, p, h), q, k) == Register(Register(leaves, q, k), p, h)
  {
  }

  lemma NestedDoNotCommute(leaves: Leaves, p: Path, h: Handler, q: Path, k: Handler)
    requires Under(p, q) && p != q
    ensures q in Register(Register(leaves, p, h), q, k) && q !in Register(Register(leaves, q, k), p, h)
  {
  }

  /**
    Two registrations commute exactly when neither path is strictly above the other and equal
    paths get equal handlers.
  */
  lemma CommuteExactly(leaves: Leaves, p: Path, h: Handler, q: Path, k: Handler)
    ensures Register(Register(leaves, p, h), q, k) == Register(Register(leaves, q, k), p, h)
            <==> if p == q then h == k else !Under(p, q) && !Under(q, p)
  {
    if p == q {
      assert Register(Register(leaves, p, h), q, k)[p] == k && Register(Register(leaves, q, k), p, h)[p] == h;
    } else if Under(p, q) {
      NestedDoNotCommute(leaves, p, h, q, k);
    } else if Under(q, p) {
      NestedDoNotCommute(leaves, q, k, p, h);
    } else {
      IndependentCommute(leaves, p, h, q, k);
    }
  }

  ghost predicate DistinctPaths(regs: seq<Registration>) {
    forall i, j :: 0 <= i < j < |regs| ==> regs[i].path != regs[j].path
  }

  lemma MemberSettles(regs: seq<Registration>, r: Registration)
    requires DistinctPaths(regs) && PathsPrefixFree(regs)
    ensures r in regs <==> exists i: nat :: Settles(regs, i, r.path) && regs[i].handler == r.handler
  {
    if r in regs {
      var i :| 0 <= i < |regs| && regs[i] == r;
      SettlesIsLast(regs, i, r.path);
      assert Settles(regs, i, r.path);
    }
    if i: nat :| Settles(regs, i, r.path) && regs[i].handler == r.handler {
      assert regs[i] == r;
    }
  }

  /**
    Distinct prefix-free registrations enter the table as they are; of the rest, what is not at
    or under them stays.
  */
  lemma {:induction false} TableIsRegistrations(leaves: Leaves, regs: seq<Registration>, p: Path, h: Handler)
    requires DistinctPaths(regs) && PathsPrefixFree(regs)
    ensures p in RegisterAll(leaves, regs) && RegisterAll(leaves, regs)[p] == h
            <==> Registration(p, h) in regs || (p in leaves && leaves[p] == h && Untouched(regs, p))
  {
    TableExactly(leaves, regs, p, h);
    MemberSettles(regs, Registration(p, h));
  }

  /** A permutation of distinct prefix-free registrations is one too. */
  lemma Permuted(a: seq<Registration>, b: seq<Registration>)
    requires DistinctPaths(a) && PathsPrefixFree(a) && multiset(a) == multiset(b)
    ensures DistinctPaths(b) && PathsPrefixFree(b)
  {
    forall i, j | 0 <= i < |b| && 0 <= j < |b| && Under(b[i].path, b[j].path) ensures b[i].path == b[j].path {
      assert b[i] in multiset(a) && b[j] in multiset(a);
    }
    forall i, j | 0 <= i < j < |b| ensures b[i].path != b[j].path {
      assert b[i] in multiset(a) && b[j] in multiset(a);
      OnceEach(a, b[j]);
      var front, x := b[..j], b[j];
      assert b == front + [x] + b[j + 1..];
      assert multiset(b)[x] <= 1;
      assert x !in multiset(front);
      assert front[i] in multiset(front);
    }
  }

  lemma OnceEach(a: seq<Registration>, r: Registration)
    requires DistinctPaths(a) && r in a
    ensures multiset(a)[r] == 1
  {
    var i :| 0 <= i < |a| && a[i] == r;
    var front, back := a[..i], a[i + 1..];
    assert a == front + [r] + back;
    assert r !in front && r !in back;
  }

  lemma SameUntouched(a: seq<Registration>, b: seq<Registration>, p: Path)
    requires multiset(a) == multiset(b) && Untouched(a, p)
    ensures Untouched(b, p)
  {
    forall j | 0 <= j < |b| ensures !Under(b[j].path, p) {
      assert b[j] in multiset(a);
    }
  }

  lemma SameMembers(leaves: Leaves, a: seq<Registration>, b: seq<Registration>, p: Path, h: Handler)
    requires DistinctPaths(a) && PathsPrefixFree(a) && multiset(a) == multiset(b)
    requires p in RegisterAll(leaves, a) && RegisterAll(leaves, a)[p] == h
    ensures p in RegisterAll(leaves, b) && RegisterAll(leaves, b)[p] == h
  {
    Permuted(a, b);
    TableIsRegistrations(leaves, a, p, h);
    TableIsRegistrations(leaves, b, p, h);
    if Registration(p, h) in a {
      assert Registration(p, h) in multiset(b);
    } else {
      SameUntouched(a, b, p);
    }
  }

  /** So any order of the same registrations gives the same table, whatever was there before. */
  lemma OrderIrrelevant(leaves: Leaves, a: seq<Registration>, b: seq<Registration>)
    requires DistinctPaths(a) && PathsPrefixFree(a) && multiset(a) == multiset(b)
    ensures RegisterAll(leaves, a) == RegisterAll(leaves, b)
  {
    Permuted(a, b);
    var x, y := RegisterAll(leaves, a), RegisterAll(leaves, b);
    forall p | p in x ensures p in y && x[p] == y[p] {
      SameMembers(leaves, a, b, p, x[p]);
    }
    forall p | p in y ensures p in x {
      SameMembers(leaves, b, a, p, y[p]);
    }
    assert x.Keys == y.Keys;
  }

  lemma RegisterAllSnoc(leaves: Leaves, regs: seq<Registration>, r: Registration)
    ensures RegisterAll(leaves, regs + [r]) == Register(RegisterAll(leaves, regs), r.path, r.handler)
  {
    assert (regs + [r])[..|regs|] == regs;
  }

  lemma {:induction false} RegisterAllAppend(leaves: Leaves, x: seq<Registration>, y: seq<Registration>)
    ensures RegisterAll(leaves, x + y) == RegisterAll(RegisterAll(leaves, x), y)
  {
    if y == [] {
      assert x + y == x;
    } else {
      var init, r := y[..|y| - 1], y[|y| - 1];
      RegisterAllAppend(leaves, x, init);
      RegisterAllSnoc(leaves, x + init, r);
      assert x + y == (x + init) + [r];
    }
  }

  // ---------- registering without a panic ----------

  /** Each registration in turn finds no handler strictly above its path. */
  ghost predicate Registrable(leaves: Leaves, regs: seq<Registration>) {
    forall i :: 0 <= i < |regs| ==> Clear(RegisterAll(leaves, regs[..i]), regs[i].path)
  }

  lemma {:induction false} RegistrableSnoc(leaves: Leaves, regs: seq<Registration>, r: Registration)
    ensures Registrable(leaves, regs + [r]) <==> Registrable(leaves, regs) && Clear(RegisterAll(leaves, regs), r.path)
  {
    var all := regs + [r];
    forall i | 0 <= i <= |regs| ensures all[..i] == regs[..i] && all[i] == if i < |regs| then regs[i] else r {}
    assert regs[..|regs|] == regs;
    if Registrable(leaves, all) {
      forall i | 0 <= i < |regs| ensures Clear(RegisterAll(leaves, regs[..i]), regs[i].path) {
        assert Clear(RegisterAll(leaves, all[..i]), all[i].path);
      }
      assert Clear(RegisterAll(leaves, all[..|regs|]), all[|regs|].path);
    }
  }

  lemma {:induction false} RegistrableAppend(leaves: Leaves, x: seq<Registration>, y: seq<Registration>)
    ensures Registrable(leaves, x + y) <==> Registrable(leaves, x) && Registrable(RegisterAll(leaves, x), y)
  {
    if y == [] {
      assert x + y == x;
    } else {
      var init, r := y[..|y| - 1], y[|y| - 1];
      Snoc(y);
      assert x + y == (x + init) + [r];
      RegistrableSnoc(leaves, x + init, r);
      RegistrableSnoc(RegisterAll(leaves, x), init, r);
      RegistrableAppend(leaves, x, init);
      RegisterAllAppend(leaves, x, init);
    }
  }

  /** A registration at a path that is prefix-free with p neither sets nor clears the way to p. */
  lemma ClearKept(leaves: Leaves, r: Registration, p: Path)
    requires Under(r.path, p) || Under(p, r.path) ==> r.path == p
    ensures Clear(Register(leaves, r.path, r.handler), p) <==> Clear(leaves, p)
  {
    var after := Register(leaves, r.path, r.handler);
    if Clear(after, p) {
      forall q | q in leaves && Under(q, p) ensures q == p {
        if Under(r.path, q) {
          UnderTransitive(r.path, q, p);
          UnderDepth(r.path, q);
          UnderDepth(q, p);
        } else {
          assert q in after;
        }
      }
    }
  }

  lemma {:induction false} ClearKeptByAll(leaves: Leaves, regs: seq<Registration>, p: Path)
    requires forall r :: r in regs ==> (Under(r.path, p) || Under(p, r.path) ==> r.path == p)
    ensures Clear(RegisterAll(leaves, regs), p) <==> Clear(leaves, p)
  {
    if regs != [] {
      var n := |regs| - 1;
      ClearKeptByAll(leaves, regs[..n], p);
      ClearKept(RegisterAll(leaves, regs[..n]), regs[n], p);
    }
  }

  /** Prefix-free registrations go through exactly if each would alone, so their order cannot make one panic. */
  lemma {:induction false} RegistrableExactly(leaves: Leaves, regs: seq<Registration>)
    requires PathsPrefixFree(regs)
    ensures Registrable(leaves, regs) <==> forall r :: r in regs ==> Clear(leaves, r.path)
  {
    if regs != [] {
      var n := |regs| - 1;
      RegistrableExactly(leaves, regs[..n]);
      RegistrableSnoc(leaves, regs[..n], regs[n]);
      ClearKeptByAll(leaves, regs[..n], regs[n].path);
      Snoc(regs);
    }
  }

  lemma PanicOrderIrrelevant(leaves: Leaves, a: seq<Registration>, b: seq<Registration>)
    requires DistinctPaths(a) && PathsPrefixFree(a) && multiset(a) == multiset(b)
    ensures Registrable(leaves, a) <==> Registrable(leaves, b)
  {
    Permuted(a, b);
    RegistrableExactly(leaves, a);
    RegistrableExactly(leaves, b);
    assert forall r :: (r in a <==> r in multiset(a)) && (r in b <==> r in multiset(b));
  }
}
