/**
  The byte-wise order of Go strings and `sort.Strings`.  The main fact is that a list
  has only one sorted permutation, so the order in which a map hands out its keys
  cannot show in anything computed from the sorted keys.
*/
module Order {

  predicate Before(a: string, b: string) {
    if b == "" then false
    else if a == "" then true
    else a[0] < b[0] || (a[0] == b[0] && Before(a[1..], b[1..]))
  }

  /** The byte-wise order itself: at the first difference, a ends there or has the smaller byte. */
  predicate SmallerAt(a: string, b: string, n: nat) {
    n <= |a| && n < |b| && a[..n] == b[..n] && (n == |a| || a[n] < b[n])
  }

  lemma {:induction false} BeforeExactly(a: string, b: string)
    ensures Before(a, b) <==> exists n: nat :: SmallerAt(a, b, n)
  {
    if a != "" && b != "" {
      BeforeExactly(a[1..], b[1..]);
      if n: nat :| SmallerAt(a, b, n) {
        if n > 0 { TailSmaller(a, b, n); }
      }
      if a[0] < b[0] {
        assert SmallerAt(a, b, 0);
      } else if a[0] == b[0] && Before(a[1..], b[1..]) {
        var m: nat :| SmallerAt(a[1..], b[1..], m);
        HeadSmaller(a, b, m);
      }
    } else if b != "" {
      assert SmallerAt(a, b, 0);
    }
  }

  lemma TailSmaller(a: string, b: string, n: nat)
    requires n > 0 && SmallerAt(a, b, n)
    ensures a[0] == b[0] && SmallerAt(a[1..], b[1..], n - 1)
  {
    assert a[0] == a[..n][0] && b[0] == b[..n][0];
    assert a[1..][..n - 1] == a[..n][1..] && b[1..][..n - 1] == b[..n][1..];
  }

  lemma HeadSmaller(a: string, b: string, m: nat)
    requires a != "" && b != "" && a[0] == b[0] && SmallerAt(a[1..], b[1..], m)
    ensures SmallerAt(a, b, m + 1)
  {
    assert a[..m + 1] == [a[0]] + a[1..][..m] && b[..m + 1] == [b[0]] + b[1..][..m];
  }

  /** Of two strings with a common front the next byte decides, and a proper prefix comes first. */
  lemma FirstDifferenceDecides(x: string, c: char, s: string, d: char, t: string)
    requires c != d
    ensures Before(x + [c] + s, x + [d] + t) <==> c < d
    ensures Before(x, x + [c] + s)
  {
    var a, b := x + [c] + s, x + [d] + t;
    assert a[..|x|] == x && b[..|x|] == x && a[|x|] == c && b[|x|] == d;
    Trichotomy(a, b);
    BeforeExactly(a, b);
    BeforeExactly(b, a);
    BeforeExactly(x, a);
    assert SmallerAt(x, a, |x|) && (SmallerAt(a, b, |x|) <==> c < d) && (SmallerAt(b, a, |x|) <==> d < c);
  }

  lemma {:induction false} Trichotomy(a: string, b: string)
    ensures a == b || Before(a, b) || Before(b, a)
    ensures !(Before(a, b) && Before(b, a)) && !Before(a, a)
  {
    if a != "" {
      Trichotomy(a[1..], a[1..]);
    }
    if a != "" && b != "" {
      Trichotomy(a[1..], b[1..]);
      assert a == [a[0]] + a[1..] && b == [b[0]] + b[1..];
    }
  }

  lemma {:induction false} Transitive(a: string, b: string, c: string)
    requires !Before(b, a) && !Before(c, b)
    ensures !Before(c, a)
  {
    if a != "" && b != "" && c != "" && a[0] == b[0] == c[0] {
      Transitive(a[1..], b[1..], c[1..]);
    }
  }

  ghost predicate Sorted(xs: seq<string>) {
    forall i, j :: 0 <= i < j < |xs| ==> !Before(xs[j], xs[i])
  }

  function Insert(x: string, xs: seq<string>): (r: seq<string>)
    requires Sorted(xs)
    ensures Sorted(r) && multiset(r) == multiset(xs) + multiset{x}
  {
    if xs == [] then [x]
    else if Before(xs[0], x) then
      var r := Insert(x, xs[1..]);
      assert xs == [xs[0]] + xs[1..];
      assert Sorted([xs[0]] + r) by { InsertKeepsMinimum(xs[0], xs[1..], r, x); }
      [xs[0]] + r
    else
      assert Sorted([x] + xs) by { MinimumFirst(x, xs); }
      [x] + xs
  }

  lemma InsertKeepsMinimum(m: string, xs: seq<string>, r: seq<string>, x: string)
    requires Sorted([m] + xs) && Sorted(r) && multiset(r) == multiset(xs) + multiset{x}
    requires Before(m, x)
    ensures Sorted([m] + r)
  {
    forall i | 0 <= i < |r| ensures !Before(r[i], m) {
      assert r[i] in multiset(r);
      if r[i] == x {
        Trichotomy(m, x);
      } else {
        assert r[i] in xs;
        var k :| 0 <= k < |xs| && xs[k] == r[i];
        assert ([m] + xs)[k + 1] == r[i] && ([m] + xs)[0] == m;
      }
    }
  }

  lemma MinimumFirst(x: string, xs: seq<string>)
    requires Sorted(xs) && xs != [] && !Before(xs[0], x)
    ensures Sorted([x] + xs)
  {
    forall i | 0 <= i < |xs| ensures !Before(xs[i], x) {
      if i > 0 { Transitive(x, xs[0], xs[i]); }
    }
  }

  /** What `sort.Strings` leaves in the slice. */
  function SortStrings(xs: seq<string>): (r: seq<string>)
    ensures Sorted(r) && multiset(r) == multiset(xs)
  {
    if xs == [] then []
    else
      assert xs == [xs[0]] + xs[1..];
      Insert(xs[0], SortStrings(xs[1..]))
  }

  lemma SameHead(xs: seq<string>, ys: seq<string>)
    requires Sorted(xs) && Sorted(ys) && multiset(xs) == multiset(ys) && xs != []
    ensures ys != [] && xs[0] == ys[0]
  {
    assert xs[0] in multiset(ys);
    assert ys[0] in multiset(xs);
    var i :| 0 <= i < |ys| && ys[i] == xs[0];
    var j :| 0 <= j < |xs| && xs[j] == ys[0];
    Trichotomy(xs[0], ys[0]);
  }

  lemma TailMultiset(xs: seq<string>)
    requires xs != []
    ensures multiset(xs[1..]) == multiset(xs) - multiset{xs[0]} && xs == [xs[0]] + xs[1..]
  {
    assert xs == [xs[0]] + xs[1..];
  }

  /** A list has one sorted permutation. */
  lemma {:induction false} SortedUnique(xs: seq<string>, ys: seq<string>)
    requires Sorted(xs) && Sorted(ys) && multiset(xs) == multiset(ys)
    ensures xs == ys
  {
    if xs == [] {
      assert |multiset(ys)| == 0;
    } else {
      SameHead(xs, ys);
      TailMultiset(xs);
      TailMultiset(ys);
      SortedUnique(xs[1..], ys[1..]);
    }
  }

  // ---------- the keys of a map ----------

  /** `keys` lists every element of `ks` once, in any order: one way a Go map can be ranged over. */
  ghost predicate Enumerates(keys: seq<string>, ks: set<string>) {
    multiset(keys) == multiset(ks)
  }

  ghost function SortedKeys(ks: set<string>): (r: seq<string>)
    ensures Enumerates(r, ks) && Sorted(r)
  {
    SomeEnumeration(ks);
    var e :| Enumerates(e, ks);
    SortStrings(e)
  }

  lemma {:induction false} SomeEnumeration(ks: set<string>)
    ensures exists e :: Enumerates(e, ks)
  {
    if ks == {} {
      assert Enumerates([], ks);
    } else {
      var k :| k in ks;
      SomeEnumeration(ks - {k});
      var e :| Enumerates(e, ks - {k});
      assert Enumerates(e + [k], ks);
    }
  }

  /** Whatever order the keys come in, sorting them gives the same list. */
  lemma SortingHidesOrder(keys: seq<string>, ks: set<string>)
    requires Enumerates(keys, ks)
    ensures SortStrings(keys) == SortedKeys(ks)
  {
    SortedUnique(SortStrings(keys), SortedKeys(ks));
  }

  lemma SameMembers(r: seq<string>, ks: set<string>)
    requires Enumerates(r, ks)
    ensures |r| == |ks| && forall k :: k in ks <==> k in r
  {
    forall k ensures k in ks <==> k in r {
      assert k in multiset(r) <==> k in multiset(ks);
    }
    assert |multiset(r)| == |multiset(ks)|;
  }

  lemma EnumeratedOnce(r: seq<string>, ks: set<string>, i: nat, j: nat)
    requires Enumerates(r, ks) && i < j < |r|
    ensures r[i] != r[j]
  {
    var front, x := r[..j], r[j];
    assert r == front + [x] + r[j + 1..];
    assert multiset(r)[x] <= 1;
    assert x !in multiset(front);
    assert front[i] in multiset(front);
  }

  /** The sorted keys name each key exactly once. */
  lemma SortedKeysAreKeys(ks: set<string>)
    ensures forall k :: k in ks <==> k in SortedKeys(ks)
    ensures |SortedKeys(ks)| == |ks|
    ensures forall i, j :: 0 <= i < j < |SortedKeys(ks)| ==> SortedKeys(ks)[i] != SortedKeys(ks)[j]
  {
    var r := SortedKeys(ks);
    SameMembers(r, ks);
    forall i, j | 0 <= i < j < |r| ensures r[i] != r[j] {
      EnumeratedOnce(r, ks, i, j);
    }
  }
}
