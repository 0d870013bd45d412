/**
  The hamlib server's nested command table as it lives on the heap: tables that hold handlers
  or further tables, changed in place by `AddHandler` and walked token by token by the
  dispatcher.  The ghost maps name every table and handler by its path from the root.
*/
module CommandTable {
  import opened Text
  import opened CommandPaths

  datatype Entry = Sub(table: Table) | Leaf(handler: Handler)

  class Table {
    var entries: map<string, Entry>
    ghost const path: Path

    constructor (ghost path: Path)
      ensures entries == map[] && this.path == path
    {
      entries := map[];
      this.path := path;
    }
  }

  /** Where the walk over the tokens ended: no entry, or a handler `depth` tokens down. */
  datatype Route = NotFound | Found(handler: Handler, depth: nat)

  ghost predicate Hit(leaves: Leaves, parts: seq<string>, i: nat) {
    0 < i <= |parts| && PathOf(parts[..i]) in leaves
  }

  ghost function RouteOf(leaves: Leaves, parts: seq<string>): Route {
    if i: nat :| Hit(leaves, parts, i) then Found(leaves[PathOf(parts[..i])], i) else NotFound
  }

  lemma HitsOrdered(leaves: Leaves, parts: seq<string>, i: nat, j: nat)
    requires PrefixFree(leaves) && Hit(leaves, parts, i) && Hit(leaves, parts, j) && i <= j
    ensures i == j
  {
    PathOfPrefix(parts[..j], i);
    PathOfPrefix(parts[..i], i);
    assert parts[..j][..i] == parts[..i];
  }

  /** The walk reaches at most one handler. */
  lemma HitUnique(leaves: Leaves, parts: seq<string>, i: nat, j: nat)
    requires PrefixFree(leaves) && Hit(leaves, parts, i) && Hit(leaves, parts, j)
    ensures i == j
  {
    if i <= j { HitsOrdered(leaves, parts, i, j); } else { HitsOrdered(leaves, parts, j, i); }
  }

  lemma RouteIs(leaves: Leaves, parts: seq<string>, i: nat)
    requires PrefixFree(leaves) && Hit(leaves, parts, i)
    ensures RouteOf(leaves, parts) == Found(leaves[PathOf(parts[..i])], i)
  {
    var j: nat :| Hit(leaves, parts, j) && RouteOf(leaves, parts) == Found(leaves[PathOf(parts[..j])], j);
    HitUnique(leaves, parts, i, j);
  }

  /** Tokens that do not run out inside an inner table; otherwise the source indexes past its tokens. */
  ghost predicate Conclusive(leaves: Leaves, parts: seq<string>) {
    parts != [] && forall q :: q in leaves && Under(PathOf(parts), q) ==> q == PathOf(parts)
  }

  function PathsOf(h: Handler): seq<Registration> {
    var long := Registration(PathOf([h.name] + h.requiredArgs), h);
    if h.shortName == "" then [long]
    else [long, Registration(PathOf(["short:" + h.shortName] + h.requiredArgs), h)]
  }

  class HamlibServer {
    var handlers: Table
    ghost var leaves: Leaves
    ghost var tables: map<Path, Table>

    /** What the heap holds at a path. */
    ghost function EntryAt(q: Path): Option<Entry>
      reads this, tables.Values
    {
      if q.Step? && q.parent in tables && q.name in tables[q.parent].entries
      then Some(tables[q.parent].entries[q.name]) else None
    }

    /** What the path should hold. */
    ghost function Wanted(q: Path): Option<Entry>
      reads this
    {
      if q in leaves then Some(Leaf(leaves[q]))
      else if q in tables && q.Step? then Some(Sub(tables[q]))
      else None
    }

    ghost predicate Agrees(q: Path)
      reads this, tables.Values
    {
      EntryAt(q) == Wanted(q) && !(q in leaves && q in tables)
    }

    /** The tables form the tree that the paths describe, and its leaves are the handlers. */
    ghost predicate Shape()
      reads this, tables.Values
    {
      && Root in tables && tables[Root] == handlers
      && (forall p :: p in tables ==> tables[p].path == p)
      && (forall q :: Agrees(q))
    }

    /** Every inner table leads to a handler, or is on the way to `pending`. */
    ghost predicate Populated(pending: Path)
      reads this
    {
      forall p :: p in tables && p.Step? ==> Under(p, pending) || exists q :: q in leaves && Under(p, q)
    }

    ghost predicate Valid()
      reads this, tables.Values
    {
      Shape() && Populated(Root) && PrefixFree(leaves)
    }

    constructor ()
      ensures Valid() && leaves == map[] && fresh(tables.Values)
    {
      var root := new Table(Root);
      handlers := root;
      leaves := map[];
      tables := map[Root := root];
    }

    /** `table[part] = map[string]interface{}{}` for a part that is not there. */
    method NewSubtable(table: Table, part: string, ghost pending: Path)
      requires Shape() && Populated(pending) && table.path in tables && tables[table.path] == table
      requires part !in table.entries && Under(Step(table.path, part), pending)
      modifies this`tables, table
      ensures Shape() && Populated(pending)
      ensures tables.Keys == old(tables.Keys) + {Step(table.path, part)}
      ensures forall p :: p in old(tables) ==> tables[p] == old(tables[p])
      ensures fresh(tables[Step(table.path, part)])
    {
      ghost var z := Step(table.path, part);
      assert Agrees(z);
      var t := new Table(z);
      label before:
      table.entries := table.entries[part := Sub(t)];
      tables := tables[z := t];
      forall q ensures Agrees(q) {
        assert old@before(Agrees(q));
        if q.Step? && q.parent in tables && q.parent != table.path {
          assert tables[q.parent] != table;
        }
      }
    }

    /** The body of the registration loop: walk down, creating tables, and assign the handler. */
    method AddAt(path: seq<string>, h: Handler)
      requires Valid() && path != [] && Clear(leaves, PathOf(path))
      modifies this`leaves, this`tables, tables.Values
      ensures Valid() && leaves == Register(old(leaves), PathOf(path), h)
      ensures fresh(tables.Values - old(tables.Values))
    {
      var n := |path| - 1;
      var table := handlers;
      for i := 0 to n
        invariant Shape() && Populated(PathOf(path)) && leaves == old(leaves)
        invariant table.path == PathOf(path[..i]) && table.path in tables && tables[table.path] == table
        invariant fresh(tables.Values - old(tables.Values))
      {
        var part := path[i];
        PathStep(path, i);
        ghost var z := Step(table.path, part);
        if part !in table.entries {
          NewSubtable(table, part, PathOf(path));
        }
        assert Agrees(z);
        assert z != PathOf(path) && z !in leaves;
        table := table.entries[part].table;
      }
      PathStep(path, n);
      assert path[..n + 1] == path;
      PutLeaf(table, path[n], h);
    }

    /** `AddHandler`: one registration for the long name and one for the short name, if any. */
    method AddHandler(handler: Handler)
      requires Valid() && Registrable(leaves, PathsOf(handler))
      modifies this`leaves, this`tables, tables.Values
      ensures Valid() && leaves == RegisterAll(old(leaves), PathsOf(handler))
      ensures fresh(tables.Values - old(tables.Values))
    {
      var names := [handler.name];
      if handler.shortName != "" {
        names := names + ["short:" + handler.shortName];
      }
      ghost var regs := PathsOf(handler);
      for i := 0 to |names|
        invariant Valid() && leaves == RegisterAll(old(leaves), regs[..i])
        invariant fresh(tables.Values - old(tables.Values))
      {
        assert regs[..i + 1][..i] == regs[..i];
        assert regs[i] == Registration(PathOf([names[i]] + handler.requiredArgs), handler);
        AddAt([names[i]] + handler.requiredArgs, handler);
      }
      assert regs[..|names|] == regs;
    }

    /** Above every handler and every table there are only tables. */
    lemma {:induction false} AncestorsAreTables(p: Path, q: Path)
      requires Valid() && (q in leaves || q in tables) && Under(p, q) && p != q
      ensures p in tables
    {
      assert Agrees(q);
      assert q.parent in tables;
      if p != q.parent { AncestorsAreTables(p, q.parent); }
    }

    /** An inner table leads to a handler strictly below it. */
    lemma LeadsBelow(z: Path)
      requires Valid() && z in tables && z.Step?
      ensures exists q :: q in leaves && Under(z, q) && q != z
    {
      assert Agrees(z);
    }

    lemma TableNotConclusive(parts: seq<string>)
      requires Valid() && Conclusive(leaves, parts)
      ensures PathOf(parts) !in tables
    {
      if PathOf(parts) in tables { LeadsBelow(PathOf(parts)); }
    }

    /** The precondition of the walk is exact: the tokens run out inside an inner table just when it fails. */
    lemma RunsOutExactly(parts: seq<string>)
      requires Valid() && parts != []
      ensures Conclusive(leaves, parts) <==> PathOf(parts) !in tables
    {
      if Conclusive(leaves, parts) {
        TableNotConclusive(parts);
      } else {
        var q :| q in leaves && Under(PathOf(parts), q) && q != PathOf(parts);
        AncestorsAreTables(PathOf(parts), q);
      }
    }

    lemma NothingFurther(parts: seq<string>, i: nat, j: nat)
      requires Valid() && i < j <= |parts| && PathOf(parts[..i + 1]) !in tables && PathOf(parts[..i + 1]) !in leaves
      ensures !Hit(leaves, parts, j)
    {
      var p, q := PathOf(parts[..i + 1]), PathOf(parts[..j]);
      PathOfPrefix(parts[..j], i + 1);
      assert parts[..j][..i + 1] == parts[..i + 1];
      if q in leaves { AncestorsAreTables(p, q); }
    }

    /** The dispatch loop: one level per token, until there is a handler or nothing. */
    method Dispatch(parts: seq<string>) returns (route: Route)
      requires Valid() && Conclusive(leaves, parts)
      ensures route == RouteOf(leaves, parts)
      ensures route.Found? ==> 0 < route.depth <= |parts|
    {
      TableNotConclusive(parts);
      assert parts[..|parts|] == parts;
      var table := handlers;
      var i := 0;
      while true
        invariant i < |parts| && table.path == PathOf(parts[..i])
        invariant table.path in tables && tables[table.path] == table
        invariant forall j :: 0 < j <= i ==> !Hit(leaves, parts, j)
        decreases |parts| - i
      {
        PathStep(parts, i);
        ghost var z := PathOf(parts[..i + 1]);
        assert Agrees(z);
        if parts[i] !in table.entries {
          forall j: nat ensures !Hit(leaves, parts, j) {
            if i < j <= |parts| { NothingFurther(parts, i, j); }
          }
          return NotFound;
        }
        match table.entries[parts[i]]
        case Sub(t) =>
          table := t;
          i := i + 1;
        case Leaf(h) =>
          RouteIs(leaves, parts, i + 1);
          return Found(h, i + 1);
      }
    }

    /** The assignment into the innermost table; whatever was under the path is gone. */
    method PutLeaf(table: Table, k: string, h: Handler)
      requires Shape() && PrefixFree(leaves) && Populated(Step(table.path, k)) && Clear(leaves, Step(table.path, k))
      requires table.path in tables && tables[table.path] == table
      modifies this`leaves, this`tables, table
      ensures Valid() && leaves == Register(old(leaves), Step(table.path, k), h)
      ensures tables.Values <= old(tables.Values)
    {
      ghost var z := Step(table.path, k);
      NotUnderParent(table.path, k);
      RegisterPrefixFree(leaves, z, h);
      AllStillLead(tables.Keys, leaves, table.path, k, h);
      label before:
      table.entries := table.entries[k := Leaf(h)];
      leaves := Register(leaves, z, h);
      tables := map q | q in tables && !Under(z, q) :: tables[q];
      forall q ensures Agrees(q) {
        assert old@before(Agrees(q));
        if q.Step? && q.parent in tables && q.parent != table.path {
          assert tables[q.parent] != table;
        }
      }
    }
  }

  lemma NotUnderParent(p: Path, k: string)
    ensures !Under(Step(p, k), p)
  {
    if Under(Step(p, k), p) { UnderDepth(Step(p, k), p); }
  }

  /** A table that led to a handler, or to the new path, and is not under the new path, still leads to one. */
  lemma StillLeads(leaves: Leaves, q: Path, p: Path, k: string, h: Handler)
    requires !Under(Step(p, k), q)
    requires Under(q, Step(p, k)) || exists r :: r in leaves && Under(q, r)
    ensures exists r :: r in Register(leaves, Step(p, k), h) && Under(q, r)
  {
    var after := Register(leaves, Step(p, k), h);
    if Under(q, Step(p, k)) {
      assert Step(p, k) in after;
    } else {
      var r :| r in leaves && Under(q, r);
      if Under(Step(p, k), r) {
        Comparable(q, Step(p, k), r);
      } else {
        assert r in after;
      }
    }
  }

  lemma AllStillLead(paths: set<Path>, leaves: Leaves, p: Path, k: string, h: Handler)
    requires forall q :: q in paths && q.Step? ==> Under(q, Step(p, k)) || exists r :: r in leaves && Under(q, r)
    ensures forall q :: q in paths && q.Step? && !Under(Step(p, k), q) ==>
              exists r :: r in Register(leaves, Step(p, k), h) && Under(q, r)
  {
    forall q | q in paths && q.Step? && !Under(Step(p, k), q)
      ensures exists r :: r in Register(leaves, Step(p, k), h) && Under(q, r)
    {
      StillLeads(leaves, q, p, k, h);
    }
  }

  lemma {:induction false} PathStep(path: seq<string>, i: nat)
    requires i < |path|
    ensures PathOf(path[..i + 1]) == Step(PathOf(path[..i]), path[i])
    ensures Under(PathOf(path[..i + 1]), PathOf(path))
    ensures Depth(PathOf(path[..i + 1])) == i + 1 && Depth(PathOf(path)) == |path|
  {
    assert path[..i + 1][..i] == path[..i];
    PathOfPrefix(path, i + 1);
    PathOfPrefix(path[..i + 1], i + 1);
  }

  // ---------- registrations seen by the walk ----------

  /**
    Walking a registered path reaches its handler, and the tokens that remain are exactly what
    followed the path.
  */
  lemma {:induction false} WalkReaches(leaves: Leaves, names: seq<string>, rest: seq<string>)
    requires PrefixFree(leaves) && names != [] && PathOf(names) in leaves
    ensures RouteOf(leaves, names + rest) == Found(leaves[PathOf(names)], |names|)
    ensures (names + rest)[|names|..] == rest
    ensures Conclusive(leaves, names + rest)
  {
    assert (names + rest)[..|names|] == names;
    RouteIs(leaves, names + rest, |names|);
    PathOfPrefix(names + rest, |names|);
    forall q | q in leaves && Under(PathOf(names + rest), q) ensures q == PathOf(names + rest) {
      UnderTransitive(PathOf(names), PathOf(names + rest), q);
      UnderDepth(PathOf(names + rest), q);
      PathOfPrefix(names, 0);
    }
  }

  /** And nothing else does: a handler found is at the path its tokens spell. */
  lemma FoundIsRegistered(leaves: Leaves, parts: seq<string>)
    requires RouteOf(leaves, parts).Found?
    ensures var r := RouteOf(leaves, parts);
            && 0 < r.depth <= |parts|
            && PathOf(parts[..r.depth]) in leaves && leaves[PathOf(parts[..r.depth])] == r.handler
  {
  }

  /** Registrations that go through without a panic never leave one path above another. */
  lemma {:induction false} RegistrableKeeps(leaves: Leaves, regs: seq<Registration>)
    requires PrefixFree(leaves) && Registrable(leaves, regs)
    ensures PrefixFree(RegisterAll(leaves, regs))
  {
    if regs != [] {
      var n := |regs| - 1;
      Snoc(regs);
      RegistrableSnoc(leaves, regs[..n], regs[n]);
      RegistrableKeeps(leaves, regs[..n]);
      RegisterPrefixFree(RegisterAll(leaves, regs[..n]), regs[n].path, regs[n].handler);
    }
  }

  /**
    After any registrations that go through, the tokens of a path followed by anything reach the
    handler that the last registration at or above the path put there.
  */
  lemma {:induction false} HandlerReached(regs: seq<Registration>, i: nat, names: seq<string>, rest: seq<string>)
    requires Registrable(map[], regs) && names != [] && Settles(regs, i, PathOf(names))
    ensures RouteOf(RegisterAll(map[], regs), names + rest) == Found(regs[i].handler, |names|)
    ensures Conclusive(RegisterAll(map[], regs), names + rest)
  {
    RegistrableKeeps(map[], regs);
    TableExactly(map[], regs, PathOf(names), regs[i].handler);
    WalkReaches(RegisterAll(map[], regs), names, rest);
  }

  /** Prefix-free registrations go through, and the one last at a path is the one reached. */
  lemma {:induction false} LastHandlerReached(regs: seq<Registration>, i: nat, names: seq<string>, rest: seq<string>)
    requires PathsPrefixFree(regs) && names != [] && LastAt(regs, i, PathOf(names))
    ensures Registrable(map[], regs) && Settles(regs, i, PathOf(names))
    ensures RouteOf(RegisterAll(map[], regs), names + rest) == Found(regs[i].handler, |names|)
  {
    RegistrableExactly(map[], regs);
    SettlesIsLast(regs, i, PathOf(names));
    HandlerReached(regs, i, names, rest);
  }

  // ---------- the two names of a handler ----------

  lemma SameDepth(x: string, y: string, args: seq<string>)
    ensures Under(PathOf([x] + args), PathOf([y] + args)) ==> PathOf([x] + args) == PathOf([y] + args)
  {
    PathOfPrefix([x] + args, 0);
    PathOfPrefix([y] + args, 0);
    if Under(PathOf([x] + args), PathOf([y] + args)) {
      UnderDepth(PathOf([x] + args), PathOf([y] + args));
    }
  }

  /**
    Adding a handler puts it at its long name and, if it has one, at its short name, with or
    without required arguments; what was below them goes, and every other path keeps what it had.
  */
  lemma HandlerAdded(leaves: Leaves, h: Handler, q: Path)
    ensures var after := RegisterAll(leaves, PathsOf(h));
            var long, short := PathOf([h.name] + h.requiredArgs), PathOf(["short:" + h.shortName] + h.requiredArgs);
            && long in after && after[long] == h
            && (h.shortName != "" ==> short in after && after[short] == h)
            && (Under(long, q) && q != long && (h.shortName == "" || q != short) ==> q !in after)
            && (h.shortName != "" && Under(short, q) && q != long && q != short ==> q !in after)
            && (!Under(long, q) && (h.shortName == "" || !Under(short, q)) ==>
                  (q in after <==> q in leaves) && (q in leaves ==> after[q] == leaves[q]))
  {
    var long, short := PathOf([h.name] + h.requiredArgs), PathOf(["short:" + h.shortName] + h.requiredArgs);
    SameDepth("short:" + h.shortName, h.name, h.requiredArgs);
    var first := Registration(long, h);
    OneMore(leaves, [], first);
    if h.shortName != "" {
      OneMore(leaves, [first], Registration(short, h));
      assert PathsOf(h) == [first] + [Registration(short, h)];
    } else {
      assert PathsOf(h) == [] + [first];
    }
  }

  lemma OneMore(leaves: Leaves, regs: seq<Registration>, r: Registration)
    ensures RegisterAll(leaves, regs + [r]) == Register(RegisterAll(leaves, regs), r.path, r.handler)
  {
    RegisterAllSnoc(leaves, regs, r);
  }

  /** Among other registrations, none of them later on or above it, each name of a handler is in force. */
  lemma NameSettles(before: seq<Registration>, h: Handler, after: seq<Registration>, name: string) returns (i: nat)
    requires name == h.name || (h.shortName != "" && name == "short:" + h.shortName)
    requires Untouched(after, PathOf([name] + h.requiredArgs))
    ensures Settles(before + PathsOf(h) + after, i, PathOf([name] + h.requiredArgs))
    ensures (before + PathsOf(h) + after)[i].handler == h
  {
    var regs, p := before + PathsOf(h) + after, PathOf([name] + h.requiredArgs);
    var short := "short:" + h.shortName;
    SameDepth(short, name, h.requiredArgs);
    i := if h.shortName != "" && PathOf([short] + h.requiredArgs) == p then |before| + 1 else |before|;
    forall j | i < j < |regs| ensures !Under(regs[j].path, p) {
      if j < |before| + |PathsOf(h)| {
        assert regs[j] == PathsOf(h)[j - |before|];
      } else {
        assert regs[j] == after[j - |before| - |PathsOf(h)|];
      }
    }
    assert regs[i] == PathsOf(h)[i - |before|];
  }
}
