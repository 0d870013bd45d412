/**
  The metering registrations.  The source ranges over a Go map of levels, so their order is
  arbitrary; whatever else is registered around them, the resulting table is the same.
*/
module MeterCommands {
  import opened Text
  import opened CommandPaths
  import opened CommandTable
  import opened ExtendedReply
  import opened CommandLoop

  /** The handler registered for one level. */
  function LevelHandler(cb: seq<string> -> Answer, level: string): Handler {
    Handler("get_level", "l", cb, [level], Some(2), Some(2), true, None, ["Level Value"])
  }

  function MeterRegistrations(cb: seq<string> -> Answer, levels: seq<string>): seq<Registration> {
    if levels == [] then []
    else MeterRegistrations(cb, levels[..|levels| - 1]) + PathsOf(LevelHandler(cb, levels[|levels| - 1]))
  }

  lemma {:induction false} RegistrationsAppend(cb: seq<string> -> Answer, a: seq<string>, b: seq<string>)
    ensures MeterRegistrations(cb, a + b) == MeterRegistrations(cb, a) + MeterRegistrations(cb, b)
  {
    if b == [] {
      assert a + b == a;
    } else {
      var n := |b| - 1;
      RegistrationsAppend(cb, a, b[..n]);
      AppendLast(a, b);
    }
  }

  lemma AppendLast<T>(a: seq<T>, b: seq<T>)
    requires b != []
    ensures (a + b)[..|a + b| - 1] == a + b[..|b| - 1] && (a + b)[|a + b| - 1] == b[|b| - 1]
  {
  }

  lemma OneLevel(cb: seq<string> -> Answer, x: string)
    ensures MeterRegistrations(cb, [x]) == PathsOf(LevelHandler(cb, x))
  {
    assert [x][..0] == [];
  }

  /** Moving one level to the end only permutes the registrations. */
  lemma LevelMoves(cb: seq<string> -> Answer, b1: seq<string>, x: string, b2: seq<string>)
    ensures multiset(MeterRegistrations(cb, b1 + [x] + b2)) ==
            multiset(MeterRegistrations(cb, b1 + b2)) + multiset(PathsOf(LevelHandler(cb, x)))
  {
    RegistrationsAppend(cb, b1 + [x], b2);
    RegistrationsAppend(cb, b1, [x]);
    RegistrationsAppend(cb, b1, b2);
    OneLevel(cb, x);
  }

  lemma TakeOut(a: seq<string>, b: seq<string>) returns (b1: seq<string>, b2: seq<string>)
    requires a != [] && multiset(a) == multiset(b)
    ensures b == b1 + [a[|a| - 1]] + b2 && multiset(a[..|a| - 1]) == multiset(b1 + b2)
  {
    var n := |a| - 1;
    Snoc(a);
    assert a[n] in multiset(b);
    var j :| 0 <= j < |b| && b[j] == a[n];
    b1, b2 := b[..j], b[j + 1..];
    assert b == b1 + [a[n]] + b2;
    assert multiset(a[..n] + [a[n]]) == multiset(a);
    assert multiset(b) == multiset(b1 + b2) + multiset{a[n]};
    Cancel(multiset(a[..n]), multiset(b1 + b2), a[n]);
  }

  lemma Cancel<T>(x: multiset<T>, y: multiset<T>, v: T)
    requires x + multiset{v} == y + multiset{v}
    ensures x == y
  {
    assert x == x + multiset{v} - multiset{v} && y == y + multiset{v} - multiset{v};
  }

  /** Permuted levels give permuted registrations. */
  lemma {:induction false} RegistrationsPermute(cb: seq<string> -> Answer, a: seq<string>, b: seq<string>)
    requires multiset(a) == multiset(b)
    ensures multiset(MeterRegistrations(cb, a)) == multiset(MeterRegistrations(cb, b))
  {
    if a == [] {
      assert |multiset(b)| == 0;
    } else {
      var b1, b2 := TakeOut(a, b);
      RegistrationsPermute(cb, a[..|a| - 1], b1 + b2);
      LevelMoves(cb, b1, a[|a| - 1], b2);
    }
  }

  lemma LevelPaths(level: string)
    ensures PathOf(["get_level"] + [level]) == Step(Step(Root, "get_level"), level)
    ensures PathOf(["short:l"] + [level]) == Step(Step(Root, "short:l"), level)
  {
    assert (["get_level"] + [level])[..1] == ["get_level"] && (["short:l"] + [level])[..1] == ["short:l"];
    assert ["get_level"][..0] == [] && ["short:l"][..0] == [];
  }

  /** Every metering registration sits two steps down, under one of the two command names. */
  lemma {:induction false} MeterPaths(cb: seq<string> -> Answer, levels: seq<string>, i: nat)
    ensures |MeterRegistrations(cb, levels)| == 2 * |levels|
    ensures i < |levels| ==>
              && MeterRegistrations(cb, levels)[2 * i].path == Step(Step(Root, "get_level"), levels[i])
              && MeterRegistrations(cb, levels)[2 * i + 1].path == Step(Step(Root, "short:l"), levels[i])
  {
    if levels != [] {
      var n := |levels| - 1;
      MeterPaths(cb, levels[..n], i);
      LevelPaths(levels[n]);
      assert "short:" + "l" == "short:l";
    }
  }

  ghost predicate PathAt(levels: seq<string>, i: nat, p: Path) {
    i / 2 < |levels| && p == Step(Step(Root, if i % 2 == 0 then "get_level" else "short:l"), levels[i / 2])
  }

  lemma PathsAre(cb: seq<string> -> Answer, levels: seq<string>, i: nat)
    requires i < |MeterRegistrations(cb, levels)|
    ensures PathAt(levels, i, MeterRegistrations(cb, levels)[i].path)
  {
    MeterPaths(cb, levels, i / 2);
  }

  lemma PathsApart(levels: seq<string>, i: nat, p: Path, j: nat, q: Path)
    requires forall a, b :: 0 <= a < b < |levels| ==> levels[a] != levels[b]
    requires PathAt(levels, i, p) && PathAt(levels, j, q)
    ensures Under(p, q) ==> p == q
    ensures p == q ==> i == j
  {
    assert "get_level"[0] == 'g' && "short:l"[0] == 's';
    if Under(p, q) { UnderDepth(p, q); }
  }

  /** The metering registrations alone meet the conditions, for levels without repeats. */
  lemma {:induction false} MetersAreIndependent(cb: seq<string> -> Answer, levels: seq<string>)
    requires forall a, b :: 0 <= a < b < |levels| ==> levels[a] != levels[b]
    ensures DistinctPaths(MeterRegistrations(cb, levels)) && PathsPrefixFree(MeterRegistrations(cb, levels))
  {
    var regs := MeterRegistrations(cb, levels);
    forall i, j | 0 <= i < |regs| && 0 <= j < |regs|
      ensures Under(regs[i].path, regs[j].path) ==> regs[i].path == regs[j].path
      ensures regs[i].path == regs[j].path ==> i == j
    {
      PathsAre(cb, levels, i);
      PathsAre(cb, levels, j);
      PathsApart(levels, i, regs[i].path, j, regs[j].path);
    }
  }

  /**
    The order in which the levels are ranged over cannot affect dispatch, nor make a
    registration panic: from any table, whatever is registered before and after.
  */
  lemma LevelOrderIrrelevant(cb: seq<string> -> Answer, a: seq<string>, b: seq<string>,
                             leaves: Leaves, before: seq<Registration>, after: seq<Registration>)
    requires multiset(a) == multiset(b)
    requires forall i, j :: 0 <= i < j < |a| ==> a[i] != a[j]
    ensures RegisterAll(leaves, before + MeterRegistrations(cb, a) + after)
         == RegisterAll(leaves, before + MeterRegistrations(cb, b) + after)
    ensures Registrable(leaves, before + MeterRegistrations(cb, a) + after)
       <==> Registrable(leaves, before + MeterRegistrations(cb, b) + after)
  {
    var x, y := MeterRegistrations(cb, a), MeterRegistrations(cb, b);
    MetersAreIndependent(cb, a);
    RegistrationsPermute(cb, a, b);
    OrderIrrelevant(RegisterAll(leaves, before), x, y);
    PanicOrderIrrelevant(RegisterAll(leaves, before), x, y);
    Around(leaves, before, x, after);
    Around(leaves, before, y, after);
  }

  lemma Around(leaves: Leaves, before: seq<Registration>, x: seq<Registration>, after: seq<Registration>)
    ensures var start := RegisterAll(leaves, before);
            && RegisterAll(leaves, before + x + after) == RegisterAll(RegisterAll(start, x), after)
            && (Registrable(leaves, before + x + after) <==>
                Registrable(leaves, before) && Registrable(start, x) && Registrable(RegisterAll(start, x), after))
  {
    RegisterAllAppend(leaves, before + x, after);
    RegisterAllAppend(leaves, before, x);
    RegistrableAppend(leaves, before + x, after);
    RegistrableAppend(leaves, before, x);
  }

  lemma LevelLine()
    ensures Readable("l") && ParseRequest("l") == Request(None, "short:l", "")
  {
    ShortRequest(None, 'l', 0, []);
    assert ShortLine(None, 'l', 0, []) == "l";
    assert ShortName('l') == "short:l";
  }

  lemma LevelTableInside(leaves: Leaves, name: string)
    requires Step(Step(Root, "short:l"), name) in leaves
    ensures !Conclusive(leaves, ["short:l"])
  {
    assert ["short:l"][..0] == [];
    assert Under(PathOf(["short:l"]), Step(Step(Root, "short:l"), name));
  }

  /**
    With metering commands registered, the one-letter line "l" runs out of tokens inside the
    table of levels, which is where the source indexes past them.
  */
  lemma LevelCommandRunsOut(cb: seq<string> -> Answer, levels: seq<string>)
    requires levels != [] && forall i, j :: 0 <= i < j < |levels| ==> levels[i] != levels[j]
    ensures Readable("l") && !Quits("l")
    ensures !Conclusive(RegisterAll(map[], MeterRegistrations(cb, levels)), PartsOf(ParseRequest("l")))
  {
    var regs := MeterRegistrations(cb, levels);
    MetersAreIndependent(cb, levels);
    MeterPaths(cb, levels, 0);
    TableIsRegistrations(map[], regs, regs[1].path, regs[1].handler);
    LevelLine();
    LevelTableInside(RegisterAll(map[], regs), levels[0]);
    assert "short:l"[6] == 'l' && "short:q"[6] == 'q' && "short:Q"[6] == 'Q';
  }

  // ---------- what a metering command is answered with ----------

  lemma OtherLevels(cb: seq<string> -> Answer, levels: seq<string>, name: string, level: string)
    requires (name == "get_level" || name == "short:l") && level !in levels
    ensures Untouched(MeterRegistrations(cb, levels), PathOf([name] + [level]))
  {
    var regs, p := MeterRegistrations(cb, levels), PathOf([name] + [level]);
    LevelPaths(level);
    forall i | 0 <= i < |regs| ensures !Under(regs[i].path, p) {
      PathsAre(cb, levels, i);
      assert levels[i / 2] in levels;
      if Under(regs[i].path, p) { UnderDepth(regs[i].path, p); }
    }
  }

  lemma AroundLevel(cb: seq<string> -> Answer, front: seq<string>, level: string, back: seq<string>)
    ensures MeterRegistrations(cb, front + [level] + back) ==
            MeterRegistrations(cb, front) + PathsOf(LevelHandler(cb, level)) + MeterRegistrations(cb, back)
  {
    RegistrationsAppend(cb, front + [level], back);
    RegistrationsAppend(cb, front, [level]);
    OneLevel(cb, level);
  }

  /** The callback's answer to the two tokens, and an error for more of them. */
  ghost predicate LevelReply(cb: seq<string> -> Answer, name: string, level: string, rest: seq<string>,
                             ext: Option<char>, reply: string) {
    if rest != [] then reply == "RPRT 1\n"
    else
      match cb([name, level])
      case Failed => reply == "RPRT 1\n"
      case Custom(response) => reply == response
      case Answered(text) =>
        match ext
        case None => reply == text
        case Some(c) =>
          reply == Extended("get_level", ["Level Value"], [name, level], text, if c == '+' then "\n" else [c])
  }

  lemma LevelHandlerReply(cb: seq<string> -> Answer, name: string, level: string, rest: seq<string>,
                          ext: Option<char>, reply: string)
    requires AnsweredBy(LevelHandler(cb, level), [name] + [level], rest, ext, reply)
    ensures LevelReply(cb, name, level, rest, ext, reply)
  {
    assert [name] + [level] == [name, level];
    assert |[name] + [level] + rest| == 2 + |rest|;
    if rest == [] { assert [name] + [level] + rest == [name, level]; }
  }

  lemma NotQuit(name: string)
    requires name == "get_level" || name == "short:l"
    ensures name != "short:q" && name != "short:Q"
  {
    assert "get_level"[0] == 'g' && "short:l"[6] == 'l' && "short:q"[6] == 'q' && "short:Q"[6] == 'Q';
  }

  lemma UntouchedAppend(x: seq<Registration>, y: seq<Registration>, p: Path)
    requires Untouched(x, p) && Untouched(y, p)
    ensures Untouched(x + y, p)
  {
  }

  lemma Regroup<T>(a: seq<T>, b: seq<T>, c: seq<T>, d: seq<T>, e: seq<T>)
    ensures a + (b + c + d) + e == (a + b) + c + (d + e)
  {
  }

  /**
    A metering command, long or short, is answered by the metering callback on its two tokens, in
    its extended form with the one field "Level Value"; with further arguments it is an error.
  */
  lemma {:induction false} LevelAnswered(cb: seq<string> -> Answer, front: seq<string>, level: string,
                                         back: seq<string>, name: string, rest: seq<string>,
                                         before: seq<Registration>, after: seq<Registration>,
                                         ext: Option<char>, line: string)
    requires level !in back && (name == "get_level" || name == "short:l")
    requires Registrable(map[], before + MeterRegistrations(cb, front + [level] + back) + after)
    requires Untouched(after, PathOf([name] + [level])) && Writes(line, ext, [name] + [level] + rest)
    ensures line != "" && Readable(line) && !Quits(line)
    ensures var leaves := RegisterAll(map[], before + MeterRegistrations(cb, front + [level] + back) + after);
            LevelReply(cb, name, level, rest, ext, ReplyTo(leaves, line))
  {
    var h, x, y := LevelHandler(cb, level), MeterRegistrations(cb, front), MeterRegistrations(cb, back);
    AroundLevel(cb, front, level, back);
    Regroup(before, x, PathsOf(h), y, after);
    OtherLevels(cb, back, name, level);
    UntouchedAppend(y, after, PathOf([name] + [level]));
    NotQuit(name);
    assert "short:" + "l" == "short:l";
    AddedHandlerAnswers(before + x, h, y + after, name, rest, ext, line);
    var leaves := RegisterAll(map[], before + x + PathsOf(h) + (y + after));
    LevelHandlerReply(cb, name, level, rest, ext, ReplyTo(leaves, line));
  }
}
