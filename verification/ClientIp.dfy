/**
  One proxied connection's handling of `client ip`.  Two goroutines share the set of
  outstanding sequence numbers: one records a number before it forwards the command, the
  other looks a success reply's number up, deletes it, and replaces the reply's token by the
  client's real address.  Lines are given in parsed form; the client, the radio and the
  scheduler choose the events.
*/
module ClientIp {

  datatype Command = Command(seqNo: string, clientIp: bool)

  /**
    A command the client sent: its place among all it sent, and whether its number was
    outstanding, left over from an earlier command, when it was read.
  */
  datatype Issued = Issued(cmd: Command, place: nat, stale: bool)

  /**
    A reply with its status and token, or any other line of the radio.  `to` is history: the
    command the reply answers.
  */
  datatype RadioLine = Reply(seqNo: string, ok: bool, token: string, to: Issued) | Status(text: string)

  datatype ClientPc = Reading | Got(issue: Issued) | Halfway(issue: Issued)
  datatype RadioPc = Waiting | Looked(line: RadioLine, isClientIp: bool)

  /**
    `outstanding` is the shared set.  The rest is history: the latest command issued under each
    number, how many were issued, which of them reached the radio, when a `client ip` was last
    recorded and a success reply last looked up under each number, everything the radio sent
    and everything the client was sent.
  */
  datatype State = State(cpc: ClientPc, rpc: RadioPc, outstanding: set<string>,
                         issued: map<string, Issued>, count: nat, forwarded: set<nat>,
                         clock: nat, recordedAt: map<string, nat>, lookedAt: map<string, nat>,
                         fromRadio: seq<RadioLine>, toClient: seq<RadioLine>)

  /**
    `recordFirst` is the source's order of recording and forwarding.  `orderly` restricts the
    two ends: the radio answers only commands it received, and the client reuses a number only
    once no further reply to an earlier command under it will be sent and none waits to be
    looked up.  A reply therefore answers the latest command read under its number.
  */
  datatype Rules = Rules(recordFirst: bool, orderly: bool)

  /** The source between an orderly client and an orderly radio. */
  const SOURCE: Rules := Rules(true, true)

  datatype Event =
    | Read(cmd: Command) | Record | Forward
    | Answer(reply: RadioLine) | Say(text: string)
    | Lookup | Deliver

  const INITIAL: State := State(Reading, Waiting, {}, map[], 0, {}, 0, map[], map[], [], [])

  /** The lines the reply pattern matches: status 0 and a nonempty token. */
  predicate Matches(l: RadioLine) {
    l.Reply? && l.ok && l.token != ""
  }

  function Taken(s: State): nat {
    |s.toClient| + (if s.rpc.Looked? then 1 else 0)
  }

  ghost predicate NoneWaiting(s: State, q: string) {
    forall i :: Taken(s) <= i < |s.fromRadio| ==> s.fromRadio[i].Status? || s.fromRadio[i].seqNo != q
  }

  ghost predicate Enabled(r: Rules, s: State, e: Event) {
    match e
    case Read(cmd) => s.cpc.Reading? && (r.orderly ==> NoneWaiting(s, cmd.seqNo))
    case Record => if r.recordFirst then s.cpc.Got? else s.cpc.Halfway?
    case Forward => if r.recordFirst then s.cpc.Halfway? else s.cpc.Got?
    case Answer(reply) =>
      reply.Reply? &&
      (r.orderly ==> reply.seqNo in s.issued && reply.to == s.issued[reply.seqNo] && reply.to.place in s.forwarded)
    case Say(_) => true
    case Lookup => s.rpc.Waiting? && |s.toClient| < |s.fromRadio|
    case Deliver => s.rpc.Looked?
  }

  function Replaced(l: RadioLine, addr: string): RadioLine
    requires l.Reply?
  {
    l.(token := addr)
  }

  ghost function Act(r: Rules, s: State, e: Event, addr: string): State
    requires Enabled(r, s, e)
  {
    match e
    case Read(cmd) =>
      var issue := Issued(cmd, s.count, cmd.seqNo in s.outstanding);
      s.(cpc := Got(issue), issued := s.issued[cmd.seqNo := issue], count := s.count + 1)
    case Record =>
      var t := s.(cpc := if r.recordFirst then Halfway(s.cpc.issue) else Reading);
      var c := s.cpc.issue.cmd;
      if c.clientIp then
        t.(outstanding := s.outstanding + {c.seqNo}, recordedAt := s.recordedAt[c.seqNo := s.clock])
      else t
    case Forward =>
      s.(cpc := if r.recordFirst then Reading else Halfway(s.cpc.issue), forwarded := s.forwarded + {s.cpc.issue.place})
    case Answer(reply) => s.(fromRadio := s.fromRadio + [reply])
    case Say(text) => s.(fromRadio := s.fromRadio + [Status(text)])
    case Lookup =>
      var l := s.fromRadio[|s.toClient|];
      if Matches(l) then
        s.(rpc := Looked(l, l.seqNo in s.outstanding), outstanding := s.outstanding - {l.seqNo},
           lookedAt := s.lookedAt[l.seqNo := s.clock])
      else s.(rpc := Looked(l, false))
    case Deliver =>
      var l := s.rpc.line;
      var sent := if s.rpc.isClientIp && l.Reply? && l.token != addr then Replaced(l, addr) else l;
      s.(rpc := Waiting, toClient := s.toClient + [sent])
  }

  ghost function Apply(r: Rules, s: State, e: Event, addr: string): State
    requires Enabled(r, s, e)
  {
    Act(r, s, e, addr).(clock := s.clock + 1)
  }

  ghost predicate Runs(r: Rules, es: seq<Event>, s: State, addr: string) {
    if es == [] then s == INITIAL
    else
      var n := |es| - 1;
      exists t :: Runs(r, es[..n], t, addr) && Enabled(r, t, es[n]) && s == Apply(r, t, es[n], addr)
  }

  // ---------- any client and any radio ----------

  /** A `client ip` was recorded under q, and no success reply under q was looked up since. */
  ghost predicate RecordedSinceLookup(s: State, q: string) {
    q in s.recordedAt && (q in s.lookedAt ==> s.lookedAt[q] < s.recordedAt[q])
  }

  ghost predicate Times(s: State) {
    && (forall q :: q in s.recordedAt ==> s.recordedAt[q] < s.clock)
    && (forall q :: q in s.lookedAt ==> s.lookedAt[q] < s.clock)
    && (forall q :: q in s.outstanding <==> RecordedSinceLookup(s, q))
  }

  /**
    Whatever the client and the radio do, the shared set holds exactly the numbers under which a
    `client ip` was recorded after the last success reply looked up, and the next success reply
    is rewritten exactly when its number is such a number.
  */
  lemma {:induction false} OutstandingExactly(r: Rules, es: seq<Event>, s: State, addr: string)
    requires Runs(r, es, s, addr)
    ensures forall q :: q in s.outstanding <==> RecordedSinceLookup(s, q)
    ensures Enabled(r, s, Lookup) ==>
              var l := s.fromRadio[|s.toClient|];
              Apply(r, s, Lookup, addr).rpc == Looked(l, Matches(l) && RecordedSinceLookup(s, l.seqNo))
  {
    TimesKept(r, es, s, addr);
  }

  /** What the client should see: the real address in success replies to `client ip`, and nowhere else. */
  function Promised(l: RadioLine, addr: string): RadioLine {
    if l.Reply? && l.ok && l.token != "" && l.to.cmd.clientIp then Reply(l.seqNo, true, addr, l.to) else l
  }

  /** The k-th line of the radio is looked up in state t, by the n-th event of the run. */
  ghost predicate LookedUpAt(r: Rules, es: seq<Event>, addr: string, k: nat, n: nat, t: State) {
    n < |es| && es[n] == Lookup && Runs(r, es[..n], t, addr) && Enabled(r, t, Lookup) && |t.toClient| == k
  }

  function Sent(l: RadioLine, isClientIp: bool, addr: string): RadioLine {
    if isClientIp && l.Reply? then Replaced(l, addr) else l
  }

  /** Line k is past the lookup, which gave `hit`; it waits for delivery or was sent accordingly. */
  ghost predicate PastLookup(s: State, k: nat, l: RadioLine, hit: bool, addr: string) {
    && k < Taken(s) <= |s.fromRadio| && s.fromRadio[k] == l
    && if k < |s.toClient| then s.toClient[k] == Sent(l, hit, addr) else s.rpc == Looked(l, hit)
  }

  lemma StaysPastLookup(r: Rules, s: State, e: Event, k: nat, l: RadioLine, hit: bool, addr: string)
    requires Enabled(r, s, e) && PastLookup(s, k, l, hit, addr)
    ensures PastLookup(Apply(r, s, e, addr), k, l, hit, addr)
  {
    match e
    case Deliver =>
    case _ =>
  }

  lemma OnlyLookup(r: Rules, s: State, e: Event, k: nat, addr: string)
    requires Enabled(r, s, e) && Taken(s) <= k < Taken(Apply(r, s, e, addr))
    ensures e == Lookup && k == |s.toClient| < |s.fromRadio|
    ensures var l := s.fromRadio[k];
            PastLookup(Apply(r, s, e, addr), k, l, Matches(l) && l.seqNo in s.outstanding, addr)
  {
    match e
    case Lookup =>
    case _ => assert false;
  }

  /** Every line past the lookup was looked up once, and is sent as the shared set said then. */
  lemma {:induction false} LookupOf(r: Rules, es: seq<Event>, s: State, addr: string, k: nat) returns (n: nat, t: State)
    requires Runs(r, es, s, addr) && k < Taken(s)
    ensures LookedUpAt(r, es, addr, k, n, t)
    ensures var l := t.fromRadio[k]; PastLookup(s, k, l, Matches(l) && l.seqNo in t.outstanding, addr)
  {
    var m := |es| - 1;
    var init, e := es[..m], es[m];
    var u :| Runs(r, init, u, addr) && Enabled(r, u, e) && s == Apply(r, u, e, addr);
    if k < Taken(u) {
      n, t := LookupOf(r, init, u, addr, k);
      assert init[..n] == es[..n];
      var l := t.fromRadio[k];
      StaysPastLookup(r, u, e, k, l, Matches(l) && l.seqNo in t.outstanding, addr);
    } else {
      n, t := m, u;
      OnlyLookup(r, u, e, k, addr);
    }
  }

  /**
    THE PROMISE, FOR ANY CLIENT AND ANY RADIO.  A success reply reaches the client as it should
    exactly when it holds the client's address anyway, or when it was looked up, being an answer
    to `client ip` was the same as some `client ip` having been recorded under its number since
    the last success reply under it.  Other lines are always passed on unchanged.
  */
  lemma {:induction false} PromiseKeptAlways(r: Rules, es: seq<Event>, s: State, addr: string, k: nat)
    returns (n: nat, t: State)
    requires Runs(r, es, s, addr) && k < |s.toClient|
    ensures LookedUpAt(r, es, addr, k, n, t) && k < |s.fromRadio| && s.fromRadio[k] == t.fromRadio[k]
    ensures var l := s.fromRadio[k];
            if l.Reply? && l.ok && l.token != "" then
              s.toClient[k] == Promised(l, addr) <==>
              l.token == addr || (l.to.cmd.clientIp <==> RecordedSinceLookup(t, l.seqNo))
            else s.toClient[k] == l
  {
    n, t := LookupOf(r, es, s, addr, k);
    TimesKept(r, es[..n], t, addr);
    var l := s.fromRadio[k];
    if Matches(l) {
      assert Replaced(l, addr) == l <==> l.token == addr;
    }
  }

  lemma TimesRecord(r: Rules, s: State, addr: string)
    requires Times(s) && Enabled(r, s, Record)
    ensures Times(Apply(r, s, Record, addr))
  {
    var t := Apply(r, s, Record, addr);
    forall q ensures q in t.outstanding <==> RecordedSinceLookup(t, q) {
      assert q in s.outstanding <==> RecordedSinceLookup(s, q);
    }
  }

  lemma TimesLookup(r: Rules, s: State, addr: string)
    requires Times(s) && Enabled(r, s, Lookup)
    ensures Times(Apply(r, s, Lookup, addr))
  {
    var t := Apply(r, s, Lookup, addr);
    forall q ensures q in t.outstanding <==> RecordedSinceLookup(t, q) {
      assert q in s.outstanding <==> RecordedSinceLookup(s, q);
    }
  }

  lemma TimesStep(r: Rules, s: State, e: Event, addr: string)
    requires Times(s) && Enabled(r, s, e)
    ensures Times(Apply(r, s, e, addr))
  {
    var t := Apply(r, s, e, addr);
    match e
    case Record => TimesRecord(r, s, addr);
    case Lookup => TimesLookup(r, s, addr);
    case _ =>
      assert t.outstanding == s.outstanding && t.recordedAt == s.recordedAt && t.lookedAt == s.lookedAt;
  }

  lemma {:induction false} TimesKept(r: Rules, es: seq<Event>, s: State, addr: string)
    requires Runs(r, es, s, addr)
    ensures Times(s)
  {
    if es != [] {
      var n := |es| - 1;
      var t :| Runs(r, es[..n], t, addr) && Enabled(r, t, es[n]) && s == Apply(r, t, es[n], addr);
      TimesKept(r, es[..n], t, addr);
      TimesStep(r, t, es[n], addr);
    }
  }

  // ---------- an orderly client and radio ----------

  /** An earlier success reply answered the same command. */
  ghost predicate AnsweredBefore(lines: seq<RadioLine>, k: nat)
    requires k < |lines| && lines[k].Reply?
  {
    exists j :: 0 <= j < k && Matches(lines[j]) && lines[j].to.place == lines[k].to.place
  }

  /** The first success reply to a command that was `client ip`, or whose number was left over. */
  ghost predicate Rewrites(lines: seq<RadioLine>, k: nat)
    requires k < |lines|
  {
    Matches(lines[k]) && (lines[k].to.cmd.clientIp || lines[k].to.stale) && !AnsweredBefore(lines, k)
  }

  ghost function Expected(lines: seq<RadioLine>, k: nat, addr: string): RadioLine
    requires k < |lines|
  {
    if Rewrites(lines, k) then Replaced(lines[k], addr) else lines[k]
  }

  /** A success reply to this command has gone past the lookup. */
  ghost predicate Consumed(s: State, place: nat) {
    exists j :: 0 <= j < Taken(s) <= |s.fromRadio| && Matches(s.fromRadio[j]) && s.fromRadio[j].to.place == place
  }

  /** Latest commands under different numbers have different places. */
  ghost predicate PlacesDistinct(s: State) {
    forall p, q :: p in s.issued && q in s.issued && s.issued[p].place == s.issued[q].place ==> p == q
  }

  ghost predicate IssuedOk(s: State) {
    && PlacesDistinct(s)
    && (forall q :: q in s.issued ==> s.issued[q].cmd.seqNo == q && s.issued[q].place < s.count)
    && (forall p :: p in s.forwarded ==> p < s.count)
    && (!s.cpc.Reading? ==>
          && s.cpc.issue.cmd.seqNo in s.issued && s.issued[s.cpc.issue.cmd.seqNo] == s.cpc.issue
          && s.cpc.issue.place !in s.forwarded)
  }

  /** Replies answer commands that reached the radio; those not yet looked up answer the latest of their number. */
  ghost predicate RepliesOk(s: State) {
    && Taken(s) <= |s.fromRadio|
    && (forall i :: 0 <= i < |s.fromRadio| && s.fromRadio[i].Reply? ==>
          && s.fromRadio[i].seqNo == s.fromRadio[i].to.cmd.seqNo && s.fromRadio[i].to.place in s.forwarded
          && (i >= Taken(s) ==>
                s.fromRadio[i].seqNo in s.issued && s.fromRadio[i].to == s.issued[s.fromRadio[i].seqNo]))
  }

  /** The command is past recording. */
  predicate PastRecording(s: State, i: Issued) {
    s.cpc != Got(i)
  }

  /** What the shared set holds for each number, given the latest command under it. */
  ghost predicate SetOk(s: State) {
    forall q :: q in s.outstanding <==>
                q in s.issued && (s.issued[q].stale || (s.issued[q].cmd.clientIp && PastRecording(s, s.issued[q])))
                && !Consumed(s, s.issued[q].place)
  }

  ghost predicate DeliveredOk(s: State, addr: string) {
    && Taken(s) <= |s.fromRadio|
    && (s.rpc.Looked? ==>
          s.rpc.line == s.fromRadio[|s.toClient|] && s.rpc.isClientIp == Rewrites(s.fromRadio, |s.toClient|))
    && (forall k :: 0 <= k < |s.toClient| ==> s.toClient[k] == Expected(s.fromRadio, k, addr))
  }

  ghost predicate Inv(s: State, addr: string) {
    IssuedOk(s) && RepliesOk(s) && SetOk(s) && DeliveredOk(s, addr)
  }

  lemma ConsumedSame(s: State, t: State)
    requires Taken(s) == Taken(t) <= |s.fromRadio| <= |t.fromRadio|
    requires forall i :: 0 <= i < |s.fromRadio| ==> t.fromRadio[i] == s.fromRadio[i]
    ensures forall p :: Consumed(s, p) <==> Consumed(t, p)
  {
  }

  /** A command that has not reached the radio has no reply. */
  lemma NotConsumed(s: State, p: nat)
    requires RepliesOk(s) && p !in s.forwarded
    ensures !Consumed(s, p)
  {
  }

  lemma ReadKeeps(s: State, cmd: Command, addr: string)
    requires Inv(s, addr) && Enabled(SOURCE, s, Read(cmd))
    ensures Inv(Apply(SOURCE, s, Read(cmd), addr), addr)
  {
    var t := Apply(SOURCE, s, Read(cmd), addr);
    ConsumedSame(s, t);
    NotConsumed(s, s.count);
  }

  lemma RecordSet(s: State, addr: string)
    requires Inv(s, addr) && Enabled(SOURCE, s, Record)
    ensures SetOk(Apply(SOURCE, s, Record, addr))
  {
    var t := Apply(SOURCE, s, Record, addr);
    ConsumedSame(s, t);
    NotConsumed(s, s.cpc.issue.place);
    assert t.issued == s.issued && s.cpc == Got(s.cpc.issue);
  }

  lemma RecordIssued(s: State, addr: string)
    requires IssuedOk(s) && Enabled(SOURCE, s, Record)
    ensures IssuedOk(Apply(SOURCE, s, Record, addr))
  {
    var t := Apply(SOURCE, s, Record, addr);
    assert t.issued == s.issued && t.count == s.count && t.forwarded == s.forwarded;
    assert t.cpc.issue == s.cpc.issue;
  }

  lemma RecordKeeps(s: State, addr: string)
    requires Inv(s, addr) && Enabled(SOURCE, s, Record)
    ensures Inv(Apply(SOURCE, s, Record, addr), addr)
  {
    var t := Apply(SOURCE, s, Record, addr);
    RecordSet(s, addr);
    RecordIssued(s, addr);
    assert t.issued == s.issued && t.fromRadio == s.fromRadio && t.toClient == s.toClient && t.rpc == s.rpc;
  }

  lemma ForwardKeeps(s: State, addr: string)
    requires Inv(s, addr) && Enabled(SOURCE, s, Forward)
    ensures Inv(Apply(SOURCE, s, Forward, addr), addr)
  {
    ConsumedSame(s, Apply(SOURCE, s, Forward, addr));
  }

  /** Lines the radio adds at the end do not change what is expected of earlier ones. */
  lemma ExpectedPrefix(lines: seq<RadioLine>, l: RadioLine, k: nat, addr: string)
    requires k < |lines|
    ensures Rewrites(lines + [l], k) == Rewrites(lines, k) && Expected(lines + [l], k, addr) == Expected(lines, k, addr)
  {
    var more := lines + [l];
    assert forall j :: 0 <= j < |lines| ==> more[j] == lines[j];
    if Matches(lines[k]) {
      assert AnsweredBefore(more, k) == AnsweredBefore(lines, k);
    }
  }

  lemma RadioLineKeeps(s: State, l: RadioLine, t: State, addr: string)
    requires Inv(s, addr) && t == s.(fromRadio := s.fromRadio + [l], clock := s.clock + 1)
    requires l.Reply? ==> l.seqNo in s.issued && l.to == s.issued[l.seqNo] && l.to.place in s.forwarded
    ensures Inv(t, addr)
  {
    ConsumedSame(s, t);
    forall k | 0 <= k < |s.fromRadio|
      ensures Rewrites(t.fromRadio, k) == Rewrites(s.fromRadio, k)
      ensures Expected(t.fromRadio, k, addr) == Expected(s.fromRadio, k, addr)
    {
      ExpectedPrefix(s.fromRadio, l, k, addr);
    }
  }

  /** The lookup gives the expected answer. */
  lemma LookupRight(s: State, addr: string)
    requires Inv(s, addr) && Enabled(SOURCE, s, Lookup)
    ensures var l := s.fromRadio[|s.toClient|];
            Matches(l) ==> (l.seqNo in s.outstanding <==> Rewrites(s.fromRadio, |s.toClient|))
  {
    var k := |s.toClient|;
    var l := s.fromRadio[k];
    if Matches(l) {
      assert l.to == s.issued[l.seqNo] && PastRecording(s, l.to);
      assert Consumed(s, l.to.place) <==> AnsweredBefore(s.fromRadio, k);
    }
  }

  lemma ConsumedNext(s: State, t: State, p: nat)
    requires Taken(s) + 1 == Taken(t) <= |s.fromRadio| && t.fromRadio == s.fromRadio
    ensures Consumed(t, p) <==>
            Consumed(s, p) || (Matches(s.fromRadio[Taken(s)]) && s.fromRadio[Taken(s)].to.place == p)
  {
    if Consumed(t, p) {
      var j :| 0 <= j < Taken(t) && Matches(t.fromRadio[j]) && t.fromRadio[j].to.place == p;
      assert j < Taken(s) || j == Taken(s);
    }
  }

  lemma LookupSet(s: State, addr: string)
    requires Inv(s, addr) && Enabled(SOURCE, s, Lookup)
    ensures SetOk(Apply(SOURCE, s, Lookup, addr))
  {
    var t, l := Apply(SOURCE, s, Lookup, addr), s.fromRadio[|s.toClient|];
    forall q ensures q in t.outstanding <==>
        q in t.issued && (t.issued[q].stale || (t.issued[q].cmd.clientIp && PastRecording(t, t.issued[q])))
        && !Consumed(t, t.issued[q].place)
    {
      if q in s.issued {
        ConsumedNext(s, t, s.issued[q].place);
      }
    }
  }

  lemma LookupKeeps(s: State, addr: string)
    requires Inv(s, addr) && Enabled(SOURCE, s, Lookup)
    ensures Inv(Apply(SOURCE, s, Lookup, addr), addr)
  {
    LookupRight(s, addr);
    LookupSet(s, addr);
  }

  lemma DeliverKeeps(s: State, addr: string)
    requires Inv(s, addr) && Enabled(SOURCE, s, Deliver)
    ensures Inv(Apply(SOURCE, s, Deliver, addr), addr)
  {
    ConsumedSame(s, Apply(SOURCE, s, Deliver, addr));
  }

  lemma StepKeeps(s: State, e: Event, addr: string)
    requires Inv(s, addr) && Enabled(SOURCE, s, e)
    ensures Inv(Apply(SOURCE, s, e, addr), addr)
  {
    var t := Apply(SOURCE, s, e, addr);
    match e
    case Read(cmd) => ReadKeeps(s, cmd, addr);
    case Record => RecordKeeps(s, addr);
    case Forward => ForwardKeeps(s, addr);
    case Answer(reply) => RadioLineKeeps(s, reply, t, addr);
    case Say(text) => RadioLineKeeps(s, Status(text), t, addr);
    case Lookup => LookupKeeps(s, addr);
    case Deliver => DeliverKeeps(s, addr);
  }

  lemma {:induction false} RunKeeps(es: seq<Event>, s: State, addr: string)
    requires Runs(SOURCE, es, s, addr)
    ensures Inv(s, addr)
  {
    if es != [] {
      var n := |es| - 1;
      var t :| Runs(SOURCE, es[..n], t, addr) && Enabled(SOURCE, t, es[n]) && s == Apply(SOURCE, t, es[n], addr);
      RunKeeps(es[..n], t, addr);
      StepKeeps(t, es[n], addr);
    }
  }

  /**
    With an orderly client and radio, in every interleaving, the client receives the radio's lines
    in order, and a success reply carries the client's real address exactly when it is the first
    one to a command that was `client ip` or whose number was outstanding when the command was
    read; every other line is unchanged.  Numbers may be reused, once the replies to an earlier
    command under them are over and looked up, and a command may be answered more than once.
  */
  lemma RepliesRewrittenExactly(es: seq<Event>, s: State, addr: string, k: nat)
    requires Runs(SOURCE, es, s, addr) && k < |s.toClient|
    ensures |s.toClient| <= |s.fromRadio|
    ensures var l := s.fromRadio[k];
            s.toClient[k] == if Matches(l) && (l.to.cmd.clientIp || l.to.stale) && !AnsweredBefore(s.fromRadio, k)
                             then Reply(l.seqNo, true, addr, l.to) else l
  {
    RunKeeps(es, s, addr);
  }

  /**
    So a reply is what it should be exactly when it happens to hold that address anyway, or is a
    first success reply to `client ip`, or answers another command whose number was not left
    over or was answered before.
  */
  lemma PromiseKeptExactly(es: seq<Event>, s: State, addr: string, k: nat)
    requires Runs(SOURCE, es, s, addr) && k < |s.toClient| && k < |s.fromRadio| && Matches(s.fromRadio[k])
    ensures var l := s.fromRadio[k];
            s.toClient[k] == Promised(l, addr) <==>
            l.token == addr || (if l.to.cmd.clientIp then !AnsweredBefore(s.fromRadio, k)
                                else !l.to.stale || AnsweredBefore(s.fromRadio, k))
  {
    RepliesRewrittenExactly(es, s, addr, k);
    var l := s.fromRadio[k];
    assert Replaced(l, addr) == l <==> l.token == addr;
  }

  /**
    When the client reads its next command a number is outstanding exactly when the latest
    command under it was `client ip`, or had a number left over itself, and no success reply to
    it was looked up.  A number never used before is not outstanding.
  */
  lemma LeftOverExactly(es: seq<Event>, s: State, addr: string, q: string)
    requires Runs(SOURCE, es, s, addr) && s.cpc.Reading?
    ensures q in s.outstanding <==>
            q in s.issued && (s.issued[q].cmd.clientIp || s.issued[q].stale) && !Consumed(s, s.issued[q].place)
  {
    RunKeeps(es, s, addr);
  }

  // ---------- what goes wrong otherwise ----------

  lemma Extend(r: Rules, es: seq<Event>, s: State, e: Event, addr: string) returns (es': seq<Event>, s': State)
    requires Runs(r, es, s, addr) && Enabled(r, s, e)
    ensures Runs(r, es', s', addr) && s' == Apply(r, s, e, addr)
  {
    assert (es + [e])[..|es|] == es;
    es', s' := es + [e], Apply(r, s, e, addr);
  }

  ghost predicate Wrong(s: State, addr: string) {
    exists i :: 0 <= i < |s.toClient| && i < |s.fromRadio| && s.toClient[i] != Promised(s.fromRadio[i], addr)
  }

  /** Were the line forwarded before its number is recorded, a quick reply would slip through. */
  lemma ForwardingFirstFails(addr: string)
    requires addr != "lan"
    ensures exists es, s :: Runs(Rules(false, true), es, s, addr) && Wrong(s, addr)
  {
    var r, c := Rules(false, true), Command("3", true);
    var l := Reply("3", true, "lan", Issued(c, 0, false));
    var es, s := [], INITIAL;
    es, s := Extend(r, es, s, Read(c), addr);
    es, s := Extend(r, es, s, Forward, addr);
    es, s := Extend(r, es, s, Answer(l), addr);
    es, s := Extend(r, es, s, Lookup, addr);
    es, s := Extend(r, es, s, Deliver, addr);
    assert s.toClient[0] == l && s.fromRadio[0] == l;
    assert Wrong(s, addr);
  }

  lemma CommandSent(es: seq<Event>, s: State, c: Command, addr: string) returns (es': seq<Event>, s': State)
    requires Runs(SOURCE, es, s, addr) && s.cpc.Reading? && NoneWaiting(s, c.seqNo)
    ensures Runs(SOURCE, es', s', addr) && s'.cpc.Reading? && s'.rpc == s.rpc
    ensures s'.fromRadio == s.fromRadio && s'.toClient == s.toClient && s'.count == s.count + 1
    ensures s'.outstanding == s.outstanding + if c.clientIp then {c.seqNo} else {}
    ensures c.seqNo in s'.issued && s'.issued[c.seqNo] == Issued(c, s.count, c.seqNo in s.outstanding)
    ensures s.count in s'.forwarded
  {
    es', s' := Extend(SOURCE, es, s, Read(c), addr);
    es', s' := Extend(SOURCE, es', s', Record, addr);
    es', s' := Extend(SOURCE, es', s', Forward, addr);
  }

  lemma ReplyDelivered(es: seq<Event>, s: State, l: RadioLine, addr: string) returns (es': seq<Event>, s': State)
    requires Runs(SOURCE, es, s, addr) && Enabled(SOURCE, s, Answer(l))
    requires s.rpc.Waiting? && |s.toClient| == |s.fromRadio|
    ensures Runs(SOURCE, es', s', addr) && s'.cpc == s.cpc && s'.rpc.Waiting? && s'.count == s.count
    ensures s'.fromRadio == s.fromRadio + [l]
    ensures s'.toClient == s.toClient + [if Matches(l) && l.seqNo in s.outstanding then Replaced(l, addr) else l]
    ensures !Matches(l) ==> s'.outstanding == s.outstanding
  {
    es', s' := Extend(SOURCE, es, s, Answer(l), addr);
    es', s' := Extend(SOURCE, es', s', Lookup, addr);
    es', s' := Extend(SOURCE, es', s', Deliver, addr);
  }

  /** A failed `client ip` leaves its number behind, so reusing the number rewrites another reply. */
  lemma ReusedNumberFails(addr: string)
    requires addr != "pong"
    ensures exists es, s :: Runs(SOURCE, es, s, addr) && Wrong(s, addr)
  {
    var c, d := Command("3", true), Command("3", false);
    var es, s := CommandSent([], INITIAL, c, addr);
    es, s := ReplyDelivered(es, s, Reply("3", false, "error", Issued(c, 0, false)), addr);
    es, s := CommandSent(es, s, d, addr);
    var l := Reply("3", true, "pong", Issued(d, 1, true));
    es, s := ReplyDelivered(es, s, l, addr);
    assert s.toClient[1] == Replaced(l, addr) && s.fromRadio[1] == l;
    assert Wrong(s, addr);
  }

  lemma SentAndReused(c: Command, addr: string) returns (es: seq<Event>, s: State)
    requires c == Command("3", true)
    ensures Runs(Rules(true, false), es, s, addr) && s.cpc == Halfway(Issued(c, 1, true))
    ensures s.outstanding == {"3"} && s.forwarded == {0}
    ensures s.rpc.Waiting? && s.fromRadio == [] && s.toClient == []
  {
    var r := Rules(true, false);
    es, s := [], INITIAL;
    es, s := Extend(r, es, s, Read(c), addr);
    es, s := Extend(r, es, s, Record, addr);
    es, s := Extend(r, es, s, Forward, addr);
    es, s := Extend(r, es, s, Read(c), addr);
    es, s := Extend(r, es, s, Record, addr);
  }

  /** A success reply that is looked up and delivered at once. */
  lemma {:induction false} AnsweredAnyway(es: seq<Event>, s: State, l: RadioLine, addr: string)
    returns (es': seq<Event>, s': State)
    requires Runs(Rules(true, false), es, s, addr) && Matches(l) && s.rpc.Waiting? && |s.toClient| == |s.fromRadio|
    ensures Runs(Rules(true, false), es', s', addr) && s'.cpc == s.cpc && s'.rpc.Waiting?
    ensures s'.outstanding == s.outstanding - {l.seqNo} && s'.fromRadio == s.fromRadio + [l]
    ensures s'.toClient == s.toClient + [Sent(l, l.seqNo in s.outstanding, addr)]
  {
    var r := Rules(true, false);
    es', s' := Extend(r, es, s, Answer(l), addr);
    es', s' := Extend(r, es', s', Lookup, addr);
    es', s' := Extend(r, es', s', Deliver, addr);
  }

  /**
    The client's part of `orderly` is needed: a number reused while the first `client ip` is
    still unanswered.  The radio answers each command after receiving it and before receiving
    the next, yet the first answer deletes the number, and the second reaches the client with the
    wrong address.
  */
  lemma EarlyReuseFails(addr: string)
    requires addr != "lan"
    ensures exists es, s :: Runs(Rules(true, false), es, s, addr) && Wrong(s, addr)
              && |s.toClient| == 2 == |s.fromRadio| && Matches(s.fromRadio[0]) && Matches(s.fromRadio[1])
              && s.fromRadio[0].to.place == 0 && s.fromRadio[1].to.place == 1 && s.fromRadio[1].to.cmd.clientIp
  {
    var c := Command("3", true);
    var first, second := Reply("3", true, "lan", Issued(c, 0, false)), Reply("3", true, "lan", Issued(c, 1, true));
    var es, s := SentAndReused(c, addr);
    es, s := AnsweredAnyway(es, s, first, addr);
    es, s := Extend(Rules(true, false), es, s, Forward, addr);
    es, s := AnsweredAnyway(es, s, second, addr);
    assert s.toClient[1] == second && s.fromRadio[0] == first && s.fromRadio[1] == second;
    assert Wrong(s, addr);
  }
}
