/**
  The browser's polling of the log: requests and responses in flight, a cursor that moves to
  `lastSeq + 1` when lines arrive, and a display of at most 1000 lines.  Events are writes,
  requests sent, served, received or failed, and the Clear button; a run is a list of events.
  The page's timer does not wait for a slow response, so polls may overlap and responses may
  arrive in any order; most theorems hold of all runs, and sequential polls are a special case.
*/
module LogPolling {
  import opened LogRing

  const DISPLAY: nat := 1000

  /** A response's `since` and `at` record what was asked and how long the log was when it was made. */
  datatype Message = Request(since: int) | Response(lines: seq<LogLine>, last: int, since: int, at: nat)

  datatype Page = Page(lastLogSeq: int, allLogLines: seq<string>)

  function LastLines(xs: seq<string>, n: nat): seq<string> {
    if |xs| > n then xs[|xs| - n..] else xs
  }

  ghost function Texts(lines: seq<LogLine>): (r: seq<string>)
    ensures |r| == |lines|
    ensures forall i :: 0 <= i < |lines| ==> r[i] == lines[i].text
  {
    seq(|lines|, i requires 0 <= i < |lines| => lines[i].text)
  }

  ghost function Absorb(p: Page, lines: seq<LogLine>, last: int): Page {
    if lines == [] then p
    else Page(last + 1, LastLines(p.allLogLines + Texts(lines), DISPLAY))
  }

  /** The newest n of them, in order. */
  lemma LastLinesExactly(xs: seq<string>, n: nat)
    ensures var r := LastLines(xs, n);
            && |r| == (if |xs| < n then |xs| else n)
            && forall i :: 0 <= i < |r| ==> r[i] == xs[|xs| - |r| + i]
  {
  }

  /** A response with lines moves the cursor past its last number; the display then ends with those lines. */
  lemma AbsorbExactly(p: Page, lines: seq<LogLine>, last: int)
    ensures var q, n := Absorb(p, lines, last), |p.allLogLines| + |lines|;
            && (lines == [] ==> q == p)
            && (lines != [] ==>
                  && q.lastLogSeq == last + 1
                  && |q.allLogLines| == (if n < 1000 then n else 1000)
                  && forall i :: 0 <= i < |q.allLogLines| ==>
                       var k := n - |q.allLogLines| + i;
                       q.allLogLines[i] ==
                       if k < |p.allLogLines| then p.allLogLines[k] else lines[k - |p.allLogLines|].text)
  {
    if lines != [] {
      LastLinesExactly(p.allLogLines + Texts(lines), DISPLAY);
    }
  }

  class LogPage {
    var lastLogSeq: int
    var allLogLines: seq<string>

    ghost function Contents(): Page
      reads this
    {
      Page(lastLogSeq, allLogLines)
    }

    constructor ()
      ensures Contents() == Page(0, [])
    {
      lastLogSeq, allLogLines := 0, [];
    }

    method OnResponse(lines: seq<LogLine>, last: int)
      modifies this
      ensures Contents() == Absorb(old(Contents()), lines, last)
    {
      if |lines| == 0 { return; }
      for i := 0 to |lines|
        invariant lastLogSeq == old(lastLogSeq)
        invariant allLogLines == old(allLogLines) + Texts(lines)[..i]
      {
        allLogLines := allLogLines + [lines[i].text];
      }
      assert Texts(lines)[..|lines|] == Texts(lines);
      if |allLogLines| > DISPLAY {
        allLogLines := allLogLines[|allLogLines| - DISPLAY..];
      }
      lastLogSeq := last + 1;
    }
  }

  // ---------- runs ----------

  datatype Event = Write(text: string) | Send | Serve(i: nat) | Receive(i: nat) | Fail(i: nat) | Clear

  /**
    History: every line delivered, how many numbers were skipped over when the cursor moved on,
    and how many it had already passed when lines arrived that start below it.
  */
  datatype State = State(log: seq<string>, flight: seq<Message>, page: Page,
                         received: seq<LogLine>, skipped: nat, repeated: nat, sinceClear: nat)

  const INITIAL: State := State([], [], Page(0, []), [], 0, 0, 0)

  function Without(flight: seq<Message>, i: nat): seq<Message>
    requires i < |flight|
  {
    flight[..i] + flight[i + 1..]
  }

  /** Polls are sequential when no request is sent while another poll is in flight. */
  ghost predicate Enabled(s: State, e: Event, overlapping: bool) {
    match e
    case Write(_) => true
    case Send => overlapping || s.flight == []
    case Serve(i) => i < |s.flight| && s.flight[i].Request?
    case Receive(i) => i < |s.flight| && s.flight[i].Response?
    case Fail(i) => i < |s.flight|
    case Clear => true
  }

  ghost function Apply(s: State, e: Event, capacity: nat, overlapping: bool): State
    requires Enabled(s, e, overlapping)
  {
    match e
    case Write(text) => s.(log := s.log + [text])
    case Send => s.(flight := s.flight + [Request(s.page.lastLogSeq)])
    case Serve(i) =>
      var since := s.flight[i].since;
      s.(flight := s.flight[i := Response(Kept(s.log, capacity, since), LastSeq(s.log), since, |s.log|)])
    case Receive(i) =>
      var m := s.flight[i];
      var t := s.(flight := Without(s.flight, i), page := Absorb(s.page, m.lines, m.last));
      if m.lines == [] then t
      else t.(received := s.received + m.lines,
              skipped := s.skipped + Max(0, m.lines[0].seqNo - s.page.lastLogSeq),
              repeated := s.repeated + Max(0, s.page.lastLogSeq - m.lines[0].seqNo),
              sinceClear := s.sinceClear + |m.lines|)
    case Fail(i) => s.(flight := Without(s.flight, i))
    case Clear => s.(page := s.page.(allLogLines := []), sinceClear := 0)
  }

  ghost predicate Runs(es: seq<Event>, capacity: nat, overlapping: bool, s: State)
  {
    if es == [] then s == INITIAL
    else
      var n := |es| - 1;
      exists t :: Runs(es[..n], capacity, overlapping, t)
                  && Enabled(t, es[n], overlapping) && s == Apply(t, es[n], capacity, overlapping)
  }

  // ---------- what every run keeps ----------

  ghost predicate Increasing(received: seq<LogLine>) {
    forall i, j :: 0 <= i < j < |received| ==> received[i].seqNo < received[j].seqNo
  }

  /** Every delivered line is the line with its number. */
  ghost predicate Genuine(received: seq<LogLine>, log: seq<string>) {
    forall i :: 0 <= i < |received| ==> 0 <= received[i].seqNo < |log| && received[i].text == log[received[i].seqNo]
  }

  /** The cursor is one past the last line delivered. */
  function Cursor(received: seq<LogLine>): int {
    if received == [] then 0 else received[|received| - 1].seqNo + 1
  }

  ghost predicate FlightOk(m: Message, log: seq<string>, capacity: nat) {
    match m
    case Request(since) => 0 <= since <= |log|
    case Response(lines, last, since, at) =>
      0 <= since <= at <= |log| && lines == Kept(log[..at], capacity, since) && last == LastSeq(log[..at])
  }

  ghost predicate FlightsOk(flight: seq<Message>, log: seq<string>, capacity: nat) {
    forall i :: 0 <= i < |flight| ==> FlightOk(flight[i], log, capacity)
  }

  ghost predicate Shown(s: State) {
    s.sinceClear <= |s.received| &&
    s.page.allLogLines == LastLines(Texts(s.received[|s.received| - s.sinceClear..]), DISPLAY)
  }

  ghost predicate Inv(s: State, capacity: nat) {
    && s.page.lastLogSeq == Cursor(s.received)
    && FlightsOk(s.flight, s.log, capacity)
    && Genuine(s.received, s.log)
    && |s.received| + s.skipped == s.page.lastLogSeq + s.repeated
    && (Increasing(s.received) <==> s.repeated == 0)
    && Shown(s)
  }

  lemma LogGrows(s: State, text: string, capacity: nat)
    requires Inv(s, capacity)
    ensures Inv(s.(log := s.log + [text]), capacity)
  {
    var log := s.log + [text];
    forall i | 0 <= i < |s.flight| ensures FlightOk(s.flight[i], log, capacity) {
      if s.flight[i].Response? {
        assert log[..s.flight[i].at] == s.log[..s.flight[i].at];
      }
    }
  }

  lemma GenuineMore(received: seq<LogLine>, log: seq<string>, at: nat, lo: int)
    requires Genuine(received, log) && 0 <= lo < at <= |log|
    ensures Genuine(received + Window(log[..at], lo, at), log)
    ensures Cursor(received + Window(log[..at], lo, at)) == at
  {
    var w := Window(log[..at], lo, at);
    var all := received + w;
    forall i | |received| <= i < |all| ensures all[i] == LogLine(lo + i - |received|, log[lo + i - |received|]) {
      assert all[i] == w[i - |received|];
    }
  }

  /** Consecutive lines keep the numbers increasing exactly when they start at or after the cursor. */
  lemma IncreasingMore(received: seq<LogLine>, w: seq<LogLine>, lo: int)
    requires w != [] && 0 <= lo && forall i :: 0 <= i < |w| ==> w[i].seqNo == lo + i
    ensures Increasing(received + w) <==> Increasing(received) && Cursor(received) <= lo
  {
    var all := received + w;
    if Increasing(all) {
      assert forall i :: 0 <= i < |received| ==> all[i] == received[i];
      if received != [] {
        assert all[|received| - 1].seqNo < all[|received|].seqNo;
      }
    }
    if Increasing(received) && Cursor(received) <= lo {
      forall i, j | 0 <= i < j < |all| ensures all[i].seqNo < all[j].seqNo {
        if i < |received| <= j {
          assert received[i].seqNo <= received[|received| - 1].seqNo;
        }
      }
    }
  }

  lemma ShownMore(old_: seq<LogLine>, k: nat, lines: seq<LogLine>)
    requires k <= |old_|
    ensures LastLines(LastLines(Texts(old_[|old_| - k..]), DISPLAY) + Texts(lines), DISPLAY)
         == LastLines(Texts((old_ + lines)[|old_| - k..]), DISPLAY)
  {
    assert (old_ + lines)[|old_| - k..] == old_[|old_| - k..] + lines;
    var a, b := Texts(old_[|old_| - k..]), Texts(lines);
    assert Texts(old_[|old_| - k..] + lines) == a + b;
  }

  /** What a response does: it brings the kept lines from `lo` on, and the cursor to where it was made. */
  lemma ReceiveEffect(s: State, capacity: nat, overlapping: bool, i: nat, m: Message)
    requires capacity > 0 && Inv(s, capacity) && Enabled(s, Receive(i), overlapping) && m == s.flight[i]
    ensures var t, lo := Apply(s, Receive(i), capacity, overlapping), Max(m.since, m.at - capacity);
            && 0 <= m.since <= m.at <= |s.log| && t.flight == Without(s.flight, i) && t.log == s.log
            && (m.lines == [] <==> m.at == m.since)
            && (m.lines == [] ==> t == s.(flight := Without(s.flight, i)))
            && (m.lines != [] ==>
                  && 0 <= lo < m.at && m.lines == Window(s.log[..m.at], lo, m.at)
                  && t.received == s.received + m.lines
                  && t.skipped == s.skipped + Max(0, lo - s.page.lastLogSeq)
                  && t.repeated == s.repeated + Max(0, s.page.lastLogSeq - lo)
                  && t.page == Page(m.at, LastLines(s.page.allLogLines + Texts(m.lines), DISPLAY))
                  && t.sinceClear == s.sinceClear + |m.lines|)
  {
    assert FlightOk(m, s.log, capacity);
    assert |s.log[..m.at]| == m.at;
  }

  lemma ReceivedShown(s: State, t: State, lines: seq<LogLine>)
    requires Shown(s) && t.received == s.received + lines && t.sinceClear == s.sinceClear + |lines|
    requires t.page.allLogLines == LastLines(s.page.allLogLines + Texts(lines), DISPLAY)
    ensures Shown(t)
  {
    ShownMore(s.received, s.sinceClear, lines);
    assert |t.received| - t.sinceClear == |s.received| - s.sinceClear;
  }

  lemma FlightsWithout(flight: seq<Message>, log: seq<string>, capacity: nat, i: nat)
    requires FlightsOk(flight, log, capacity) && i < |flight|
    ensures FlightsOk(Without(flight, i), log, capacity)
  {
    var rest := Without(flight, i);
    assert forall j :: 0 <= j < |rest| ==> rest[j] == flight[if j < i then j else j + 1];
  }

  /** The numbers after a nonempty response. */
  lemma ReceivedInv(s: State, t: State, at: nat, lo: int, lines: seq<LogLine>)
    requires s.page.lastLogSeq == Cursor(s.received) && Genuine(s.received, s.log)
    requires |s.received| + s.skipped == s.page.lastLogSeq + s.repeated && (Increasing(s.received) <==> s.repeated == 0)
    requires 0 <= lo < at <= |s.log| && lines == Window(s.log[..at], lo, at) && t.log == s.log
    requires t.received == s.received + lines && t.page.lastLogSeq == at
    requires t.skipped == s.skipped + Max(0, lo - s.page.lastLogSeq)
    requires t.repeated == s.repeated + Max(0, s.page.lastLogSeq - lo)
    ensures t.page.lastLogSeq == Cursor(t.received) && Genuine(t.received, t.log)
    ensures |t.received| + t.skipped == t.page.lastLogSeq + t.repeated && (Increasing(t.received) <==> t.repeated == 0)
  {
    GenuineMore(s.received, s.log, at, lo);
    IncreasingMore(s.received, lines, lo);
    assert |lines| == at - lo;
  }

  /** A step that changes only what is in flight. */
  lemma OnlyFlight(s: State, flight: seq<Message>, capacity: nat)
    requires Inv(s, capacity) && FlightsOk(flight, s.log, capacity)
    ensures Inv(s.(flight := flight), capacity)
  {
    assert Shown(s.(flight := flight));
  }

  lemma ReceiveKeeps(s: State, capacity: nat, overlapping: bool, i: nat)
    requires capacity > 0 && Inv(s, capacity) && Enabled(s, Receive(i), overlapping)
    ensures Inv(Apply(s, Receive(i), capacity, overlapping), capacity)
  {
    var m, t := s.flight[i], Apply(s, Receive(i), capacity, overlapping);
    ReceiveEffect(s, capacity, overlapping, i, m);
    FlightsWithout(s.flight, s.log, capacity, i);
    if m.lines == [] {
      OnlyFlight(s, Without(s.flight, i), capacity);
    } else {
      LinesKeep(s, t, m.at, Max(m.since, m.at - capacity), m.lines, capacity);
    }
  }

  lemma LinesKeep(s: State, t: State, at: nat, lo: int, lines: seq<LogLine>, capacity: nat)
    requires Inv(s, capacity) && FlightsOk(t.flight, s.log, capacity) && t.log == s.log
    requires 0 <= lo < at <= |s.log| && lines == Window(s.log[..at], lo, at) && t.received == s.received + lines
    requires t.skipped == s.skipped + Max(0, lo - s.page.lastLogSeq)
    requires t.repeated == s.repeated + Max(0, s.page.lastLogSeq - lo)
    requires t.page == Page(at, LastLines(s.page.allLogLines + Texts(lines), DISPLAY))
    requires t.sinceClear == s.sinceClear + |lines|
    ensures Inv(t, capacity)
  {
    ReceivedInv(s, t, at, lo, lines);
    ReceivedShown(s, t, lines);
  }

  lemma CursorInLog(s: State, capacity: nat)
    requires Inv(s, capacity)
    ensures 0 <= s.page.lastLogSeq <= |s.log|
  {
  }

  lemma ServeKeeps(s: State, capacity: nat, overlapping: bool, i: nat)
    requires Inv(s, capacity) && Enabled(s, Serve(i), overlapping)
    ensures Inv(Apply(s, Serve(i), capacity, overlapping), capacity)
  {
    var t := Apply(s, Serve(i), capacity, overlapping);
    assert s.log[..|s.log|] == s.log;
    assert FlightOk(s.flight[i], s.log, capacity);
    FlightsUpdated(s.flight, s.log, capacity, i, t.flight[i]);
    OnlyFlight(s, t.flight, capacity);
  }

  lemma SendKeeps(s: State, capacity: nat, overlapping: bool)
    requires Inv(s, capacity) && Enabled(s, Send, overlapping)
    ensures Inv(Apply(s, Send, capacity, overlapping), capacity)
  {
    CursorInLog(s, capacity);
    OnlyFlight(s, s.flight + [Request(s.page.lastLogSeq)], capacity);
  }

  lemma FailKeeps(s: State, capacity: nat, overlapping: bool, i: nat)
    requires Inv(s, capacity) && Enabled(s, Fail(i), overlapping)
    ensures Inv(Apply(s, Fail(i), capacity, overlapping), capacity)
  {
    FlightsWithout(s.flight, s.log, capacity, i);
    OnlyFlight(s, Without(s.flight, i), capacity);
  }

  lemma FlightsUpdated(flight: seq<Message>, log: seq<string>, capacity: nat, i: nat, m: Message)
    requires FlightsOk(flight, log, capacity) && i < |flight| && FlightOk(m, log, capacity)
    ensures FlightsOk(flight[i := m], log, capacity)
  {
  }

  lemma StepKeeps(s: State, e: Event, capacity: nat, overlapping: bool)
    requires capacity > 0 && Inv(s, capacity) && Enabled(s, e, overlapping)
    ensures Inv(Apply(s, e, capacity, overlapping), capacity)
  {
    match e
    case Write(text) => LogGrows(s, text, capacity);
    case Send => SendKeeps(s, capacity, overlapping);
    case Serve(i) => ServeKeeps(s, capacity, overlapping, i);
    case Receive(i) => ReceiveKeeps(s, capacity, overlapping, i);
    case Fail(i) => FailKeeps(s, capacity, overlapping, i);
    case Clear => assert s.received[|s.received|..] == [];
  }

  lemma {:induction false} RunKeeps(es: seq<Event>, capacity: nat, overlapping: bool, s: State)
    requires capacity > 0 && Runs(es, capacity, overlapping, s)
    ensures Inv(s, capacity)
  {
    if es != [] {
      var n := |es| - 1;
      var t :| Runs(es[..n], capacity, overlapping, t) && Enabled(t, es[n], overlapping)
               && s == Apply(t, es[n], capacity, overlapping);
      RunKeeps(es[..n], capacity, overlapping, t);
      StepKeeps(t, es[n], capacity, overlapping);
    }
  }

  // ---------- theorems about every run ----------

  /**
    After any run, whether or not polls overlap: each line delivered is the line with its
    number, the cursor is one past the last of them and never passes the server's next number,
    delivered plus skipped numbers equal the cursor plus those it moved back over, and the page
    shows the newest lines delivered since it was cleared, at most 1000 of them.
  */
  lemma {:induction false} EveryRun(es: seq<Event>, capacity: nat, overlapping: bool, s: State)
    requires capacity > 0 && Runs(es, capacity, overlapping, s)
    ensures Genuine(s.received, s.log) && s.sinceClear <= |s.received|
    ensures var d := if s.sinceClear < 1000 then s.sinceClear else 1000;
            s.page.allLogLines == Texts(s.received[|s.received| - d..])
    ensures s.page.lastLogSeq == Cursor(s.received) && 0 <= s.page.lastLogSeq <= |s.log|
    ensures |s.received| + s.skipped == s.page.lastLogSeq + s.repeated
  {
    RunKeeps(es, capacity, overlapping, s);
    CursorInLog(s, capacity);
    ShownExactly(s);
  }

  lemma ShownExactly(s: State)
    requires Shown(s)
    ensures var d := if s.sinceClear < 1000 then s.sinceClear else 1000;
            s.page.allLogLines == Texts(s.received[|s.received| - d..])
  {
    var since := s.received[|s.received| - s.sinceClear..];
    LastTexts(since);
    if |since| > 1000 {
      assert since[|since| - 1000..] == s.received[|s.received| - 1000..];
    }
  }

  lemma LastTexts(lines: seq<LogLine>)
    ensures LastLines(Texts(lines), DISPLAY) == Texts(if |lines| > 1000 then lines[|lines| - 1000..] else lines)
  {
    LastLinesExactly(Texts(lines), DISPLAY);
  }

  lemma ReceivedStep(u: State, e: Event, capacity: nat, overlapping: bool)
    requires Enabled(u, e, overlapping) && e != Clear
    ensures var s := Apply(u, e, capacity, overlapping);
            && |u.received| <= |s.received| && s.received[..|u.received|] == u.received
            && s.sinceClear - u.sinceClear == |s.received| - |u.received|
  {
  }

  lemma PrefixOfPrefix<T>(x: seq<T>, y: seq<T>, z: seq<T>)
    requires |x| <= |y| <= |z| && y[..|x|] == x && z[..|y|] == y
    ensures z[..|x|] == x
  {
    assert z[..|x|] == z[..|y|][..|x|];
  }

  /** Lines delivered stay delivered, and without a Clear all of them count. */
  lemma {:induction false} SinceClear(es: seq<Event>, k: nat, capacity: nat, overlapping: bool, s: State)
    returns (t: State)
    requires Runs(es, capacity, overlapping, s) && k <= |es|
    requires forall j :: k <= j < |es| ==> es[j] != Clear
    ensures Runs(es[..k], capacity, overlapping, t)
    ensures |t.received| <= |s.received| && s.received[..|t.received|] == t.received
    ensures s.sinceClear - t.sinceClear == |s.received| - |t.received|
  {
    if k == |es| {
      assert es[..k] == es;
      t := s;
    } else {
      var n := |es| - 1;
      var init, e := es[..n], es[n];
      var u :| Runs(init, capacity, overlapping, u) && Enabled(u, e, overlapping)
               && s == Apply(u, e, capacity, overlapping);
      t := SinceClear(init, k, capacity, overlapping, u);
      ReceivedStep(u, e, capacity, overlapping);
      PrefixOfPrefix(t.received, u.received, s.received);
      assert init[..k] == es[..k];
    }
  }

  /** What the page counts its display from: the last Clear, or the beginning. */
  lemma {:induction false} ClearedAt(es: seq<Event>, k: nat, capacity: nat, overlapping: bool, s: State)
    returns (t: State)
    requires Runs(es, capacity, overlapping, s) && k < |es| && es[k] == Clear
    requires forall j :: k < j < |es| ==> es[j] != Clear
    ensures Runs(es[..k], capacity, overlapping, t)
    ensures |t.received| <= |s.received| && s.received[..|t.received|] == t.received
    ensures s.sinceClear == |s.received| - |t.received|
  {
    var v := SinceClear(es, k + 1, capacity, overlapping, s);
    var upTo := es[..k + 1];
    t :| Runs(upTo[..k], capacity, overlapping, t) && Enabled(t, upTo[k], overlapping)
         && v == Apply(t, upTo[k], capacity, overlapping);
    assert upTo[..k] == es[..k];
  }

  lemma NeverCleared(es: seq<Event>, capacity: nat, overlapping: bool, s: State)
    requires Runs(es, capacity, overlapping, s) && Clear !in es
    ensures s.sinceClear == |s.received|
  {
    var t := SinceClear(es, 0, capacity, overlapping, s);
    assert es[..0] == [];
  }

  /**
    IN ORDER, AT MOST ONCE.  A nonempty response keeps the delivered numbers strictly increasing
    exactly when its first line is not below the cursor, which the page could test before it
    takes the lines.
  */
  lemma InOrderExactly(es: seq<Event>, capacity: nat, overlapping: bool, s: State, i: nat)
    requires capacity > 0 && Runs(es, capacity, overlapping, s)
    requires Enabled(s, Receive(i), overlapping) && s.flight[i].lines != []
    ensures Increasing(Apply(s, Receive(i), capacity, overlapping).received)
            <==> Increasing(s.received) && s.page.lastLogSeq <= s.flight[i].lines[0].seqNo
  {
    RunKeeps(es, capacity, overlapping, s);
    ReceiveEffect(s, capacity, overlapping, i, s.flight[i]);
    IncreasingMore(s.received, s.flight[i].lines, Max(s.flight[i].since, s.flight[i].at - capacity));
  }

  /** So over a whole run the numbers increase exactly when no response started below the cursor. */
  lemma IncreasingExactly(es: seq<Event>, capacity: nat, overlapping: bool, s: State)
    requires capacity > 0 && Runs(es, capacity, overlapping, s)
    ensures Increasing(s.received) <==> s.repeated == 0
    ensures s.repeated == 0 <==> forall k :: 0 <= k < |es| ==> !Backward(es, k, capacity, overlapping)
  {
    RunKeeps(es, capacity, overlapping, s);
    RepeatedExactly(es, capacity, overlapping, s);
  }

  /** The k-th event takes in lines that start below the cursor. */
  ghost predicate Backward(es: seq<Event>, k: nat, capacity: nat, overlapping: bool)
    requires k < |es|
  {
    exists t :: Runs(es[..k], capacity, overlapping, t) && es[k].Receive? && Enabled(t, es[k], overlapping)
      && t.flight[es[k].i].lines != [] && t.flight[es[k].i].lines[0].seqNo < t.page.lastLogSeq
  }

  /** A run leads to one state. */
  lemma {:induction false} RunsOnce(es: seq<Event>, capacity: nat, overlapping: bool, s: State, t: State)
    requires Runs(es, capacity, overlapping, s) && Runs(es, capacity, overlapping, t)
    ensures s == t
  {
    if es != [] {
      var n := |es| - 1;
      var u :| Runs(es[..n], capacity, overlapping, u) && Enabled(u, es[n], overlapping)
               && s == Apply(u, es[n], capacity, overlapping);
      var v :| Runs(es[..n], capacity, overlapping, v) && Enabled(v, es[n], overlapping)
               && t == Apply(v, es[n], capacity, overlapping);
      RunsOnce(es[..n], capacity, overlapping, u, v);
    }
  }

  lemma BackwardInit(es: seq<Event>, k: nat, capacity: nat, overlapping: bool)
    requires k < |es| - 1
    ensures Backward(es, k, capacity, overlapping) <==> Backward(es[..|es| - 1], k, capacity, overlapping)
  {
    assert es[..|es| - 1][..k] == es[..k];
  }

  lemma BackwardLast(es: seq<Event>, capacity: nat, overlapping: bool, t: State)
    requires es != [] && Runs(es[..|es| - 1], capacity, overlapping, t) && Enabled(t, es[|es| - 1], overlapping)
    ensures Backward(es, |es| - 1, capacity, overlapping)
            <==> Apply(t, es[|es| - 1], capacity, overlapping).repeated > t.repeated
  {
    var init := es[..|es| - 1];
    forall u | Runs(init, capacity, overlapping, u) ensures u == t {
      RunsOnce(init, capacity, overlapping, u, t);
    }
  }

  lemma RepeatedGrows(s: State, e: Event, capacity: nat, overlapping: bool)
    requires Enabled(s, e, overlapping)
    ensures Apply(s, e, capacity, overlapping).repeated >= s.repeated
  {
  }

  lemma {:induction false} RepeatedExactly(es: seq<Event>, capacity: nat, overlapping: bool, s: State)
    requires Runs(es, capacity, overlapping, s)
    ensures s.repeated == 0 <==> forall k :: 0 <= k < |es| ==> !Backward(es, k, capacity, overlapping)
  {
    if es != [] {
      var n := |es| - 1;
      var t :| Runs(es[..n], capacity, overlapping, t) && Enabled(t, es[n], overlapping)
               && s == Apply(t, es[n], capacity, overlapping);
      RepeatedExactly(es[..n], capacity, overlapping, t);
      forall k | 0 <= k < n
        ensures Backward(es, k, capacity, overlapping) <==> Backward(es[..n], k, capacity, overlapping)
      {
        BackwardInit(es, k, capacity, overlapping);
      }
      BackwardLast(es, capacity, overlapping, t);
      RepeatedGrows(t, es[n], capacity, overlapping);
    }
  }

  /**
    How far a nonempty response skips: to the first line asked for that was still kept when it
    was made.  An empty response moves nothing, whatever its `last` says.
  */
  lemma SkippedExactly(es: seq<Event>, capacity: nat, overlapping: bool, s: State, i: nat)
    requires capacity > 0 && Runs(es, capacity, overlapping, s) && Enabled(s, Receive(i), overlapping)
    ensures var m, t := s.flight[i], Apply(s, Receive(i), capacity, overlapping);
            && t.flight == Without(s.flight, i) && m.since <= m.at
            && (m.at == m.since ==> t == s.(flight := Without(s.flight, i)))
            && (m.at > m.since ==>
                  && t.page.lastLogSeq == m.at
                  && t.skipped - s.skipped == Max(0, Max(m.since, m.at - capacity) - s.page.lastLogSeq)
                  && t.repeated - s.repeated == Max(0, s.page.lastLogSeq - Max(m.since, m.at - capacity)))
  {
    RunKeeps(es, capacity, overlapping, s);
    ReceiveEffect(s, capacity, overlapping, i, s.flight[i]);
  }

  /** Nothing was skipped or repeated exactly when the delivered lines are the log up to the cursor. */
  lemma DeliveredExactly(es: seq<Event>, capacity: nat, overlapping: bool, s: State)
    requires capacity > 0 && Runs(es, capacity, overlapping, s)
    ensures 0 <= s.page.lastLogSeq <= |s.log|
    ensures s.skipped == 0 && s.repeated == 0 <==> s.received == Window(s.log, 0, s.page.lastLogSeq)
  {
    RunKeeps(es, capacity, overlapping, s);
    CursorInLog(s, capacity);
    if s.skipped == 0 && s.repeated == 0 {
      BelowCursor(s.received);
      forall i | 0 <= i < |s.received| ensures s.received[i] == LogLine(i, s.log[i]) {
        Packed(s.received, s.page.lastLogSeq, i);
      }
    }
  }

  lemma BelowCursor(received: seq<LogLine>)
    requires Increasing(received)
    ensures forall i :: 0 <= i < |received| ==> received[i].seqNo < Cursor(received)
  {
  }

  lemma {:induction false} AtLeastIndex(r: seq<LogLine>, i: nat)
    requires i < |r| && r[0].seqNo >= 0
    requires forall a, b :: 0 <= a < b < |r| ==> r[a].seqNo < r[b].seqNo
    ensures r[i].seqNo >= i
  {
    if i > 0 { AtLeastIndex(r, i - 1); }
  }

  lemma {:induction false} AtMostIndex(r: seq<LogLine>, n: int, i: nat)
    requires i < |r| && forall a :: 0 <= a < |r| ==> r[a].seqNo < n
    requires forall a, b :: 0 <= a < b < |r| ==> r[a].seqNo < r[b].seqNo
    ensures r[i].seqNo <= n - |r| + i
    decreases |r| - i
  {
    if i + 1 < |r| { AtMostIndex(r, n, i + 1); }
  }

  lemma Packed(r: seq<LogLine>, n: int, i: nat)
    requires i < |r| == n && forall a :: 0 <= a < |r| ==> 0 <= r[a].seqNo < n
    requires forall a, b :: 0 <= a < b < |r| ==> r[a].seqNo < r[b].seqNo
    ensures r[i].seqNo == i
  {
    AtLeastIndex(r, i);
    AtMostIndex(r, n, i);
  }

  // ---------- sequential polls ----------

  /** With one poll at a time, what is in flight was asked with the current cursor. */
  ghost predicate OneInFlight(s: State) {
    |s.flight| <= 1 && (s.flight != [] ==> s.flight[0].since == s.page.lastLogSeq) && s.repeated == 0
  }

  lemma {:induction false} OneInFlightKept(es: seq<Event>, capacity: nat, s: State)
    requires capacity > 0 && Runs(es, capacity, false, s)
    ensures OneInFlight(s)
  {
    if es != [] {
      var n := |es| - 1;
      var t :| Runs(es[..n], capacity, false, t) && Enabled(t, es[n], false) && s == Apply(t, es[n], capacity, false);
      OneInFlightKept(es[..n], capacity, t);
      if es[n].Receive? {
        SkippedExactly(es[..n], capacity, false, t, 0);
        assert Without(t.flight, 0) == [];
      } else if es[n].Fail? {
        assert Without(t.flight, 0) == [];
      }
    }
  }

  /**
    When no request is sent while another poll is in flight, the delivered numbers always
    increase, and a response skips lines exactly when more than `capacity` writes happened after
    the cursor position, and then exactly the overwritten ones.
  */
  lemma SequentialPolls(es: seq<Event>, capacity: nat, s: State)
    requires capacity > 0 && Runs(es, capacity, false, s)
    ensures Increasing(s.received) && |s.received| + s.skipped == s.page.lastLogSeq
    ensures Enabled(s, Receive(0), false) ==>
              Apply(s, Receive(0), capacity, false).skipped - s.skipped
              == Max(0, s.flight[0].at - s.page.lastLogSeq - capacity)
  {
    OneInFlightKept(es, capacity, s);
    RunKeeps(es, capacity, false, s);
    if Enabled(s, Receive(0), false) {
      SkippedExactly(es, capacity, false, s, 0);
    }
  }

  // ---------- overlapping polls ----------

  lemma RunsSnoc(es: seq<Event>, e: Event, capacity: nat, overlapping: bool, t: State)
    requires Runs(es, capacity, overlapping, t) && Enabled(t, e, overlapping)
    ensures Runs(es + [e], capacity, overlapping, Apply(t, e, capacity, overlapping))
  {
    assert (es + [e])[..|es|] == es;
  }

  lemma Extend(es: seq<Event>, s: State, e: Event, capacity: nat) returns (es': seq<Event>, s': State)
    requires Runs(es, capacity, true, s) && Enabled(s, e, true)
    ensures Runs(es', capacity, true, s') && s' == Apply(s, e, capacity, true)
  {
    RunsSnoc(es, e, capacity, true, s);
    es', s' := es + [e], Apply(s, e, capacity, true);
  }

  lemma BothSent(capacity: nat) returns (es: seq<Event>, s: State)
    requires capacity > 0
    ensures Runs(es, capacity, true, s) && s == State(["a"], [Request(0), Request(0)], Page(0, []), [], 0, 0, 0)
  {
    es, s := [], INITIAL;
    es, s := Extend(es, s, Write("a"), capacity);
    es, s := Extend(es, s, Send, capacity);
    es, s := Extend(es, s, Send, capacity);
  }

  lemma BothServed(capacity: nat, r: Message) returns (es: seq<Event>, s: State)
    requires capacity > 0 && r == Response([LogLine(0, "a")], 0, 0, 1)
    ensures Runs(es, capacity, true, s) && s == State(["a"], [r, r], Page(0, []), [], 0, 0, 0)
  {
    es, s := BothSent(capacity);
    assert Kept(s.log, capacity, 0) == [LogLine(0, "a")];
    es, s := Extend(es, s, Serve(0), capacity);
    es, s := Extend(es, s, Serve(1), capacity);
  }

  /**
    The page's timer does not wait for a slow response.  With two polls in flight the same
    line can be delivered twice, so sequential polling is a real condition.
  */
  lemma OverlapDeliversTwice(capacity: nat)
    requires capacity > 0
    ensures exists es, s ::
              Runs(es, capacity, true, s) && |s.log| == 1 && s.received == [LogLine(0, "a"), LogLine(0, "a")]
  {
    var r := Response([LogLine(0, "a")], 0, 0, 1);
    var es, s := BothServed(capacity, r);
    es, s := Extend(es, s, Receive(0), capacity);
    assert s.flight == [r] && s.received == [LogLine(0, "a")];
    es, s := Extend(es, s, Receive(0), capacity);
    assert s.received == [LogLine(0, "a"), LogLine(0, "a")];
  }

  lemma EarlyResponse(capacity: nat, r: Message) returns (es: seq<Event>, s: State)
    requires capacity >= 2 && r == Response([LogLine(0, "a")], 0, 0, 1)
    ensures Runs(es, capacity, true, s) && s == State(["a", "b"], [r, Request(0)], Page(0, []), [], 0, 0, 0)
  {
    es, s := [], INITIAL;
    es, s := Extend(es, s, Write("a"), capacity);
    es, s := Extend(es, s, Send, capacity);
    assert Kept(s.log, capacity, 0) == [LogLine(0, "a")];
    es, s := Extend(es, s, Serve(0), capacity);
    es, s := Extend(es, s, Write("b"), capacity);
    es, s := Extend(es, s, Send, capacity);
    assert s.log == ["a", "b"];
  }

  /** A response made after one line, still in flight, and one made after two, already taken in. */
  lemma LateResponse(capacity: nat, r: Message) returns (es: seq<Event>, s: State)
    requires capacity >= 2 && r == Response([LogLine(0, "a")], 0, 0, 1)
    ensures Runs(es, capacity, true, s) && s.log == ["a", "b"] && s.flight == [r]
    ensures s.page.lastLogSeq == 2 && s.received == [LogLine(0, "a"), LogLine(1, "b")]
  {
    es, s := EarlyResponse(capacity, r);
    var late := Response([LogLine(0, "a"), LogLine(1, "b")], 1, 0, 2);
    assert Kept(s.log, capacity, 0) == late.lines;
    es, s := Extend(es, s, Serve(1), capacity);
    assert s.flight == [r, late];
    es, s := Extend(es, s, Receive(1), capacity);
  }

  /** And when responses arrive out of order the cursor moves back: three lines from a log of two. */
  lemma CursorCanMoveBack(capacity: nat)
    requires capacity >= 2
    ensures exists es, s, t :: Runs(es, capacity, true, s) && Enabled(s, Receive(0), true)
              && t == Apply(s, Receive(0), capacity, true)
              && s.page.lastLogSeq == 2 && t.page.lastLogSeq == 1 && |t.received| == 3 && |t.log| == 2
  {
    var es, s := LateResponse(capacity, Response([LogLine(0, "a")], 0, 0, 1));
    var t := Apply(s, Receive(0), capacity, true);
    assert t.page.lastLogSeq == 1 && |t.received| == 3;
  }
}
