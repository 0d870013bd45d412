/**
  The in-memory log: a ring buffer that agrees with the unbounded log of everything ever
  written.  `Log` is that unbounded log; line number i is its i-th entry.
*/
module LogRing {

  datatype LogLine = LogLine(seqNo: int, text: string)

  function Max(a: int, b: int): int { if a < b then b else a }

  /** Lines lo, lo+1, ..., hi-1 of the unbounded log, in order and without gaps. */
  ghost function Window(log: seq<string>, lo: int, hi: int): (w: seq<LogLine>)
    requires 0 <= lo && hi <= |log|
    ensures |w| == Max(0, hi - lo)
    ensures forall i :: 0 <= i < |w| ==> w[i] == LogLine(lo + i, log[lo + i])
  {
    seq(Max(0, hi - lo), i requires 0 <= i < hi - lo => LogLine(lo + i, log[lo + i]))
  }

  /** What a reader can still get of `log` from a ring of the given capacity. */
  ghost function Kept(log: seq<string>, capacity: nat, since: int): seq<LogLine> {
    Window(log, Max(0, Max(since, |log| - capacity)), |log|)
  }

  ghost function LastSeq(log: seq<string>): int { Max(|log| - 1, 0) }

  class LogBuffer {
    var ring: array<LogLine>
    var head: nat
    var full: bool
    var next: int
    ghost var Log: seq<string>

    ghost predicate Valid()
      reads this, ring
    {
      && next == |Log|
      && head <= ring.Length && (ring.Length > 0 ==> head < ring.Length)
      && (!full ==> next == head)
      && (full ==> next >= head + ring.Length)
      && (forall i :: 0 <= i < head ==> ring[i] == LogLine(next - head + i, Log[next - head + i]))
      && (full ==> forall i :: head <= i < ring.Length ==>
            ring[i] == LogLine(next - head - ring.Length + i, Log[next - head - ring.Length + i]))
    }

    constructor (capacity: nat)
      ensures Valid() && fresh(ring) && ring.Length == capacity && Log == []
    {
      ring := new LogLine[capacity];
      head, full, next := 0, false, 0;
      Log := [];
    }

    method Write(p: string) returns (n: nat)
      requires Valid() && ring.Length > 0
      modifies this`head, this`full, this`next, this`Log, ring
      ensures Valid() && Log == old(Log) + [p] && n == |p|
    {
      ring[head] := LogLine(next, p);
      next := next + 1;
      head := head + 1;
      if head == ring.Length {
        head := 0;
        full := true;
      }
      Log := Log + [p];
      n := |p|;
    }

    function Count(): (n: nat)
      requires Valid()
      reads this, ring
      ensures n == if |Log| < ring.Length then |Log| else ring.Length
    {
      if full then ring.Length else head
    }

    /** Where the i-th oldest line sits. */
    lemma Slot(start: int, i: nat)
      requires Valid() && i < Count()
      requires start == if head < Count() then head - Count() + ring.Length else head - Count()
      ensures 0 <= start < ring.Length && 0 <= (start + i) % ring.Length < ring.Length
      ensures next - Count() + i < |Log|
      ensures ring[(start + i) % ring.Length] == LogLine(next - Count() + i, Log[next - Count() + i])
    {
      WrapOnce(start + i, ring.Length);
    }

    /** Exactly the lines with number at least max(since, n - capacity), for every `since`. */
    method Since(since: int) returns (out: seq<LogLine>, last: int)
      requires Valid()
      ensures out == Kept(Log, ring.Length, since)
      ensures last == LastSeq(Log)
    {
      out := [];
      var n := Count();
      ghost var base := next - n;
      ghost var lo := Max(since, base);
      KeptFrom(Log, ring.Length, since, n);
      var start := head - n;
      if start < 0 {
        start := start + ring.Length;
      }
      for i := 0 to n
        invariant base + i <= |Log| && out == Window(Log, lo, base + i)
      {
        Slot(start, i);
        var l := ring[(start + i) % ring.Length];
        assert l == LogLine(base + i, Log[base + i]);
        WindowSnoc(Log, lo, base + i);
        if l.seqNo >= since {
          out := out + [l];
        }
      }
      last := next - 1;
      if last < 0 {
        last := 0;
      }
    }
  }

  lemma KeptFrom(log: seq<string>, capacity: nat, since: int, n: nat)
    requires n == if |log| < capacity then |log| else capacity
    ensures n <= |log| && Kept(log, capacity, since) == Window(log, Max(since, |log| - n), |log|)
  {
  }

  lemma WrapOnce(k: nat, n: nat)
    requires 0 < n && k < 2 * n
    ensures k % n == if k < n then k else k - n
  {
  }

  lemma WindowSnoc(log: seq<string>, lo: int, hi: int)
    requires 0 <= lo && 0 <= hi < |log|
    ensures Window(log, lo, hi + 1) ==
            if hi >= lo then Window(log, lo, hi) + [LogLine(hi, log[hi])] else Window(log, lo, hi)
  {
  }

  /** The last number is that of the newest line, and 0 before there is one. */
  lemma LastSeqExactly(log: seq<string>, p: string)
    ensures LastSeq([]) == 0 && LastSeq(log + [p]) == |log|
  {
  }

  /** The cut-off: a line is returned exactly when it is asked for and not yet overwritten. */
  lemma KeptExactly(log: seq<string>, capacity: nat, since: int, l: LogLine)
    ensures l in Kept(log, capacity, since) <==>
            0 <= l.seqNo < |log| && l.text == log[l.seqNo] && l.seqNo >= since && l.seqNo >= |log| - capacity
    ensures var w := Kept(log, capacity, since);
            forall i, j :: 0 <= i < j < |w| ==> w[i].seqNo < w[j].seqNo
  {
    var lo := Max(0, Max(since, |log| - capacity));
    var w := Kept(log, capacity, since);
    if lo <= l.seqNo < |log| {
      assert w[l.seqNo - lo] == LogLine(l.seqNo, log[l.seqNo]);
    }
  }
}
