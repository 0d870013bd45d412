/**
  The scanner's one-slot channel: the producer replaces whatever is in the slot while a
  consumer may empty it at any moment.  Batches are numbered in the order they arrive.
  The producer is between `select` statements (Idle), about to try a send, about to drain
  the slot, or about to do the final blocking send.
*/
module LatestValue {
  import opened Text

  datatype Pc = Idle | Trying(batch: nat) | Draining(batch: nat) | Sending(batch: nat) | Closed

  /** `received` and `dropped` are history. */
  datatype State = State(pc: Pc, slot: Option<nat>, produced: nat, received: seq<nat>, dropped: seq<nat>)

  datatype Event = Batch | Try | Drain | Send | Stop | Consume

  const INITIAL: State := State(Idle, None, 0, [], [])

  /** A send on the channel is possible only while the slot is free; `Send` blocks otherwise. */
  ghost predicate Enabled(s: State, e: Event) {
    match e
    case Batch => s.pc.Idle?
    case Try => s.pc.Trying?
    case Drain => s.pc.Draining?
    case Send => s.pc.Sending? && s.slot.None?
    case Stop => s.pc.Idle?
    case Consume => s.slot.Some?
  }

  ghost function Apply(s: State, e: Event): State
    requires Enabled(s, e)
  {
    match e
    case Batch => s.(pc := Trying(s.produced), produced := s.produced + 1)
    case Try =>
      if s.slot.None? then s.(pc := Idle, slot := Some(s.pc.batch)) else s.(pc := Draining(s.pc.batch))
    case Drain =>
      if s.slot.None? then s.(pc := Sending(s.pc.batch))
      else s.(pc := Sending(s.pc.batch), slot := None, dropped := s.dropped + [s.slot.value])
    case Send => s.(pc := Idle, slot := Some(s.pc.batch))
    case Stop => s.(pc := Closed)
    case Consume => s.(slot := None, received := s.received + [s.slot.value])
  }

  ghost predicate Runs(es: seq<Event>, s: State) {
    if es == [] then s == INITIAL
    else
      var n := |es| - 1;
      exists t :: Runs(es[..n], t) && Enabled(t, es[n]) && s == Apply(t, es[n])
  }

  predicate Busy(pc: Pc) { pc.Trying? || pc.Draining? || pc.Sending? }

  ghost predicate Increasing(xs: seq<nat>) {
    forall i, j :: 0 <= i < j < |xs| ==> xs[i] < xs[j]
  }

  function Held(s: State): nat {
    (if s.slot.Some? then 1 else 0) + (if Busy(s.pc) then 1 else 0)
  }

  ghost predicate Inv(s: State) {
    && (Busy(s.pc) ==> s.produced > 0 && s.pc.batch == s.produced - 1)
    && (s.slot.Some? ==> s.slot.value < s.produced && (Busy(s.pc) ==> s.slot.value < s.pc.batch))
    && (s.pc.Sending? ==> s.slot.None?)
    && Increasing(s.received)
    && (forall i :: 0 <= i < |s.received| ==>
          && s.received[i] < s.produced
          && (s.slot.Some? ==> s.received[i] < s.slot.value)
          && (Busy(s.pc) ==> s.received[i] < s.pc.batch))
    && (forall i :: 0 <= i < |s.dropped| ==> s.dropped[i] + 1 < s.produced)
    && |s.received| + |s.dropped| + Held(s) == s.produced
    && (!Busy(s.pc) && s.produced > 0 ==> Newest(s))
  }

  /** The newest batch is waiting in the slot, or was the last one received. */
  ghost predicate Newest(s: State) {
    s.slot == Some(s.produced - 1) || (s.received != [] && s.received[|s.received| - 1] == s.produced - 1)
  }

  lemma StepKeeps(s: State, e: Event)
    requires Inv(s) && Enabled(s, e)
    ensures Inv(Apply(s, e))
  {
  }

  /**
    LATEST VALUE.  In every interleaving with any consumer: received batches strictly
    increase, the slot is free whenever the producer reaches its final send, a dropped batch
    is never the newest, every batch is received, dropped, in the slot or in hand, and an
    idle producer has left the newest batch in the slot or seen it received.
  */
  lemma {:induction false} Scan(es: seq<Event>, s: State)
    requires Runs(es, s)
    ensures Inv(s)
  {
    if es != [] {
      var n := |es| - 1;
      var t :| Runs(es[..n], t) && Enabled(t, es[n]) && s == Apply(t, es[n]);
      Scan(es[..n], t);
      StepKeeps(t, es[n]);
    }
  }

  function Rank(pc: Pc): nat {
    match pc case Trying(_) => 3 case Draining(_) => 2 case Sending(_) => 1 case _ => 0
  }

  ghost function Next(pc: Pc): Event
    requires Busy(pc)
  {
    match pc case Trying(_) => Try case Draining(_) => Drain case Sending(_) => Send
  }

  /**
    The producer never blocks: with a batch in hand its next step is always enabled and
    brings it nearer to idle, and a consumer's step neither disables nor delays it.
  */
  lemma NeverBlocks(es: seq<Event>, s: State)
    requires Runs(es, s) && Busy(s.pc)
    ensures Enabled(s, Next(s.pc)) && Rank(Apply(s, Next(s.pc)).pc) < Rank(s.pc) <= 3
    ensures Enabled(s, Consume) ==> Apply(s, Consume).pc == s.pc && Enabled(Apply(s, Consume), Next(s.pc))
  {
    Scan(es, s);
  }

  /** In how many places batch b is. */
  ghost function Places(s: State, b: nat): nat {
    multiset(s.received)[b] + multiset(s.dropped)[b] + (if s.slot == Some(b) then 1 else 0)
    + (if Busy(s.pc) && s.pc.batch == b then 1 else 0)
  }

  lemma StepConserves(s: State, e: Event, b: nat)
    requires Inv(s) && Enabled(s, e) && Places(s, b) == if b < s.produced then 1 else 0
    ensures Places(Apply(s, e), b) == if b < Apply(s, e).produced then 1 else 0
  {
  }

  /** No batch is duplicated or vanishes: each one produced is in exactly one place. */
  lemma {:induction false} Conserved(es: seq<Event>, s: State, b: nat)
    requires Runs(es, s)
    ensures Places(s, b) == if b < s.produced then 1 else 0
  {
    if es != [] {
      var n := |es| - 1;
      var t :| Runs(es[..n], t) && Enabled(t, es[n]) && s == Apply(t, es[n]);
      Conserved(es[..n], t, b);
      Scan(es[..n], t);
      StepConserves(t, es[n], b);
    }
  }

  lemma Extend(es: seq<Event>, s: State, e: Event) returns (es': seq<Event>, s': State)
    requires Runs(es, s) && Enabled(s, e)
    ensures Runs(es', s') && s' == Apply(s, e)
  {
    assert (es + [e])[..|es|] == es;
    es', s' := es + [e], Apply(s, e);
  }

  /** With nobody consuming, the second batch takes the first one's place. */
  lemma NewerReplaces()
    ensures exists es, s :: Runs(es, s) && s == State(Idle, Some(1), 2, [], [0])
  {
    var es, s := Extend([], INITIAL, Batch);
    es, s := Extend(es, s, Try);
    es, s := Extend(es, s, Batch);
    es, s := Extend(es, s, Try);
    es, s := Extend(es, s, Drain);
    es, s := Extend(es, s, Send);
    assert s == State(Idle, Some(1), 2, [], [0]);
  }

  /** And a batch is dropped only to make room for a newer one. */
  lemma DroppedForNewer(s: State, e: Event)
    requires Inv(s) && Enabled(s, e)
    ensures Apply(s, e).dropped == s.dropped
            || (s.slot.Some? && Apply(s, e).dropped == s.dropped + [s.slot.value]
                && Apply(s, e).pc.Sending? && s.slot.value < Apply(s, e).pc.batch)
  {
  }
}
