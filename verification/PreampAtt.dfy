/**
  PREAMP and ATT are two hamlib levels over one radio field, `rfgain`: nonnegative multiples of
  8 are preamplifier steps, negative values mean the attenuator is on.  A set command may leave
  the field alone so that the usual pair of commands works in either order.  Numbers are exact
  here; an argument that does not parse is an error before any of this, and NaN is left out.
*/
module PreampAtt {
  import opened Text

  datatype Control = Preamp | Att

  /** `math.Round`: to the nearest integer, halves away from zero. */
  function Round(x: real): int {
    if x >= 0.0 then (x + 0.5).Floor else -((-x + 0.5).Floor)
  }

  /** The gain after a set command, or None when the command is refused. */
  function SetGain(gain: int, c: Control, x: real): Option<int> {
    var level := 8 * Round(x);
    match c
    case Att =>
      if gain >= 0 && level == 0 then Some(gain)
      else if level == 0 then Some(0)
      else Some(-8)
    case Preamp =>
      if gain <= 0 && level == 0 then Some(gain)
      else if level < 0 || level > 24 then None
      else Some(level)
  }

  function GetLevel(gain: int, c: Control): int {
    match c
    case Att => if gain < 0 then 1 else 0
    case Preamp => if gain < 0 then 0 else gain / 8
  }

  /** The radio's slice, as far as these commands see it; None when the field is missing or not a number. */
  class Slice {
    var rfgain: Option<int>

    constructor (gain: Option<int>)
      ensures rfgain == gain
    {
      rfgain := gain;
    }

    /** `accepts` says whether the radio carries out the change it is sent. */
    method SetLevel(c: Control, x: real, accepts: bool) returns (ok: bool)
      modifies this
      ensures old(rfgain).None? ==> !ok && rfgain == old(rfgain)
      ensures old(rfgain).Some? ==>
                match SetGain(old(rfgain).value, c, x)
                case None => !ok && rfgain == old(rfgain)
                case Some(g) =>
                  if accepts || Unsent(old(rfgain).value, c, x) then ok && rfgain == Some(g)
                  else !ok && rfgain == old(rfgain)
    {
      var level := 8 * Round(x);
      if rfgain.None? { return false; }
      var gain := rfgain.value;
      var wanted := 0;
      if c == Att {
        if gain >= 0 && level == 0 { return true; }
        wanted := if level == 0 then 0 else -8;
      } else {
        if gain <= 0 && level == 0 { return true; }
        if level < 0 || level > 24 { return false; }
        wanted := level;
      }
      if !accepts { return false; }
      rfgain := Some(wanted);
      return true;
    }

    method ReadLevel(c: Control) returns (v: Option<int>)
      ensures v == if rfgain.Some? then Some(GetLevel(rfgain.value, c)) else None
    {
      if rfgain.None? { return None; }
      var gain := rfgain.value;
      if c == Att {
        v := Some(if gain < 0 then 1 else 0);
      } else {
        v := Some(if gain < 0 then 0 else gain / 8);
      }
    }
  }

  /** The commands that succeed without sending anything. */
  predicate Unsent(gain: int, c: Control, x: real) {
    Round(x) == 0 && if c == Att then gain >= 0 else gain <= 0
  }

  /** The gain after a command that may be refused. */
  function AfterSet(gain: int, c: Control, x: real): int {
    match SetGain(gain, c, x) case Some(g) => g case None => gain
  }

  function Both(gain: int, c: Control, x: real, d: Control, y: real): int {
    AfterSet(AfterSet(gain, c, x), d, y)
  }

  /**
    Setting both levels gives the same gain in either order, from any gain, exactly when they
    do not ask for a valid nonzero preamplifier step and the attenuator at once.
  */
  lemma OrderFree(gain: int, p: real, a: real)
    ensures Both(gain, Preamp, p, Att, a) == Both(gain, Att, a, Preamp, p)
            <==> !(1 <= Round(p) <= 3 && Round(a) != 0)
  {
  }

  /** With an in-range step and at most one of the two nonzero, both levels read back as set. */
  lemma ReadsBack(gain: int, p: real, a: real)
    requires 0 <= Round(p) <= 3 && (Round(p) == 0 || Round(a) == 0)
    ensures var g := Both(gain, Preamp, p, Att, a);
            && g == Both(gain, Att, a, Preamp, p)
            && GetLevel(g, Preamp) == Round(p) && GetLevel(g, Att) == if Round(a) != 0 then 1 else 0
  {
  }

  /** A level reads back as it was last set, and setting a level to 0 leaves the other one alone. */
  lemma SetThenGet(gain: int, c: Control, x: real, d: Control)
    requires SetGain(gain, c, x).Some?
    ensures var g := SetGain(gain, c, x).value;
            && GetLevel(g, c) == (if c == Att then (if Round(x) != 0 then 1 else 0) else Round(x))
            && (Round(x) == 0 && d != c ==> GetLevel(g, d) == GetLevel(gain, d))
  {
  }

  /** Rounding is to the nearest integer, and halves go away from zero. */
  lemma RoundExactly(x: real, n: int)
    ensures x >= 0.0 ==> (Round(x) == n <==> n as real - 0.5 <= x < n as real + 0.5)
    ensures Round(-x) == -Round(x)
  {
    if x >= 0.0 {
      var f := (x + 0.5).Floor;
      assert f as real <= x + 0.5 < f as real + 1.0;
    }
  }

  /** The gain that a command asks the radio for, or that it is refused. */
  lemma GainExactly(gain: int, x: real)
    ensures SetGain(gain, Att, x) == Some(if -0.5 < x < 0.5 then (if gain >= 0 then gain else 0) else -8)
    ensures -0.5 < x < 0.5 ==> SetGain(gain, Preamp, x) == Some(if gain <= 0 then gain else 0)
    ensures 0.5 <= x < 1.5 ==> SetGain(gain, Preamp, x) == Some(8)
    ensures 1.5 <= x < 2.5 ==> SetGain(gain, Preamp, x) == Some(16)
    ensures 2.5 <= x < 3.5 ==> SetGain(gain, Preamp, x) == Some(24)
    ensures x <= -0.5 || 3.5 <= x ==> SetGain(gain, Preamp, x) == None
  {
  }

  /** A command asks for nothing exactly when it would set to zero what already reads zero. */
  lemma UnsentExactly(gain: int, c: Control, x: real)
    ensures Unsent(gain, c, x) <==> -0.5 < x < 0.5 && (if c == Att then gain >= 0 else gain <= 0)
    ensures Unsent(gain, c, x) ==> SetGain(gain, c, x) == Some(gain)
  {
  }

  /** What is read: the attenuator is on below zero, and a step is eight of gain. */
  lemma LevelExactly(gain: int, n: int)
    ensures GetLevel(gain, Att) == if gain < 0 then 1 else 0
    ensures gain >= 0 ==> (GetLevel(gain, Preamp) == n <==> 8 * n <= gain < 8 * n + 8)
    ensures gain < 0 ==> GetLevel(gain, Preamp) == 0
  {
  }
}
