/**
  Metering: which radio meter feeds which hamlib level, and the values decoded from meter
  packets.  Four maps are updated in place; two of them are meant to be inverse.  The model
  is the value `Meters`; the class is the source's state, tied to it step by step.
*/
module Metering {
  import opened Text

  type Byte = x: int | 0 <= x < 256

  /** The fields of a radio object; a field that is not there reads as "". */
  type Object = map<string, string>

  function Get(o: Object, k: string): string { if k in o then o[k] else "" }

  datatype Meters = Meters(val: map<string, real>, meta: map<string, Object>,
                           flexToHamlib: map<string, string>, hamlibToFlex: map<string, string>)

  const EMPTY: Meters := Meters(map[], map[], map[], map[])

  /** The hamlib level a meter feeds, "" for none. */
  function Dest(meter: Object, sliceIdx: string): string {
    var src, nam := Get(meter, "src"), Get(meter, "nam");
    if src == "TX-" && nam == "HWALC" then "ALC"
    else if src == "TX-" && nam == "SWR" then "SWR"
    else if src == "TX-" && nam == "COMPPEAK" then "COMP_METER"
    else if src == "TX-" && nam == "FWDPWR" then "RFPOWER_METER_WATTS"
    else if src == "TX-" && nam == "PATEMP" then "TEMP_METER"
    else if src == "RAD" && nam == "+13.8A" then "VD_METER"
    else if src == "SLC" && Get(meter, "num") == sliceIdx && nam == "LEVEL" then "STRENGTH"
    else ""
  }

  function Unmap(s: Meters, name: string): Meters {
    if name in s.flexToHamlib then
      s.(flexToHamlib := s.flexToHamlib - {name}, hamlibToFlex := s.hamlibToFlex - {s.flexToHamlib[name]},
         val := s.val[name := 0.0])
    else s
  }

  function Map(s: Meters, name: string, meter: Object, dest: string): Meters {
    var f := if dest in s.hamlibToFlex then s.flexToHamlib - {s.hamlibToFlex[dest]} else s.flexToHamlib;
    s.(meta := s.meta[name := meter], flexToHamlib := f[name := dest], hamlibToFlex := s.hamlibToFlex[dest := name])
  }

  function Update(s: Meters, name: string, meter: Object, sliceIdx: string): Meters {
    if meter == map[] then Unmap(s, name)
    else if Dest(meter, sliceIdx) == "" then s
    else Map(s, name, meter, Dest(meter, sliceIdx))
  }

  // ---------- packets ----------

  function Digit(d: nat): char
    requires d < 10
  {
    ('0' as int + d) as char
  }

  function Decimal(n: nat): string {
    if n < 10 then [Digit(n)] else Decimal(n / 10) + [Digit(n % 10)]
  }

  function MeterName(id: nat): string { "meter " + Decimal(id) }

  function Uint16(hi: Byte, lo: Byte): (v: nat)
    ensures v < 0x10000
  {
    hi * 256 + lo
  }

  /** Two's complement. */
  function Int16(hi: Byte, lo: Byte): int {
    if Uint16(hi, lo) < 0x8000 then Uint16(hi, lo) else Uint16(hi, lo) - 0x10000
  }

  function Scaled(unit: string, raw: int): real {
    if unit == "dBm" || unit == "dBFS" || unit == "SWR" then raw as real / 128.0
    else if unit == "Volts" then raw as real / 256.0
    else if unit == "degF" || unit == "degC" then raw as real / 64.0
    else raw as real
  }

  datatype Record = Record(id: nat, raw: int)

  /** The whole four-byte records of a packet: big-endian id, big-endian signed value. */
  function Records(payload: seq<Byte>): (r: seq<Record>)
    ensures |r| == |payload| / 4
  {
    seq(|payload| / 4, i requires 0 <= i < |payload| / 4 => RecordAt(payload, i))
  }

  function RecordAt(payload: seq<Byte>, i: nat): Record
    requires 4 * i + 4 <= |payload|
  {
    Record(Uint16(payload[4 * i], payload[4 * i + 1]), Int16(payload[4 * i + 2], payload[4 * i + 3]))
  }

  function Mapped(s: Meters, name: string): bool {
    name in s.flexToHamlib && name in s.meta
  }

  function ApplyRecord(s: Meters, r: Record): Meters {
    var name := MeterName(r.id);
    if Mapped(s, name) then s.(val := s.val[name := Scaled(Get(s.meta[name], "unit"), r.raw)]) else s
  }

  /** The left fold over the records. */
  function ApplyAll(s: Meters, rs: seq<Record>): Meters {
    if rs == [] then s else ApplyRecord(ApplyAll(s, rs[..|rs| - 1]), rs[|rs| - 1])
  }

  function Decode(s: Meters, payload: seq<Byte>): Meters {
    ApplyAll(s, Records(payload))
  }

  datatype Read = Eof | Short | Got(hi: Byte, lo: Byte)

  class MeterTable {
    var meterVal: map<string, real>
    var meterMeta: map<string, Object>
    var flexToHamlib: map<string, string>
    var hamlibToFlex: map<string, string>
    // pktReader: the payload and the read position, which a seek may put past the end
    var data: seq<Byte>
    var pos: nat

    ghost function Model(): Meters
      reads this
    {
      Meters(meterVal, meterMeta, flexToHamlib, hamlibToFlex)
    }

    constructor ()
      ensures Model() == EMPTY
    {
      meterVal, meterMeta, flexToHamlib, hamlibToFlex := map[], map[], map[], map[];
      data, pos := [], 0;
    }

    method ResetMetering()
      modifies this
      ensures Model() == EMPTY
    {
      meterVal := map[];
      meterMeta := map[];
      flexToHamlib := map[];
      hamlibToFlex := map[];
    }

    method MeterUpdate(meterName: string, meter: Object, sliceIdx: string)
      modifies this
      ensures Model() == Update(old(Model()), meterName, meter, sliceIdx)
    {
      if |meter| == 0 {
        if meterName in flexToHamlib {
          var rev := flexToHamlib[meterName];
          flexToHamlib := flexToHamlib - {meterName};
          hamlibToFlex := hamlibToFlex - {rev};
          meterVal := meterVal[meterName := 0.0];
        }
        return;
      }
      var dest := Dest(meter, sliceIdx);
      if dest != "" {
        meterMeta := meterMeta[meterName := meter];
        if dest in hamlibToFlex {
          flexToHamlib := flexToHamlib - {hamlibToFlex[dest]};
        }
        flexToHamlib := flexToHamlib[meterName := dest];
        hamlibToFlex := hamlibToFlex[dest := meterName];
      }
    }

    /** `binary.Read` of two bytes: nothing left, one byte left, or both. */
    method ReadTwo() returns (r: Read)
      modifies this`pos
      ensures r == if old(pos) >= |data| then Eof else if old(pos) + 1 == |data| then Short
                   else Got(data[old(pos)], data[old(pos) + 1])
      ensures pos == old(pos) + (match r case Eof => 0 case Short => 1 case Got(_, _) => 2)
    {
      if pos >= |data| {
        r := Eof;
      } else if pos + 1 == |data| {
        pos := pos + 1;
        r := Short;
      } else {
        r := Got(data[pos], data[pos + 1]);
        pos := pos + 2;
      }
    }

    /**
      One turn of the decode loop at record i: a whole record is applied; a payload that ends
      inside the record changes nothing, although the seek may then go past the end.
    */
    method NextRecord(ghost i: nat) returns (more: bool)
      requires pos == 4 * i
      modifies this`meterVal, this`pos
      ensures 4 * i + 4 <= |data| ==> more && Model() == ApplyRecord(old(Model()), RecordAt(data, i))
      ensures 4 * i + 4 > |data| ==> Model() == old(Model()) && (more ==> 4 * i + 1 < |data|)
      ensures more ==> pos == 4 * i + 4
    {
      var r := ReadTwo();
      if !r.Got? { return false; }
      var name := MeterName(Uint16(r.hi, r.lo));
      if name !in flexToHamlib {
        pos := pos + 2;
        return true;
      }
      if name !in meterMeta {
        pos := pos + 2;
        return true;
      }
      r := ReadTwo();
      if !r.Got? { return false; }
      var rawVal := Int16(r.hi, r.lo);
      meterVal := meterVal[name := Scaled(Get(meterMeta[name], "unit"), rawVal)];
      return true;
    }

    method MeterPacket(payload: seq<Byte>)
      modifies this
      ensures Model() == Decode(old(Model()), payload)
    {
      data, pos := payload, 0;
      ghost var i, rs := 0, Records(payload);
      var more := true;
      while more
        invariant data == payload && i <= |rs| + 1
        invariant more ==> pos == 4 * i
        invariant !more ==> i >= |rs|
        invariant Model() == ApplyAll(old(Model()), if i <= |rs| then rs[..i] else rs)
        decreases |rs| + 1 - i, more
      {
        assert rs[..|rs|] == rs;
        if i < |rs| { ApplyNext(old(Model()), rs, i); }
        more := NextRecord(i);
        if more { i := i + 1; }
      }
      assert rs[..|rs|] == rs;
    }

    /** The value behind a hamlib level, before its dBm conversion; None is the error reply. */
    method GetLevel(metering: bool, levels: set<string>, level: string) returns (v: Option<real>)
      ensures v == LevelValue(Model(), metering, levels, level)
    {
      if !metering || level !in levels { return None; }
      var l := level;
      if l == "RFPOWER_METER" {
        l := "RFPOWER_METER_WATTS";
      }
      if l !in hamlibToFlex { return None; }
      var meterName := hamlibToFlex[l];
      if meterName in meterVal {
        v := Some(meterVal[meterName]);
      } else {
        v := Some(0.0);
      }
    }
  }

  lemma ApplyNext(s: Meters, rs: seq<Record>, i: nat)
    requires i < |rs|
    ensures ApplyAll(s, rs[..i + 1]) == ApplyRecord(ApplyAll(s, rs[..i]), rs[i])
  {
    assert rs[..i + 1][..i] == rs[..i];
  }

  /** Two levels share one meter and differ only in the conversion. */
  function SourceLevel(level: string): string {
    if level == "RFPOWER_METER" then "RFPOWER_METER_WATTS" else level
  }

  function LevelValue(s: Meters, metering: bool, levels: set<string>, level: string): Option<real> {
    var l := SourceLevel(level);
    if !metering || level !in levels || l !in s.hamlibToFlex then None
    else if s.hamlibToFlex[l] in s.val then Some(s.val[s.hamlibToFlex[l]])
    else Some(0.0)
  }

  // ---------- the wire ----------

  /** Four bytes, high byte first, are read as the id and the signed value they encode, wherever they stand. */
  lemma RecordRoundTrip(a: seq<Byte>, id: nat, v: int, b: seq<Byte>)
    requires |a| % 4 == 0 && id < 0x10000 && -0x8000 <= v < 0x8000
    ensures var w := v % 0x10000;
            var payload := a + [id / 256, id % 256, w / 256, w % 256] + b;
            |a| / 4 < |Records(payload)| && Records(payload)[|a| / 4] == Record(id, v)
  {
    var w := v % 0x10000;
    var payload: seq<Byte> := a + [id / 256, id % 256, w / 256, w % 256] + b;
    var i := |a| / 4;
    assert 4 * i == |a|;
    assert payload[4 * i] == id / 256 && payload[4 * i + 1] == id % 256;
    assert payload[4 * i + 2] == w / 256 && payload[4 * i + 3] == w % 256;
    assert w == if v >= 0 then v else v + 0x10000;
  }

  /** The unit says how many steps of the raw value make one. */
  lemma ScaledExactly(unit: string, raw: int)
    ensures Scaled("dBm", raw) * 128.0 == Scaled("dBFS", raw) * 128.0 == Scaled("SWR", raw) * 128.0 == raw as real
    ensures Scaled("Volts", raw) * 256.0 == raw as real
    ensures Scaled("degF", raw) * 64.0 == Scaled("degC", raw) * 64.0 == raw as real
    ensures unit != "dBm" && unit != "dBFS" && unit != "SWR" && unit != "Volts" && unit != "degF" && unit != "degC" ==>
              Scaled(unit, raw) == raw as real
  {
    UnitsDiffer();
  }

  lemma UnitsDiffer()
    ensures "Volts" != "dBm" && "Volts" != "dBFS" && "Volts" != "SWR"
    ensures "degF" != "dBm" && "degF" != "dBFS" && "degF" != "SWR" && "degF" != "Volts"
    ensures "degC" != "dBm" && "degC" != "dBFS" && "degC" != "SWR" && "degC" != "Volts"
  {
    assert "Volts"[0] == 'V' && "degF"[1] == 'e' && "degC"[1] == 'e' && "dBFS"[1] == 'B' && "SWR"[0] == 'S';
  }

  /** The names are decimal, without leading zeros, as in "meter 1". */
  lemma {:induction false} DecimalDigits(n: nat)
    ensures Decimal(n) != "" && forall i :: 0 <= i < |Decimal(n)| ==> '0' <= Decimal(n)[i] <= '9'
    ensures n > 0 ==> Decimal(n)[0] != '0'
  {
    assert '0' <= Digit(n % 10) <= '9' && (n % 10 > 0 ==> Digit(n % 10) != '0');
    if n >= 10 { DecimalDigits(n / 10); }
  }

  lemma MeterNames(n: nat)
    ensures |MeterName(n)| > 6 && MeterName(n)[..6] == "meter " && DecimalValue(MeterName(n)[6..]) == n
    ensures MeterName(0) == "meter 0" && MeterName(1) == "meter 1" && MeterName(65535) == "meter 65535"
  {
    DecimalDigits(n);
    DecimalReads(n);
    assert MeterName(n)[6..] == Decimal(n);
    assert Decimal(65) == "6" + "5" == "65";
    assert Decimal(655) == "65" + "5" == "655";
    assert Decimal(6553) == "655" + "3" == "6553";
    assert Decimal(65535) == "6553" + "5" == "65535";
  }

  /** Which meter feeds which level. */
  lemma FeedsExactly(meter: Object, sliceIdx: string, level: string)
    ensures level != "" ==>
              (Dest(meter, sliceIdx) == level <==>
               var src, nam := Get(meter, "src"), Get(meter, "nam");
               || (src == "TX-" && nam == "HWALC" && level == "ALC")
               || (src == "TX-" && nam == "SWR" && level == "SWR")
               || (src == "TX-" && nam == "COMPPEAK" && level == "COMP_METER")
               || (src == "TX-" && nam == "FWDPWR" && level == "RFPOWER_METER_WATTS")
               || (src == "TX-" && nam == "PATEMP" && level == "TEMP_METER")
               || (src == "RAD" && nam == "+13.8A" && level == "VD_METER")
               || (src == "SLC" && nam == "LEVEL" && level == "STRENGTH" && Get(meter, "num") == sliceIdx))
  {
    assert "TX-"[0] == 'T' && "RAD"[0] == 'R' && "SLC"[0] == 'S';
    assert "HWALC"[0] == 'H' && "SWR"[0] == 'S' && "COMPPEAK"[0] == 'C' && "FWDPWR"[0] == 'F' && "PATEMP"[0] == 'P';
  }

  const SWR_METER: Object := map["src" := "TX-", "nam" := "SWR", "unit" := "SWR"]

  lemma Announced(t: Meters)
    requires t == Next(EMPTY, Updated("meter 1", SWR_METER, "0"))
    ensures t.meta == map["meter 1" := SWR_METER]
    ensures t.flexToHamlib == map["meter 1" := "SWR"] && t.hamlibToFlex == map["SWR" := "meter 1"]
  {
    FeedsExactly(SWR_METER, "0", "SWR");
  }

  lemma FourBytesRead(s: Meters, t: Meters)
    requires t == Decode(s, [0, 1, 1, 128]) && Mapped(s, "meter 1") && Get(s.meta["meter 1"], "unit") == "SWR"
    ensures "meter 1" in t.val && t.val["meter 1"] == 3.0 && t == s.(val := t.val)
  {
    RecordRoundTrip([], 1, 384, []);
    assert [] + [1 / 256, 1 % 256, 384 / 256, 384 % 256] + [] == [0, 1, 1, 128];
    MeterNames(1);
    ScaledExactly("SWR", 384);
    LastRecordWins(s, [0, 1, 1, 128], 0);
    OthersUntouched(s, [0, 1, 1, 128], "");
  }

  /** One announcement and one packet, to the value that is read. */
  lemma AnnouncedThenRead(s: Meters)
    requires s == After([Updated("meter 1", SWR_METER, "0"), Packet([0, 1, 1, 128])])
    ensures LevelValue(s, true, {"SWR"}, "SWR") == Some(3.0)
  {
    var e, f := Updated("meter 1", SWR_METER, "0"), Packet([0, 1, 1, 128]);
    assert [e, f][..1] == [e] && [e][..0] == [];
    assert After([]) == EMPTY && After([e]) == Next(EMPTY, e) && s == Next(After([e]), f);
    Announced(Next(EMPTY, e));
    assert SWR_METER["unit"] == "SWR";
    FourBytesRead(Next(EMPTY, e), s);
    assert "SWR"[0] != "RFPOWER_METER"[0];
  }

  // ---------- decoding ----------

  lemma {:induction false} ApplyAppend(s: Meters, a: seq<Record>, b: seq<Record>)
    ensures ApplyAll(s, a + b) == ApplyAll(ApplyAll(s, a), b)
  {
    if b == [] {
      assert a + b == a;
    } else {
      ApplyAppend(s, a, b[..|b| - 1]);
      assert (a + b)[..|a + b| - 1] == a + b[..|b| - 1];
    }
  }

  /** Two payloads in one packet act like two packets, if the first ends on a record boundary. */
  lemma DecodeAppend(s: Meters, a: seq<Byte>, b: seq<Byte>)
    requires |a| % 4 == 0
    ensures Decode(s, a + b) == Decode(Decode(s, a), b)
  {
    RecordsAppend(a, b);
    ApplyAppend(s, Records(a), Records(b));
  }

  lemma RecordsAppend(a: seq<Byte>, b: seq<Byte>)
    requires |a| % 4 == 0
    ensures Records(a + b) == Records(a) + Records(b)
  {
  }

  /** One to three trailing bytes change nothing. */
  lemma TrailingBytes(s: Meters, a: seq<Byte>, b: seq<Byte>)
    requires |a| % 4 == 0 && |b| < 4
    ensures Decode(s, a + b) == Decode(s, a)
  {
    DecodeAppend(s, a, b);
  }

  lemma {:induction false} ApplyKeepsMaps(s: Meters, rs: seq<Record>)
    ensures ApplyAll(s, rs) == s.(val := ApplyAll(s, rs).val)
  {
    if rs != [] { ApplyKeepsMaps(s, rs[..|rs| - 1]); }
  }

  function DecimalValue(s: string): int {
    if s == "" then 0 else 10 * DecimalValue(s[..|s| - 1]) + (s[|s| - 1] as int - '0' as int)
  }

  lemma {:induction false} DecimalReads(n: nat)
    ensures DecimalValue(Decimal(n)) == n
  {
    assert Digit(n % 10) as int - '0' as int == n % 10;
    if n < 10 {
      assert Decimal(n)[..0] == "";
    } else {
      DecimalReads(n / 10);
      assert Decimal(n)[..|Decimal(n)| - 1] == Decimal(n / 10);
    }
  }

  /** Different ids name different meters. */
  lemma MeterNameInjective(a: nat, b: nat)
    requires MeterName(a) == MeterName(b)
    ensures a == b
  {
    assert MeterName(a)[6..] == Decimal(a) && MeterName(b)[6..] == Decimal(b);
    DecimalReads(a);
    DecimalReads(b);
  }

  lemma {:induction false} LastApplied(s: Meters, rs: seq<Record>, k: nat)
    requires k < |rs| && forall i :: k < i < |rs| ==> rs[i].id != rs[k].id
    ensures var name, t := MeterName(rs[k].id), ApplyAll(s, rs);
            Mapped(s, name) ==> name in t.val && t.val[name] == Scaled(Get(s.meta[name], "unit"), rs[k].raw)
  {
    var n := |rs| - 1;
    ApplyKeepsMaps(s, rs[..n]);
    if k < n {
      LastApplied(s, rs[..n], k);
      if MeterName(rs[n].id) == MeterName(rs[k].id) { MeterNameInjective(rs[n].id, rs[k].id); }
    }
  }

  lemma {:induction false} UnmappedUntouched(s: Meters, rs: seq<Record>, name: string)
    requires !Mapped(s, name) || forall i :: 0 <= i < |rs| ==> MeterName(rs[i].id) != name
    ensures var t := ApplyAll(s, rs);
            (name in t.val <==> name in s.val) && (name in s.val ==> t.val[name] == s.val[name])
  {
    if rs != [] {
      UnmappedUntouched(s, rs[..|rs| - 1], name);
      ApplyKeepsMaps(s, rs[..|rs| - 1]);
    }
  }

  /**
    After a packet a mapped meter holds the value of the last record with its id, scaled by its
    unit.
  */
  lemma LastRecordWins(s: Meters, payload: seq<Byte>, k: nat)
    requires 4 * k + 4 <= |payload| && Mapped(s, MeterName(RecordAt(payload, k).id))
    requires forall i: nat :: k < i < |payload| / 4 ==> RecordAt(payload, i).id != RecordAt(payload, k).id
    ensures var r, t := RecordAt(payload, k), Decode(s, payload);
            MeterName(r.id) in t.val && t.val[MeterName(r.id)] == Scaled(Get(s.meta[MeterName(r.id)], "unit"), r.raw)
  {
    LastApplied(s, Records(payload), k);
  }

  /** A meter that is not mapped, or that no record names, keeps its value or its lack of one. */
  lemma OthersUntouched(s: Meters, payload: seq<Byte>, name: string)
    requires !Mapped(s, name) || forall i: nat :: i < |payload| / 4 ==> MeterName(RecordAt(payload, i).id) != name
    ensures var t := Decode(s, payload);
            (name in t.val <==> name in s.val) && (name in s.val ==> t.val[name] == s.val[name])
    ensures Decode(s, payload) == s.(val := Decode(s, payload).val)
  {
    UnmappedUntouched(s, Records(payload), name);
    ApplyKeepsMaps(s, Records(payload));
  }

  // ---------- the two maps over all runs ----------

  datatype Event =
    | Updated(name: string, meter: Object, sliceIdx: string)
    | Packet(payload: seq<Byte>)
    | Reset

  function Next(s: Meters, e: Event): Meters {
    match e
    case Updated(name, meter, sliceIdx) => Update(s, name, meter, sliceIdx)
    case Packet(payload) => Decode(s, payload)
    case Reset => EMPTY
  }

  function After(es: seq<Event>): Meters {
    if es == [] then EMPTY else Next(After(es[..|es| - 1]), es[|es| - 1])
  }

  ghost predicate Inv(s: Meters) {
    && (forall m :: m in s.flexToHamlib ==>
          s.flexToHamlib[m] in s.hamlibToFlex && s.hamlibToFlex[s.flexToHamlib[m]] == m)
    && s.flexToHamlib.Keys <= s.meta.Keys
    && s.val.Keys <= s.meta.Keys
  }

  ghost predicate Inverse(s: Meters) {
    Inv(s) && forall d :: d in s.hamlibToFlex ==>
                s.hamlibToFlex[d] in s.flexToHamlib && s.flexToHamlib[s.hamlibToFlex[d]] == d
  }

  lemma {:induction false} ApplyKeepsInv(s: Meters, rs: seq<Record>)
    requires s.val.Keys <= s.meta.Keys
    ensures ApplyAll(s, rs).val.Keys <= s.meta.Keys
  {
    if rs != [] {
      ApplyKeepsInv(s, rs[..|rs| - 1]);
      ApplyKeepsMaps(s, rs[..|rs| - 1]);
    }
  }

  lemma NextKeeps(s: Meters, e: Event)
    requires Inv(s)
    ensures Inv(Next(s, e))
  {
    match e
    case Updated(name, meter, sliceIdx) =>
    case Packet(payload) =>
      ApplyKeepsMaps(s, Records(payload));
      ApplyKeepsInv(s, Records(payload));
    case Reset =>
  }

  /**
    After any events: every mapped meter is the one its level points back to, so no two meters
    feed one level; it has metadata; and only meters with metadata have values.
  */
  lemma {:induction false} MapsAgree(es: seq<Event>)
    ensures Inv(After(es))
  {
    if es != [] {
      MapsAgree(es[..|es| - 1]);
      NextKeeps(After(es[..|es| - 1]), es[|es| - 1]);
    }
  }

  /**
    A meter announced for a level takes it over and evicts exactly the meter the level pointed
    at; while the maps are inverse that is exactly the meter that fed the level.
  */
  lemma AnnounceTakesOver(s: Meters, name: string, meter: Object, sliceIdx: string, m: string)
    requires Inv(s) && meter != map[] && Dest(meter, sliceIdx) != "" && m != name
    ensures var t, d := Update(s, name, meter, sliceIdx), Dest(meter, sliceIdx);
            && name in t.flexToHamlib && t.flexToHamlib[name] == d && name in t.meta && t.meta[name] == meter
            && d in t.hamlibToFlex && t.hamlibToFlex[d] == name
            && (m in t.meta <==> m in s.meta) && (m in s.meta ==> t.meta[m] == s.meta[m])
            && (forall e :: e != d ==>
                  (e in t.hamlibToFlex <==> e in s.hamlibToFlex)
                  && (e in s.hamlibToFlex ==> t.hamlibToFlex[e] == s.hamlibToFlex[e]))
            && (m in t.flexToHamlib <==> m in s.flexToHamlib && !(d in s.hamlibToFlex && s.hamlibToFlex[d] == m))
            && (Inverse(s) ==> (m in t.flexToHamlib <==> m in s.flexToHamlib && s.flexToHamlib[m] != d))
            && (m in t.flexToHamlib ==> t.flexToHamlib[m] == s.flexToHamlib[m])
            && t.val == s.val
  {
  }

  /** A removed meter stops feeding its level, reads 0, and disturbs no other. */
  lemma RemovalUnmaps(s: Meters, name: string, sliceIdx: string, m: string)
    requires Inv(s) && name in s.flexToHamlib && m != name
    ensures var t := Update(s, name, map[], sliceIdx);
            && name !in t.flexToHamlib && s.flexToHamlib[name] !in t.hamlibToFlex
            && name in t.val && t.val[name] == 0.0 && t.meta == s.meta
            && (forall e :: e in t.hamlibToFlex <==> e in s.hamlibToFlex && e != s.flexToHamlib[name])
            && (forall e :: e in t.hamlibToFlex ==> t.hamlibToFlex[e] == s.hamlibToFlex[e])
            && (m in t.flexToHamlib <==> m in s.flexToHamlib)
            && (m in t.flexToHamlib ==> t.flexToHamlib[m] == s.flexToHamlib[m] && t.flexToHamlib[m] in t.hamlibToFlex)
            && (m in t.val <==> m in s.val) && (m in s.val ==> t.val[m] == s.val[m])
  {
  }

  /** An announcement for no level, or the removal of a meter that feeds none, changes nothing. */
  lemma NothingToMap(s: Meters, name: string, meter: Object, sliceIdx: string)
    requires if meter == map[] then name !in s.flexToHamlib else Dest(meter, sliceIdx) == ""
    ensures Update(s, name, meter, sliceIdx) == s
  {
  }

  lemma LevelFedOnce(es: seq<Event>, m: string, n: string)
    requires m in After(es).flexToHamlib && n in After(es).flexToHamlib
    requires After(es).flexToHamlib[m] == After(es).flexToHamlib[n]
    ensures m == n
  {
    MapsAgree(es);
  }

  /** A mapped meter announced again with another level. */
  predicate Moves(s: Meters, e: Event) {
    e.Updated? && e.meter != map[] && Dest(e.meter, e.sliceIdx) != ""
    && e.name in s.flexToHamlib && s.flexToHamlib[e.name] != Dest(e.meter, e.sliceIdx)
  }

  /** From exact inverses, an event leaves exact inverses exactly when no mapped meter moves. */
  lemma InverseExactly(s: Meters, e: Event)
    requires Inverse(s)
    ensures Inverse(Next(s, e)) <==> !Moves(s, e)
  {
    NextKeeps(s, e);
    match e
    case Updated(name, meter, sliceIdx) =>
      if Moves(s, e) {
        MovedIsStale(s, name, meter, Dest(meter, sliceIdx));
      }
    case Packet(payload) => ApplyKeepsMaps(s, Records(payload));
    case Reset =>
  }

  /** The level a meter moved away from still points at it. */
  lemma MovedIsStale(s: Meters, name: string, meter: Object, dest: string)
    requires Inverse(s) && name in s.flexToHamlib && s.flexToHamlib[name] != dest
    ensures var t, d := Map(s, name, meter, dest), s.flexToHamlib[name];
            d in t.hamlibToFlex && t.hamlibToFlex[d] == name && t.flexToHamlib[name] == dest
  {
  }

  ghost predicate Steady(es: seq<Event>) {
    forall i :: 0 <= i < |es| ==> !Moves(After(es[..i]), es[i])
  }

  ghost predicate InverseThroughout(es: seq<Event>) {
    forall i :: 0 <= i <= |es| ==> Inverse(After(es[..i]))
  }

  lemma {:induction false} SteadySnoc(init: seq<Event>, e: Event)
    ensures Steady(init + [e]) <==> Steady(init) && !Moves(After(init), e)
  {
    var es := init + [e];
    forall i | 0 <= i <= |init| ensures es[..i] == init[..i] && es[i] == if i < |init| then init[i] else e {}
    assert init[..|init|] == init;
    if Steady(es) {
      assert !Moves(After(es[..|init|]), es[|init|]);
      forall i | 0 <= i < |init| ensures !Moves(After(init[..i]), init[i]) {
        assert !Moves(After(es[..i]), es[i]);
      }
    }
  }

  lemma InverseSnoc(init: seq<Event>, e: Event)
    ensures InverseThroughout(init + [e]) <==> InverseThroughout(init) && Inverse(After(init + [e]))
  {
    var es := init + [e];
    forall i | 0 <= i <= |init| ensures es[..i] == init[..i] {}
    assert es[..|es|] == es;
    if InverseThroughout(es) {
      assert Inverse(After(es[..|es|]));
      forall i | 0 <= i <= |init| ensures Inverse(After(init[..i])) {
        assert Inverse(After(es[..i]));
      }
    }
  }

  lemma AlwaysSnoc(init: seq<Event>, e: Event)
    requires Steady(init) <==> InverseThroughout(init)
    ensures Steady(init + [e]) <==> InverseThroughout(init + [e])
  {
    SteadySnoc(init, e);
    InverseSnoc(init, e);
    if InverseThroughout(init) {
      assert init[..|init|] == init && (init + [e])[..|init|] == init;
      InverseExactly(After(init), e);
    }
  }

  /** Over a whole run the maps are exact inverses at every point exactly when no mapped meter ever moves. */
  lemma {:induction false} InverseAlways(es: seq<Event>)
    ensures Steady(es) <==> InverseThroughout(es)
    ensures Steady(es) ==> Inverse(After(es))
  {
    if es == [] {
      assert forall i :: 0 <= i <= |es| ==> es[..i] == [];
    } else {
      var init, e := es[..|es| - 1], es[|es| - 1];
      InverseAlways(init);
      AlwaysSnoc(init, e);
      Snoc(es);
    }
    LastPoint(es);
  }

  lemma LastPoint(es: seq<Event>)
    ensures InverseThroughout(es) ==> Inverse(After(es))
  {
    assert es[..|es|] == es;
  }

  /**
    Then each level reads the value of the one meter mapped to it, and fails exactly when there is
    none, the level is not served or metering is off.  RFPOWER_METER reads what
    RFPOWER_METER_WATTS reads.
  */
  lemma {:induction false} LevelReadsItsMeter(es: seq<Event>, on: bool, levels: set<string>, level: string, m: string)
    requires Steady(es)
    ensures var s := After(es);
            var fed := if level == "RFPOWER_METER" then "RFPOWER_METER_WATTS" else level;
            && (on && level in levels && m in s.flexToHamlib && s.flexToHamlib[m] == fed ==>
                  LevelValue(s, on, levels, level) == Some(if m in s.val then s.val[m] else 0.0))
            && (LevelValue(s, on, levels, level).None? <==>
                  !on || level !in levels || forall n :: n in s.flexToHamlib ==> s.flexToHamlib[n] != fed)
  {
    InverseAlways(es);
  }

  /** A meter announced first as SWR and then as ALC leaves SWR pointing at it. */
  lemma MoveLeavesStaleLevel(a: Object, b: Object, s: Meters)
    requires a == map["src" := "TX-", "nam" := "SWR"] && b == map["src" := "TX-", "nam" := "HWALC"]
    requires s == Next(Next(EMPTY, Updated("meter 1", a, "0")), Updated("meter 1", b, "0"))
    ensures s.hamlibToFlex == map["SWR" := "meter 1", "ALC" := "meter 1"] && s.flexToHamlib == map["meter 1" := "ALC"]
    ensures !Inverse(s)
  {
    assert Dest(a, "0") == "SWR" && Dest(b, "0") == "ALC";
    assert s.hamlibToFlex["SWR"] == "meter 1" && s.flexToHamlib["meter 1"] == "ALC";
  }

  /** A stale level costs a meter its own level: announcing another meter as SWR then unmaps the one that feeds ALC. */
  lemma StaleLevelEvictsAnother(a: Object, b: Object, s: Meters)
    requires a == map["src" := "TX-", "nam" := "SWR"] && b == map["src" := "TX-", "nam" := "HWALC"]
    requires s == Next(Next(EMPTY, Updated("meter 1", a, "0")), Updated("meter 1", b, "0"))
    ensures var t := Next(s, Updated("meter 2", a, "0"));
            "meter 1" !in t.flexToHamlib && t.hamlibToFlex == map["SWR" := "meter 2", "ALC" := "meter 1"]
  {
    MoveLeavesStaleLevel(a, b, s);
    assert Dest(a, "0") == "SWR";
    assert "meter 1"[6] != "meter 2"[6];
  }
}
