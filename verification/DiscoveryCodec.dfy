/**
  The discovery payload codec of the proxy: `parseDiscoveryPayload` and
  `buildDiscoveryPacket`.  Both methods are the source's loops; the functions they are
  proved against (`Parse`, `Packet`) carry the theorems: when a map survives the wire,
  what a rebuilt payload parses to, how long it can be, and what the header says.
*/
module DiscoveryCodec {
  import opened Text
  import opened Order
  import opened VitaFrame

  const CUT: set<char> := {' ', NUL}

  // ---------- parsing ----------

  /** One field of the payload added to the map; a field without '=' is ignored. */
  function AddField(m: map<string, string>, part: string): map<string, string> {
    var n := IndexByte(part, '=');
    if n >= 0 then m[part[..n] := ReplaceByte(part[n + 1..], DEL, ' ')] else m
  }

  function ParseFields(parts: seq<string>): map<string, string> {
    if parts == [] then map[]
    else AddField(ParseFields(parts[..|parts| - 1]), parts[|parts| - 1])
  }

  function Parse(s: string): map<string, string> {
    ParseFields(Fields(Trim(s, CUT)))
  }

  lemma ParseNext(parts: seq<string>, i: nat)
    requires i < |parts|
    ensures ParseFields(parts[..i + 1]) == AddField(ParseFields(parts[..i]), parts[i])
  {
    assert parts[..i + 1][..i] == parts[..i];
  }

  method ParseDiscoveryPayload(s: string) returns (result: map<string, string>)
    ensures result == Parse(s)
  {
    result := map[];
    var parts := Fields(Trim(s, CUT));
    for i := 0 to |parts|
      invariant result == ParseFields(parts[..i])
    {
      ParseNext(parts, i);
      var part := parts[i];
      var idx := IndexByte(part, '=');
      if idx >= 0 {
        result := result[part[..idx] := ReplaceByte(part[idx + 1..], DEL, ' ')];
      }
    }
    assert parts[..|parts|] == parts;
  }

  /** A key's value is the one in the last field that names it. */
  ghost predicate Names(part: string, k: string) {
    var n := IndexByte(part, '='); n >= 0 && part[..n] == k
  }

  lemma {:induction false} LastFieldWins(parts: seq<string>, i: nat, k: string)
    requires i < |parts| && Names(parts[i], k) && forall j :: i < j < |parts| ==> !Names(parts[j], k)
    ensures k in ParseFields(parts) && ParseFields(parts)[k] == ReplaceByte(parts[i][|k| + 1..], DEL, ' ')
  {
    var n := |parts| - 1;
    if i < n {
      LastFieldWins(parts[..n], i, k);
      assert !Names(parts[n], k);
    }
  }

  /** A field names what stands before its first '=', and a decoded 0x7f is a space. */
  lemma FieldRead(k: string, e: string, m: map<string, string>)
    requires '=' !in k
    ensures AddField(m, k + "=" + e) == m[k := ReplaceByte(e, '\U{7F}', ' ')]
  {
    var part := k + "=" + e;
    assert part[|k|] == '=' && forall i :: 0 <= i < |k| ==> part[i] == k[i];
    assert IndexByte(part, '=') == |k| && part[..|k|] == k && part[|k| + 1..] == e;
  }

  /** A key that no field names is not in the map. */
  lemma {:induction false} UnnamedAbsent(parts: seq<string>, k: string)
    requires forall i :: 0 <= i < |parts| ==> !Names(parts[i], k)
    ensures k !in ParseFields(parts)
  {
    if parts != [] {
      UnnamedAbsent(parts[..|parts| - 1], k);
    }
  }

  // ---------- what a map must look like to survive ----------

  ghost predicate CleanKey(k: string) {
    '=' !in k && forall i :: 0 <= i < |k| ==> k[i] !in WHITESPACE
  }

  ghost predicate CleanValue(v: string) {
    forall i :: 0 <= i < |v| ==> v[i] != DEL && (v[i] in WHITESPACE ==> v[i] == ' ')
  }

  ghost predicate Encodable(kv: map<string, string>) {
    forall k :: k in kv ==> CleanKey(k) && CleanValue(kv[k])
  }

  /** The two bytes that end up at the edges of the payload are not NUL. */
  ghost predicate EdgesKept(kv: map<string, string>) {
    kv == map[] ||
    var keys := SortedKeys(kv.Keys);
    SortedKeysAreKeys(kv.Keys);
    var last := keys[|keys| - 1];
    assert last in kv.Keys;
    !HasPrefix(keys[0], [NUL]) && (kv[last] != "" ==> kv[last][|kv[last]| - 1] != NUL)
  }

  ghost predicate NulFree(kv: map<string, string>) {
    forall k :: k in kv ==> NUL !in k && NUL !in kv[k]
  }

  lemma StartsWithNul(k: string)
    ensures HasPrefix(k, [NUL]) <==> k != "" && k[0] == NUL
  {
    if k != "" { assert k[..1] == [k[0]]; }
  }

  lemma NulFreeKeepsEdges(kv: map<string, string>)
    requires NulFree(kv)
    ensures EdgesKept(kv)
  {
    if kv != map[] {
      var keys := SortedKeys(kv.Keys);
      SortedKeysAreKeys(kv.Keys);
      assert keys[0] in kv.Keys && keys[|keys| - 1] in kv.Keys;
      StartsWithNul(keys[0]);
    }
  }

  // ---------- building ----------

  function Part(k: string, v: string): string {
    k + "=" + ReplaceByte(v, ' ', DEL)
  }

  ghost function Parts(keys: seq<string>, kv: map<string, string>): (r: seq<string>)
    requires forall k :: k in keys ==> k in kv
    ensures |r| == |keys| && forall i :: 0 <= i < |keys| ==> r[i] == Part(keys[i], kv[keys[i]])
  {
    seq(|keys|, i requires 0 <= i < |keys| => Part(keys[i], kv[keys[i]]))
  }

  /** The parts of a map in canonical order. */
  ghost function MapParts(kv: map<string, string>): seq<string> {
    SortedKeysAreKeys(kv.Keys);
    Parts(SortedKeys(kv.Keys), kv)
  }

  ghost function Payload(kv: map<string, string>): string {
    Join(MapParts(kv), " ")
  }

  ghost function Packet(kv: map<string, string>): string {
    Frame(Payload(kv))
  }

  /** Bytes 12 onward of the packet. */
  ghost function Wire(kv: map<string, string>): string {
    Payload(kv) + Padding(|Payload(kv)|)
  }

  lemma PacketPayload(kv: map<string, string>)
    ensures |Packet(kv)| >= 12 && Packet(kv)[12..] == Wire(kv)
  {
    FrameLayout(Payload(kv));
  }

  /** The keys in whatever order the map yields them. */
  method CollectKeys(kv: map<string, string>) returns (keys: seq<string>)
    ensures Enumerates(keys, kv.Keys)
  {
    keys := [];
    var rest := kv.Keys;
    while rest != {}
      invariant rest <= kv.Keys
      invariant multiset(keys) + multiset(rest) == multiset(kv.Keys)
    {
      var k :| k in rest;
      keys := keys + [k];
      rest := rest - {k};
    }
  }

  method EncodeParts(keys: seq<string>, kv: map<string, string>) returns (parts: seq<string>)
    requires forall k :: k in keys ==> k in kv
    ensures parts == Parts(keys, kv)
  {
    parts := [];
    for i := 0 to |keys|
      invariant |parts| == i
      invariant forall j :: 0 <= j < i ==> parts[j] == Part(keys[j], kv[keys[j]])
    {
      var v := ReplaceByte(kv[keys[i]], ' ', DEL);
      parts := parts + [keys[i] + "=" + v];
    }
  }

  /** The bytes do not depend on the order in which the map yields its keys. */
  method BuildDiscoveryPacket(kv: map<string, string>) returns (buf: string)
    ensures buf == Packet(kv)
  {
    var keys := CollectKeys(kv);
    SortingHidesOrder(keys, kv.Keys);
    SortedKeysAreKeys(kv.Keys);
    keys := SortStrings(keys);
    var parts := EncodeParts(keys, kv);
    buf := Encapsulate(Join(parts, " "));
  }

  /** Any two enumerations of the keys lead to the same payload. */
  lemma KeyOrderIrrelevant(e1: seq<string>, e2: seq<string>, kv: map<string, string>)
    requires Enumerates(e1, kv.Keys) && Enumerates(e2, kv.Keys)
    ensures SortStrings(e1) == SortStrings(e2)
    ensures (forall k :: k in SortStrings(e1) ==> k in kv) && Join(Parts(SortStrings(e1), kv), " ") == Payload(kv)
  {
    SortingHidesOrder(e1, kv.Keys);
    SortingHidesOrder(e2, kv.Keys);
    SortedKeysAreKeys(kv.Keys);
  }

  lemma SortedOrder(keys: seq<string>, i: nat, j: nat)
    requires Sorted(keys) && i < |keys| && j < |keys| && Before(keys[i], keys[j])
    ensures i < j
  {
    Trichotomy(keys[i], keys[j]);
  }

  /** Of two keys the byte-wise smaller one's field comes first in the payload. */
  lemma SmallerKeyFirst(kv: map<string, string>, a: string, b: string, n: nat)
    returns (pre: string, mid: string, post: string)
    requires a in kv && b in kv && SmallerAt(a, b, n)
    ensures Payload(kv) == pre + (a + "=" + ReplaceByte(kv[a], ' ', '\U{7F}'))
                           + mid + (b + "=" + ReplaceByte(kv[b], ' ', '\U{7F}')) + post
  {
    BeforeExactly(a, b);
    SortedKeysAreKeys(kv.Keys);
    var keys := SortedKeys(kv.Keys);
    assert a in keys && b in keys;
    var i :| 0 <= i < |keys| && keys[i] == a;
    var j :| 0 <= j < |keys| && keys[j] == b;
    SortedOrder(keys, i, j);
    pre, mid, post := PiecesStand(MapParts(kv), i, j, " ");
  }

  lemma TwoKeys(a: string, b: string)
    requires Before(a, b)
    ensures SortedKeys({a, b}) == [a, b]
  {
    Trichotomy(a, b);
    assert multiset({a, b}) == multiset([a, b]);
    assert Sorted([a, b]);
    SortedUnique(SortedKeys({a, b}), [a, b]);
  }

  lemma TwoParts(kv: map<string, string>, a: string, b: string)
    requires kv.Keys == {a, b} && Before(a, b)
    ensures MapParts(kv) == [Part(a, kv[a]), Part(b, kv[b])]
  {
    TwoKeys(a, b);
    SortedKeysAreKeys(kv.Keys);
  }

  lemma JoinTwo(x: string, y: string, sep: string)
    ensures Join([x, y], sep) == x + sep + y
  {
    assert [x, y][1..] == [y];
  }

  /** Byte for byte, the payload of two fields. */
  lemma TwoFields(a: string, v: string, b: string, w: string, n: nat)
    requires SmallerAt(a, b, n)
    ensures Payload(map[a := v, b := w]) ==
            (a + "=" + ReplaceByte(v, ' ', '\U{7F}')) + " " + (b + "=" + ReplaceByte(w, ' ', '\U{7F}'))
  {
    BeforeExactly(a, b);
    Trichotomy(a, b);
    assert map[a := v, b := w].Keys == {a, b};
    TwoParts(map[a := v, b := w], a, b);
    JoinTwo(Part(a, v), Part(b, w), " ");
  }

  // ---------- round trip ----------

  lemma PartIsWord(k: string, v: string)
    requires CleanKey(k) && CleanValue(v)
    ensures Word(Part(k, v)) && Part(k, v)[|k|] == '='
    ensures Names(Part(k, v), k) && Part(k, v)[|k| + 1..] == ReplaceByte(v, ' ', DEL)
    ensures ReplaceByte(ReplaceByte(v, ' ', DEL), DEL, ' ') == v
  {
    var p := Part(k, v);
    assert p[|k|] == '=' && forall i :: 0 <= i < |k| ==> p[i] == k[i];
    assert IndexByte(p, '=') == |k|;
  }

  function TrimFirst(parts: seq<string>): (r: seq<string>)
    requires parts != []
    ensures |r| == |parts|
  {
    [TrimLeft(parts[0], CUT)] + parts[1..]
  }

  function TrimLast(parts: seq<string>): (r: seq<string>)
    requires parts != []
    ensures |r| == |parts|
  {
    parts[..|parts| - 1] + [TrimRight(parts[|parts| - 1], CUT)]
  }

  /** The parts after trimming both ends of the joined, padded payload. */
  function Trimmed(parts: seq<string>): (r: seq<string>)
    requires parts != []
    ensures |r| == |parts|
  {
    TrimLast(TrimFirst(parts))
  }

  /** The '=' of an end part stays, so trimming stops inside that part. */
  ghost predicate Pinned(x: string) {
    exists i :: 0 <= i < |x| && x[i] == '='
  }

  lemma {:induction false} TrimLeftPinned(x: string, i: nat)
    requires i < |x| && x[i] == '='
    ensures Pinned(TrimLeft(x, CUT))
  {
    if x[0] in CUT {
      TrimLeftPinned(x[1..], i - 1);
    }
  }

  lemma {:induction false} TrimRightPinned(x: string, i: nat)
    requires i < |x| && x[i] == '='
    ensures Pinned(TrimRight(x, CUT))
  {
    if x[|x| - 1] in CUT {
      TrimRightPinned(x[..|x| - 1], i);
    }
  }

  lemma TrimStartJoin(x: string, rest: seq<string>, pad: string)
    requires Pinned(x)
    ensures TrimLeft(Join([x] + rest, " ") + pad, CUT) == Join([TrimLeft(x, CUT)] + rest, " ") + pad
    ensures Pinned(TrimLeft(x, CUT))
  {
    var i :| 0 <= i < |x| && x[i] == '=';
    TrimLeftPinned(x, i);
    JoinHead(x, rest, " ", pad);
    JoinHead(TrimLeft(x, CUT), rest, " ", pad);
    TrimLeftAppend(x, JoinTail(rest, " ") + pad, CUT, i);
  }

  lemma TrimFirstJoin(parts: seq<string>, pad: string)
    requires parts != [] && Pinned(parts[0])
    ensures TrimLeft(Join(parts, " ") + pad, CUT) == Join(TrimFirst(parts), " ") + pad
    ensures Pinned(TrimFirst(parts)[0])
  {
    Cons(parts);
    TrimStartJoin(parts[0], parts[1..], pad);
  }

  lemma TrimEndJoin(init: seq<string>, y: string)
    requires Pinned(y)
    ensures TrimRight(Join(init + [y], " "), CUT) == Join(init + [TrimRight(y, CUT)], " ")
    ensures Pinned(TrimRight(y, CUT))
  {
    var j :| 0 <= j < |y| && y[j] == '=';
    TrimRightPinned(y, j);
    var front := if init == [] then "" else Join(init, " ") + " ";
    JoinSnoc(init, y, " ");
    JoinSnoc(init, TrimRight(y, CUT), " ");
    TrimRightAppend(front, y, CUT, j);
  }

  lemma {:induction false} TrimLastJoin(parts: seq<string>)
    requires parts != [] && Pinned(parts[|parts| - 1])
    ensures TrimRight(Join(parts, " "), CUT) == Join(TrimLast(parts), " ")
    ensures Pinned(TrimLast(parts)[|parts| - 1])
  {
    Snoc(parts);
    TrimEndJoin(parts[..|parts| - 1], parts[|parts| - 1]);
  }

  lemma TrimJoin(parts: seq<string>, pad: string)
    requires parts != []
    requires Pinned(parts[0]) && Pinned(parts[|parts| - 1])
    requires forall i :: 0 <= i < |pad| ==> pad[i] in CUT
    ensures Trim(Join(parts, " ") + pad, CUT) == Join(Trimmed(parts), " ")
  {
    TrimFirstJoin(parts, pad);
    TrimRightPad(Join(TrimFirst(parts), " "), pad, CUT);
    TrimLastJoin(TrimFirst(parts));
  }

  lemma LeftTrimmedIsWord(x: string)
    requires Word(x) && Pinned(x)
    ensures Word(TrimLeft(x, CUT)) && Pinned(TrimLeft(x, CUT))
  {
    var i :| 0 <= i < |x| && x[i] == '=';
    TrimLeftPinned(x, i);
    TrimLeftStops(x, CUT);
    var l := TrimLeft(x, CUT);
    assert forall j :: 0 <= j < |l| ==> l[j] == x[|x| - |l| + j];
  }

  lemma RightTrimmedIsWord(x: string)
    requires Word(x) && Pinned(x)
    ensures Word(TrimRight(x, CUT)) && Pinned(TrimRight(x, CUT))
  {
    var i :| 0 <= i < |x| && x[i] == '=';
    TrimRightPinned(x, i);
    TrimRightStops(x, CUT);
    var r := TrimRight(x, CUT);
    assert forall j :: 0 <= j < |r| ==> r[j] == x[j];
  }

  lemma TrimmedAreWords(parts: seq<string>)
    requires parts != []
    requires Pinned(parts[0]) && Pinned(parts[|parts| - 1])
    requires forall i :: 0 <= i < |parts| ==> Word(parts[i])
    ensures forall i :: 0 <= i < |parts| ==> Word(Trimmed(parts)[i])
  {
    var n := |parts| - 1;
    var a := TrimFirst(parts);
    LeftTrimmedIsWord(parts[0]);
    assert Word(a[n]) && Pinned(a[n]);
    RightTrimmedIsWord(a[n]);
    forall i | 0 <= i < |parts| ensures Word(Trimmed(parts)[i]) {
      assert Trimmed(parts)[i] == if i < n then a[i] else TrimRight(a[n], CUT);
    }
  }

  /** The sorted keys of a nonempty map, with the facts about them the proofs below use. */
  lemma FirstAndLast(kv: map<string, string>)
    requires kv != map[]
    ensures var keys := SortedKeys(kv.Keys);
            && keys != [] && |MapParts(kv)| == |keys|
            && (forall i :: 0 <= i < |keys| ==> keys[i] in kv && MapParts(kv)[i] == Part(keys[i], kv[keys[i]]))
            && (forall i, j :: 0 <= i < j < |keys| ==> keys[i] != keys[j])
  {
    SortedKeysAreKeys(kv.Keys);
    var keys := SortedKeys(kv.Keys);
    var k :| k in kv;
    assert k in keys;
    forall i | 0 <= i < |keys| ensures keys[i] in kv { assert keys[i] in keys; }
  }

  /** Each part of an encodable map is one word around its '='. */
  lemma MapPartsAreWords(kv: map<string, string>)
    requires Encodable(kv)
    ensures kv != map[] ==> MapParts(kv) != []
    ensures kv == map[] ==> MapParts(kv) == []
    ensures forall i :: 0 <= i < |MapParts(kv)| ==> Word(MapParts(kv)[i]) && Pinned(MapParts(kv)[i])
  {
    if kv == map[] {
      SortedKeysAreKeys(kv.Keys);
    } else {
      FirstAndLast(kv);
      var keys, parts := SortedKeys(kv.Keys), MapParts(kv);
      forall i | 0 <= i < |parts| ensures Word(parts[i]) && Pinned(parts[i]) {
        PartIsWord(keys[i], kv[keys[i]]);
      }
    }
  }

  lemma {:induction false} TrimPadding(pad: string)
    requires forall i :: 0 <= i < |pad| ==> pad[i] == NUL
    ensures Trim(pad, CUT) == ""
  {
    if pad != "" {
      TrimPadding(pad[1..]);
    }
  }

  lemma {:induction false} FieldsOfPayload(parts: seq<string>, pad: string)
    requires forall i :: 0 <= i < |parts| ==> Word(parts[i]) && Pinned(parts[i])
    requires forall i :: 0 <= i < |pad| ==> pad[i] == NUL
    ensures Fields(Trim(Join(parts, " ") + pad, CUT)) == if parts == [] then [] else Trimmed(parts)
  {
    if parts == [] {
      TrimPadding(pad);
      assert "" + pad == pad;
    } else {
      TrimJoin(parts, pad);
      TrimmedAreWords(parts);
      FieldsJoin(Trimmed(parts));
    }
  }

  /** What a client parses out of a built packet, for every encodable map. */
  lemma ParsePacket(kv: map<string, string>)
    requires Encodable(kv)
    ensures kv == map[] ==> Parse(Wire(kv)) == map[]
    ensures kv != map[] ==> MapParts(kv) != [] && Parse(Wire(kv)) == ParseFields(Trimmed(MapParts(kv)))
  {
    MapPartsAreWords(kv);
    FieldsOfPayload(MapParts(kv), Padding(|Payload(kv)|));
  }

  lemma {:induction false} ParseParts(keys: seq<string>, kv: map<string, string>)
    requires forall k :: k in keys ==> k in kv
    requires Encodable(kv)
    ensures ParseFields(Parts(keys, kv)) == map k | k in keys :: kv[k]
  {
    if keys != [] {
      var n := |keys| - 1;
      var k := keys[n];
      ParseParts(keys[..n], kv);
      PartIsWord(k, kv[k]);
      assert Parts(keys, kv)[..n] == Parts(keys[..n], kv);
      assert keys == keys[..n] + [k];
    }
  }

  lemma SameMap(keys: seq<string>, kv: map<string, string>)
    requires forall k :: k in kv.Keys <==> k in keys
    ensures (map k | k in keys :: kv[k]) == kv
  {
  }

  lemma AllParts(kv: map<string, string>)
    requires Encodable(kv)
    ensures ParseFields(MapParts(kv)) == kv
  {
    SortedKeysAreKeys(kv.Keys);
    ParseParts(SortedKeys(kv.Keys), kv);
    SameMap(SortedKeys(kv.Keys), kv);
  }

  lemma NoEdgeToTrim(x: string)
    requires x != ""
    ensures x[0] !in CUT ==> TrimLeft(x, CUT) == x
    ensures x[|x| - 1] !in CUT ==> TrimRight(x, CUT) == x
  {
  }

  /** A first key without a leading NUL keeps the first part whole. */
  lemma FirstPartKept(k: string, v: string)
    requires CleanKey(k) && CleanValue(v) && !HasPrefix(k, [NUL])
    ensures TrimLeft(Part(k, v), CUT) == Part(k, v)
  {
    StartsWithNul(k);
    var p := Part(k, v);
    assert k != "" ==> p[0] == k[0];
    NoEdgeToTrim(p);
  }

  lemma LastPartKept(k: string, v: string)
    requires CleanKey(k) && CleanValue(v) && (v != "" ==> v[|v| - 1] != NUL)
    ensures TrimRight(Part(k, v), CUT) == Part(k, v)
  {
    var p, e := Part(k, v), ReplaceByte(v, ' ', DEL);
    assert p[|p| - 1] == if v == "" then '=' else e[|v| - 1];
    NoEdgeToTrim(p);
  }

  lemma EdgesKeptUntrimmed(kv: map<string, string>)
    requires Encodable(kv) && kv != map[] && EdgesKept(kv)
    ensures MapParts(kv) != [] && Trimmed(MapParts(kv)) == MapParts(kv)
  {
    FirstAndLast(kv);
    var keys, parts := SortedKeys(kv.Keys), MapParts(kv);
    var last := keys[|keys| - 1];
    FirstPartKept(keys[0], kv[keys[0]]);
    Cons(parts);
    assert TrimFirst(parts) == parts;
    LastPartKept(last, kv[last]);
    Snoc(parts);
  }

  lemma {:induction false} ParsedClean(parts: seq<string>)
    requires forall i :: 0 <= i < |parts| ==> Word(parts[i])
    ensures Encodable(ParseFields(parts))
  {
    if parts != [] {
      var f := parts[|parts| - 1];
      ParsedClean(parts[..|parts| - 1]);
      var n := IndexByte(f, '=');
      if n >= 0 {
        assert CleanKey(f[..n]);
        assert CleanValue(ReplaceByte(f[n + 1..], DEL, ' '));
      }
    }
  }

  /** Every parsed map is encodable, whatever the bytes were. */
  lemma ParseClean(s: string)
    ensures Encodable(Parse(s))
  {
    FieldsAreWords(Trim(s, CUT));
    ParsedClean(Fields(Trim(s, CUT)));
  }

  /** Trimming the end of a part leaves its key alone. */
  lemma {:induction false} TrimRightKeepsName(part: string, k: string)
    requires Names(part, k)
    ensures Names(TrimRight(part, CUT), k)
  {
    if part[|part| - 1] in CUT {
      var p := part[..|part| - 1];
      assert part[|k|] == '=' && part[..|k|] == p[..|k|];
      assert IndexByte(p, '=') == |k|;
      TrimRightKeepsName(p, k);
    }
  }

  /** After the left end is trimmed, the first part names a key without a leading NUL. */
  lemma FirstNameHasNoNul(part: string, k: string)
    requires Pinned(part) && HasPrefix(k, [NUL])
    ensures Pinned(TrimLeft(part, CUT)) && exists n :: Names(TrimLeft(part, CUT), n) && n != k
  {
    StartsWithNul(k);
    var i :| 0 <= i < |part| && part[i] == '=';
    TrimLeftPinned(part, i);
    TrimLeftStops(part, CUT);
    var l := TrimLeft(part, CUT);
    var n := IndexByte(l, '=');
    assert Names(l, l[..n]);
    if l[..n] != "" { assert l[..n][0] == l[0]; }
  }

  lemma TrimmedName(parts: seq<string>, i: nat, k0: string, k: string)
    requires i < |parts| && Pinned(parts[0]) && HasPrefix(k0, [NUL])
    requires i > 0 ==> Names(parts[i], k) && k != k0
    ensures !Names(Trimmed(parts)[i], k0)
  {
    var x := if i == 0 then TrimLeft(parts[0], CUT) else parts[i];
    FirstNameHasNoNul(parts[0], k0);
    var n :| Names(x, n) && n != k0;
    TrimRightKeepsName(x, n);
    assert TrimFirst(parts)[i] == x;
  }

  /** A smallest key that starts with NUL is lost: no field of the trimmed payload names it. */
  lemma NulKeyLost(kv: map<string, string>)
    requires Encodable(kv) && kv != map[]
    requires (FirstAndLast(kv); HasPrefix(SortedKeys(kv.Keys)[0], [NUL]))
    ensures Parse(Wire(kv)) != kv
  {
    FirstAndLast(kv);
    var keys, parts := SortedKeys(kv.Keys), MapParts(kv);
    var k0 := keys[0];
    ParsePacket(kv);
    var fs := Trimmed(parts);
    forall i | 0 <= i < |fs| ensures !Names(fs[i], k0) {
      PartIsWord(keys[i], kv[keys[i]]);
      PartIsWord(k0, kv[k0]);
      TrimmedName(parts, i, k0, keys[i]);
    }
    UnnamedAbsent(fs, k0);
  }

  lemma {:induction false} TrimmedValueEnd(part: string, k: string)
    requires Names(part, k)
    ensures Names(TrimRight(part, CUT), k)
    ensures var got := ReplaceByte(TrimRight(part, CUT)[|k| + 1..], DEL, ' ');
            got != "" ==> got[|got| - 1] != NUL
  {
    TrimRightKeepsName(part, k);
    TrimRightStops(part, CUT);
    var f := TrimRight(part, CUT);
    var e := f[|k| + 1..];
    if e != "" {
      assert e[|e| - 1] == f[|f| - 1];
    }
  }

  /** A value at the end of the payload that ends with NUL is cut. */
  lemma LastEndsWithNul(kv: map<string, string>, keys: seq<string>, v: string)
    requires kv != map[] && keys == SortedKeys(kv.Keys) && !EdgesKept(kv)
    requires keys != [] && !HasPrefix(keys[0], [NUL]) && keys[|keys| - 1] in kv && v == kv[keys[|keys| - 1]]
    ensures v != "" && v[|v| - 1] == NUL
  {
  }

  lemma EndPartsNamed(kv: map<string, string>)
    requires Encodable(kv) && kv != map[]
    requires (FirstAndLast(kv); !HasPrefix(SortedKeys(kv.Keys)[0], [NUL]))
    ensures (FirstAndLast(kv);
             var keys, parts := SortedKeys(kv.Keys), MapParts(kv);
             TrimLeft(parts[0], CUT) == parts[0] && Names(parts[|parts| - 1], keys[|keys| - 1]))
  {
    FirstAndLast(kv);
    var keys := SortedKeys(kv.Keys);
    var last := keys[|keys| - 1];
    FirstPartKept(keys[0], kv[keys[0]]);
    PartIsWord(last, kv[last]);
  }

  lemma NulValueLost(kv: map<string, string>)
    requires Encodable(kv) && kv != map[]
    requires (FirstAndLast(kv); !HasPrefix(SortedKeys(kv.Keys)[0], [NUL])) && !EdgesKept(kv)
    ensures Parse(Wire(kv)) != kv
  {
    FirstAndLast(kv);
    var keys := SortedKeys(kv.Keys);
    var last := keys[|keys| - 1];
    LastEndsWithNul(kv, keys, kv[last]);
    EndPartsNamed(kv);
    LastValueCut(MapParts(kv), last);
    ParsePacket(kv);
  }

  lemma LastValueCut(parts: seq<string>, k: string)
    requires parts != [] && TrimLeft(parts[0], CUT) == parts[0] && Names(parts[|parts| - 1], k)
    ensures var m := ParseFields(Trimmed(parts)); k in m && (m[k] != "" ==> m[k][|m[k]| - 1] != NUL)
  {
    Cons(parts);
    assert TrimFirst(parts) == parts;
    TrimmedValueEnd(parts[|parts| - 1], k);
  }

  /**
    ROUND TRIP.  Parsing bytes 12 onward of the built packet returns the map exactly when
    keys hold no '=' and no whitespace, values hold no 0x7f and no whitespace but space, and
    neither the first key nor the last value puts a NUL at the edge of the payload.
  */
  lemma RoundTrip(kv: map<string, string>)
    ensures |Packet(kv)| >= 12 && (Parse(Packet(kv)[12..]) == kv <==> Encodable(kv) && EdgesKept(kv))
  {
    PacketPayload(kv);
    ParseClean(Wire(kv));
    if Encodable(kv) {
      ParsePacket(kv);
      if kv == map[] {
      } else if EdgesKept(kv) {
        EdgesKeptUntrimmed(kv);
        AllParts(kv);
      } else {
        FirstAndLast(kv);
        if HasPrefix(SortedKeys(kv.Keys)[0], [NUL]) {
          NulKeyLost(kv);
        } else {
          NulValueLost(kv);
        }
      }
    }
  }

  // ---------- canonicalisation ----------

  /** The payload of the packet rebuilt from `s`. */
  ghost function Rebuilt(s: string): string {
    PacketPayload(Parse(s));
    Packet(Parse(s))[12..]
  }

  /**
    Parsing, building and parsing again changes nothing exactly when the parsed map keeps
    its edges; then rebuilding is idempotent on the wire.
  */
  lemma Canonical(s: string)
    ensures Parse(Rebuilt(s)) == Parse(s) <==> EdgesKept(Parse(s))
    ensures EdgesKept(Parse(s)) ==> Rebuilt(Rebuilt(s)) == Rebuilt(s)
  {
    ParseClean(s);
    RoundTrip(Parse(s));
  }

  /** A payload that does not begin with NUL and ends with fewer NULs than a whole word. */
  ghost predicate BareEdges(w: string) {
    (w != "" ==> w[0] != NUL) && (|w| >= 4 ==> exists i :: |w| - 4 <= i < |w| && w[i] != NUL)
  }

  lemma JoinEnds(parts: seq<string>)
    requires parts != [] && parts[0] != "" && parts[|parts| - 1] != ""
    ensures var s, y := Join(parts, " "), parts[|parts| - 1];
            s != "" && s[0] == parts[0][0] && s[|s| - 1] == y[|y| - 1]
  {
    Cons(parts);
    JoinCons(parts[0], parts[1..], " ");
    Snoc(parts);
    JoinSnoc(parts[..|parts| - 1], parts[|parts| - 1], " ");
  }

  lemma PaddedBare(p: string, pad: string)
    requires p != "" && p[0] != NUL && p[|p| - 1] != NUL && |pad| < 4
    ensures BareEdges(p + pad)
  {
    var w := p + pad;
    assert w[0] == p[0] && w[|p| - 1] == p[|p| - 1];
  }

  lemma PartsBare(parts: seq<string>)
    requires parts != [] && parts[0] != "" && parts[0][0] != NUL
    requires parts[|parts| - 1] != "" && parts[|parts| - 1][|parts[|parts| - 1]| - 1] != NUL
    ensures BareEdges(Join(parts, " ") + Padding(|Join(parts, " ")|))
  {
    JoinEnds(parts);
    PaddedBare(Join(parts, " "), Padding(|Join(parts, " ")|));
  }

  lemma EndParts(kv: map<string, string>)
    requires kv != map[] && EdgesKept(kv)
    ensures var parts := MapParts(kv);
            && parts != [] && parts[0] != "" && parts[0][0] != NUL
            && parts[|parts| - 1] != "" && parts[|parts| - 1][|parts[|parts| - 1]| - 1] != NUL
  {
    FirstAndLast(kv);
    var keys := SortedKeys(kv.Keys);
    FirstPartBare(keys[0], kv[keys[0]]);
    LastByte(keys[|keys| - 1], kv[keys[|keys| - 1]]);
  }

  /** The payload of a map that keeps its edges shows it. */
  lemma KeptEdgesAreBare(kv: map<string, string>)
    requires Encodable(kv) && EdgesKept(kv)
    ensures BareEdges(Wire(kv))
  {
    if kv == map[] {
      MapPartsAreWords(kv);
    } else {
      EndParts(kv);
      PartsBare(MapParts(kv));
    }
  }

  lemma FirstPartBare(k: string, v: string)
    requires !HasPrefix(k, [NUL])
    ensures Part(k, v) != "" && Part(k, v)[0] != NUL
  {
    StartsWithNul(k);
    assert Part(k, v)[0] == if k == "" then '=' else k[0];
  }

  lemma LastByte(k: string, v: string)
    ensures var p := Part(k, v); p != "" && (p[|p| - 1] == NUL ==> v != "" && v[|v| - 1] == NUL)
  {
  }

  lemma FrontOfEncoded(k: string, v: string, nuls: string)
    requires forall i :: 0 <= i < |nuls| ==> nuls[i] == NUL
    ensures Part(k, v + nuls) == Part(k, v) + nuls
  {
    assert ReplaceByte(v + nuls, ' ', DEL) == ReplaceByte(v, ' ', DEL) + nuls;
  }

  /** The value without its trailing NULs, and those NULs. */
  lemma {:induction false} TrailingNuls(v: string) returns (front: string, nuls: string)
    ensures v == front + nuls && (front != "" ==> front[|front| - 1] != NUL)
    ensures forall i :: 0 <= i < |nuls| ==> nuls[i] == NUL
  {
    if v != "" && v[|v| - 1] == NUL {
      front, nuls := TrailingNuls(v[..|v| - 1]);
      nuls := nuls + [NUL];
    } else {
      front, nuls := v, "";
    }
  }

  lemma LastPartUpdated(kv: map<string, string>, v: string)
    requires kv != map[]
    ensures (FirstAndLast(kv);
             var keys, parts := SortedKeys(kv.Keys), MapParts(kv);
             var last := keys[|keys| - 1];
             MapParts(kv[last := v]) == parts[..|parts| - 1] + [Part(last, v)])
  {
    FirstAndLast(kv);
    var keys := SortedKeys(kv.Keys);
    var n := |keys| - 1;
    var next := kv[keys[n] := v];
    assert next.Keys == kv.Keys;
    FirstAndLast(next);
    var left, right := MapParts(next), MapParts(kv)[..n] + [Part(keys[n], v)];
    forall i | 0 <= i <= n ensures left[i] == right[i] {
      assert i < n ==> next[keys[i]] == kv[keys[i]];
    }
    assert left == right;
  }

  lemma JoinEndPad(init: seq<string>, y: string, nuls: string)
    ensures Join(init + [y + nuls], " ") == Join(init + [y], " ") + nuls
  {
    JoinSnoc(init, y, " ");
    JoinSnoc(init, y + nuls, " ");
    if init != [] {
      var j := Join(init, " ") + " ";
      assert j + (y + nuls) == j + y + nuls;
    }
  }

  lemma EncodableUpdate(kv: map<string, string>, k: string, v: string)
    requires Encodable(kv) && k in kv && CleanValue(v)
    ensures Encodable(kv[k := v])
  {
  }

  lemma EdgesNowKept(kv: map<string, string>, last: string, v: string)
    requires kv != map[] && (v != "" ==> v[|v| - 1] != NUL)
    requires (FirstAndLast(kv); var keys := SortedKeys(kv.Keys); !HasPrefix(keys[0], [NUL]) && last == keys[|keys| - 1])
    ensures EdgesKept(kv[last := v])
  {
    FirstAndLast(kv);
    assert kv[last := v].Keys == kv.Keys;
  }

  /** Cutting trailing NULs off the last value cuts the same bytes off the payload. */
  lemma LastValueTrimmed(kv: map<string, string>) returns (next: map<string, string>, nuls: string)
    requires Encodable(kv) && kv != map[]
    requires (FirstAndLast(kv); !HasPrefix(SortedKeys(kv.Keys)[0], [NUL]))
    ensures Encodable(next) && EdgesKept(next)
    ensures Payload(kv) == Payload(next) + nuls && forall i :: 0 <= i < |nuls| ==> nuls[i] == NUL
  {
    FirstAndLast(kv);
    var keys, parts := SortedKeys(kv.Keys), MapParts(kv);
    var last := keys[|keys| - 1];
    var front;
    front, nuls := TrailingNuls(kv[last]);
    assert forall i :: 0 <= i < |front| ==> front[i] == kv[last][i];
    next := kv[last := front];
    EncodableUpdate(kv, last, front);
    EdgesNowKept(kv, last, front);
    LastPartUpdated(kv, front);
    FrontOfEncoded(last, front, nuls);
    Snoc(parts);
    JoinEndPad(parts[..|parts| - 1], Part(last, front), nuls);
  }

  lemma FewNuls(p: string, end: string)
    requires BareEdges(p + end) && forall i :: 0 <= i < |end| ==> end[i] == NUL
    ensures |end| < 4
  {
    var w := p + end;
    assert forall i :: |p| <= i < |w| ==> w[i] == end[i - |p|];
  }

  lemma PaddingIs(n: nat, end: string)
    requires |end| < 4 && (n + |end|) % 4 == 0 && forall i :: 0 <= i < |end| ==> end[i] == NUL
    ensures end == Padding(n)
  {
    assert |end| == |Padding(n)|;
  }

  /** Payloads that differ only in trailing NULs pad to the same bytes if fewer than four of them end it. */
  lemma SamePadding(p: string, nuls: string)
    requires forall i :: 0 <= i < |nuls| ==> nuls[i] == NUL
    requires BareEdges(p + nuls + Padding(|p + nuls|))
    ensures p + nuls + Padding(|p + nuls|) == p + Padding(|p|)
  {
    var pad := Padding(|p + nuls|);
    assert p + nuls + pad == p + (nuls + pad);
    FewNuls(p, nuls + pad);
    PaddingIs(|p|, nuls + pad);
  }

  /** Rebuilding twice gives the same bytes exactly when the first rebuilt payload has bare edges. */
  lemma WireIdempotent(s: string)
    ensures Rebuilt(Rebuilt(s)) == Rebuilt(s) <==> BareEdges(Rebuilt(s))
  {
    var kv := Parse(s);
    ParseClean(s);
    PacketPayload(kv);
    if Rebuilt(Rebuilt(s)) == Rebuilt(s) {
      Canonical(Rebuilt(s));
      ParseClean(Rebuilt(s));
      PacketPayload(Parse(Rebuilt(s)));
      KeptEdgesAreBare(Parse(Rebuilt(s)));
    }
    if BareEdges(Rebuilt(s)) && kv != map[] {
      FirstByte(kv);
      var next, nuls := LastValueTrimmed(kv);
      SamePadding(Payload(next), nuls);
      PacketPayload(next);
      RoundTrip(next);
    }
    if kv == map[] {
      RoundTrip(kv);
    }
  }

  lemma FirstByte(kv: map<string, string>)
    requires Encodable(kv) && kv != map[]
    ensures (FirstAndLast(kv); HasPrefix(SortedKeys(kv.Keys)[0], [NUL])) ==> !BareEdges(Wire(kv))
  {
    FirstAndLast(kv);
    MapPartsAreWords(kv);
    var k := SortedKeys(kv.Keys)[0];
    StartsWithNul(k);
    JoinEnds(MapParts(kv));
    if k != "" { assert Wire(kv)[0] == Payload(kv)[0] == Part(k, kv[k])[0] == k[0]; }
  }

  lemma {:induction false} ParsedNulFree(parts: seq<string>)
    requires forall i :: 0 <= i < |parts| ==> NUL !in parts[i]
    ensures NulFree(ParseFields(parts))
  {
    if parts != [] {
      var f := parts[|parts| - 1];
      ParsedNulFree(parts[..|parts| - 1]);
      var n := IndexByte(f, '=');
      if n >= 0 {
        var v := ReplaceByte(f[n + 1..], DEL, ' ');
        assert forall i :: 0 <= i < |v| ==> f[n + 1..][i] == f[n + 1 + i] && v[i] != NUL;
      }
    }
  }

  /** NULs only at the ends, as padding, are harmless. */
  lemma PaddedPayload(s: string)
    requires NUL !in Trim(s, CUT)
    ensures NulFree(Parse(s)) && Parse(Rebuilt(s)) == Parse(s) && Rebuilt(Rebuilt(s)) == Rebuilt(s)
  {
    FieldsAreWords(Trim(s, CUT));
    var fs := Fields(Trim(s, CUT));
    forall i | 0 <= i < |fs| ensures NUL !in fs[i] {
      assert fs[i] in fs;
    }
    ParsedNulFree(fs);
    NulFreeKeepsEdges(Parse(s));
    Canonical(s);
  }

  lemma {:induction false} LeadingBareWord(x: string, parts: seq<string>)
    requires '=' !in x
    ensures ParseFields([x] + parts) == ParseFields(parts)
  {
    if parts == [] {
      assert [x] + parts == [x] && [x][..0] == [];
    } else {
      var n := |parts| - 1;
      assert ([x] + parts)[..n + 1] == [x] + parts[..n];
      LeadingBareWord(x, parts[..n]);
    }
  }

  /** The payload with a bare word at each end, so that trimming cannot reach the parts. */
  ghost function Shielded(kv: map<string, string>): string {
    Join(["x"] + MapParts(kv) + ["x"], " ")
  }

  lemma ShieldedEnds(ys: seq<string>, rest: seq<string>)
    requires ys == ["x"] + rest
    ensures var s := Join(ys + ["x"], " "); Trim(s, CUT) == s
  {
    JoinSnoc(ys, "x", " ");
    JoinCons("x", rest, " ");
    var s := Join(ys + ["x"], " ");
    assert s == Join(ys, " ") + " " + "x";
    assert s[0] == 'x' && s[|s| - 1] == 'x';
    NoEdgeToTrim(s);
  }

  lemma ShieldWords(parts: seq<string>, xs: seq<string>)
    requires forall i :: 0 <= i < |parts| ==> Word(parts[i])
    requires xs == ["x"] + parts + ["x"]
    ensures forall i :: 0 <= i < |xs| ==> Word(xs[i])
  {
    assert xs[0] == "x" && xs[|xs| - 1] == "x" && Word("x");
    assert forall i :: 0 < i < |xs| - 1 ==> xs[i] == parts[i - 1];
  }

  /** Every encodable map is what some payload parses to. */
  lemma EncodableIsParsed(kv: map<string, string>)
    requires Encodable(kv)
    ensures Parse(Shielded(kv)) == kv
  {
    var parts := MapParts(kv);
    MapPartsAreWords(kv);
    ShieldWords(parts, ["x"] + parts + ["x"]);
    ShieldedEnds(["x"] + parts, parts);
    FieldsJoin(["x"] + parts + ["x"]);
    ShieldedFields(parts);
    AllParts(kv);
  }

  lemma ShieldedFields(parts: seq<string>)
    ensures ParseFields(["x"] + parts + ["x"]) == ParseFields(parts)
  {
    var ys := ["x"] + parts;
    assert (ys + ["x"])[..|ys|] == ys && (ys + ["x"])[|ys|] == "x";
    LeadingBareWord("x", parts);
  }

  /** So canonicalisation fails for some payload of each encodable map that loses an edge. */
  lemma CanonicalCanFail(kv: map<string, string>)
    requires Encodable(kv) && !EdgesKept(kv)
    ensures Parse(Rebuilt(Shielded(kv))) != Parse(Shielded(kv))
  {
    EncodableIsParsed(kv);
    Canonical(Shielded(kv));
  }

  /** One such map: a value that ends with NUL. */
  lemma EdgeLost()
    ensures var kv := map["a" := "b" + [NUL]]; Encodable(kv) && !EdgesKept(kv)
  {
    var kv := map["a" := "b" + [NUL]];
    assert kv["a"][1] == NUL;
    assert "a" in kv;
    FirstAndLast(kv);
    var keys := SortedKeys(kv.Keys);
    assert keys[|keys| - 1] == "a";
  }

  // ---------- size ----------

  /** Bytes a map takes on the wire, each part followed by one separator. */
  ghost function Weight(kv: map<string, string>): nat {
    if kv == map[] then 0
    else
      var k :| k in kv;
      Entry(k, kv[k]) + Weight(kv - {k})
  }

  function Entry(k: string, v: string): nat { |k| + 1 + |v| + 1 }

  /** The choice of key in `Weight` does not matter. */
  lemma {:induction false} WeightAt(kv: map<string, string>, k: string)
    requires k in kv
    ensures Weight(kv) == Entry(k, kv[k]) + Weight(kv - {k})
    decreases |kv|
  {
    var c :| c in kv && Weight(kv) == Entry(c, kv[c]) + Weight(kv - {c});
    if c != k {
      assert kv - {c} - {k} == kv - {k} - {c};
      WeightAt(kv - {c}, k);
      WeightAt(kv - {k}, c);
    }
  }

  lemma WeightUpdate(kv: map<string, string>, k: string, v: string)
    ensures Weight(kv[k := v]) == (if k in kv then Weight(kv) - Entry(k, kv[k]) else Weight(kv)) + Entry(k, v)
  {
    WeightAt(kv[k := v], k);
    assert kv[k := v] - {k} == kv - {k};
    if k in kv { WeightAt(kv, k); } else { assert kv - {k} == kv; }
  }

  lemma WeightRemove(kv: map<string, string>, k: string)
    ensures Weight(kv - {k}) <= Weight(kv)
  {
    if k in kv { WeightAt(kv, k); } else { assert kv - {k} == kv; }
  }

  lemma PartsTail(keys: seq<string>, kv: map<string, string>)
    requires keys != [] && (forall k :: k in keys ==> k in kv) && keys[0] !in keys[1..]
    ensures Parts(keys, kv)[1..] == Parts(keys[1..], kv - {keys[0]})
  {
  }

  lemma PartsHead(keys: seq<string>, kv: map<string, string>)
    requires keys != [] && forall k :: k in keys ==> k in kv
    ensures |Parts(keys, kv)[0]| + 1 == Entry(keys[0], kv[keys[0]])
  {
  }

  lemma {:induction false} PartsWeigh(keys: seq<string>, kv: map<string, string>)
    requires forall k :: k in keys <==> k in kv
    requires forall i, j :: 0 <= i < j < |keys| ==> keys[i] != keys[j]
    ensures SpacedLength(Parts(keys, kv)) == Weight(kv)
  {
    if keys == [] {
      assert kv == map[];
    } else {
      var k, rest := keys[0], keys[1..];
      assert k !in rest;
      RestOfKeys(keys, kv);
      PartsHead(keys, kv);
      PartsTail(keys, kv);
      WeightAt(kv, k);
      PartsWeigh(rest, kv - {k});
    }
  }

  lemma RestOfKeys(keys: seq<string>, kv: map<string, string>)
    requires keys != [] && keys[0] !in keys[1..] && forall k :: k in keys <==> k in kv
    ensures forall k :: k in keys[1..] <==> k in kv - {keys[0]}
  {
    Cons(keys);
  }

  lemma PayloadLength(kv: map<string, string>)
    ensures |Payload(kv)| == if kv == map[] then 0 else Weight(kv) - 1
  {
    SortedKeysAreKeys(kv.Keys);
    PartsWeigh(SortedKeys(kv.Keys), kv);
    if kv != map[] {
      var k :| k in kv;
      assert k in SortedKeys(kv.Keys);
      JoinLength(MapParts(kv));
    }
  }

  lemma {:induction false} ParsedWeight(parts: seq<string>)
    ensures Weight(ParseFields(parts)) <= SpacedLength(parts)
  {
    if parts != [] {
      var n := |parts| - 1;
      var f := parts[n];
      ParsedWeight(parts[..n]);
      SpacedLengthSnoc(parts[..n], f);
      assert parts == parts[..n] + [f];
      var i := IndexByte(f, '=');
      if i >= 0 {
        WeightUpdate(ParseFields(parts[..n]), f[..i], ReplaceByte(f[i + 1..], DEL, ' '));
        var m := ParseFields(parts[..n]);
        if f[..i] in m { WeightAt(m, f[..i]); }
      }
    }
  }

  lemma {:induction false} SpacedLengthSnoc(xs: seq<string>, x: string)
    ensures SpacedLength(xs + [x]) == SpacedLength(xs) + |x| + 1
  {
    if xs == [] {
      assert xs + [x] == [x];
    } else {
      assert (xs + [x])[1..] == xs[1..] + [x];
      SpacedLengthSnoc(xs[1..], x);
    }
  }

  /** The rebuilt payload, before padding, is never longer than the payload it came from. */
  lemma RebuiltNoLonger(s: string)
    ensures |Payload(Parse(s))| <= |s| && Weight(Parse(s)) <= |s| + 1
  {
    var t := Trim(s, CUT);
    TrimLeftStops(s, CUT);
    TrimRightStops(TrimLeft(s, CUT), CUT);
    FieldsFit(t);
    ParsedWeight(Fields(t));
    PayloadLength(Parse(s));
  }
}
