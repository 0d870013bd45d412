/**
  The VITA-49 framing of a discovery packet: header word, class ID words, padded payload.
  Words are big-endian; the header is assembled with `|`, so the word count is or-ed in
  and only a count below 2^16 leaves the other fields alone.
*/
module VitaFrame {
  import opened Text

  // The constant part of the header: packet type 5 shifted left by 28, or-ed with the C bit, 1 shifted left by 27.
  const FIXED_BITS: nat := 0x5800_0000
  const FLEX_OUI: nat := 0x001c2d
  const DISCOVERY_CLASS: nat := 0xffff

  function Padding(n: nat): (p: string)
    ensures (n + |p|) % 4 == 0 && |p| < 4
    ensures forall i :: 0 <= i < |p| ==> p[i] == NUL
  {
    if n % 4 == 0 then "" else if n % 4 == 1 then [NUL, NUL, NUL] else if n % 4 == 2 then [NUL, NUL] else [NUL]
  }

  method Pad(unpadded: string) returns (payload: string)
    ensures payload == unpadded + Padding(|unpadded|)
  {
    payload := unpadded;
    var n := 0;
    while |payload| % 4 != 0
      invariant n <= |Padding(|unpadded|)| && |payload| == |unpadded| + n
      invariant payload == unpadded + Padding(|unpadded|)[..n]
      decreases 4 - n
    {
      payload := payload + [NUL];
      n := n + 1;
      assert Padding(|unpadded|)[..n] == Padding(|unpadded|)[..n - 1] + [NUL];
    }
    assert Padding(|unpadded|)[..n] == Padding(|unpadded|);
  }

  /** Bitwise or of two naturals. */
  function BitOr(a: nat, b: nat): nat
    decreases a + b
  {
    if a == 0 then b
    else if b == 0 then a
    else 2 * BitOr(a / 2, b / 2) + (if a % 2 == 1 || b % 2 == 1 then 1 else 0)
  }

  /** Packet type 5, the C bit, and the word count converted to 32 bits. */
  function HeaderWord(words: nat): nat {
    BitOr(FIXED_BITS, words % 0x1_0000_0000)
  }

  function PutUint32(w: nat): (r: string)
    ensures |r| == 4
  {
    [(w / 256 / 256 / 256 % 256) as char, (w / 256 / 256 % 256) as char, (w / 256 % 256) as char, (w % 256) as char]
  }

  function Uint32(s: string): nat
    requires |s| == 4
  {
    ((s[0] as nat * 256 + s[1] as nat) * 256 + s[2] as nat) * 256 + s[3] as nat
  }

  function WithHeader(w: nat, padded: string): string {
    PutUint32(w) + PutUint32(FLEX_OUI) + PutUint32(DISCOVERY_CLASS) + padded
  }

  function Frame(payload: string): string {
    var padded := payload + Padding(|payload|);
    WithHeader(HeaderWord(1 + 2 + |padded| / 4), padded)
  }

  method Encapsulate(unpadded: string) returns (buf: string)
    ensures buf == Frame(unpadded)
  {
    var payload := Pad(unpadded);
    var totalWords := 1 + 2 + |payload| / 4;
    buf := WithHeader(HeaderWord(totalWords), payload);
  }

  // ---------- what the header says ----------

  function Pow2(k: nat): (r: nat)
    ensures r >= 1
  {
    if k == 0 then 1 else 2 * Pow2(k - 1)
  }

  /** Binary digit i, counted from the lowest. */
  predicate Bit(n: nat, i: nat) {
    if i == 0 then n % 2 == 1 else Bit(n / 2, i - 1)
  }

  lemma {:induction false} ZeroBits(i: nat)
    ensures !Bit(0, i)
  {
    if i > 0 { ZeroBits(i - 1); }
  }

  /** A bit is set exactly if it is set in one of the two. */
  lemma {:induction false} BitOrBits(a: nat, b: nat, i: nat)
    ensures Bit(BitOr(a, b), i) <==> Bit(a, i) || Bit(b, i)
  {
    if a == 0 || b == 0 {
      ZeroBits(i);
    } else if i > 0 {
      BitOrBits(a / 2, b / 2, i - 1);
      assert BitOr(a, b) / 2 == BitOr(a / 2, b / 2);
    }
  }

  lemma {:induction false} BitOrDisjoint(a: nat, k: nat, b: nat)
    requires b < Pow2(k)
    ensures BitOr(a * Pow2(k), b) == a * Pow2(k) + b
  {
    if a == 0 || b == 0 {
    } else {
      var c := a * Pow2(k - 1);
      assert a * Pow2(k) == 2 * c;
      assert b / 2 < Pow2(k - 1);
      BitOrDisjoint(a, k - 1, b / 2);
    }
  }

  lemma Pow27()
    ensures Pow2(27) == 0x800_0000
  {
    assert Pow2(8) == 256 && Pow2(16) == 0x10000;
  }

  lemma {:induction false} OrWordCount(fixed: nat, words: nat, k: nat)
    requires fixed == 11 * Pow2(k) && words < Pow2(k)
    ensures BitOr(fixed, words) == fixed + words
  {
    BitOrDisjoint(11, k, words);
  }

  lemma HeaderWordValue(words: nat)
    requires words < 0x10000
    ensures HeaderWord(words) == FIXED_BITS + words
  {
    Pow27();
    OrWordCount(FIXED_BITS, words, 27);
  }

  lemma Uint32RoundTrip(w: nat)
    requires w < 0x1_0000_0000
    ensures Uint32(PutUint32(w)) == w
  {
  }

  lemma Layout(w: nat, padded: string)
    ensures var p := WithHeader(w, padded);
            && |p| == |padded| + 12 && p[12..] == padded
            && p[..4] == PutUint32(w) && p[4..8] == PutUint32(FLEX_OUI) && p[8..12] == PutUint32(DISCOVERY_CLASS)
  {
  }

  lemma WordCount(n: nat)
    requires n % 4 == 0
    ensures 1 + 2 + n / 4 == (n + 12) / 4
  {
  }

  lemma FrameLayout(payload: string)
    ensures var p := Frame(payload);
            && |p| % 4 == 0 && |payload| + 12 <= |p| < |payload| + 16
            && p[12..] == payload + Padding(|payload|)
            && p == WithHeader(HeaderWord(|p| / 4), payload + Padding(|payload|))
  {
    var padded := payload + Padding(|payload|);
    Layout(HeaderWord(1 + 2 + |padded| / 4), padded);
    WordCount(|padded|);
  }

  lemma FieldsOf(h: nat, words: nat)
    requires words < 0x10000 && h == FIXED_BITS + words
    ensures h / 0x1000_0000 == 5 && h / 0x800_0000 % 2 == 1 && h / 0x10000 % 0x800 == 0 && h % 0x10000 == words
  {
  }

  lemma HeaderFields(words: nat)
    requires words < 0x10000
    ensures var h := Uint32(PutUint32(HeaderWord(words)));
            && h / 0x1000_0000 == 5 && h / 0x800_0000 % 2 == 1 && h / 0x10000 % 0x800 == 0 && h % 0x10000 == words
  {
    HeaderWordValue(words);
    var h := HeaderWord(words);
    Uint32RoundTrip(h);
    FieldsOf(h, words);
  }

  /**
    Word 0 as section 6.1.1 of ANSI/VITA 49.0 lays it out: packet type in bits 31-28, C in
    bit 27, packet size in words in bits 15-0.  The size field is right exactly when the word
    count fits it, and then the type and the C bit are 5 and 1 and all between is zero.
  */
  lemma {:induction false} HeaderDecodes(payload: string)
    ensures var p := Frame(payload);
            && |p| >= 12
            && (Uint32(p[..4]) % 0x10000 == |p| / 4 <==> |p| / 4 < 0x10000)
            && (|p| / 4 < 0x10000 ==>
                  && Uint32(p[..4]) / 0x1000_0000 == 5 && Uint32(p[..4]) / 0x800_0000 % 2 == 1
                  && Uint32(p[..4]) / 0x10000 % 0x800 == 0)
  {
    FrameLayout(payload);
    var words := |Frame(payload)| / 4;
    Layout(HeaderWord(words), payload + Padding(|payload|));
    if words < 0x10000 {
      HeaderFields(words);
    }
  }

  lemma FirstWord(payload: string)
    requires |Frame(payload)| / 4 < 0x10000
    ensures |Frame(payload)| >= 12 && Frame(payload)[..4] == PutUint32(0x5800_0000 + |Frame(payload)| / 4)
  {
    FrameLayout(payload);
    HeaderWordValue(|Frame(payload)| / 4);
    Layout(HeaderWord(|Frame(payload)| / 4), payload + Padding(|payload|));
  }

  lemma ClassBytes(payload: string)
    ensures var p := Frame(payload);
            && |p| >= 12
            && p[4..8] == [0 as char, 0 as char, 0x1c as char, 0x2d as char]
            && p[8..12] == [0 as char, 0 as char, 0xff as char, 0xff as char]
  {
    FrameLayout(payload);
    Layout(HeaderWord(|Frame(payload)| / 4), payload + Padding(|payload|));
  }

  /** The twelve bytes of the header, for any packet whose length in words fits the size field. */
  lemma {:induction false} HeaderBytes(payload: string)
    requires |Frame(payload)| / 4 < 0x10000
    ensures var p := Frame(payload);
            && |p| >= 12
            && p[0] == 0x58 as char && p[1] == 0 as char && p[2] as int * 256 + p[3] as int == |p| / 4
            && p[4..8] == [0 as char, 0 as char, 0x1c as char, 0x2d as char]
            && p[8..12] == [0 as char, 0 as char, 0xff as char, 0xff as char]
  {
    var p := Frame(payload);
    FirstWord(payload);
    ClassBytes(payload);
    BytesOf(|p| / 4);
    FourBytes(p);
  }

  lemma FourBytes(p: string)
    requires |p| >= 4
    ensures p[..4] == [p[0], p[1], p[2], p[3]]
  {
  }

  lemma BytesOf(words: nat)
    requires words < 0x10000
    ensures var b := PutUint32(0x5800_0000 + words);
            b[0] == 0x58 as char && b[1] == 0 as char && b[2] as int * 256 + b[3] as int == words
  {
    var w := 0x5800_0000 + words;
    assert w / 256 == 0x58_0000 + words / 256;
    assert w / 256 / 256 == 0x5800;
  }

  /**
    The class ID words of section 6.1.3: the OUI in the low bits of the first, the class code in
    those of the second.
  */
  lemma ClassIdWords(payload: string)
    ensures var p := Frame(payload);
            |p| >= 12 && Uint32(p[4..8]) == FLEX_OUI && Uint32(p[8..12]) == DISCOVERY_CLASS
  {
    FrameLayout(payload);
    Layout(HeaderWord(|Frame(payload)| / 4), payload + Padding(|payload|));
    Uint32RoundTrip(FLEX_OUI);
    Uint32RoundTrip(DISCOVERY_CLASS);
  }
}
