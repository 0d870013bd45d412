/**
  Go's `strings` helpers that the rest of the model is built on.  A Go string is a
  sequence of bytes; here it is a `string` whose characters stand for those bytes.
  `strings.Fields` and `strings.TrimSpace` split and trim on the six ASCII
  whitespace bytes.
*/
module Text {

  datatype Option<+T> = None | Some(value: T)

  const NUL: char := '\0'
  const DEL: char := '\U{7F}'
  const WHITESPACE: set<char> := {'\t', '\n', '\U{0B}', '\U{0C}', '\r', ' '}

  // ---------- strings.Split and strings.Join ----------

  function Split(s: string, c: char): (r: seq<string>)
    ensures |r| >= 1
  {
    if s == "" then [""]
    else
      var rest := Split(s[1..], c);
      if s[0] == c then [""] + rest else [[s[0]] + rest[0]] + rest[1..]
  }

  function Join(xs: seq<string>, sep: string): string {
    if xs == [] then ""
    else if |xs| == 1 then xs[0]
    else xs[0] + sep + Join(xs[1..], sep)
  }

  lemma {:induction false} JoinSplit(s: string, c: char)
    ensures Join(Split(s, c), [c]) == s
  {
    if s == "" {
    } else {
      JoinSplit(s[1..], c);
      var rest := Split(s[1..], c);
      if s[0] == c {
        assert ([""] + rest)[1..] == rest;
      } else {
        var xs := [[s[0]] + rest[0]] + rest[1..];
        assert xs[1..] == rest[1..];
        if |rest| > 1 {
          assert Join(xs, [c]) == [s[0]] + Join(rest, [c]);
        }
      }
    }
  }

  lemma {:induction false} SplitPieces(s: string, c: char)
    ensures forall x :: x in Split(s, c) ==> c !in x
  {
    if s == "" {
    } else {
      SplitPieces(s[1..], c);
      var rest := Split(s[1..], c);
      assert rest[0] in rest;
      forall x | x in Split(s, c) ensures c !in x {
        assert x == "" || x in rest || x == [s[0]] + rest[0];
      }
    }
  }

  lemma {:induction false} SplitSeparated(x: string, t: string, c: char)
    requires c !in x
    ensures Split(x, c) == [x]
    ensures Split(x + [c] + t, c) == [x] + Split(t, c)
  {
    if x == "" {
      assert x + [c] + t == [c] + t;
      assert ([c] + t)[1..] == t;
    } else {
      SplitSeparated(x[1..], t, c);
      assert (x + [c] + t)[1..] == x[1..] + [c] + t;
      assert x == [x[0]] + x[1..];
    }
  }

  lemma {:induction false} SplitJoinClean(xs: seq<string>, c: char)
    requires xs != []
    requires forall x :: x in xs ==> c !in x
    ensures Split(Join(xs, [c]), c) == xs
  {
    var x, rest := xs[0], xs[1..];
    Cons(xs);
    JoinCons(x, rest, [c]);
    SplitSeparated(x, if rest != [] then Join(rest, [c]) else "", c);
    if rest != [] {
      SplitJoinClean(rest, c);
    }
  }

  /** Splitting undoes joining exactly on the nonempty lists whose pieces hold no separator. */
  lemma SplitJoin(xs: seq<string>, c: char)
    ensures Split(Join(xs, [c]), c) == xs <==> xs != [] && forall x :: x in xs ==> c !in x
  {
    if xs != [] && forall x :: x in xs ==> c !in x {
      SplitJoinClean(xs, c);
    } else if Split(Join(xs, [c]), c) == xs {
      SplitPieces(Join(xs, [c]), c);
    }
  }

  lemma Snoc<T>(xs: seq<T>)
    requires xs != []
    ensures xs == xs[..|xs| - 1] + [xs[|xs| - 1]]
  {
  }

  lemma Cons<T>(xs: seq<T>)
    requires xs != []
    ensures xs == [xs[0]] + xs[1..]
  {
  }

  lemma ConsTake<T>(x: T, xs: seq<T>, i: nat)
    requires i < |xs|
    ensures [x] + xs[..i + 1] == [x] + xs[..i] + [xs[i]]
  {
  }

  /** The last piece of a join. */
  lemma {:induction false} JoinSnoc(xs: seq<string>, y: string, sep: string)
    ensures Join(xs + [y], sep) == if xs == [] then y else Join(xs, sep) + sep + y
  {
    if |xs| == 0 {
      assert xs + [y] == [y];
    } else {
      JoinSnoc(xs[1..], y, sep);
      assert (xs + [y])[1..] == xs[1..] + [y];
    }
  }

  /** The first piece of a join. */
  lemma JoinCons(x: string, xs: seq<string>, sep: string)
    ensures Join([x] + xs, sep) == if xs == [] then x else x + sep + Join(xs, sep)
  {
    assert ([x] + xs)[1..] == xs;
  }

  /** Two pieces of a join stand in it in their order. */
  lemma {:induction false} PieceStands(xs: seq<string>, i: nat, sep: string) returns (pre: string, post: string)
    requires i < |xs|
    ensures Join(xs, sep) == pre + xs[i] + post
  {
    Cons(xs);
    JoinCons(xs[0], xs[1..], sep);
    if i == 0 {
      pre, post := "", JoinTail(xs[1..], sep);
    } else {
      pre, post := PieceStands(xs[1..], i - 1, sep);
      pre := xs[0] + sep + pre;
    }
  }

  lemma {:induction false} PiecesStand(xs: seq<string>, i: nat, j: nat, sep: string)
    returns (pre: string, mid: string, post: string)
    requires i < j < |xs|
    ensures Join(xs, sep) == pre + xs[i] + mid + xs[j] + post
  {
    Cons(xs);
    JoinCons(xs[0], xs[1..], sep);
    if i == 0 {
      mid, post := PieceStands(xs[1..], j - 1, sep);
      pre, mid := "", sep + mid;
    } else {
      pre, mid, post := PiecesStand(xs[1..], i - 1, j - 1, sep);
      pre := xs[0] + sep + pre;
    }
  }

  /** What follows the first piece of a join. */
  function JoinTail(rest: seq<string>, sep: string): string {
    if rest == [] then "" else sep + Join(rest, sep)
  }

  /** The first piece of a join stands alone in front, whatever it is. */
  lemma JoinHead(x: string, rest: seq<string>, sep: string, pad: string)
    ensures Join([x] + rest, sep) + pad == x + (JoinTail(rest, sep) + pad)
  {
    JoinCons(x, rest, sep);
    assert Join([x] + rest, sep) == x + JoinTail(rest, sep);
  }

  // ---------- strings.Fields ----------

  function WordLength(s: string): (n: nat)
    ensures n <= |s|
    ensures forall i :: 0 <= i < n ==> s[i] !in WHITESPACE
    ensures n < |s| ==> s[n] in WHITESPACE
  {
    if s == "" || s[0] in WHITESPACE then 0 else 1 + WordLength(s[1..])
  }

  function Fields(s: string): seq<string>
    decreases |s|
  {
    if s == "" then []
    else if s[0] in WHITESPACE then Fields(s[1..])
    else [s[..WordLength(s)]] + Fields(s[WordLength(s)..])
  }

  ghost predicate Word(x: string) {
    x != "" && forall i :: 0 <= i < |x| ==> x[i] !in WHITESPACE
  }

  lemma {:induction false} FieldsAreWords(s: string)
    ensures forall x :: x in Fields(s) ==> Word(x) && forall c :: c in x ==> c in s
    decreases |s|
  {
    if s == "" {
    } else if s[0] in WHITESPACE {
      FieldsAreWords(s[1..]);
    } else {
      FieldsAreWords(s[WordLength(s)..]);
    }
  }

  lemma {:induction false} WordLengthOf(x: string, t: string)
    requires forall i :: 0 <= i < |x| ==> x[i] !in WHITESPACE
    requires t == "" || t[0] in WHITESPACE
    ensures WordLength(x + t) == |x|
  {
    if x == "" {
      assert x + t == t;
    } else {
      assert (x + t)[1..] == x[1..] + t;
      WordLengthOf(x[1..], t);
    }
  }

  lemma FieldsWordFirst(x: string, t: string)
    requires Word(x) && (t == "" || t[0] in WHITESPACE)
    ensures Fields(x + t) == [x] + Fields(t)
  {
    WordLengthOf(x, t);
    assert (x + t)[..|x|] == x && (x + t)[|x|..] == t;
  }

  /** Each of the six whitespace bytes separates fields. */
  lemma {:induction false} FieldsSplit(a: string, w: char, b: string)
    requires w == ' ' || w == '\t' || w == '\n' || w == '\r' || w == '\U{0B}' || w == '\U{0C}'
    ensures Fields(a + [w] + b) == Fields(a) + Fields(b)
    decreases |a|
  {
    if a == "" {
      assert (a + [w] + b)[1..] == b;
    } else if a[0] in WHITESPACE {
      assert (a + [w] + b)[1..] == a[1..] + [w] + b;
      FieldsSplit(a[1..], w, b);
    } else {
      var x, rest := a[..WordLength(a)], a[WordLength(a)..];
      assert a == x + rest && a + [w] + b == x + (rest + [w] + b);
      FieldsWordFirst(x, rest);
      FieldsWordFirst(x, rest + [w] + b);
      FieldsSplit(rest, w, b);
    }
  }

  /** And nothing else does: a string without them is one field. */
  lemma {:induction false} FieldsOfWord(x: string)
    requires x != ""
    requires forall i :: 0 <= i < |x| ==> x[i] != ' ' && x[i] != '\t' && x[i] != '\n'
                                          && x[i] != '\r' && x[i] != '\U{0B}' && x[i] != '\U{0C}'
    ensures Fields(x) == [x]
  {
    assert Word(x);
    FieldsWordFirst(x, "");
    NothingAdded(x, Fields(""));
  }

  lemma NothingAdded(x: string, none: seq<string>)
    requires none == []
    ensures x + "" == x && [x] + none == [x]
  {
  }

  /** Joining words with a space and taking fields gives the words back. */
  lemma {:induction false} FieldsJoin(xs: seq<string>)
    requires forall j :: 0 <= j < |xs| ==> Word(xs[j])
    ensures Fields(Join(xs, " ")) == xs
  {
    if xs == [] {
    } else if |xs| == 1 {
      WordLengthOf(xs[0], "");
      assert xs[0] + "" == xs[0];
    } else {
      var t := Join(xs[1..], " ");
      WordLengthOf(xs[0], " " + t);
      assert Join(xs, " ") == xs[0] + (" " + t);
      assert (xs[0] + (" " + t))[|xs[0]|..] == " " + t;
      assert (" " + t)[1..] == t;
      FieldsJoin(xs[1..]);
      assert Fields(" " + t) == xs[1..];
      assert xs == [xs[0]] + xs[1..];
    }
  }

  /** Fields and the separators between them fit in the string they came from. */
  function SpacedLength(xs: seq<string>): nat {
    if xs == [] then 0 else |xs[0]| + 1 + SpacedLength(xs[1..])
  }

  lemma {:induction false} FieldsFit(s: string)
    ensures SpacedLength(Fields(s)) <= |s| + 1
    decreases |s|
  {
    if s == "" {
    } else if s[0] in WHITESPACE {
      FieldsFit(s[1..]);
    } else {
      var n := WordLength(s);
      var rest := s[n..];
      assert Fields(s)[1..] == Fields(rest);
      if rest != "" {
        assert Fields(rest) == Fields(rest[1..]);
        FieldsFit(rest[1..]);
      }
    }
  }

  lemma {:induction false} JoinLength(xs: seq<string>)
    requires xs != []
    ensures |Join(xs, " ")| + 1 == SpacedLength(xs)
  {
    if |xs| > 1 {
      JoinLength(xs[1..]);
    }
  }

  // ---------- strings.Trim ----------

  function TrimLeft(s: string, cut: set<char>): string {
    if s != "" && s[0] in cut then TrimLeft(s[1..], cut) else s
  }

  function TrimRight(s: string, cut: set<char>): string {
    if s != "" && s[|s| - 1] in cut then TrimRight(s[..|s| - 1], cut) else s
  }

  function Trim(s: string, cut: set<char>): string {
    TrimRight(TrimLeft(s, cut), cut)
  }

  /** Trimming the left end stops inside the first part that holds an uncut character. */
  lemma {:induction false} TrimLeftAppend(s: string, t: string, cut: set<char>, i: nat)
    requires i < |s| && s[i] !in cut
    ensures TrimLeft(s + t, cut) == TrimLeft(s, cut) + t
  {
    if s[0] in cut {
      assert (s + t)[1..] == s[1..] + t;
      TrimLeftAppend(s[1..], t, cut, i - 1);
    }
  }

  lemma {:induction false} TrimRightAppend(t: string, s: string, cut: set<char>, i: nat)
    requires i < |s| && s[i] !in cut
    ensures TrimRight(t + s, cut) == t + TrimRight(s, cut)
  {
    if s[|s| - 1] in cut {
      assert (t + s)[..|t + s| - 1] == t + s[..|s| - 1];
      TrimRightAppend(t, s[..|s| - 1], cut, i);
    }
  }

  /** Trimming stops at the first character it must keep. */
  lemma {:induction false} TrimLeftStops(s: string, cut: set<char>)
    ensures var r := TrimLeft(s, cut);
            |r| <= |s| && s[|s| - |r|..] == r && (r != "" ==> r[0] !in cut)
  {
    if s != "" && s[0] in cut {
      TrimLeftStops(s[1..], cut);
    }
  }

  lemma {:induction false} TrimRightStops(s: string, cut: set<char>)
    ensures var r := TrimRight(s, cut);
            |r| <= |s| && s[..|r|] == r && (r != "" ==> r[|r| - 1] !in cut)
  {
    if s != "" && s[|s| - 1] in cut {
      TrimRightStops(s[..|s| - 1], cut);
    }
  }

  lemma {:induction false} TrimRemovesOnlyCut(s: string, cut: set<char>)
    ensures |TrimLeft(s, cut)| <= |s| && forall i :: 0 <= i < |s| - |TrimLeft(s, cut)| ==> s[i] in cut
    ensures |TrimRight(s, cut)| <= |s| && forall i :: |TrimRight(s, cut)| <= i < |s| ==> s[i] in cut
  {
    if s != "" && s[0] in cut {
      TrimRemovesOnlyCut(s[1..], cut);
      assert forall i :: 1 <= i < |s| ==> s[i] == s[1..][i - 1];
    }
    if s != "" && s[|s| - 1] in cut {
      TrimRemovesOnlyCut(s[..|s| - 1], cut);
    }
  }

  lemma {:induction false} TrimRightPad(s: string, pad: string, cut: set<char>)
    requires forall i :: 0 <= i < |pad| ==> pad[i] in cut
    ensures TrimRight(s + pad, cut) == TrimRight(s, cut)
  {
    if pad == "" {
      assert s + pad == s;
    } else {
      assert (s + pad)[..|s + pad| - 1] == s + pad[..|pad| - 1];
      TrimRightPad(s, pad[..|pad| - 1], cut);
    }
  }

  // ---------- strings.ReplaceAll of one byte by another ----------

  function ReplaceByte(s: string, a: char, b: char): (r: string)
    ensures |r| == |s|
    ensures forall i :: 0 <= i < |s| ==> r[i] == if s[i] == a then b else s[i]
  {
    seq(|s|, i requires 0 <= i < |s| => if s[i] == a then b else s[i])
  }

  /** Go's `strings.IndexByte`, with -1 for "not found". */
  function IndexByte(s: string, c: char): (n: int)
    ensures -1 <= n < |s|
    ensures n >= 0 ==> s[n] == c
    ensures forall i :: 0 <= i < (if n < 0 then |s| else n) ==> s[i] != c
  {
    if s == "" then -1
    else if s[0] == c then 0
    else
      var n := IndexByte(s[1..], c);
      if n < 0 then -1 else n + 1
  }

  predicate HasPrefix(s: string, p: string) {
    |p| <= |s| && s[..|p|] == p
  }

  lemma HasPrefixExactly(s: string, p: string)
    ensures HasPrefix(s, p) <==> exists t :: s == p + t
  {
    if HasPrefix(s, p) { assert s == p + s[|p|..]; }
  }

  // ---------- strings.ToUpper on ASCII ----------

  function UpperChar(c: char): char {
    if 'a' <= c <= 'z' then (c as int - 32) as char else c
  }

  function ToUpper(s: string): (r: string)
    ensures |r| == |s|
    ensures forall i :: 0 <= i < |s| ==> r[i] == UpperChar(s[i])
  {
    seq(|s|, i requires 0 <= i < |s| => UpperChar(s[i]))
  }
}
