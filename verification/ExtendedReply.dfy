/**
  `processExtendedResponse`: the extended form of a hamlib reply.  A header echoes the command
  and its arguments, each line of the handler's reply is labelled with its field name, and a
  terminator is appended unless the handler already sent one.
*/
module ExtendedReply {
  import opened Text

  const RPRT: string := "RPRT "
  const TERMINATOR: string := "RPRT 0"

  function TrimSuffix(s: string, c: char): string {
    if s != "" && s[|s| - 1] == c then s[..|s| - 1] else s
  }

  /** The lines of a handler's reply. */
  function ReplyLines(ret: string): seq<string> {
    Split(TrimSuffix(ret, '\n'), '\n')
  }

  predicate IsRprt(line: string) { HasPrefix(line, RPRT) }

  function FieldName(fieldNames: seq<string>, i: nat): string {
    if i < |fieldNames| then fieldNames[i] else "unknown"
  }

  function Labelled(fieldNames: seq<string>, i: nat, line: string): string {
    if IsRprt(line) then line else FieldName(fieldNames, i) + ": " + line
  }

  ghost function Pieces(fieldNames: seq<string>, lines: seq<string>): (r: seq<string>)
    ensures |r| == |lines|
    ensures forall i :: 0 <= i < |lines| ==> r[i] == Labelled(fieldNames, i, lines[i])
  {
    seq(|lines|, i requires 0 <= i < |lines| => Labelled(fieldNames, i, lines[i]))
  }

  ghost predicate HasRprt(lines: seq<string>) {
    exists i :: 0 <= i < |lines| && IsRprt(lines[i])
  }

  ghost function Terminator(lines: seq<string>): seq<string> {
    if HasRprt(lines) then [] else [TERMINATOR]
  }

  function Header(name: string, cmdline: seq<string>): string {
    name + ":" + if |cmdline| > 1 then " " + Join(cmdline[1..], " ") else ""
  }

  /** Everything the reply joins with the separator. */
  ghost function Parts(name: string, fieldNames: seq<string>, cmdline: seq<string>, ret: string): seq<string> {
    [Header(name, cmdline)] + Pieces(fieldNames, ReplyLines(ret)) + Terminator(ReplyLines(ret))
  }

  ghost function Extended(name: string, fieldNames: seq<string>, cmdline: seq<string>, ret: string, sep: string): string
  {
    Join(Parts(name, fieldNames, cmdline, ret), sep) + "\n"
  }

  lemma NextPiece(header: string, pieces: seq<string>, i: nat, sep: string)
    requires i < |pieces|
    ensures Join([header] + pieces[..i + 1], sep) == Join([header] + pieces[..i], sep) + sep + pieces[i]
  {
    JoinSnoc([header] + pieces[..i], pieces[i], sep);
    ConsTake(header, pieces, i);
  }

  lemma {:induction false} LastPiece(header: string, pieces: seq<string>, end: seq<string>, sep: string)
    requires |end| <= 1
    ensures Join([header] + pieces + end, sep) ==
            Join([header] + pieces[..|pieces|], sep) + if end == [] then "" else sep + end[0]
  {
    assert pieces[..|pieces|] == pieces;
    if end == [] {
      assert [header] + pieces + end == [header] + pieces;
    } else {
      JoinSnoc([header] + pieces, end[0], sep);
      assert end == [end[0]];
    }
  }

  method EchoHeader(name: string, cmdline: seq<string>) returns (out: string)
    ensures out == Header(name, cmdline)
  {
    out := name + ":";
    if |cmdline| > 1 {
      out := out + (" " + Join(cmdline[1..], " "));
    }
  }

  /** The loop over the lines. */
  method AppendLines(header: string, fieldNames: seq<string>, lines: seq<string>, sep: string)
    returns (out: string, sentRprt: bool)
    ensures out == Join([header] + Pieces(fieldNames, lines)[..|lines|], sep)
    ensures sentRprt <==> HasRprt(lines)
  {
    out, sentRprt := header, false;
    ghost var pieces := Pieces(fieldNames, lines);
    for i := 0 to |lines|
      invariant out == Join([header] + pieces[..i], sep)
      invariant sentRprt <==> exists j :: 0 <= j < i && IsRprt(lines[j])
    {
      ghost var before := out;
      out := out + sep;
      if HasPrefix(lines[i], RPRT) {
        out := out + lines[i];
        sentRprt := true;
      } else {
        var fieldName := if i < |fieldNames| then fieldNames[i] else "unknown";
        out := out + (fieldName + ": " + lines[i]);
      }
      assert out == before + sep + pieces[i];
      NextPiece(header, pieces, i, sep);
    }
  }

  method ProcessExtendedResponse(name: string, fieldNames: seq<string>, cmdline: seq<string>, ret: string, sep: string)
    returns (reply: string)
    ensures reply == Extended(name, fieldNames, cmdline, ret, sep)
  {
    var header := EchoHeader(name, cmdline);
    var lines := Split(TrimSuffix(ret, '\n'), '\n');
    var out, sentRprt := AppendLines(header, fieldNames, lines, sep);
    LastPiece(header, Pieces(fieldNames, lines), Terminator(lines), sep);
    if !sentRprt {
      out := out + (sep + TERMINATOR);
    }
    reply := out + "\n";
  }

  // ---------- echoing ----------

  /** The header echoes the argument string, whatever it was: empty tokens and all. */
  lemma HeaderEchoes(name: string, cmd: string, rest: string)
    ensures Header(name, [cmd] + Split(rest, ' ')) == name + ": " + rest
  {
    JoinSplit(rest, ' ');
    assert ([cmd] + Split(rest, ' '))[1..] == Split(rest, ' ');
  }

  // ---------- one terminator ----------

  function CountRprt(lines: seq<string>): nat {
    if lines == [] then 0 else CountRprt(lines[..|lines| - 1]) + if IsRprt(lines[|lines| - 1]) then 1 else 0
  }

  /** No label looks like a terminator. */
  ghost predicate PlainLabels(fieldNames: seq<string>) {
    forall i :: 0 <= i < |fieldNames| ==> !IsRprt(fieldNames[i])
  }

  lemma RprtChars(s: string)
    ensures IsRprt(s) <==> |s| >= 5 && s[0] == 'R' && s[1] == 'P' && s[2] == 'R' && s[3] == 'T' && s[4] == ' '
  {
    if |s| >= 5 {
      assert s[..5] == [s[0], s[1], s[2], s[3], s[4]];
    }
  }

  lemma LabelPrefix(f: string, line: string)
    requires !IsRprt(f)
    ensures !IsRprt(f + ": " + line)
  {
    RprtChars(f);
    RprtChars(f + ": " + line);
  }

  lemma LabelIsNotRprt(fieldNames: seq<string>, i: nat, line: string)
    requires PlainLabels(fieldNames)
    ensures IsRprt(Labelled(fieldNames, i, line)) <==> IsRprt(line)
  {
    if !IsRprt(line) {
      RprtChars("unknown");
      LabelPrefix(FieldName(fieldNames, i), line);
    }
  }

  lemma {:induction false} CountPieces(fieldNames: seq<string>, lines: seq<string>)
    requires PlainLabels(fieldNames)
    ensures CountRprt(Pieces(fieldNames, lines)) == CountRprt(lines)
  {
    if lines != [] {
      var n := |lines| - 1;
      LabelIsNotRprt(fieldNames, n, lines[n]);
      CountPieces(fieldNames, lines[..n]);
      assert Pieces(fieldNames, lines)[..n] == Pieces(fieldNames, lines[..n]);
    }
  }

  lemma {:induction false} CountZero(lines: seq<string>)
    ensures CountRprt(lines) == 0 <==> !HasRprt(lines)
  {
    if lines != [] {
      var n := |lines| - 1;
      CountZero(lines[..n]);
      if HasRprt(lines[..n]) {
        var i :| 0 <= i < n && IsRprt(lines[..n][i]);
        assert IsRprt(lines[i]);
      }
    }
  }

  lemma CountTerminated(fieldNames: seq<string>, lines: seq<string>)
    requires PlainLabels(fieldNames)
    ensures CountRprt(Pieces(fieldNames, lines) + Terminator(lines)) ==
            CountRprt(lines) + if HasRprt(lines) then 0 else 1
  {
    var pieces := Pieces(fieldNames, lines);
    CountPieces(fieldNames, lines);
    if HasRprt(lines) {
      assert pieces + [] == pieces;
    } else {
      assert (pieces + [TERMINATOR])[..|pieces|] == pieces;
    }
  }

  lemma {:induction false} CountAfterHeader(header: string, pieces: seq<string>)
    requires !IsRprt(header)
    ensures CountRprt([header] + pieces) == CountRprt(pieces)
  {
    if pieces == [] {
      assert [header] + pieces == [header];
      assert [header][..0] == [];
    } else {
      var n := |pieces| - 1;
      CountAfterHeader(header, pieces[..n]);
      assert ([header] + pieces)[..n + 1] == [header] + pieces[..n];
    }
  }

  /** The header ends the name with a colon, so only the name could make it look like a terminator. */
  lemma HeaderIsNotRprt(name: string, cmdline: seq<string>)
    requires !IsRprt(name)
    ensures !IsRprt(Header(name, cmdline))
  {
    RprtChars(name);
    RprtChars(Header(name, cmdline));
  }

  // ---------- reading a reply back ----------

  function Unlabelled(fieldNames: seq<string>, i: nat, piece: string): string {
    if IsRprt(piece) || |piece| < |FieldName(fieldNames, i)| + 2 then piece
    else piece[|FieldName(fieldNames, i)| + 2..]
  }

  /** A reply splits back into its parts exactly when none of them holds the separator. */
  lemma ReplySplits(name: string, fieldNames: seq<string>, cmdline: seq<string>, ret: string, sep: char)
    ensures var parts := Parts(name, fieldNames, cmdline, ret);
            Split(TrimSuffix(Extended(name, fieldNames, cmdline, ret, [sep]), '\n'), sep) == parts
            <==> forall i :: 0 <= i < |parts| ==> sep !in parts[i]
  {
    var parts := Parts(name, fieldNames, cmdline, ret);
    assert (Join(parts, [sep]) + "\n")[..|Join(parts, [sep])|] == Join(parts, [sep]);
    SplitJoin(parts, sep);
    assert (forall x :: x in parts ==> sep !in x) <==> (forall i :: 0 <= i < |parts| ==> sep !in parts[i]);
  }

  lemma NoSeparator(fieldNames: seq<string>, lines: seq<string>, sep: char, i: nat)
    requires i < |lines| && sep !in lines[i] && sep !in FieldName(fieldNames, i) && sep != ':' && sep != ' '
    ensures sep !in Pieces(fieldNames, lines)[i]
  {
  }

  /** The parts of a reply, one by one. */
  lemma PartsExactly(name: string, fieldNames: seq<string>, cmdline: seq<string>, ret: string, i: nat)
    ensures var parts, lines := Parts(name, fieldNames, cmdline, ret), ReplyLines(ret);
            var sent := exists j :: 0 <= j < |lines| && HasPrefix(lines[j], "RPRT ");
            && parts[0] == name + ":" + (if |cmdline| > 1 then " " + Join(cmdline[1..], " ") else "")
            && |parts| == 1 + |lines| + (if sent then 0 else 1)
            && (i < |lines| ==>
                  parts[i + 1] == if HasPrefix(lines[i], "RPRT ") then lines[i]
                                  else (if i < |fieldNames| then fieldNames[i] else "unknown") + ": " + lines[i])
            && (!sent ==> parts[|lines| + 1] == "RPRT 0")
  {
  }

  /** A text of clean lines is read as those lines, whether or not it ends with a newline. */
  lemma {:induction false} LinesRead(lines: seq<string>)
    requires lines != [] && forall x :: x in lines ==> '\n' !in x
    ensures ReplyLines(Join(lines, "\n") + "\n") == lines
    ensures lines[|lines| - 1] != "" ==> ReplyLines(Join(lines, "\n")) == lines
  {
    var s, last := Join(lines, "\n"), lines[|lines| - 1];
    assert (s + "\n")[..|s|] == s;
    SplitJoin(lines, '\n');
    Snoc(lines);
    JoinSnoc(lines[..|lines| - 1], last, "\n");
    if last != "" {
      assert s[|s| - 1] == last[|last| - 1] && last in lines;
    }
  }

  /** The whole extended reply to a command that answers with one line. */
  lemma OneLineReply(name: string, f: string, cmd: string, args: seq<string>, x: string, sep: string)
    requires '\n' !in x && !HasPrefix(x, "RPRT ")
    ensures Extended(name, [f], [cmd] + args, x + "\n", sep) ==
            name + ":" + (if args == [] then "" else " " + Join(args, " "))
            + sep + (f + ": " + x) + sep + "RPRT 0" + "\n"
  {
    LinesRead([x]);
    assert ReplyLines(x + "\n") == [x];
    assert ([cmd] + args)[1..] == args;
    var header, piece := Header(name, [cmd] + args), f + ": " + x;
    assert Parts(name, [f], [cmd] + args, x + "\n") == [header] + [piece] + ["RPRT 0"];
    JoinSnoc([header] + [piece], "RPRT 0", sep);
    JoinSnoc([header], piece, sep);
  }

  /** With the newline separator the lines of the reply are its parts: no part holds a newline of its own. */
  lemma ReplyIsItsParts(name: string, fieldNames: seq<string>, cmdline: seq<string>, ret: string)
    requires '\n' !in Header(name, cmdline)
    requires forall j :: 0 <= j < |fieldNames| ==> '\n' !in fieldNames[j]
    ensures ReplyLines(Extended(name, fieldNames, cmdline, ret, "\n")) == Parts(name, fieldNames, cmdline, ret)
  {
    var lines, parts := ReplyLines(ret), Parts(name, fieldNames, cmdline, ret);
    SplitPieces(TrimSuffix(ret, '\n'), '\n');
    forall k | 0 <= k < |parts| ensures '\n' !in parts[k] {
      if 0 < k <= |lines| {
        assert lines[k - 1] in lines;
        NoSeparator(fieldNames, lines, '\n', k - 1);
      }
    }
    ReplySplits(name, fieldNames, cmdline, ret, '\n');
  }

  /** The lines a client reads hold exactly one RPRT exactly when the handler sent at most one. */
  lemma OneTerminator(name: string, fieldNames: seq<string>, cmdline: seq<string>, ret: string)
    requires PlainLabels(fieldNames) && !IsRprt(name) && '\n' !in Header(name, cmdline)
    requires forall j :: 0 <= j < |fieldNames| ==> '\n' !in fieldNames[j]
    ensures CountRprt(ReplyLines(Extended(name, fieldNames, cmdline, ret, "\n"))) == 1
       <==> CountRprt(ReplyLines(ret)) <= 1
  {
    var lines := ReplyLines(ret);
    var header, rest := Header(name, cmdline), Pieces(fieldNames, lines) + Terminator(lines);
    ReplyIsItsParts(name, fieldNames, cmdline, ret);
    assert Parts(name, fieldNames, cmdline, ret) == [header] + rest;
    HeaderIsNotRprt(name, cmdline);
    CountAfterHeader(header, rest);
    CountTerminated(fieldNames, lines);
    CountZero(lines);
  }

  /**
    With the newline separator, a client that splits the reply and removes the labels gets the
    echoed header and then the handler's own lines, followed by the terminator if they had none.
  */
  lemma LinesRecovered(name: string, fieldNames: seq<string>, cmdline: seq<string>, ret: string, i: nat)
    requires PlainLabels(fieldNames) && '\n' !in Header(name, cmdline)
    requires forall j :: 0 <= j < |fieldNames| ==> '\n' !in fieldNames[j]
    ensures var got, lines := ReplyLines(Extended(name, fieldNames, cmdline, ret, "\n")), ReplyLines(ret);
            && got[0] == Header(name, cmdline)
            && |got| == 1 + |lines| + |Terminator(lines)|
            && (i < |lines| ==> Unlabelled(fieldNames, i, got[i + 1]) == lines[i])
            && got[|lines| + 1..] == Terminator(lines)
  {
    var lines, parts := ReplyLines(ret), Parts(name, fieldNames, cmdline, ret);
    ReplyIsItsParts(name, fieldNames, cmdline, ret);
    if i < |lines| {
      assert parts[i + 1] == Labelled(fieldNames, i, lines[i]);
      LabelIsNotRprt(fieldNames, i, lines[i]);
    }
  }
}
