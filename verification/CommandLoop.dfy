/**
  `handleCmd`: one line of the rigctl protocol becomes tokens, is dispatched through the command
  table, and is answered.  A handler's callback is a function of its arguments here; what it
  does to the radio is not part of this model.
*/
module CommandLoop {
  import opened Text
  import opened CommandPaths
  import opened CommandTable
  import opened ExtendedReply

  const ERROR: string := "RPRT 1\n"

  /** The extension prefixes and the separator each one selects. */
  function Separator(c: char): Option<string> {
    if c == '+' then Some("\n")
    else if c == ';' then Some(";")
    else if c == '|' then Some("|")
    else if c == ',' then Some(",")
    else None
  }

  /** The source reads the first byte after an extension prefix without looking whether there is one. */
  predicate Readable(line: string) {
    line == "" || Separator(line[0]).None? || |line| > 1
  }

  datatype Request = Request(sep: Option<string>, cmd: string, rest: string)

  function Unprefixed(line: string): string
    requires line != ""
  {
    if Separator(line[0]).Some? then line[1..] else line
  }

  function ParseRequest(line: string): Request
    requires line != "" && Readable(line)
  {
    var sep, body := Separator(line[0]), Unprefixed(line);
    if body[0] == '\\' then
      var n := IndexByte(body[1..], ' ');
      if n < 0 then Request(sep, body[1..], "") else Request(sep, body[1..][..n], body[1..][n + 1..])
    else Request(sep, "short:" + [body[0]], TrimLeft(body[1..], {' '}))
  }

  function PartsOf(r: Request): (parts: seq<string>)
    ensures parts != [] && parts[0] == r.cmd
  {
    if r.rest == "" then [r.cmd] else [r.cmd] + Split(r.rest, ' ')
  }

  function Args(h: Handler, parts: seq<string>, depth: nat): seq<string>
    requires depth <= |parts|
  {
    if h.allArgs then parts else parts[depth..]
  }

  predicate ArgCountOk(h: Handler, n: nat) {
    (h.minArgs.Some? ==> n >= h.minArgs.value) && (h.maxArgs.Some? ==> n <= h.maxArgs.value)
  }

  function ErrorText(h: Handler): string {
    match h.errResponse case Some(x) => x case None => ERROR
  }

  ghost function Respond(route: Route, r: Request): string
    requires route.Found? ==> route.depth <= |PartsOf(r)|
  {
    match route
    case NotFound => ERROR
    case Found(h, depth) =>
      var args := Args(h, PartsOf(r), depth);
      if !ArgCountOk(h, |args|) then ErrorText(h)
      else
        match h.cb(args)
        case Custom(response) => response
        case Failed => ErrorText(h)
        case Answered(text) =>
          if r.sep.Some? then Extended(h.name, h.fieldNames, PartsOf(r), text, r.sep.value) else text
  }

  /** The answer to a line that neither is empty nor quits. */
  ghost function ReplyTo(leaves: Leaves, line: string): string
    requires line != "" && Readable(line)
  {
    var r := ParseRequest(line);
    FoundIsRegisteredIfAny(leaves, PartsOf(r));
    Respond(RouteOf(leaves, PartsOf(r)), r)
  }

  lemma FoundIsRegisteredIfAny(leaves: Leaves, parts: seq<string>)
    ensures RouteOf(leaves, parts).Found? ==> RouteOf(leaves, parts).depth <= |parts|
  {
    if RouteOf(leaves, parts).Found? { FoundIsRegistered(leaves, parts); }
  }

  predicate Quits(line: string)
    requires line != "" && Readable(line)
  {
    ParseRequest(line).cmd == "short:q" || ParseRequest(line).cmd == "short:Q"
  }

  method RunHandler(h: Handler, depth: nat, r: Request) returns (ret: string)
    requires depth <= |PartsOf(r)|
    ensures ret == Respond(Found(h, depth), r)
  {
    var parts := PartsOf(r);
    var args := Args(h, parts, depth);
    if !ArgCountOk(h, |args|) {
      return ErrorText(h);
    }
    match h.cb(args) {
      case Custom(response) => return response;
      case Failed => return ErrorText(h);
      case Answered(text) =>
        ret := text;
        if r.sep.Some? {
          ret := ProcessExtendedResponse(h.name, h.fieldNames, parts, text, r.sep.value);
        }
    }
  }

  /** The reply, or None when nothing is written. */
  method HandleCmd(server: HamlibServer, line: string) returns (exit: bool, reply: Option<string>)
    requires server.Valid() && Readable(line)
    requires line != "" ==> Quits(line) || Conclusive(server.leaves, PartsOf(ParseRequest(line)))
    ensures exit <==> line != "" && Quits(line)
    ensures reply.Some? <==> line != "" && !Quits(line)
    ensures reply.Some? ==> reply.value == ReplyTo(server.leaves, line)
  {
    if line == "" {
      return false, None;
    }
    var r := ParseRequest(line);
    var parts := PartsOf(r);
    if r.cmd == "short:q" || r.cmd == "short:Q" {
      return true, None;
    }
    var route := server.Dispatch(parts);
    var ret := ERROR;
    if route.Found? {
      ret := RunHandler(route.handler, route.depth, r);
    }
    return false, Some(ret);
  }

  /** The tokens after the command lose nothing: joined with spaces they are the argument string. */
  lemma ArgumentsKept(r: Request)
    ensures Join(PartsOf(r)[1..], " ") == r.rest
  {
    JoinSplit(r.rest, ' ');
    if r.rest != "" {
      assert PartsOf(r)[1..] == Split(r.rest, ' ');
    }
  }

  /** And the header of an extended reply is the handler's name followed by that string. */
  lemma ReplyEchoesRequest(r: Request, name: string)
    ensures Header(name, PartsOf(r)) == if r.rest == "" then name + ":" else name + ": " + r.rest
  {
    if r.rest != "" {
      HeaderEchoes(name, r.cmd, r.rest);
    }
  }

  // ---------- from the line to the tokens ----------

  predicate Extension(ext: Option<char>) {
    ext == None || ext == Some('+') || ext == Some(';') || ext == Some('|') || ext == Some(',')
  }

  /** The separator a prefix asks for. */
  function Asked(ext: Option<char>): Option<string> {
    if ext.Some? then Separator(ext.value) else None
  }

  function Prefixed(ext: Option<char>, body: string): string {
    if ext.Some? then [ext.value] + body else body
  }

  /** A long command: a backslash and the tokens with one space between them. */
  function LongLine(ext: Option<char>, tokens: seq<string>): string {
    Prefixed(ext, "\\" + Join(tokens, " "))
  }

  function Spaces(n: nat): string {
    if n == 0 then "" else " " + Spaces(n - 1)
  }

  /** A short command: one character, any spaces, and the arguments with one space between them. */
  function ShortLine(ext: Option<char>, c: char, n: nat, args: seq<string>): string {
    Prefixed(ext, [c] + (Spaces(n) + Join(args, " ")))
  }

  function ShortName(c: char): string { "short:" + [c] }

  ghost predicate NoSpaces(tokens: seq<string>) {
    forall x :: x in tokens ==> ' ' !in x
  }

  /** The character of a short command is not itself read as a prefix or as the start of a long command. */
  predicate ShortChar(ext: Option<char>, c: char) {
    c != '\\' && (ext.None? ==> c != '+' && c != ';' && c != '|' && c != ',')
  }

  lemma PrefixRead(ext: Option<char>, body: string)
    requires Extension(ext) && body != "" && (ext.None? ==> Separator(body[0]).None?)
    ensures var line := Prefixed(ext, body);
            line != "" && Readable(line) && Separator(line[0]) == Asked(ext) && Unprefixed(line) == body
  {
    if ext.Some? { assert ([ext.value] + body)[1..] == body; }
  }

  lemma {:induction false} FirstSpace(x: string, tail: string)
    requires ' ' !in x
    ensures IndexByte(x, ' ') == -1
    ensures IndexByte(x + (" " + tail), ' ') == |x|
    ensures (x + (" " + tail))[..|x|] == x && (x + (" " + tail))[|x| + 1..] == tail
  {
    var s := x + (" " + tail);
    assert s[|x|] == ' ' && forall i :: 0 <= i < |x| ==> s[i] == x[i];
  }

  lemma LongBody(ext: Option<char>, text: string)
    requires Extension(ext)
    ensures var line, n := Prefixed(ext, "\\" + text), IndexByte(text, ' ');
            && line != "" && Readable(line)
            && ParseRequest(line) == if n < 0 then Request(Asked(ext), text, "")
                                     else Request(Asked(ext), text[..n], text[n + 1..])
  {
    PrefixRead(ext, "\\" + text);
    assert ("\\" + text)[1..] == text;
  }

  /** A long command is the text up to the first space, and its arguments are everything after that space. */
  lemma LongRequest(ext: Option<char>, tokens: seq<string>)
    requires Extension(ext) && tokens != [] && ' ' !in tokens[0]
    ensures var line := LongLine(ext, tokens);
            line != "" && Readable(line) && ParseRequest(line) == Request(Asked(ext), tokens[0], Join(tokens[1..], " "))
  {
    var x, rest := tokens[0], tokens[1..];
    LongBody(ext, Join(tokens, " "));
    FirstSpace(x, Join(rest, " "));
    if rest != [] {
      assert Join(tokens, " ") == x + (" " + Join(rest, " "));
    }
  }

  lemma EmptyJoin(xs: seq<string>)
    ensures Join(xs, " ") == "" <==> xs == [] || xs == [""]
  {
    if |xs| > 1 {
      Cons(xs);
      JoinCons(xs[0], xs[1..], " ");
    }
  }

  /** Splitting the argument string gives the arguments back, unless there is one and it is empty. */
  lemma ArgumentTokens(sep: Option<string>, cmd: string, args: seq<string>)
    requires NoSpaces(args)
    ensures PartsOf(Request(sep, cmd, Join(args, " "))) == [cmd] + args <==> args != [""]
  {
    EmptyJoin(args);
    if args != [] && args != [""] {
      SplitJoin(args, ' ');
    } else {
      assert args == [] ==> [cmd] + args == [cmd];
      assert args == [""] ==> |[cmd] + args| == 2;
    }
  }

  /** A long command line is read as the tokens it was written from, unless a single argument is empty. */
  lemma LongCommandTokens(ext: Option<char>, tokens: seq<string>)
    requires Extension(ext) && tokens != [] && NoSpaces(tokens)
    ensures var line := LongLine(ext, tokens);
            && line != "" && Readable(line) && ParseRequest(line).sep == Asked(ext)
            && (PartsOf(ParseRequest(line)) == tokens <==> tokens[1..] != [""])
  {
    LongRequest(ext, tokens);
    ArgumentTokens(Asked(ext), tokens[0], tokens[1..]);
    Cons(tokens);
  }

  lemma {:induction false} SpacesTrimmed(n: nat, text: string)
    ensures TrimLeft(Spaces(n) + text, {' '}) == TrimLeft(text, {' '})
  {
    if n == 0 {
      assert Spaces(n) + text == text;
    } else {
      SpacesTrimmed(n - 1, text);
      assert Spaces(n) + text == " " + (Spaces(n - 1) + text);
      assert (" " + (Spaces(n - 1) + text))[1..] == Spaces(n - 1) + text;
    }
  }

  lemma ShortRequest(ext: Option<char>, c: char, n: nat, args: seq<string>)
    requires Extension(ext) && ShortChar(ext, c)
    ensures var line := ShortLine(ext, c, n, args);
            && line != "" && Readable(line)
            && ParseRequest(line) == Request(Asked(ext), ShortName(c), TrimLeft(Join(args, " "), {' '}))
  {
    var tail := Spaces(n) + Join(args, " ");
    PrefixRead(ext, [c] + tail);
    assert ([c] + tail)[1..] == tail;
    SpacesTrimmed(n, Join(args, " "));
  }

  /** A nonempty argument string without a leading space splits into tokens of which the first is not empty. */
  lemma FirstToken(text: string)
    requires text != "" && text[0] != ' '
    ensures Split(text, ' ')[0] != ""
  {
  }

  lemma NothingToTrim(args: seq<string>)
    requires NoSpaces(args) && (args == [] || args[0] != "")
    ensures TrimLeft(Join(args, " "), {' '}) == Join(args, " ")
  {
    if args != [] {
      Cons(args);
      JoinCons(args[0], args[1..], " ");
      assert args[0] in args && Join(args, " ")[0] == args[0][0];
    }
  }

  /** A trimmed argument string never gives an empty first argument. */
  lemma {:induction false} FirstTokenNotEmpty(sep: Option<string>, cmd: string, text: string)
    ensures var parts := PartsOf(Request(sep, cmd, TrimLeft(text, {' '})));
            |parts| > 1 ==> parts[1] != ""
  {
    TrimLeftStops(text, {' '});
    var rest := TrimLeft(text, {' '});
    if rest != "" {
      FirstToken(rest);
    }
  }

  /** A short command line is read as its arguments, unless the first of them is empty. */
  lemma ShortCommandTokens(ext: Option<char>, c: char, n: nat, args: seq<string>)
    requires Extension(ext) && ShortChar(ext, c) && NoSpaces(args)
    ensures var line := ShortLine(ext, c, n, args);
            && line != "" && Readable(line) && ParseRequest(line).sep == Asked(ext)
            && (PartsOf(ParseRequest(line)) == [ShortName(c)] + args <==> args == [] || args[0] != "")
  {
    ShortRequest(ext, c, n, args);
    if args == [] || args[0] != "" {
      NothingToTrim(args);
      ArgumentTokens(Asked(ext), ShortName(c), args);
    } else {
      FirstTokenNotEmpty(Asked(ext), ShortName(c), Join(args, " "));
      assert ([ShortName(c)] + args)[1] == "";
    }
  }

  // ---------- from the line to the reply ----------

  /** The two ways to write tokens on a line. */
  ghost predicate Writes(line: string, ext: Option<char>, tokens: seq<string>) {
    && Extension(ext) && tokens != [] && NoSpaces(tokens)
    && ( || (line == LongLine(ext, tokens) && tokens[1..] != [""])
         || (exists c, n: nat ::
               && ShortChar(ext, c) && tokens[0] == ShortName(c) && line == ShortLine(ext, c, n, tokens[1..])
               && (|tokens| > 1 ==> tokens[1] != "")))
  }

  lemma LineTokens(line: string, ext: Option<char>, tokens: seq<string>)
    requires Writes(line, ext, tokens)
    ensures line != "" && Readable(line)
    ensures ParseRequest(line).sep == Asked(ext) && PartsOf(ParseRequest(line)) == tokens
  {
    if line == LongLine(ext, tokens) && tokens[1..] != [""] {
      LongCommandTokens(ext, tokens);
    } else {
      var c, n: nat :| ShortChar(ext, c) && tokens[0] == ShortName(c) && line == ShortLine(ext, c, n, tokens[1..])
                       && (|tokens| > 1 ==> tokens[1] != "");
      ShortCommandTokens(ext, c, n, tokens[1..]);
      Cons(tokens);
    }
  }

  /** How handler h answers the names it was reached by and the arguments after them. */
  ghost predicate AnsweredBy(h: Handler, names: seq<string>, rest: seq<string>, ext: Option<char>, reply: string) {
    var args := if h.allArgs then names + rest else rest;
    var error := if h.errResponse.Some? then h.errResponse.value else "RPRT 1\n";
    if (h.minArgs.Some? && |args| < h.minArgs.value) || (h.maxArgs.Some? && |args| > h.maxArgs.value) then
      reply == error
    else
      match h.cb(args)
      case Failed => reply == error
      case Custom(response) => reply == response
      case Answered(text) =>
        match ext
        case None => reply == text
        case Some(c) =>
          reply == Extended(h.name, h.fieldNames, names + rest, text, if c == '+' then "\n" else [c])
  }

  lemma HandlerResponds(h: Handler, names: seq<string>, rest: seq<string>, ext: Option<char>, r: Request)
    requires PartsOf(r) == names + rest && r.sep == Asked(ext) && Extension(ext)
    ensures AnsweredBy(h, names, rest, ext, Respond(Found(h, |names|), r))
  {
    assert (names + rest)[|names|..] == rest;
  }

  /**
    A line written from the names of a registered command and some arguments is answered by the
    handler in force there, on exactly those arguments, or on all tokens if it asked for them.
    Only a first name that is itself the quit command is not dispatched.
  */
  lemma {:induction false} CommandAnswered(regs: seq<Registration>, i: nat, names: seq<string>, rest: seq<string>,
                        ext: Option<char>, line: string)
    requires Registrable(map[], regs) && names != [] && Settles(regs, i, PathOf(names))
    requires Writes(line, ext, names + rest)
    ensures line != "" && Readable(line)
    ensures Quits(line) <==> names[0] == "short:q" || names[0] == "short:Q"
    ensures Conclusive(RegisterAll(map[], regs), PartsOf(ParseRequest(line)))
    ensures AnsweredBy(regs[i].handler, names, rest, ext, ReplyTo(RegisterAll(map[], regs), line))
  {
    LineTokens(line, ext, names + rest);
    HandlerReached(regs, i, names, rest);
    HandlerResponds(regs[i].handler, names, rest, ext, ParseRequest(line));
    assert (names + rest)[0] == names[0];
  }

  /** So a handler answers under its long name and under its short name, among any other registrations. */
  lemma AddedHandlerAnswers(before: seq<Registration>, h: Handler, after: seq<Registration>, name: string,
                            rest: seq<string>, ext: Option<char>, line: string)
    requires Registrable(map[], before + PathsOf(h) + after)
    requires name == h.name || (h.shortName != "" && name == "short:" + h.shortName)
    requires Untouched(after, PathOf([name] + h.requiredArgs))
    requires Writes(line, ext, [name] + h.requiredArgs + rest)
    ensures line != "" && Readable(line) && (Quits(line) <==> name == "short:q" || name == "short:Q")
    ensures AnsweredBy(h, [name] + h.requiredArgs, rest, ext,
                       ReplyTo(RegisterAll(map[], before + PathsOf(h) + after), line))
  {
    var i := NameSettles(before, h, after, name);
    CommandAnswered(before + PathsOf(h) + after, i, [name] + h.requiredArgs, rest, ext, line);
  }

  lemma CommandEnds(text: string, cmd: string)
    requires ' ' !in cmd
    ensures var n := IndexByte(text, ' ');
            (if n < 0 then text else text[..n]) == cmd <==> text == cmd || HasPrefix(text, cmd + " ")
  {
    var n := IndexByte(text, ' ');
    if n >= 0 && text[..n] == cmd {
      assert text[..n + 1] == cmd + " ";
    }
    if HasPrefix(text, cmd + " ") {
      assert text[|cmd|] == (cmd + " ")[|cmd|] == ' ';
      assert forall i :: 0 <= i < |cmd| ==> text[i] == (cmd + " ")[i] == cmd[i];
      assert n == |cmd| && text[..n] == (cmd + " ")[..n] == cmd;
    }
  }

  lemma ShortQuits(c: char)
    ensures "short:" + [c] == "short:q" <==> c == 'q'
    ensures "short:" + [c] == "short:Q" <==> c == 'Q'
  {
    assert ("short:" + [c])[6] == c && "short:q"[6] == 'q' && "short:Q"[6] == 'Q';
  }

  /** The lines that end the connection: those that begin with q or Q, and that name spelled out. */
  lemma QuitsExactly(ext: Option<char>, body: string)
    requires Extension(ext) && body != ""
    requires ext.None? ==> body[0] != '+' && body[0] != ';' && body[0] != '|' && body[0] != ','
    ensures var line := Prefixed(ext, body);
            && line != "" && Readable(line)
            && (Quits(line) <==>
                 body[0] == 'q' || body[0] == 'Q'
                 || (body[0] == '\\' && (body[1..] == "short:q" || HasPrefix(body[1..], "short:q ")
                                         || body[1..] == "short:Q" || HasPrefix(body[1..], "short:Q "))))
  {
    PrefixRead(ext, body);
    if body[0] == '\\' {
      CommandEnds(body[1..], "short:q");
      CommandEnds(body[1..], "short:Q");
      assert "short:q" + " " == "short:q " && "short:Q" + " " == "short:Q ";
    } else {
      ShortQuits(body[0]);
    }
  }

  lemma {:induction false} PrefixesUnder(tokens: seq<string>, p: Path)
    ensures Under(p, PathOf(tokens)) <==> exists j: nat :: j <= |tokens| && p == PathOf(tokens[..j])
  {
    if j: nat :| j <= |tokens| && p == PathOf(tokens[..j]) {
      PathOfPrefix(tokens, j);
    }
    if Under(p, PathOf(tokens)) {
      assert tokens[..|tokens|] == tokens;
      if p != PathOf(tokens) {
        var n := |tokens| - 1;
        PrefixesUnder(tokens[..n], p);
        var j: nat :| j <= n && p == PathOf(tokens[..n][..j]);
        assert tokens[..n][..j] == tokens[..j];
      }
    }
  }

  /**
    A line finds no handler, and is answered with the plain error, exactly when no registration
    in force has a path that begins its tokens.
  */
  lemma {:induction false} UnknownExactly(regs: seq<Registration>, line: string)
    requires Registrable(map[], regs) && line != "" && Readable(line)
    requires forall i :: 0 <= i < |regs| ==> regs[i].path != Root
    ensures var leaves, parts := RegisterAll(map[], regs), PartsOf(ParseRequest(line));
            && (RouteOf(leaves, parts).NotFound? <==>
                !exists i: nat :: i < |regs| && Settles(regs, i, regs[i].path) && Under(regs[i].path, PathOf(parts)))
            && (RouteOf(leaves, parts).NotFound? ==> ReplyTo(leaves, line) == "RPRT 1\n")
  {
    var leaves, parts := RegisterAll(map[], regs), PartsOf(ParseRequest(line));
    RegistrableKeeps(map[], regs);
    if RouteOf(leaves, parts).Found? {
      FoundIsRegistered(leaves, parts);
      var d := RouteOf(leaves, parts).depth;
      TableExactly(map[], regs, PathOf(parts[..d]), leaves[PathOf(parts[..d])]);
      PathOfPrefix(parts, d);
    }
    if i: nat :| i < |regs| && Settles(regs, i, regs[i].path) && Under(regs[i].path, PathOf(parts)) {
      PrefixesUnder(parts, regs[i].path);
      var j: nat :| j <= |parts| && regs[i].path == PathOf(parts[..j]);
      TableExactly(map[], regs, regs[i].path, regs[i].handler);
      assert Hit(leaves, parts, j);
      RouteIs(leaves, parts, j);
    }
  }
}
