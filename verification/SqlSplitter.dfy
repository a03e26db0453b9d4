/** Splitting a migration file into statements, and what the splitter means. */
module SqlSplitter {
  import opened Common

  /** unicode.IsSpace. */
  predicate IsSpace(c: char) {
    || '\t' <= c <= '\r' || c == ' ' || c == '\U{85}' || c == '\U{A0}' || c == '\U{1680}'
    || '\U{2000}' <= c <= '\U{200A}' || c == '\U{2028}' || c == '\U{2029}' || c == '\U{202F}'
    || c == '\U{205F}' || c == '\U{3000}'
  }

  function TrimLeft(s: string): string {
    if s == "" || !IsSpace(s[0]) then s else TrimLeft(s[1..])
  }

  function TrimRight(s: string): string {
    if s == "" || !IsSpace(s[|s| - 1]) then s else TrimRight(s[..|s| - 1])
  }

  /** strings.TrimSpace. */
  function Trim(s: string): string {
    TrimRight(TrimLeft(s))
  }

  // ----- The lexical grammar: where a construct that starts here ends -----

  predicate TagChar(c: char) {
    'a' <= c <= 'z' || 'A' <= c <= 'Z' || '0' <= c <= '9' || c == '_'
  }

  /** The number of characters up to and including the next dollar sign, if only tag characters
      come before it. */
  function TagLength(s: string): (r: Option<nat>)
    ensures r.Some? ==> 0 < r.value <= |s|
  {
    if s == "" then None
    else if s[0] == '$' then Some(1)
    else if !TagChar(s[0]) then None
    else
      var n :- TagLength(s[1..]);
      Some(1 + n)
  }

  /** The dollar-quote tag a text starts with. */
  function DollarTag(s: string): (r: Option<string>)
    ensures r.Some? ==> 2 <= |r.value| <= |s| && r.value == s[..|r.value|]
  {
    if s == "" || s[0] != '$' then None
    else
      var n :- TagLength(s[1..]);
      Some(s[..1 + n])
  }

  /** A line comment runs through the next newline, or to the end of the text. */
  function LineEnd(s: string): (n: nat)
    ensures n <= |s|
  {
    if s == "" then 0 else if s[0] == '\n' then 1 else 1 + LineEnd(s[1..])
  }

  function BlockEnd(s: string, depth: nat): (r: Option<nat>)
    ensures r.Some? ==> r.value <= |s|
  {
    if depth == 0 then Some(0)
    else if s == "" then None
    else if "/*" <= s then
      var n :- BlockEnd(s[2..], depth + 1);
      Some(2 + n)
    else if "*/" <= s then
      var n :- BlockEnd(s[2..], depth - 1);
      Some(2 + n)
    else
      var n :- BlockEnd(s[1..], depth);
      Some(1 + n)
  }

  /** After an opening quote: a doubled quote, or a backslash and its successor, continue. */
  function SingleEnd(s: string): (r: Option<nat>)
    ensures r.Some? ==> 0 < r.value <= |s|
  {
    if s == "" then None
    else if s[0] == '\\' && |s| > 1 then
      var n :- SingleEnd(s[2..]);
      Some(2 + n)
    else if s[0] != '\'' then
      var n :- SingleEnd(s[1..]);
      Some(1 + n)
    else if |s| > 1 && s[1] == '\'' then
      var n :- SingleEnd(s[2..]);
      Some(2 + n)
    else Some(1)
  }

  function DoubleEnd(s: string): (r: Option<nat>)
    ensures r.Some? ==> 0 < r.value <= |s|
  {
    if s == "" then None
    else if s[0] != '"' then
      var n :- DoubleEnd(s[1..]);
      Some(1 + n)
    else if |s| > 1 && s[1] == '"' then
      var n :- DoubleEnd(s[2..]);
      Some(2 + n)
    else Some(1)
  }

  /** A dollar quote runs through the first repetition of its tag. */
  function DollarEnd(s: string, tag: string): (r: Option<nat>)
    requires tag != ""
    ensures r.Some? ==> |tag| <= r.value <= |s|
  {
    if tag <= s then
      Some(|tag|)
    else if s == "" then None
    else
      var n :- DollarEnd(s[1..], tag);
      Some(1 + n)
  }

  /** The length of the construct a text starts with; None when it is not terminated. */
  function TokenLength(s: string): (r: Option<nat>)
    requires s != ""
    ensures r.Some? ==> 0 < r.value <= |s|
  {
    if "--" <= s then Some(2 + LineEnd(s[2..]))
    else if "/*" <= s then
      var n :- BlockEnd(s[2..], 1);
      Some(2 + n)
    else if s[0] == '\'' then
      var n :- SingleEnd(s[1..]);
      Some(1 + n)
    else if s[0] == '"' then
      var n :- DoubleEnd(s[1..]);
      Some(1 + n)
    else if DollarTag(s).Some? then
      var tag := DollarTag(s).value;
      var n :- DollarEnd(s[|tag|..], tag);
      Some(|tag| + n)
    else Some(1)
  }

  function Glue(text: string, pieces: seq<string>): (r: seq<string>)
    requires pieces != []
    ensures |r| == |pieces|
  {
    [text + pieces[0]] + pieces[1..]
  }

  /** The pieces of a text between its top-level semicolons. */
  function Pieces(s: string): (r: Option<seq<string>>)
    ensures r.Some? ==> r.value != []
    decreases |s|
  {
    if s == "" then Some([""])
    else if s[0] == ';' then
      var rest :- Pieces(s[1..]);
      Some([""] + rest)
    else
      var n :- TokenLength(s);
      var rest :- Pieces(s[n..]);
      Some(Glue(s[..n], rest))
  }

  /** The trimmed pieces that are not empty, in order. */
  function Statements(pieces: seq<string>): seq<string> {
    if pieces == [] then []
    else if Trim(pieces[0]) == "" then Statements(pieces[1..])
    else [Trim(pieces[0])] + Statements(pieces[1..])
  }

  function Split(s: string): Option<seq<string>> {
    var pieces :- Pieces(s);
    Some(Statements(pieces))
  }

  // ----- The scanner -----

  datatype Mode = Top | Line | Block(depth: nat) | Single | Double | Dollar(tag: string)

  /** How much of the rest belongs to the construct the scanner is in. */
  ghost function EndOf(mode: Mode, s: string): (r: Option<nat>)
    requires mode.Dollar? ==> mode.tag != ""
    ensures r.Some? ==> r.value <= |s|
  {
    match mode
    case Top => Some(0)
    case Line => Some(LineEnd(s))
    case Block(depth) => BlockEnd(s, depth)
    case Single => SingleEnd(s)
    case Double => DoubleEnd(s)
    case Dollar(tag) => DollarEnd(s, tag)
  }

  /** Reading n characters of a text takes the scanner from one mode to the other. */
  ghost predicate Steps(mode: Mode, s: string, n: nat, mode': Mode) {
    && 0 < n <= |s|
    && (mode.Dollar? ==> mode.tag != "") && (mode'.Dollar? ==> mode'.tag != "")
    && (mode'.Block? ==> mode'.depth > 0)
    && (mode.Top? ==> s[0] != ';')
    && var end := if mode.Top? then TokenLength(s) else EndOf(mode, s);
       var end' := EndOf(mode', s[n..]);
       end == if end'.None? then None else Some(n + end'.value)
  }

  /** The pieces of the whole text, from what is finished, the open piece so far, and the rest. */
  ghost function Resume(done: seq<string>, open: string, end: Option<nat>, s: string): Option<seq<string>>
    requires end.Some? ==> end.value <= |s|
  {
    if end.None? then None
    else
      var rest :- Pieces(s[end.value..]);
      Some(done + Glue(open + s[..end.value], rest))
  }

  lemma GlueGlue(a: string, b: string, pieces: seq<string>)
    requires pieces != []
    ensures Glue(a, Glue(b, pieces)) == Glue(a + b, pieces)
  {
    assert a + (b + pieces[0]) == (a + b) + pieces[0];
  }

  /** A step moves characters from the rest to the open piece and leaves the whole unchanged. */
  lemma StepKeepsPieces(done: seq<string>, open: string, mode: Mode, s: string, n: nat, mode': Mode)
    requires Steps(mode, s, n, mode')
    ensures Resume(done, open, EndOf(mode, s), s) == Resume(done, open + s[..n], EndOf(mode', s[n..]), s[n..])
  {
    hide LineEnd, BlockEnd, SingleEnd, DoubleEnd, DollarEnd, TokenLength, Glue;
    var end' := EndOf(mode', s[n..]);
    assert s[0..] == s && open + s[..0] == open;
    if end'.Some? {
      var k := n + end'.value;
      assert s[n..][end'.value..] == s[k..];
      assert open + s[..n] + s[n..][..end'.value] == open + s[..k];
      if mode.Top? && Pieces(s[k..]).Some? {
        GlueGlue(open, s[..k], Pieces(s[k..]).value);
      }
    }
  }

  lemma StatementsAppend(pieces: seq<string>, more: seq<string>)
    ensures Statements(pieces + more) == Statements(pieces) + Statements(more)
  {
    if pieces == [] {
      assert pieces + more == more;
    } else {
      assert (pieces + more)[1..] == pieces[1..] + more;
      StatementsAppend(pieces[1..], more);
    }
  }

  lemma ClosePiece(done: seq<string>, open: string, s: string)
    requires s != "" && s[0] == ';'
    ensures Resume(done, open, Some(0), s) == Resume(done + [open], "", Some(0), s[1..])
  {
    assert s[0..] == s && open + s[..0] == open && s[1..][0..] == s[1..] && "" + s[1..][..0] == "";
    if Pieces(s[1..]).Some? {
      var rest := Pieces(s[1..]).value;
      assert open + "" == open && "" + rest[0] == rest[0];
      assert Glue("", rest) == rest && Glue(open, [""] + rest) == [open] + rest;
      assert done + ([open] + rest) == (done + [open]) + rest;
    }
  }

  lemma Start(s: string)
    ensures Resume([], "", Some(0), s) == Pieces(s)
  {
    assert s[0..] == s;
    if Pieces(s).Some? {
      var pieces := Pieces(s).value;
      assert "" + s[..0] + pieces[0] == pieces[0];
      assert [] + Glue("" + s[..0], pieces) == pieces;
    }
  }

  /** The scanner stands at `index` in the given mode, the open piece starts at `start`, and
      `done` holds the pieces before it. */
  ghost predicate Scanning(input: string, done: seq<string>, start: nat, index: nat, mode: Mode) {
    && start <= index <= |input|
    && (mode.Dollar? ==> mode.tag != "")
    && (mode.Block? ==> mode.depth > 0)
    && Pieces(input) == Resume(done, input[start..index], EndOf(mode, input[index..]), input[index..])
  }

  function AddStatement(statements: seq<string>, statement: string): seq<string> {
    if statement != "" then statements + [statement] else statements
  }

  lemma ScanStart(input: string)
    ensures Scanning(input, [], 0, 0, Top)
  {
    Start(input);
    assert input[0..] == input && input[0..0] == "";
  }

  lemma ScanStep(input: string, done: seq<string>, start: nat, index: nat, mode: Mode, next: nat, mode': Mode)
    requires Scanning(input, done, start, index, mode) && index < next <= |input|
    requires Steps(mode, input[index..], next - index, mode')
    ensures Scanning(input, done, start, next, mode')
  {
    hide TokenLength, Pieces, EndOf, Resume;
    var s, open := input[index..], input[start..index];
    StepKeepsPieces(done, open, mode, s, next - index, mode');
    assert s[next - index..] == input[next..] && s[..next - index] == input[index..next];
    assert open + input[index..next] == input[start..next];
  }

  lemma ScanSemicolon(input: string, done: seq<string>, start: nat, index: nat)
    requires Scanning(input, done, start, index, Top) && index < |input| && input[index] == ';'
    ensures Scanning(input, done + [input[start..index]], index + 1, index + 1, Top)
    ensures Statements(done + [input[start..index]]) == AddStatement(Statements(done), Trim(input[start..index]))
  {
    ClosePiece(done, input[start..index], input[index..]);
    assert input[index..][1..] == input[index + 1..] && input[index + 1..index + 1] == "";
    StatementsAppend(done, [input[start..index]]);
  }

  lemma LastPiece(done: seq<string>, last: string)
    ensures Resume(done, last, Some(0), "") == Some(done + [last])
    ensures Statements(done + [last]) == AddStatement(Statements(done), Trim(last))
  {
    assert ""[..0] == "" && last + "" == last;
    assert Glue(last, [""]) == [last];
    StatementsAppend(done, [last]);
  }

  lemma ScanEnd(input: string, done: seq<string>, start: nat, mode: Mode)
    requires Scanning(input, done, start, |input|, mode)
    ensures mode.Top? || mode.Line? ==>
      Split(input) == Some(AddStatement(Statements(done), Trim(input[start..])))
    ensures !mode.Top? && !mode.Line? ==> Split(input) == None
  {
    assert input[|input|..] == "" && input[start..|input|] == input[start..];
    LastPiece(done, input[start..]);
  }

  lemma SliceOfSuffix(s: string, i: nat, n: nat)
    requires i + n <= |s|
    ensures s[i..][..n] == s[i..i + n]
  {
  }

  method DollarQuoteTagAt(input: string, index: nat) returns (tag: Option<string>)
    requires index < |input|
    ensures tag == DollarTag(input[index..])
  {
    ghost var s := input[index..];
    if input[index] != '$' {
      return None;
    }
    var end := index + 1;
    while end < |input|
      invariant index < end <= |input|
      invariant TagLength(s[1..]).None? <==> TagLength(input[end..]).None?
      invariant TagLength(input[end..]).Some? ==>
        TagLength(s[1..]) == Some(end - index - 1 + TagLength(input[end..]).value)
    {
      var character := input[end];
      if character == '$' {
        SliceOfSuffix(input, index, end - index + 1);
        return Some(input[index..end + 1]);
      }
      if !TagChar(character) {
        return None;
      }
      assert input[end..][1..] == input[end + 1..];
      end := end + 1;
    }
    return None;
  }

  // The arms of the scanner's switch, one method each.

  method InDollarQuote(input: string, index: nat, tag: string) returns (next: nat, closed: bool)
    requires index < |input| && tag != ""
    ensures index < next <= |input|
    ensures Steps(Dollar(tag), input[index..], next - index, if closed then Top else Dollar(tag))
  {
    closed := tag <= input[index..];
    next := if closed then index + |tag| else index + 1;
  }

  method InLineComment(input: string, index: nat) returns (next: nat, closed: bool)
    requires index < |input|
    ensures index < next <= |input|
    ensures Steps(Line, input[index..], next - index, if closed then Top else Line)
  {
    closed := input[index] == '\n';
    next := index + 1;
  }

  method InBlockComment(input: string, index: nat, depth: nat) returns (next: nat, depth': nat)
    requires index < |input| && depth > 0
    ensures index < next <= |input|
    ensures Steps(Block(depth), input[index..], next - index, if depth' > 0 then Block(depth') else Top)
  {
    ghost var s := input[index..];
    depth' := depth;
    if "/*" <= input[index..] {
      depth' := depth + 1;
      next := index + 2;
    } else if "*/" <= input[index..] {
      depth' := depth - 1;
      next := index + 2;
      assert depth' == 0 ==> BlockEnd(s[2..], 0) == Some(0);
    } else {
      next := index + 1;
    }
  }

  method InSingleQuotes(input: string, index: nat) returns (next: nat, closed: bool)
    requires index < |input|
    ensures index < next <= |input|
    ensures Steps(Single, input[index..], next - index, if closed then Top else Single)
  {
    closed := false;
    if input[index] == '\\' && index + 1 < |input| {
      next := index + 2;
    } else if input[index] == '\'' {
      if index + 1 < |input| && input[index + 1] == '\'' {
        next := index + 2;
      } else {
        closed := true;
        next := index + 1;
      }
    } else {
      next := index + 1;
    }
  }

  method InDoubleQuotes(input: string, index: nat) returns (next: nat, closed: bool)
    requires index < |input|
    ensures index < next <= |input|
    ensures Steps(Double, input[index..], next - index, if closed then Top else Double)
  {
    closed := false;
    if input[index] == '"' {
      if index + 1 < |input| && input[index + 1] == '"' {
        next := index + 2;
      } else {
        closed := true;
        next := index + 1;
      }
    } else {
      next := index + 1;
    }
  }

  /** At the top level, away from a semicolon: the construct that starts here, if any. */
  method AtTopLevel(input: string, index: nat) returns (next: nat, mode: Mode)
    requires index < |input| && input[index] != ';'
    ensures index < next <= |input| && Steps(Top, input[index..], next - index, mode)
  {
    hide LineEnd, BlockEnd, SingleEnd, DoubleEnd, DollarEnd;
    mode := Top;
    next := index + 1;
    if "--" <= input[index..] {
      mode := Line;
      next := index + 2;
    } else if "/*" <= input[index..] {
      mode := Block(1);
      next := index + 2;
    } else if input[index] == '\'' {
      mode := Single;
    } else if input[index] == '"' {
      mode := Double;
    } else if input[index] == '$' {
      var tag := DollarQuoteTagAt(input, index);
      if tag.Some? {
        mode := Dollar(tag.value);
        next := index + |tag.value|;
      }
    }
  }

  /** The splitter's local flags; at most one of them is raised. */
  datatype Flags = Flags(
    singleQuoted: bool, doubleQuoted: bool, lineComment: bool, blockCommentDepth: nat, dollarQuote: string)

  function ModeOf(f: Flags): Mode {
    if f.dollarQuote != "" then Dollar(f.dollarQuote)
    else if f.lineComment then Line
    else if f.blockCommentDepth > 0 then Block(f.blockCommentDepth)
    else if f.singleQuoted then Single
    else if f.doubleQuoted then Double
    else Top
  }

  function FlagsOf(mode: Mode): Flags {
    Flags(mode.Single?, mode.Double?, mode.Line?, if mode.Block? then mode.depth else 0,
      if mode.Dollar? then mode.tag else "")
  }

  lemma EnteredMode(mode: Mode, s: string, n: nat, mode': Mode)
    requires Steps(mode, s, n, mode')
    ensures ModeOf(FlagsOf(mode')) == mode'
  {
  }

  /** One turn of the switch, except at a top-level semicolon. */
  method Scan(input: string, index: nat, f: Flags) returns (next: nat, f': Flags)
    requires index < |input| && FlagsOf(ModeOf(f)) == f && (ModeOf(f).Top? ==> input[index] != ';')
    ensures index < next <= |input| && FlagsOf(ModeOf(f')) == f'
    ensures Steps(ModeOf(f), input[index..], next - index, ModeOf(f'))
  {
    hide Steps;
    var closed;
    if f.dollarQuote != "" {
      next, closed := InDollarQuote(input, index, f.dollarQuote);
      f' := if closed then f.(dollarQuote := "") else f;
    } else if f.lineComment {
      next, closed := InLineComment(input, index);
      f' := f.(lineComment := !closed);
    } else if f.blockCommentDepth > 0 {
      var depth;
      next, depth := InBlockComment(input, index, f.blockCommentDepth);
      f' := f.(blockCommentDepth := depth);
    } else if f.singleQuoted {
      next, closed := InSingleQuotes(input, index);
      f' := f.(singleQuoted := !closed);
    } else if f.doubleQuoted {
      next, closed := InDoubleQuotes(input, index);
      f' := f.(doubleQuoted := !closed);
    } else {
      var entered;
      next, entered := AtTopLevel(input, index);
      EnteredMode(Top, input[index..], next - index, entered);
      f' := FlagsOf(entered);
    }
  }

  /** splitMigrationStatements. */
  method SplitMigrationStatements(input: string) returns (r: Option<seq<string>>)
    ensures r == Split(input)
  {
    var statements: seq<string> := [];
    var start, index, flags := 0, 0, Flags(false, false, false, 0, "");
    ghost var done: seq<string> := [];
    ScanStart(input);
    while index < |input|
      invariant Scanning(input, done, start, index, ModeOf(flags)) && FlagsOf(ModeOf(flags)) == flags
      invariant statements == Statements(done)
      decreases |input| - index
    {
      if ModeOf(flags).Top? && input[index] == ';' {
        var piece := Trim(input[start..index]);
        if piece != "" {
          statements := statements + [piece];
        }
        ScanSemicolon(input, done, start, index);
        done := done + [input[start..index]];
        index := index + 1;
        start := index;
      } else {
        var next, flags' := Scan(input, index, flags);
        ScanStep(input, done, start, index, ModeOf(flags), next, ModeOf(flags'));
        index, flags := next, flags';
      }
    }
    ScanEnd(input, done, start, ModeOf(flags));
    if flags.singleQuoted || flags.doubleQuoted || flags.blockCommentDepth != 0 || flags.dollarQuote != "" {
      return None;
    }
    var last := Trim(input[start..]);
    if last != "" {
      statements := statements + [last];
    }
    r := Some(statements);
  }
}
