/** Which texts are single constructs of the lexical grammar, character by character. */
module SqlTexts {
  import opened Common
  import opened SqlSplitter
  import opened SqlResplit

  // ----- Dollar quotes -----

  /** A name between two dollar signs: ASCII letters, digits and underscores, possibly none. */
  ghost predicate IsTagName(name: string) {
    forall i :: 0 <= i < |name| ==>
      'a' <= name[i] <= 'z' || 'A' <= name[i] <= 'Z' || '0' <= name[i] <= '9' || name[i] == '_'
  }

  /** The text does not hold the tag, and no tag starts in it and ends behind it. */
  ghost predicate NoEarlierTag(x: string, tag: string) {
    forall k :: 0 <= k < |x| ==> !(tag <= (x + tag)[k..])
  }

  lemma {:induction false} TagNameEnds(name: string, rest: string)
    requires IsTagName(name)
    ensures TagLength(name + "$" + rest) == Some(|name| + 1)
  {
    var s := name + "$" + rest;
    if name != "" {
      assert s[1..] == name[1..] + "$" + rest;
      TagNameEnds(name[1..], rest);
    }
  }

  lemma TagOf(name: string, rest: string)
    requires IsTagName(name)
    ensures DollarTag("$" + name + "$" + rest) == Some("$" + name + "$")
  {
    hide TagLength;
    var s := "$" + name + "$" + rest;
    assert s[1..] == name + "$" + rest;
    TagNameEnds(name, rest);
    assert s[..|name| + 2] == "$" + name + "$";
  }

  lemma {:induction false} FirstTagEnds(x: string, tag: string, rest: string)
    requires tag != "" && NoEarlierTag(x, tag)
    ensures DollarEnd(x + tag + rest, tag) == Some(|x| + |tag|)
  {
    var s := x + tag + rest;
    if x == "" {
      assert s[..|tag|] == tag;
    } else {
      NotEarlier(x, tag, rest);
      assert s[1..] == x[1..] + tag + rest;
      FirstTagEnds(x[1..], tag, rest);
    }
  }

  lemma NotEarlier(x: string, tag: string, rest: string)
    requires x != "" && NoEarlierTag(x, tag)
    ensures !(tag <= x + tag + rest) && NoEarlierTag(x[1..], tag)
  {
    assert (x + tag)[0..] == x + tag;
    assert (x + tag + rest)[..|tag|] == (x + tag)[..|tag|];
    forall k | 0 <= k < |x[1..]|
      ensures !(tag <= (x[1..] + tag)[k..])
    {
      assert (x[1..] + tag)[k..] == (x + tag)[k + 1..];
    }
  }

  /** From its tag to the next repetition of it a dollar quote is one construct, whatever stands in it. */
  lemma DollarQuoteIsOne(name: string, x: string, rest: string)
    requires IsTagName(name) && NoEarlierTag(x, "$" + name + "$")
    ensures var tag := "$" + name + "$";
            TokenLength(tag + x + tag + rest) == Some(|tag + x + tag|)
  {
    hide TagLength, DollarEnd, DollarTag, NoEarlierTag, TokenLength;
    var tag := "$" + name + "$";
    var s := tag + x + tag + rest;
    TagOf(name, x + tag + rest);
    assert s == "$" + name + "$" + (x + tag + rest);
    assert s[|tag|..] == x + tag + rest;
    FirstTagEnds(x, tag, rest);
    DollarToken(s, tag);
  }

  /** A dollar sign with anything else between it and the next one, or with no next one, stands for itself. */
  lemma OtherDollarIsPlain(name: string, rest: string)
    requires IsTagName(name) && (rest == "" || (rest[0] != '$' && !IsTagName(rest[..1])))
    ensures DollarTag("$" + name + rest) == None && TokenLength("$" + name + rest) == Some(1)
  {
    hide LineEnd, BlockEnd, SingleEnd, DoubleEnd, DollarEnd, TagLength;
    var s := "$" + name + rest;
    assert s[1..] == name + rest && s[0] == '$';
    NoTagHere(name, rest);
  }

  lemma {:induction false} NoTagHere(name: string, rest: string)
    requires IsTagName(name) && (rest == "" || (rest[0] != '$' && !IsTagName(rest[..1])))
    ensures TagLength(name + rest) == None
  {
    var s := name + rest;
    if name == "" {
      assert s == rest;
    } else {
      assert s[1..] == name[1..] + rest;
      NoTagHere(name[1..], rest);
    }
  }

  // ----- Quotes -----

  function Concat(units: seq<string>): string {
    if units == [] then "" else units[0] + Concat(units[1..])
  }

  /** In single quotes: a doubled quote, a backslash with whatever follows it, or any other character. */
  ghost predicate IsSingleUnit(u: string) {
    u == "''" || (|u| == 2 && u[0] == '\\') || (|u| == 1 && u[0] != '\'' && u[0] != '\\')
  }

  ghost predicate IsDoubleUnit(u: string) {
    u == "\"\"" || (|u| == 1 && u[0] != '"')
  }

  lemma {:induction false} SingleUnitsEnd(units: seq<string>, rest: string)
    requires (forall i :: 0 <= i < |units| ==> IsSingleUnit(units[i])) && (rest == "" || rest[0] != '\'')
    ensures SingleEnd(Concat(units) + "'" + rest) == Some(|Concat(units)| + 1)
  {
    var s := Concat(units) + "'" + rest;
    if units != [] {
      var more := Concat(units[1..]) + "'" + rest;
      assert s == units[0] + more && s[|units[0]|..] == more;
      assert IsSingleUnit(units[0]);
      SingleUnitsEnd(units[1..], rest);
    }
  }

  lemma {:induction false} DoubleUnitsEnd(units: seq<string>, rest: string)
    requires (forall i :: 0 <= i < |units| ==> IsDoubleUnit(units[i])) && (rest == "" || rest[0] != '"')
    ensures DoubleEnd(Concat(units) + "\"" + rest) == Some(|Concat(units)| + 1)
  {
    var s := Concat(units) + "\"" + rest;
    if units != [] {
      var more := Concat(units[1..]) + "\"" + rest;
      assert s == units[0] + more && s[|units[0]|..] == more;
      assert IsDoubleUnit(units[0]);
      DoubleUnitsEnd(units[1..], rest);
    }
  }

  lemma SingleQuotesAreOne(units: seq<string>, rest: string)
    requires (forall i :: 0 <= i < |units| ==> IsSingleUnit(units[i])) && (rest == "" || rest[0] != '\'')
    ensures TokenLength("'" + Concat(units) + "'" + rest) == Some(|Concat(units)| + 2)
  {
    hide SingleEnd, DollarTag, Concat;
    var s := "'" + Concat(units) + "'" + rest;
    assert s[1..] == Concat(units) + "'" + rest && s[0] == '\'';
    SingleUnitsEnd(units, rest);
  }

  lemma DoubleQuotesAreOne(units: seq<string>, rest: string)
    requires (forall i :: 0 <= i < |units| ==> IsDoubleUnit(units[i])) && (rest == "" || rest[0] != '"')
    ensures TokenLength("\"" + Concat(units) + "\"" + rest) == Some(|Concat(units)| + 2)
  {
    hide DoubleEnd, DollarTag, Concat;
    var s := "\"" + Concat(units) + "\"" + rest;
    assert s[1..] == Concat(units) + "\"" + rest && s[0] == '"';
    DoubleUnitsEnd(units, rest);
  }

  // ----- Comments -----

  /** What stands in a block comment: text, and comments with text around them. */
  datatype Comment = Plain(text: string) | Nested(before: string, inner: Comment, after: Comment)

  function Render(c: Comment): string {
    match c
    case Plain(text) => text
    case Nested(before, inner, after) => before + "/*" + Render(inner) + "*/" + Render(after)
  }

  /** Nothing opens or closes a comment in the text or across its end. */
  ghost predicate NoMark(text: string, next: string) {
    forall k :: 0 <= k < |text| ==> !("/*" <= (text + next)[k..]) && !("*/" <= (text + next)[k..])
  }

  ghost predicate WellFormed(c: Comment) {
    match c
    case Plain(text) => NoMark(text, "*/")
    case Nested(before, inner, after) => NoMark(before, "/*") && WellFormed(inner) && WellFormed(after)
  }

  /** Text without marks is skipped. */
  lemma {:induction false} TextIsSkipped(text: string, next: string, rest: string, depth: nat)
    requires NoMark(text, next) && |next| == 2 && depth > 0
    ensures BlockEnd(text + next + rest, depth)
         == var e := BlockEnd(next + rest, depth); if e.None? then None else Some(|text| + e.value)
  {
    var s := text + next + rest;
    if text == "" {
      assert s == next + rest;
    } else {
      FirstIsNoMark(text, next, rest);
      assert s[1..] == text[1..] + next + rest;
      TextIsSkipped(text[1..], next, rest, depth);
    }
  }

  lemma FirstIsNoMark(text: string, next: string, rest: string)
    requires text != "" && NoMark(text, next) && |next| == 2
    ensures !("/*" <= text + next + rest) && !("*/" <= text + next + rest) && NoMark(text[1..], next)
  {
    var s, t := text + next + rest, text + next;
    assert t[0..] == t && s[..2] == t[..2];
    forall k | 0 <= k < |text[1..]|
      ensures !("/*" <= (text[1..] + next)[k..]) && !("*/" <= (text[1..] + next)[k..])
    {
      assert (text[1..] + next)[k..] == t[k + 1..];
    }
  }

  lemma Marks(rest: string, depth: nat)
    requires depth > 0
    ensures BlockEnd("/*" + rest, depth)
         == var e := BlockEnd(rest, depth + 1); if e.None? then None else Some(2 + e.value)
    ensures BlockEnd("*/" + rest, depth)
         == var e := BlockEnd(rest, depth - 1); if e.None? then None else Some(2 + e.value)
  {
    var o, c := "/*" + rest, "*/" + rest;
    assert o[2..] == rest && c[2..] == rest;
    assert o[..2] == "/*" && c[..2] == "*/" && c[0] == '*' && !("/*" <= c);
  }

  lemma {:induction false} CommentCloses(c: Comment, rest: string, depth: nat)
    requires WellFormed(c) && depth > 0
    ensures BlockEnd(Render(c) + "*/" + rest, depth)
         == var e := BlockEnd(rest, depth - 1); if e.None? then None else Some(|Render(c)| + 2 + e.value)
    decreases c
  {
    hide BlockEnd, NoMark;
    match c
    case Plain(text) =>
      TextIsSkipped(text, "*/", rest, depth);
      Marks(rest, depth);
    case Nested(before, inner, after) =>
      var behind := Render(after) + "*/" + rest;
      var inside := Render(inner) + "*/" + behind;
      assert Render(c) + "*/" + rest == before + "/*" + inside;
      TextIsSkipped(before, "/*", inside, depth);
      Marks(inside, depth);
      CommentCloses(inner, behind, depth + 1);
      CommentCloses(after, rest, depth);
  }

  /** A block comment with comments in it is one construct. */
  lemma BlockCommentIsOne(c: Comment, rest: string)
    requires WellFormed(c)
    ensures TokenLength("/*" + Render(c) + "*/" + rest) == Some(|Render(c)| + 4)
  {
    hide DollarTag, BlockEnd, Render, WellFormed;
    var s := "/*" + Render(c) + "*/" + rest;
    assert s[2..] == Render(c) + "*/" + rest && s[..2] == "/*" && s[0] == '/' && !("--" <= s);
    CommentCloses(c, rest, 1);
    ClosedBlock(rest);
  }

  lemma ClosedBlock(rest: string)
    ensures BlockEnd(rest, 0) == Some(0)
  {
  }

  /** A line comment runs through the end of its line, or of the text. */
  lemma LineCommentIsOne(x: string, rest: string)
    requires '\n' !in x
    ensures TokenLength("--" + x) == Some(|x| + 2)
    ensures TokenLength("--" + x + "\n" + rest) == Some(|x| + 3)
  {
    hide LineEnd;
    var s, t := "--" + x, "--" + x + "\n" + rest;
    assert s[2..] == x && t[2..] == x + "\n" + rest && s[..2] == t[..2] == "--";
    LineEnds(x, rest);
  }

  lemma {:induction false} LineEnds(x: string, rest: string)
    requires '\n' !in x
    ensures LineEnd(x) == |x| && LineEnd(x + "\n" + rest) == |x| + 1
  {
    if x != "" {
      assert (x + "\n" + rest)[1..] == x[1..] + "\n" + rest;
      LineEnds(x[1..], rest);
    }
  }

  // ----- Statements -----

  /** A construct alone is one statement, whatever semicolons it has; a semicolon behind it ends that statement. */
  lemma ConstructIsOneStatement(token: string, rest: string)
    requires token != "" && token[0] != ';' && Trim(token) == token
    ensures TokenLength(token) == Some(|token|) ==> Split(token) == Some([token])
    ensures TokenLength(token + ";" + rest) == Some(|token|) && Split(rest).Some? ==>
      Split(token + ";" + rest) == Some([token] + Split(rest).value)
  {
    hide TokenLength, Trim, Pieces, Statements, Clean;
    NothingIsClean("");
    NothingIsClean(";" + rest);
    NoStatements();
    StatementsCons(token, []);
    assert token + "" == token && token[|token|..] == "" && [token] + [] == [token];
    if TokenLength(token) == Some(|token|) {
      CleanStep(token, "", |token|);
      CleanIsOnePiece(token, "");
    }
    var f := ";" + rest;
    if TokenLength(token + ";" + rest) == Some(|token|) && Split(rest).Some? {
      assert token + ";" + rest == token + f && f[1..] == rest;
      CleanStep(token, f, |token|);
      CleanIsOnePiece(token, f);
      StatementsCons(token, Pieces(rest).value);
    }
  }

  /** What begins and ends with a character that is no white space is its own trimmed form. */
  lemma TrimKeeps(t: string)
    requires t != "" && !IsSpace(t[0]) && !IsSpace(t[|t| - 1])
    ensures Trim(t) == t
  {
    hide IsSpace;
  }

  /** A dollar-quoted text is one statement, with every semicolon in it. */
  lemma DollarQuoteIsOneStatement(name: string, x: string, rest: string)
    requires IsTagName(name) && NoEarlierTag(x, "$" + name + "$") && Split(rest).Some?
    ensures var quote := "$" + name + "$" + x + "$" + name + "$";
            Split(quote) == Some([quote]) && Split(quote + ";" + rest) == Some([quote] + Split(rest).value)
  {
    hide IsTagName, NoEarlierTag, Split, TokenLength, Trim, IsSpace;
    var tag := "$" + name + "$";
    var quote := tag + x + tag;
    assert quote == "$" + name + "$" + x + "$" + name + "$";
    DollarQuoteIsOne(name, x, "");
    DollarQuoteIsOne(name, x, ";" + rest);
    assert quote + "" == quote && tag + x + tag + (";" + rest) == quote + ";" + rest;
    ClosersAreNoSpace();
    TrimKeeps(quote);
    ConstructIsOneStatement(quote, rest);
  }

  const WHITE_SPACE := {
    '\t', '\n', '\U{000B}', '\U{000C}', '\r', ' ', '\U{85}', '\U{A0}', '\U{1680}', '\U{2000}', '\U{2001}', '\U{2002}',
    '\U{2003}', '\U{2004}', '\U{2005}', '\U{2006}', '\U{2007}', '\U{2008}', '\U{2009}', '\U{200A}', '\U{2028}',
    '\U{2029}', '\U{202F}', '\U{205F}', '\U{3000}'}

  /** The characters that are no statement on their own: a semicolon, and the white space of Unicode. */
  lemma BlankCharacters(c: char)
    ensures IsSpace(c) <==> c in WHITE_SPACE
    ensures Split([c]) == Some([]) <==> c == ';' || c in WHITE_SPACE
  {
    assert Pieces("") == Some([""]) && Trim("") == "";
    assert [c][1..] == "" && [c] + "" == [c] && Statements([]) == [];
    if c == ';' {
      assert Statements(["", ""]) == Statements([""]) == [];
    } else if TokenLength([c]).Some? {
      assert TokenLength([c]) == Some(1) && [c][..1] == [c];
      assert Glue([c], [""]) == [[c]];
      assert [[c]][1..] == [];
      assert Trim([c]) == if IsSpace(c) then "" else [c];
    }
  }
}
