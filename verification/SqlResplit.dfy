/** Splitting loses nothing, and splitting the joined statements again gives the same list. */
module SqlResplit {
  import opened Common
  import opened SqlSplitter

  // ----- Conservation -----

  function JoinPieces(pieces: seq<string>): string
    requires pieces != []
  {
    if |pieces| == 1 then pieces[0] else pieces[0] + ";" + JoinPieces(pieces[1..])
  }

  lemma {:induction false} JoinGlue(text: string, pieces: seq<string>)
    requires pieces != []
    ensures JoinPieces(Glue(text, pieces)) == text + JoinPieces(pieces)
  {
    if |pieces| > 1 {
      assert Glue(text, pieces)[1..] == pieces[1..];
      assert (text + pieces[0]) + ";" + JoinPieces(pieces[1..]) == text + (pieces[0] + ";" + JoinPieces(pieces[1..]));
    }
  }

  lemma {:induction false} JoinEmptyPiece(pieces: seq<string>)
    requires pieces != []
    ensures JoinPieces([""] + pieces) == ";" + JoinPieces(pieces)
  {
    assert ([""] + pieces)[1..] == pieces;
    assert "" + ";" == ";";
  }

  lemma {:induction false} PiecesUnfold(s: string)
    requires Pieces(s).Some? && s != ""
    ensures s[0] == ';' ==> Pieces(s[1..]).Some? && Pieces(s).value == [""] + Pieces(s[1..]).value
    ensures s[0] != ';' ==>
      && TokenLength(s).Some?
      && var n := TokenLength(s).value;
         Pieces(s[n..]).Some? && Pieces(s).value == Glue(s[..n], Pieces(s[n..]).value)
  {
  }

  /** The pieces and the semicolons between them are the whole text. */
  lemma {:induction false} PiecesCoverText(s: string)
    requires Pieces(s).Some?
    ensures JoinPieces(Pieces(s).value) == s
    decreases |s|
  {
    if s != "" {
      PiecesUnfold(s);
      if s[0] == ';' {
        PiecesCoverText(s[1..]);
        JoinEmptyPiece(Pieces(s[1..]).value);
      } else {
        var n := TokenLength(s).value;
        PiecesCoverText(s[n..]);
        JoinGlue(s[..n], Pieces(s[n..]).value);
        assert s == s[..n] + s[n..];
      }
    }
  }

  // ----- Errors -----

  /** Reading from the top level, position k is again at the top level. */
  ghost predicate TopLevelAt(s: string, k: nat)
    decreases |s|
  {
    || k == 0
    || (s != "" && s[0] == ';' && TopLevelAt(s[1..], k - 1))
    || (s != "" && s[0] != ';' && TokenLength(s).Some?
        && TokenLength(s).value <= k && TopLevelAt(s[TokenLength(s).value..], k - TokenLength(s).value))
  }

  /** A quote, block comment or dollar quote opens here and does not close before the end. */
  ghost predicate Unterminated(r: string) {
    || ("/*" <= r && BlockEnd(r[2..], 1).None?)
    || ("'" <= r && SingleEnd(r[1..]).None?)
    || ("\"" <= r && DoubleEnd(r[1..]).None?)
    || (DollarTag(r).Some? && forall k :: 0 <= k <= |r| - |DollarTag(r).value| ==>
          !Occurs(DollarTag(r).value, r[|DollarTag(r).value|..], k))
  }

  ghost predicate Occurs(tag: string, s: string, k: nat) {
    k <= |s| && tag <= s[k..]
  }

  lemma {:induction false} DollarEndIsFirst(s: string, tag: string)
    requires tag != ""
    ensures DollarEnd(s, tag).Some? ==>
      var k := DollarEnd(s, tag).value - |tag|;
      Occurs(tag, s, k) && forall j :: 0 <= j < k ==> !Occurs(tag, s, j)
    ensures DollarEnd(s, tag).None? ==> forall j :: 0 <= j <= |s| ==> !Occurs(tag, s, j)
  {
    hide Occurs;
    OccursAtStart(tag, s);
    if !(tag <= s) && s != "" {
      DollarEndIsFirst(s[1..], tag);
      forall j | 0 < j <= |s|
        ensures Occurs(tag, s, j) == Occurs(tag, s[1..], j - 1)
      {
        OccursLater(tag, s, j);
      }
    }
  }

  lemma OccursAtStart(tag: string, s: string)
    ensures Occurs(tag, s, 0) <==> tag <= s
  {
    assert s[0..] == s;
  }

  lemma OccursLater(tag: string, s: string, j: nat)
    requires 0 < j <= |s|
    ensures Occurs(tag, s, j) == Occurs(tag, s[1..], j - 1)
  {
    assert s[j..] == s[1..][j - 1..];
  }

  lemma {:induction false} NoTokenIffUnterminated(r: string)
    requires r != ""
    ensures TokenLength(r).None? <==> Unterminated(r)
  {
    if DollarTag(r).Some? {
      var tag := DollarTag(r).value;
      DollarToken(r, tag);
      DollarEndIsFirst(r[|tag|..], tag);
    }
  }

  lemma {:induction false} WhereItFails(s: string) returns (k: nat)
    requires Pieces(s).None?
    ensures k < |s| && TopLevelAt(s, k) && Unterminated(s[k..])
    decreases |s|
  {
    hide Unterminated, TokenLength;
    NoTokenIffUnterminated(s);
    if s[0] != ';' && TokenLength(s).None? {
      k := 0;
      assert s[0..] == s;
    } else {
      var n := if s[0] == ';' then 1 else TokenLength(s).value;
      var j := WhereItFails(s[n..]);
      k := n + j;
      assert s[n..][j..] == s[k..];
    }
  }

  lemma {:induction false} UnterminatedFails(s: string, k: nat)
    requires k < |s| && TopLevelAt(s, k) && Unterminated(s[k..])
    ensures Pieces(s).None?
    decreases |s|
  {
    hide Unterminated, TokenLength;
    if k == 0 {
      assert s[0..] == s;
      NoTokenIffUnterminated(s);
      SemicolonIsPlain(s);
    } else {
      var n := if s[0] == ';' then 1 else TokenLength(s).value;
      assert s[n..][k - n..] == s[k..];
      UnterminatedFails(s[n..], k - n);
    }
  }

  lemma {:induction false} SemicolonIsPlain(s: string)
    ensures s != "" && s[0] == ';' ==> TokenLength(s) == Some(1)
  {
  }

  /** The splitter fails exactly on texts that end inside a quote, block comment or dollar quote. */
  lemma FailsIffUnterminated(s: string)
    ensures Split(s).None? <==> exists k :: 0 <= k < |s| && TopLevelAt(s, k) && Unterminated(s[k..])
  {
    hide Unterminated, TokenLength, Pieces, TopLevelAt;
    if Pieces(s).None? {
      var k := WhereItFails(s);
    } else {
      forall k | 0 <= k < |s| && TopLevelAt(s, k) && Unterminated(s[k..])
        ensures false
      {
        UnterminatedFails(s, k);
      }
    }
  }

  // ----- Constructs do not depend on what follows them -----

  /** Text that cannot continue a construct that ends before it. */
  ghost predicate Inert(f: string) {
    f == "" || f[0] == ';' || IsSpace(f[0])
  }

  /** A changed continuation that cannot be mistaken: inert, or starting with the same character. */
  ghost predicate Harmless(h: string, h': string) {
    Inert(h') || (h != "" && h[0] == h'[0])
  }

  lemma {:induction false} LineLocal(y: string, h: string, h': string)
    requires y != "" && y[|y| - 1] == '\n' && LineEnd(y + h) == |y|
    ensures LineEnd(y + h') == |y|
  {
    if y[0] != '\n' {
      assert (y + h)[1..] == y[1..] + h && (y + h')[1..] == y[1..] + h';
      LineLocal(y[1..], h, h');
    }
  }

  lemma {:induction false} LineOpen(y: string, h: string)
    requires LineEnd(y + h) > |y|
    ensures LineEnd(y) == |y| && (y == "" || y[|y| - 1] != '\n')
  {
    if y != "" {
      assert (y + h)[1..] == y[1..] + h;
      LineOpen(y[1..], h);
    }
  }

  lemma {:induction false} LineUnclosed(y: string, h: string)
    requires LineEnd(y + h) == |y| && (y == "" || y[|y| - 1] != '\n')
    ensures h == ""
  {
    if y != "" {
      assert (y + h)[1..] == y[1..] + h;
      LineUnclosed(y[1..], h);
    } else {
      assert y + h == h;
    }
  }

  lemma {:induction false} LineThenNewline(y: string, g: string)
    requires LineEnd(y) == |y| && (y == "" || y[|y| - 1] != '\n')
    ensures LineEnd(y + "\n" + g) == |y| + 1
  {
    if y != "" {
      assert (y + "\n" + g)[1..] == y[1..] + "\n" + g;
      LineThenNewline(y[1..], g);
    }
  }

  lemma {:induction false} BlockIsLong(s: string, depth: nat)
    requires depth > 0 && BlockEnd(s, depth).Some?
    ensures BlockEnd(s, depth).value >= 2 && s[BlockEnd(s, depth).value - 1] == '/'
    decreases |s|
  {
    if "/*" <= s {
      BlockIsLong(s[2..], depth + 1);
    } else if "*/" <= s {
      if depth > 1 {
        BlockIsLong(s[2..], depth - 1);
      }
    } else {
      BlockIsLong(s[1..], depth);
    }
  }

  lemma DropOf(y: string, h: string, n: nat)
    requires n <= |y|
    ensures (y + h)[n..] == y[n..] + h
  {
  }

  lemma StartsWith(y: string, h: string, t: string)
    requires |t| <= |y|
    ensures t <= y + h <==> t <= y
  {
    assert (y + h)[..|t|] == y[..|t|];
  }

  lemma {:induction false} BlockLocal(y: string, h: string, h': string, depth: nat)
    requires BlockEnd(y + h, depth) == Some(|y|)
    ensures BlockEnd(y + h', depth) == Some(|y|)
    decreases |y|
  {
    if depth > 0 {
      BlockIsLong(y + h, depth);
      StartsWith(y, h, "/*");
      StartsWith(y, h', "/*");
      StartsWith(y, h, "*/");
      StartsWith(y, h', "*/");
      var n := if "/*" <= y || "*/" <= y then 2 else 1;
      DropOf(y, h, n);
      DropOf(y, h', n);
      BlockLocal(y[n..], h, h', if "/*" <= y then depth + 1 else if "*/" <= y then depth - 1 else depth);
    }
  }

  lemma {:induction false} SingleLocal(y: string, h: string, h': string)
    requires SingleEnd(y + h) == Some(|y|) && Harmless(h, h')
    ensures SingleEnd(y + h') == Some(|y|) && y[|y| - 1] == '\''
  {
    var s, s' := y + h, y + h';
    if |y| > 1 {
      assert s[0] == s'[0] == y[0] && s[1] == s'[1] == y[1];
      var n := if s[0] == '\\' || s[0] == '\'' then 2 else 1;
      DropOf(y, h, n);
      DropOf(y, h', n);
      hide Harmless;
      SingleLocal(y[n..], h, h');
    }
  }

  lemma {:induction false} DoubleLocal(y: string, h: string, h': string)
    requires DoubleEnd(y + h) == Some(|y|) && Harmless(h, h')
    ensures DoubleEnd(y + h') == Some(|y|) && y[|y| - 1] == '"'
  {
    var s, s' := y + h, y + h';
    if |y| > 1 {
      assert s[0] == s'[0] == y[0] && s[1] == s'[1] == y[1];
      var n := if s[0] == '"' then 2 else 1;
      DropOf(y, h, n);
      DropOf(y, h', n);
      hide Harmless;
      DoubleLocal(y[n..], h, h');
    }
  }

  lemma {:induction false} DollarLocal(y: string, h: string, h': string, tag: string)
    requires tag != "" && DollarEnd(y + h, tag) == Some(|y|)
    ensures DollarEnd(y + h', tag) == Some(|y|) && y[|y| - 1] == tag[|tag| - 1]
  {
    var s, s' := y + h, y + h';
    assert s[..|tag|] == y[..|tag|] == s'[..|tag|];
    if !(tag <= s) {
      assert s[1..] == y[1..] + h && s'[1..] == y[1..] + h';
      DollarLocal(y[1..], h, h', tag);
    }
  }

  lemma {:induction false} TagLocal(y: string, h: string, h': string)
    requires TagLength(y + h).Some? && TagLength(y + h).value <= |y|
    ensures TagLength(y + h') == TagLength(y + h) && y[TagLength(y + h).value - 1] == '$'
  {
    if y[0] != '$' {
      assert (y + h)[1..] == y[1..] + h && (y + h')[1..] == y[1..] + h';
      TagLocal(y[1..], h, h');
    }
  }

  lemma {:induction false} NoTagLocal(r: string, f: string, g: string)
    requires Inert(f) && Inert(g) && TagLength(r + f).None?
    ensures TagLength(r + g).None?
  {
    if r == "" {
      assert r + g == g;
    } else if TagChar(r[0]) {
      assert (r + f)[1..] == r[1..] + f && (r + g)[1..] == r[1..] + g;
      NoTagLocal(r[1..], f, g);
    }
  }

  ghost predicate OpenLineComment(x: string) {
    "--" <= x && x[|x| - 1] != '\n'
  }

  lemma ClosersAreNoSpace()
    ensures !IsSpace('/') && !IsSpace('\'') && !IsSpace('"') && !IsSpace('$')
  {
  }

  lemma {:induction false} LongTokenLocal(x: string, h: string, h': string)
    requires |x| > 1 && TokenLength(x + h) == Some(|x|) && !OpenLineComment(x) && Harmless(h, h')
    ensures TokenLength(x + h') == Some(|x|)
    ensures !("--" <= x) ==> !IsSpace(x[|x| - 1])
  {
    hide IsSpace, LineEnd, BlockEnd, SingleEnd, DoubleEnd, DollarEnd, DollarTag, Harmless;
    ClosersAreNoSpace();
    var s, s' := x + h, x + h';
    assert s[0] == s'[0] == x[0] && s[1] == s'[1] == x[1];
    assert s[2..] == x[2..] + h && s'[2..] == x[2..] + h';
    assert s[1..] == x[1..] + h && s'[1..] == x[1..] + h';
    if "--" <= s {
      LineLocal(x[2..], h, h');
    } else if "/*" <= s {
      BlockIsLong(s[2..], 1);
      BlockLocal(x[2..], h, h', 1);
    } else if s[0] == '\'' {
      SingleLocal(x[1..], h, h');
    } else if s[0] == '"' {
      DoubleLocal(x[1..], h, h');
    } else {
      DollarTokenLocal(x, h, h', DollarTag(s).value);
    }
  }

  lemma {:induction false} DollarToken(s: string, tag: string)
    requires s != "" && DollarTag(s) == Some(tag)
    ensures TokenLength(s) == var n := DollarEnd(s[|tag|..], tag); if n.None? then None else Some(|tag| + n.value)
  {
  }

  lemma {:induction false} DollarTagLocal(x: string, h: string, h': string, tag: string)
    requires x != "" && DollarTag(x + h) == Some(tag) && |tag| <= |x|
    ensures DollarTag(x + h') == Some(tag) && tag == x[..|tag|] && tag[|tag| - 1] == '$'
  {
    assert (x + h)[1..] == x[1..] + h && (x + h')[1..] == x[1..] + h';
    TagLocal(x[1..], h, h');
    assert (x + h)[..|tag|] == x[..|tag|] == (x + h')[..|tag|];
  }

  lemma {:induction false} DollarTokenLocal(x: string, h: string, h': string, tag: string)
    requires x != "" && DollarTag(x + h) == Some(tag) && TokenLength(x + h) == Some(|x|)
    ensures TokenLength(x + h') == Some(|x|) && x[|x| - 1] == '$'
  {
    hide TokenLength, DollarTag, DollarEnd;
    var n := |tag|;
    DollarToken(x + h, tag);
    assert |tag| <= |x|;
    DollarTagLocal(x, h, h', tag);
    DollarToken(x + h', tag);
    DropOf(x, h, n);
    DropOf(x, h', n);
    DollarLocal(x[n..], h, h', tag);
  }

  lemma {:induction false} PlainLocal(x: string, r: string, f: string, g: string)
    requires |x| == 1 && TokenLength(x + (r + f)) == Some(1) && Inert(f) && Inert(g)
    ensures TokenLength(x + (r + g)) == Some(1)
  {
    hide TokenLength, TagLength, Inert;
    var s, s' := x + (r + f), x + (r + g);
    assert s[1..] == r + f && s'[1..] == r + g && s[0] == s'[0] == x[0];
    PlainIff(s);
    PlainIff(s');
    SecondIsHarmless(x[0], r, f, g);
    if x[0] == '$' {
      NoTagLocal(r, f, g);
    }
  }

  /** Two characters that open a comment. */
  ghost predicate OpensComment(first: char, rest: string) {
    rest != "" && ((first == '-' && rest[0] == '-') || (first == '/' && rest[0] == '*'))
  }

  /** A single character stands for itself exactly if it opens nothing. */
  lemma {:induction false} PlainIff(s: string)
    requires s != ""
    ensures TokenLength(s) == Some(1)
        <==> !OpensComment(s[0], s[1..]) && s[0] != '\'' && s[0] != '"' && DollarTag(s).None?
  {
    hide LineEnd, BlockEnd, DollarEnd, DollarTag;
    assert "--" <= s <==> |s| > 1 && s[0] == '-' && s[1] == '-';
    assert "/*" <= s <==> |s| > 1 && s[0] == '/' && s[1] == '*';
  }

  lemma SecondIsHarmless(first: char, r: string, f: string, g: string)
    requires Inert(g) && !OpensComment(first, r + f)
    ensures !OpensComment(first, r + g)
  {
  }

  /** A construct that is not an unterminated line comment ends where it ends whatever follows. */
  lemma {:induction false} TokenLocal(x: string, r: string, f: string, g: string)
    requires x != "" && TokenLength(x + (r + f)) == Some(|x|) && Inert(f) && Inert(g)
    requires !OpenLineComment(x)
    ensures TokenLength(x + (r + g)) == Some(|x|)
  {
    if |x| > 1 {
      LongTokenLocal(x, r + f, r + g);
    } else {
      PlainLocal(x, r, f, g);
    }
  }

  // ----- Text that is read at the top level from end to end -----

  /** Read from the top level with `f` after it, p is a row of whole constructs without semicolons. */
  ghost predicate Clean(p: string, f: string)
    decreases |p|
  {
    p == "" || (
      && p[0] != ';'
      && TokenLength(p + f).Some?
      && var n := TokenLength(p + f).value;
         n <= |p| && Clean(p[n..], f))
  }

  lemma {:induction false} NewlineIsPlain(g: string)
    ensures TokenLength("\n" + g) == Some(1)
  {
    assert ("\n" + g)[0] == '\n';
  }

  lemma {:induction false} GlueParts(text: string, pieces: seq<string>)
    requires pieces != []
    ensures Glue(text, pieces) == [text + pieces[0]] + pieces[1..]
    ensures Glue(text, pieces)[0] == text + pieces[0] && Glue(text, pieces)[1..] == pieces[1..]
  {
  }

  lemma {:induction false} CleanStep(p: string, f: string, n: nat)
    requires 0 < n <= |p| && p[0] != ';' && TokenLength(p + f) == Some(n) && Clean(p[n..], f)
    ensures Clean(p, f)
  {
  }

  lemma {:induction false} PieceGrows(s: string, n: nat, q: string, f: string)
    requires s != "" && s[0] != ';' && TokenLength(s) == Some(n) && s[n..] == q + f && Clean(q, f)
    ensures var p := s[..n] + q;
            p <= s && s[|p|..] == f && Clean(p, f)
  {
    hide TokenLength;
    var p := s[..n] + q;
    assert s == s[..n] + s[n..] && s == p + f && p[n..] == q && s[0] == p[0];
    CleanStep(p, f, n);
  }

  lemma {:induction false} NothingIsClean(f: string)
    ensures Clean("", f) && Pieces("") == Some([""])
  {
  }

  /** The first piece of a text is clean, and the rest starts at a semicolon or is nothing. */
  lemma {:induction false} FirstPieceIsClean(s: string)
    requires Pieces(s).Some?
    ensures var pieces := Pieces(s).value;
            && pieces[0] <= s
            && var f := s[|pieces[0]|..];
               && Clean(pieces[0], f)
               && (f == "" ==> |pieces| == 1)
               && (f != "" ==> f[0] == ';' && Pieces(f[1..]) == Some(pieces[1..]))
    decreases |s|
  {
    hide TokenLength, Pieces, Glue, Clean;
    NothingIsClean(s);
    assert s[0..] == s;
    if s != "" {
      PiecesUnfold(s);
      if s[0] != ';' {
        var n := TokenLength(s).value;
        FirstPieceIsClean(s[n..]);
        var rest := Pieces(s[n..]).value;
        PieceGrows(s, n, rest[0], s[n..][|rest[0]|..]);
        GlueParts(s[..n], rest);
      }
    }
  }

  /** Clean text up to a semicolon, or up to the end, is one piece. */
  lemma {:induction false} CleanIsOnePiece(p: string, f: string)
    requires Clean(p, f) && (f == "" || f[0] == ';')
    ensures f == "" ==> Pieces(p) == Some([p])
    ensures f != "" && Pieces(f[1..]).Some? ==> Pieces(p + f) == Some([p] + Pieces(f[1..]).value)
    decreases |p|
  {
    hide TokenLength;
    if p == "" {
      assert p + f == f;
    } else {
      var s := p + f;
      var n := TokenLength(s).value;
      CleanIsOnePiece(p[n..], f);
      assert s[n..] == p[n..] + f && s[..n] + p[n..] == p && s[0] == p[0];
      assert f == "" ==> s == p && p[n..] + f == p[n..];
      if Pieces(s[n..]).Some? {
        GlueParts(s[..n], Pieces(s[n..]).value);
        assert [p] + [p[n..]][1..] == [p];
      }
    }
  }

  /** A newline may be put between clean text and whatever comes next. */
  lemma {:induction false} CleanThenNewline(p: string, f: string, g: string)
    requires Clean(p, f) && Inert(f) && Inert(g)
    ensures Clean(p + "\n", g)
    decreases |p|
  {
    hide TokenLength, Inert, OpenLineComment;
    NewlineIsInert(g);
    if p == "" {
      assert p + "\n" == "\n";
      NewlineIsPlain(g);
      assert Clean("", g) && "\n"[1..] == "";
    } else {
      var n := TokenLength(p + f).value;
      var x, r := p[..n], p[n..];
      assert p + f == x + (r + f) && p + "\n" + g == x + (r + ("\n" + g));
      if OpenLineComment(x) {
        LineCommentThenNewline(x, r + f, g);
        assert r == "" && x == p;
        CleanStep(p + "\n", g, n + 1);
      } else {
        TokenLocal(x, r, f, "\n" + g);
        CleanThenNewline(r, f, g);
        assert (p + "\n")[n..] == r + "\n" && p + "\n" + g == (p + "\n") + g;
        CleanStep(p + "\n", g, n);
      }
    }
  }

  lemma NewlineIsInert(g: string)
    ensures Inert("\n" + g)
  {
  }

  lemma {:induction false} LineCommentThenNewline(x: string, h: string, g: string)
    requires OpenLineComment(x) && TokenLength(x + h) == Some(|x|)
    ensures h == "" && TokenLength(x + "\n" + g) == Some(|x| + 1)
  {
    assert (x + h)[2..] == x[2..] + h && (x + "\n" + g)[2..] == x[2..] + "\n" + g;
    assert "--" <= x + h && "--" <= x + "\n" + g;
    LineUnclosed(x[2..], h);
    assert x[2..] + "" == x[2..];
    LineThenNewline(x[2..], g);
  }

  ghost predicate AllSpace(w: string) {
    forall k :: 0 <= k < |w| ==> IsSpace(w[k])
  }

  /** Space at the end of clean text may be cut off, even from a line comment. */
  lemma {:induction false} CleanWithoutTrailingSpace(t: string, w: string, f: string)
    requires Clean(t + w, f) && AllSpace(w) && Inert(f)
    ensures Clean(t, "")
    decreases |t|
  {
    hide TokenLength;
    if t != "" {
      var s := t + w + f;
      var n := TokenLength(s).value;
      assert t + "" == t && (t + w)[0] == t[0];
      if n <= |t| {
        var x, r := t[..n], t[n..];
        assert s == x + (r + (w + f)) && t == x + (r + "") && (t + w)[n..] == r + w;
        CleanWithoutTrailingSpace(r, w, f);
        if OpenLineComment(x) {
          LineCommentThenNewline(x, r + (w + f), "");
          assert s == t;
        } else {
          TokenLocal(x, r, w + f, "");
        }
        CleanStep(t, "", n);
      } else {
        OnlyCommentsEndInSpace(t, w, f, n);
        assert t[|t|..] == "";
        CleanStep(t, "", |t|);
      }
    }
  }

  lemma {:induction false} OnlyCommentsEndInSpace(t: string, w: string, f: string, n: nat)
    requires t != "" && AllSpace(w) && |t| < n <= |t + w| && TokenLength(t + w + f) == Some(n)
    ensures TokenLength(t) == Some(|t|)
  {
    var s := t + w + f;
    var x := s[..n];
    assert s == x + s[n..] && IsSpace(w[n - 1 - |t|]) && x[n - 1] == w[n - 1 - |t|];
    if !("--" <= x) {
      LongTokenLocal(x, s[n..], "");
    }
    assert s[0] == t[0] && "--" <= s;
    assert s[|t|] == w[0] && IsSpace(w[0]);
    assert s[1] == t[1] && s[2..] == t[2..] + (w + f);
    LineOpen(t[2..], w + f);
  }

  lemma {:induction false} CleanWithoutLeadingSpace(w: string, t: string, f: string)
    requires Clean(w + t, f) && AllSpace(w)
    ensures Clean(t, f)
    decreases |w|
  {
    if w == "" {
      assert w + t == t;
    } else {
      var s := w + t + f;
      assert s[0] == w[0] && IsSpace(w[0]) && TokenLength(s) == Some(1);
      assert (w + t)[1..] == w[1..] + t;
      CleanWithoutLeadingSpace(w[1..], t, f);
    }
  }

  // ----- Trimming -----

  lemma {:induction false} TrimLeftParts(s: string) returns (w: string)
    ensures s == w + TrimLeft(s) && AllSpace(w)
    ensures TrimLeft(s) == "" || !IsSpace(TrimLeft(s)[0])
  {
    hide IsSpace, AllSpace, TrimLeft;
    TrimLeftStep(s);
    if s == "" || !IsSpace(s[0]) {
      w := "";
      SpaceAround('x', "");
    } else {
      var v := TrimLeftParts(s[1..]);
      w := [s[0]] + v;
      SpaceAround(s[0], v);
      assert s == [s[0]] + (v + TrimLeft(s)) by {
        assert s == [s[0]] + s[1..];
      }
    }
  }

  lemma {:induction false} TrimLeftStep(s: string)
    ensures TrimLeft(s) == if s == "" || !IsSpace(s[0]) then s else TrimLeft(s[1..])
  {
  }

  lemma {:induction false} TrimRightStep(s: string)
    ensures TrimRight(s) == if s == "" || !IsSpace(s[|s| - 1]) then s else TrimRight(s[..|s| - 1])
  {
  }

  lemma SpaceAround(c: char, v: string)
    ensures AllSpace("") && (IsSpace(c) && AllSpace(v) ==> AllSpace([c] + v) && AllSpace(v + [c]))
  {
    hide IsSpace;
  }

  lemma {:induction false} TrimRightParts(s: string) returns (w: string)
    ensures s == TrimRight(s) + w && AllSpace(w)
    ensures TrimRight(s) == "" || !IsSpace(TrimRight(s)[|TrimRight(s)| - 1])
  {
    hide IsSpace, AllSpace, TrimRight;
    TrimRightStep(s);
    if s == "" || !IsSpace(s[|s| - 1]) {
      w := "";
      SpaceAround('x', "");
    } else {
      var last := s[|s| - 1];
      var v := TrimRightParts(s[..|s| - 1]);
      w := v + [last];
      SpaceAround(last, v);
      assert s == (TrimRight(s) + v) + [last] by {
        assert s == s[..|s| - 1] + [last];
      }
    }
  }

  /** A text that neither starts nor ends with space. */
  ghost predicate Trimmed(t: string) {
    t != "" && !IsSpace(t[0]) && !IsSpace(t[|t| - 1])
  }

  lemma {:induction false} TrimIsTrimmed(s: string)
    requires Trim(s) != ""
    ensures Trimmed(Trim(s))
  {
    hide IsSpace, AllSpace, TrimLeft, TrimRight;
    var w := TrimLeftParts(s);
    var v := TrimRightParts(TrimLeft(s));
    assert Trim(s)[0] == TrimLeft(s)[0];
  }

  lemma {:induction false} TrimNewlines(t: string)
    requires Trimmed(t)
    ensures Trim(t) == Trim("\n" + t) == Trim(t + "\n") == Trim("\n" + t + "\n") == t
  {
    assert ("\n" + t)[1..] == t && ("\n" + t + "\n")[1..] == t + "\n";
    assert (t + "\n")[..|t|] == t;
    assert (t + "\n")[0] == t[0];
    assert TrimLeft(t) == t && TrimLeft("\n" + t) == t;
    assert TrimLeft(t + "\n") == t + "\n" && TrimLeft("\n" + t + "\n") == t + "\n";
    assert TrimRight(t) == t && TrimRight(t + "\n") == t;
  }

  // ----- Splitting the joined statements -----

  /** A statement as the splitter returns it. */
  ghost predicate Neat(t: string) {
    Trimmed(t) && Clean(t, "")
  }

  /** What follows the first piece cannot be mistaken for a part of it. */
  lemma {:induction false} PieceIsInert(s: string)
    ensures forall f: string :: f == "" || f[0] == ';' ==> Inert(f)
  {
  }

  lemma {:induction false} StatementsAreNeat(s: string)
    requires Pieces(s).Some?
    ensures forall t :: t in Statements(Pieces(s).value) ==> Neat(t)
    decreases |s|
  {
    hide TokenLength, Pieces, Clean, IsSpace, AllSpace, TrimLeft, TrimRight, Trimmed, Inert;
    PieceIsInert(s);
    FirstPieceIsClean(s);
    var pieces := Pieces(s).value;
    var p := pieces[0];
    var f := s[|p|..];
    if f != "" {
      StatementsAreNeat(f[1..]);
    } else {
      assert pieces[1..] == [];
    }
    if Trim(p) != "" {
      var w := TrimLeftParts(p);
      var v := TrimRightParts(TrimLeft(p));
      TrimIsTrimmed(p);
      CleanWithoutLeadingSpace(w, TrimLeft(p), f);
      CleanWithoutTrailingSpace(Trim(p), v, f);
    }
  }

  function Join(statements: seq<string>): string {
    if statements == [] then ""
    else if |statements| == 1 then statements[0]
    else statements[0] + "\n;\n" + Join(statements[1..])
  }

  lemma {:induction false} LeadingNewline(p: string, f: string)
    requires Clean(p, f)
    ensures Clean("\n" + p, f)
  {
    assert ("\n" + p)[1..] == p;
    assert "\n" + p + f == "\n" + (p + f);
    NewlineIsPlain(p + f);
    CleanStep("\n" + p, f, 1);
  }

  lemma {:induction false} StatementBeforeSemicolon(t: string, lead: string, tail: string)
    requires Neat(t) && (lead == "" || lead == "\n") && Pieces(tail).Some?
    ensures var p := lead + (t + "\n");
            Pieces(p + (";" + tail)) == Some([p] + Pieces(tail).value) && Trim(p) == t
  {
    hide TokenLength, Pieces, Clean, Trim;
    var f := ";" + tail;
    TrimNewlines(t);
    CleanThenNewline(t, "", f);
    LeadingNewline(t + "\n", f);
    assert "" + (t + "\n") == t + "\n" && "\n" + (t + "\n") == "\n" + t + "\n";
    CleanIsOnePiece(lead + (t + "\n"), f);
    assert f[1..] == tail;
  }

  lemma {:induction false} LastStatement(t: string, lead: string)
    requires Neat(t) && (lead == "" || lead == "\n")
    ensures Pieces(lead + t) == Some([lead + t]) && Trim(lead + t) == t
  {
    hide TokenLength, Pieces, Clean, Trim;
    TrimNewlines(t);
    LeadingNewline(t, "");
    assert "" + t == t;
    CleanIsOnePiece(lead + t, "");
  }

  lemma {:induction false} StatementsCons(p: string, pieces: seq<string>)
    requires Trim(p) != ""
    ensures Statements([p] + pieces) == [Trim(p)] + Statements(pieces)
  {
    assert ([p] + pieces)[1..] == pieces;
  }

  /** The joined text, with or without a newline in front, splits into the statements. */
  lemma {:induction false} JoinSplits(statements: seq<string>, lead: string)
    requires statements != [] && (forall t :: t in statements ==> Neat(t))
    requires lead == "" || lead == "\n"
    ensures Split(lead + Join(statements)) == Some(statements)
    decreases |statements|
  {
    hide TokenLength, Pieces, Clean, Trim, Statements;
    var t := statements[0];
    assert t in statements && Neat(t);
    if |statements| == 1 {
      LastStatement(t, lead);
      assert [lead + t] + [] == [lead + t] && statements == [t] + [];
      StatementsCons(lead + t, []);
      NoStatements();
    } else {
      var tail := "\n" + Join(statements[1..]);
      JoinSplits(statements[1..], "\n");
      StatementBeforeSemicolon(t, lead, tail);
      var p := lead + (t + "\n");
      assert lead + Join(statements) == p + (";" + tail);
      StatementsCons(p, Pieces(tail).value);
      assert statements == [t] + statements[1..];
    }
  }

  lemma {:induction false} NoStatements()
    ensures Statements([]) == []
  {
  }

  /** Statements joined by newline, semicolon, newline split into the same list again. */
  lemma ResplitGivesSameStatements(s: string)
    requires Split(s).Some?
    ensures Split(Join(Split(s).value)) == Split(s)
  {
    StatementsAreNeat(s);
    var statements := Split(s).value;
    if statements != [] {
      JoinSplits(statements, "");
      assert "" + Join(statements) == Join(statements);
    }
  }
}
