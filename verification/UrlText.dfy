/** Text steps of Safe Browsing URL canonicalization: percent-decoding, escaping and path normalization. */
module UrlText {
  import opened Common

  /** A UTF-16 code unit. */
  type Unit = n: int | 0 <= n < 0x1_0000
  type Text = seq<Unit>

  const PERCENT: Unit := 0x25
  const HASH: Unit := 0x23
  const SLASH: Unit := 0x2f
  const DOT: Unit := 0x2e

  // ----- Percent-decoding -----

  function HexValue(c: Unit): (digit: Option<nat>)
    ensures digit.Some? ==> digit.value < 16 && c < 0x80 && c != PERCENT
  {
    if 0x30 <= c <= 0x39 then Some(c - 0x30)
    else if 0x41 <= c <= 0x46 then Some(c - 0x41 + 10)
    else if 0x61 <= c <= 0x66 then Some(c - 0x61 + 10)
    else None
  }

  /** The text starts with %hh. */
  predicate StartsWithEscape(s: Text) {
    |s| >= 3 && s[0] == PERCENT && HexValue(s[1]).Some? && HexValue(s[2]).Some?
  }

  predicate HasEscape(s: Text) {
    s != [] && (StartsWithEscape(s) || HasEscape(s[1..]))
  }

  function EscapedByte(s: Text): Byte
    requires StartsWithEscape(s)
  {
    16 * HexValue(s[1]).value + HexValue(s[2]).value
  }

  /** One global replacement of %hh. */
  function DecodeOnce(s: Text): (r: Text)
    ensures |r| <= |s|
  {
    if s == [] then []
    else if StartsWithEscape(s) then [EscapedByte(s)] + DecodeOnce(s[3..])
    else [s[0]] + DecodeOnce(s[1..])
  }

  lemma {:induction false} DecodeOnceProgress(s: Text)
    ensures if HasEscape(s) then |DecodeOnce(s)| < |s| else DecodeOnce(s) == s
  {
    if s != [] && !StartsWithEscape(s) {
      DecodeOnceProgress(s[1..]);
    }
  }

  /** Decoding until nothing changes. */
  function DecodeAll(s: Text): (r: Text)
    ensures !HasEscape(r)
    decreases |s|
  {
    if !HasEscape(s) then s
    else
      DecodeOnceProgress(s);
      DecodeAll(DecodeOnce(s))
  }

  method ReplaceEscapes(input: Text) returns (r: Text)
    ensures r == DecodeOnce(input)
  {
    r := [];
    var i := 0;
    while i < |input|
      invariant i <= |input| && r + DecodeOnce(input[i..]) == DecodeOnce(input)
    {
      hide DecodeOnce, HexValue;
      ReplaceStep(input, i, r);
      if StartsWithEscape(input[i..]) {
        r := r + [EscapedByte(input[i..])];
        i := i + 3;
      } else {
        r := r + [input[i]];
        i := i + 1;
      }
    }
    assert input[i..] == [] && r + [] == r;
  }

  lemma ReplaceStep(input: Text, i: nat, r: Text)
    requires i < |input|
    ensures if StartsWithEscape(input[i..]) then
              i + 3 <= |input|
              && r + DecodeOnce(input[i..]) == (r + [EscapedByte(input[i..])]) + DecodeOnce(input[i + 3..])
            else r + DecodeOnce(input[i..]) == (r + [input[i]]) + DecodeOnce(input[i + 1..])
  {
    var s := input[i..];
    assert s[1..] == input[i + 1..];
    if StartsWithEscape(s) {
      assert s[3..] == input[i + 3..];
    }
  }

  /** percentDecodeRepeatedly ends, and no %hh is left. */
  method PercentDecodeRepeatedly(input: Text) returns (decoded: Text)
    ensures decoded == DecodeAll(input) && !HasEscape(decoded)
  {
    decoded := input;
    while true
      invariant DecodeAll(decoded) == DecodeAll(input)
      decreases |decoded|
    {
      var next := ReplaceEscapes(decoded);
      DecodeOnceProgress(decoded);
      if next == decoded {
        return;
      }
      decoded := next;
    }
  }

  // ----- Escaping -----

  predicate IsHigh(c: Unit) {
    0xd800 <= c < 0xdc00
  }

  predicate IsLow(c: Unit) {
    0xdc00 <= c < 0xe000
  }

  predicate StartsWithPair(s: Text) {
    |s| >= 2 && IsHigh(s[0]) && IsLow(s[1])
  }

  /** UTF-8 of a character above U+00FF; a lone surrogate is encoded as the replacement character. */
  function Utf8(codePoint: int): (bytes: Text)
    requires 0xff < codePoint < 0x11_0000
    ensures bytes != [] && forall i :: 0 <= i < |bytes| ==> 0x80 <= bytes[i] <= 0xff
  {
    if codePoint < 0x800 then [0xc0 + codePoint / 0x40, 0x80 + codePoint % 0x40]
    else if 0xd800 <= codePoint < 0xe000 then [0xef, 0xbf, 0xbd]
    else if codePoint < 0x1_0000 then
      [0xe0 + codePoint / 0x1000, 0x80 + codePoint / 0x40 % 0x40, 0x80 + codePoint % 0x40]
    else
      [0xf0 + codePoint / 0x4_0000, 0x80 + codePoint / 0x1000 % 0x40, 0x80 + codePoint / 0x40 % 0x40,
       0x80 + codePoint % 0x40]
  }

  predicate IsUnsafe(c: Unit) {
    c <= 32 || c >= 127 || c == HASH || c == PERCENT
  }

  function HexDigit(n: nat): Unit
    requires n < 16
  {
    if n < 10 then 0x30 + n else 0x41 + (n - 10)
  }

  function Percent(b: Byte): Text {
    [PERCENT, HexDigit(b / 16), HexDigit(b % 16)]
  }

  function PercentAll(bytes: Text): Text
    requires forall i :: 0 <= i < |bytes| ==> bytes[i] <= 0xff
  {
    if bytes == [] then [] else Percent(bytes[0]) + PercentAll(bytes[1..])
  }

  function PairValue(high: int, low: int): int {
    0x1_0000 + (high - 0xd800) * 0x400 + (low - 0xdc00)
  }

  /** The bytes of the first character above U+00FF and what follows it. */
  function FirstBytes(s: Text): (Text, Text)
    requires s != [] && s[0] > 0xff
  {
    if StartsWithPair(s) then (Utf8(PairValue(s[0], s[1])), s[2..])
    else (Utf8(s[0]), s[1..])
  }

  function Escape(s: Text): Text
    decreases |s|
  {
    if s == [] then []
    else if s[0] <= 0xff then (if IsUnsafe(s[0]) then Percent(s[0]) else [s[0]]) + Escape(s[1..])
    else
      var (bytes, rest) := FirstBytes(s);
      PercentAll(bytes) + Escape(rest)
  }

  lemma Associate(a: Text, b: Text, c: Text)
    ensures a + (b + c) == (a + b) + c
  {
  }

  lemma EscapeStep(s: Text, escaped: Text)
    requires s != []
    ensures s[0] <= 0xff ==>
      escaped + Escape(s) == (escaped + if IsUnsafe(s[0]) then Percent(s[0]) else [s[0]]) + Escape(s[1..])
    ensures s[0] > 0xff ==>
      var (bytes, rest) := FirstBytes(s);
      |rest| < |s| && escaped + Escape(s) == (escaped + PercentAll(bytes)) + Escape(rest)
  {
    hide Utf8, Percent, PercentAll, PairValue;
    if s[0] <= 0xff {
      Associate(escaped, if IsUnsafe(s[0]) then Percent(s[0]) else [s[0]], Escape(s[1..]));
    } else {
      var (bytes, rest) := FirstBytes(s);
      Associate(escaped, PercentAll(bytes), Escape(rest));
    }
  }

  method EscapeUnsafe(input: Text) returns (escaped: Text)
    ensures escaped == Escape(input)
  {
    escaped := [];
    var s := input;
    while s != []
      invariant escaped + Escape(s) == Escape(input)
      decreases |s|
    {
      hide Escape, FirstBytes, Percent, PercentAll;
      EscapeStep(s, escaped);
      if s[0] <= 0xff {
        escaped := escaped + if IsUnsafe(s[0]) then Percent(s[0]) else [s[0]];
        s := s[1..];
      } else {
        var (bytes, rest) := FirstBytes(s);
        escaped := escaped + PercentAll(bytes);
        s := rest;
      }
    }
    assert escaped + [] == escaped;
  }

  // ----- Decoding and escaping reach a fixpoint -----

  /** The text as bytes, one code unit each: what decoding an escaped text gives. */
  function Latin(s: Text): (r: Text)
    ensures forall i :: 0 <= i < |r| ==> r[i] <= 0xff
    decreases |s|
  {
    if s == [] then []
    else if s[0] <= 0xff then [s[0]] + Latin(s[1..])
    else
      var (bytes, rest) := FirstBytes(s);
      bytes + Latin(rest)
  }

  predicate AllBytes(s: Text) {
    forall i :: 0 <= i < |s| ==> s[i] <= 0xff
  }

  lemma {:induction false} LatinOfBytes(s: Text)
    requires AllBytes(s)
    ensures Latin(s) == s
  {
    if s != [] {
      LatinOfBytes(s[1..]);
    }
  }

  /** High bytes are escaped one by one. */
  lemma {:induction false} EscapeHighBytes(bytes: Text, rest: Text)
    requires forall i :: 0 <= i < |bytes| ==> 0x80 <= bytes[i] <= 0xff
    ensures Escape(bytes + rest) == PercentAll(bytes) + Escape(rest)
  {
    if bytes == [] {
      assert bytes + rest == rest;
    } else {
      assert (bytes + rest)[1..] == bytes[1..] + rest;
      EscapeHighBytes(bytes[1..], rest);
      assert Percent(bytes[0]) + (PercentAll(bytes[1..]) + Escape(rest))
          == (Percent(bytes[0]) + PercentAll(bytes[1..])) + Escape(rest);
    }
  }

  lemma {:induction false} EscapeOfLatin(s: Text)
    ensures Escape(Latin(s)) == Escape(s)
    decreases |s|
  {
    if s != [] {
      if s[0] <= 0xff {
        assert Latin(s)[1..] == Latin(s[1..]);
        EscapeOfLatin(s[1..]);
      } else {
        var (bytes, rest) := FirstBytes(s);
        EscapeOfLatin(rest);
        EscapeHighBytes(bytes, Latin(rest));
      }
    }
  }

  lemma PercentIsEscape(b: Byte, tail: Text)
    ensures var s := Percent(b) + tail; StartsWithEscape(s) && EscapedByte(s) == b && s[3..] == tail
  {
  }

  /** Decoding once undoes the escaping of bytes. */
  lemma {:induction false} DecodeOnceUndoesEscape(s: Text)
    requires AllBytes(s)
    ensures DecodeOnce(Escape(s)) == s
  {
    if s != [] {
      DecodeOnceUndoesEscape(s[1..]);
      if IsUnsafe(s[0]) {
        PercentIsEscape(s[0], Escape(s[1..]));
      } else {
        assert Escape(s)[1..] == Escape(s[1..]);
      }
    }
  }

  /** A low byte of the Latin form stands for itself. */
  lemma LatinHead(s: Text)
    ensures s == [] ==> Latin(s) == []
    ensures s != [] ==> Latin(s) != []
    ensures s != [] && (Latin(s)[0] < 0x80 || s[0] <= 0xff) ==>
      s[0] == Latin(s)[0] && Latin(s)[1..] == Latin(s[1..])
  {
  }

  lemma {:induction false} HighBytesHaveNoEscape(bytes: Text, rest: Text)
    requires forall i :: 0 <= i < |bytes| ==> 0x80 <= bytes[i] <= 0xff
    ensures HasEscape(bytes + rest) == HasEscape(rest)
  {
    if bytes == [] {
      assert bytes + rest == rest;
    } else {
      assert (bytes + rest)[1..] == bytes[1..] + rest;
      HighBytesHaveNoEscape(bytes[1..], rest);
    }
  }

  lemma LatinStarts(s: Text)
    requires s != [] && StartsWithEscape(Latin(s))
    ensures StartsWithEscape(s)
  {
    hide Latin;
    LatinHead(s);
    LatinHead(s[1..]);
    if s[1..] != [] {
      LatinHead(s[1..][1..]);
    }
  }

  lemma {:induction false} LatinHasNoEscape(s: Text)
    requires !HasEscape(s)
    ensures !HasEscape(Latin(s))
    decreases |s|
  {
    if s != [] {
      hide StartsWithEscape;
      if StartsWithEscape(Latin(s)) {
        LatinStarts(s);
      }
      LatinHead(s);
      if s[0] <= 0xff {
        LatinHasNoEscape(s[1..]);
      } else {
        var (bytes, rest) := FirstBytes(s);
        RestHasNoEscape(s);
        LatinHasNoEscape(rest);
        HighBytesHaveNoEscape(bytes, Latin(rest));
      }
    }
  }

  lemma RestHasNoEscape(s: Text)
    requires s != [] && s[0] > 0xff && !HasEscape(s)
    ensures !HasEscape(FirstBytes(s).1) && |FirstBytes(s).1| < |s|
  {
    assert StartsWithPair(s) ==> s[2..] == s[1..][1..];
  }

  /** What canonicalization does to the text of each part of a URL. */
  function Canonical(s: Text): Text {
    Escape(DecodeAll(s))
  }

  /** Decoding and then escaping a second time changes nothing. */
  lemma CanonicalIsFixpoint(s: Text)
    ensures Canonical(Canonical(s)) == Canonical(s)
  {
    var decoded := DecodeAll(s);
    var bytes := Latin(decoded);
    LatinHasNoEscape(decoded);
    EscapeOfLatin(decoded);
    DecodeOnceUndoesEscape(bytes);
    DecodeOnceProgress(Escape(bytes));
    assert DecodeAll(Escape(bytes)) == bytes;
  }

  // ----- Paths -----

  /** The path without runs of slashes. */
  function Collapse(s: Text): Text {
    if s == [] then []
    else if |s| >= 2 && s[0] == SLASH && s[1] == SLASH then Collapse(s[1..])
    else [s[0]] + Collapse(s[1..])
  }

  function Split(s: Text): (parts: seq<Text>)
    ensures parts != []
  {
    if s == [] then [[]]
    else
      var parts := Split(s[1..]);
      if s[0] == SLASH then [[]] + parts else [[s[0]] + parts[0]] + parts[1..]
  }

  function Join(segments: seq<Text>): Text {
    if segments == [] then []
    else if |segments| == 1 then segments[0]
    else segments[0] + [SLASH] + Join(segments[1..])
  }

  function EndsWith(s: Text, suffix: Text): bool {
    |s| >= |suffix| && s[|s| - |suffix|..] == suffix
  }

  function HasTrailingSlash(s: Text): bool {
    EndsWith(s, [SLASH]) || EndsWith(s, [SLASH, DOT]) || EndsWith(s, [SLASH, DOT, DOT])
  }

  /** The segments that are left when each `..` takes back the one before it. */
  function Resolve(parts: seq<Text>, segments: seq<Text>): seq<Text> {
    if parts == [] then segments
    else
      Resolve(parts[1..],
        if parts[0] == [] || parts[0] == [DOT] then segments
        else if parts[0] == [DOT, DOT] then if segments == [] then [] else segments[..|segments| - 1]
        else segments + [parts[0]])
  }

  function Normalized(path: Text): Text {
    var collapsed := Collapse(if path != [] && path[0] == SLASH then path else [SLASH] + path);
    var normalized := [SLASH] + Join(Resolve(Split(collapsed), []));
    if HasTrailingSlash(collapsed) && normalized != [SLASH] then normalized + [SLASH] else normalized
  }

  method NormalizePath(path: Text) returns (normalized: Text)
    ensures normalized == Normalized(path)
  {
    var collapsed := Collapse(if |path| > 0 && path[0] == SLASH then path else [SLASH] + path);
    var trailingSlash := HasTrailingSlash(collapsed);
    var parts := Split(collapsed);
    var segments: seq<Text> := [];
    var i := 0;
    while i < |parts|
      invariant i <= |parts| && Resolve(parts[i..], segments) == Resolve(parts, [])
    {
      var segment := parts[i];
      assert parts[i..][1..] == parts[i + 1..] && parts[i..][0] == segment;
      if segment == [DOT, DOT] {
        if |segments| > 0 {
          segments := segments[..|segments| - 1];
        }
      } else if segment != [] && segment != [DOT] {
        segments := segments + [segment];
      }
      i := i + 1;
    }
    assert parts[i..] == [];
    normalized := [SLASH] + Join(segments);
    if trailingSlash && normalized != [SLASH] {
      normalized := normalized + [SLASH];
    }
  }

  /** Not empty, not `.`, not `..`, and without slashes. */
  predicate IsCleanSegment(segment: Text) {
    segment != [] && segment != [DOT] && segment != [DOT, DOT] && SLASH !in segment
  }

  predicate AreClean(segments: seq<Text>) {
    forall i :: 0 <= i < |segments| ==> IsCleanSegment(segments[i])
  }

  lemma {:induction false} PartsHaveNoSlash(s: Text)
    ensures forall i :: 0 <= i < |Split(s)| ==> SLASH !in Split(s)[i]
  {
    if s != [] {
      PartsHaveNoSlash(s[1..]);
      var parts := Split(s[1..]);
      if s[0] != SLASH {
        assert forall i :: 0 < i < |Split(s)| ==> Split(s)[i] == parts[i];
      }
    }
  }

  lemma {:induction false} ResolvedAreClean(parts: seq<Text>, segments: seq<Text>)
    requires forall i :: 0 <= i < |parts| ==> SLASH !in parts[i]
    requires AreClean(segments)
    ensures AreClean(Resolve(parts, segments))
  {
    if parts != [] {
      ResolvedAreClean(parts[1..],
        if parts[0] == [] || parts[0] == [DOT] then segments
        else if parts[0] == [DOT, DOT] then if segments == [] then [] else segments[..|segments| - 1]
        else segments + [parts[0]]);
    }
  }

  lemma {:induction false} CleanResolveToThemselves(parts: seq<Text>, segments: seq<Text>)
    requires AreClean(parts)
    ensures Resolve(parts, segments) == segments + parts
    ensures Resolve(parts + [[]], segments) == segments + parts
  {
    if parts == [] {
      var empty: seq<Text> := [[]];
      assert parts + [[]] == empty && empty[1..] == [];
      assert Resolve(empty, segments) == Resolve([], segments);
    } else {
      assert (parts + [[]])[1..] == parts[1..] + [[]];
      assert IsCleanSegment(parts[0]);
      CleanResolveToThemselves(parts[1..], segments + [parts[0]]);
      assert (segments + [parts[0]]) + parts[1..] == segments + parts;
    }
  }

  /** Each segment behind a slash. */
  function Body(segments: seq<Text>): Text {
    if segments == [] then [] else [SLASH] + segments[0] + Body(segments[1..])
  }

  lemma {:induction false} JoinIsBody(segments: seq<Text>)
    requires segments != []
    ensures [SLASH] + Join(segments) == Body(segments)
  {
    if |segments| == 1 {
      assert Body(segments[1..]) == [];
    } else {
      JoinIsBody(segments[1..]);
    }
  }

  /** A segment is split off at the slash behind it, or is all there is. */
  lemma {:induction false} SplitSegment(segment: Text, rest: Text)
    requires SLASH !in segment && (rest == [] || rest[0] == SLASH)
    ensures Split(segment + rest) == [segment] + if rest == [] then [] else Split(rest[1..])
  {
    if segment == [] {
      assert segment + rest == rest;
    } else {
      assert (segment + rest)[1..] == segment[1..] + rest;
      SplitSegment(segment[1..], rest);
      assert [segment[0]] + segment[1..] == segment;
    }
  }

  function EmptyPart(tail: Text): seq<Text> {
    if tail == [] then [] else [[]]
  }

  lemma SplitNothing()
    ensures Split([]) == [[]]
  {
  }

  lemma {:induction false} SplitBody(segments: seq<Text>, tail: Text)
    requires AreClean(segments) && (tail == [] || tail == [SLASH])
    requires segments != [] || tail != []
    ensures var s := Body(segments) + tail;
            s != [] && s[0] == SLASH && Split(s[1..]) == segments + EmptyPart(tail)
  {
    hide Split;
    SplitNothing();
    var s := Body(segments) + tail;
    if segments == [] {
      assert s == [SLASH] && s[1..] == [];
    } else {
      var others := segments[1..];
      var rest := Body(others) + tail;
      assert s[1..] == segments[0] + rest;
      assert IsCleanSegment(segments[0]) && segments == [segments[0]] + others;
      if rest == [] {
        SplitSegment(segments[0], rest);
        NoBody(others);
      } else {
        if others != [] || tail != [] {
          SplitBody(others, tail);
        }
        SplitSegment(segments[0], rest);
        assert [segments[0]] + (others + EmptyPart(tail)) == segments + EmptyPart(tail);
      }
    }
  }

  lemma NoBody(segments: seq<Text>)
    requires Body(segments) == []
    ensures segments == []
  {
  }

  ghost predicate HasDoubleSlash(s: Text) {
    exists i: nat :: SlashPairAt(s, i)
  }

  predicate SlashPairAt(s: Text, i: nat) {
    i + 1 < |s| && s[i] == SLASH && s[i + 1] == SLASH
  }

  lemma SlashPairInFront(s: Text)
    ensures |s| >= 2 && s[0] == SLASH && s[1] == SLASH ==> HasDoubleSlash(s)
  {
    if |s| >= 2 && s[0] == SLASH && s[1] == SLASH {
      assert SlashPairAt(s, 0);
    }
  }

  lemma SlashPairBehind(s: Text)
    requires s != [] && HasDoubleSlash(s[1..])
    ensures HasDoubleSlash(s)
  {
    var i: nat :| SlashPairAt(s[1..], i);
    assert SlashPairAt(s, i + 1);
  }

  lemma {:induction false} CollapseOfSingle(s: Text)
    requires !HasDoubleSlash(s)
    ensures Collapse(s) == s
  {
    hide HasDoubleSlash;
    if s != [] {
      SlashPairInFront(s);
      if HasDoubleSlash(s[1..]) {
        SlashPairBehind(s);
      }
      CollapseOfSingle(s[1..]);
    }
  }

  lemma NoSlashPairJoined(first: Text, rest: Text)
    requires first != [] && SLASH !in first && !HasDoubleSlash(rest)
    ensures !HasDoubleSlash([SLASH] + first + rest)
  {
    var s := [SLASH] + first + rest;
    forall i: nat | i + 1 < |s|
      ensures !SlashPairAt(s, i)
    {
      if i < |first| {
        assert s[i + 1] == first[i];
      } else if i == |first| {
        assert s[i] == first[i - 1];
      } else {
        var j := i - 1 - |first|;
        assert s[i] == rest[j] && s[i + 1] == rest[j + 1];
        assert !SlashPairAt(rest, j);
      }
    }
  }

  lemma {:induction false} BodyHasNoDoubleSlash(segments: seq<Text>, tail: Text)
    requires AreClean(segments) && (tail == [] || tail == [SLASH])
    ensures !HasDoubleSlash(Body(segments) + tail)
  {
    if segments != [] {
      hide HasDoubleSlash;
      BodyHasNoDoubleSlash(segments[1..], tail);
      assert IsCleanSegment(segments[0]);
      NoSlashPairJoined(segments[0], Body(segments[1..]) + tail);
      assert Body(segments) + tail == [SLASH] + segments[0] + (Body(segments[1..]) + tail);
    }
  }

  /** The last segment and what stands before it. */
  lemma {:induction false} BodyLast(segments: seq<Text>)
    requires segments != []
    ensures Body(segments) == Body(segments[..|segments| - 1]) + ([SLASH] + segments[|segments| - 1])
  {
    var last := |segments| - 1;
    if last > 0 {
      BodyLast(segments[1..]);
      assert segments[1..][..last - 1] == segments[..last][1..];
    } else {
      assert Body(segments[1..]) == [] && Body(segments[..0]) == [];
    }
  }

  lemma BodyHasNoTrailingSlash(segments: seq<Text>)
    requires AreClean(segments) && segments != []
    ensures !HasTrailingSlash(Body(segments))
  {
    BodyLast(segments);
    var last := segments[|segments| - 1];
    assert IsCleanSegment(last);
    NotTrailing(Body(segments[..|segments| - 1]), last);
  }

  lemma NotTrailing(before: Text, last: Text)
    requires IsCleanSegment(last)
    ensures !HasTrailingSlash(before + ([SLASH] + last))
  {
    hide IsCleanSegment, EndsWith;
    var s := before + ([SLASH] + last);
    EndsInSegment(before, last);
    NotAfterSlash(s, last, [SLASH]);
    NotAfterSlash(s, last, [SLASH, DOT]);
    NotAfterSlash(s, last, [SLASH, DOT, DOT]);
  }

  lemma EndsInSegment(before: Text, last: Text)
    ensures var s := before + ([SLASH] + last);
            |s| > |last| && s[|s| - |last| - 1] == SLASH && s[|s| - |last|..] == last
  {
  }

  /** A text that ends in a slash and this segment does not end in a slash and something that is no segment. */
  lemma NotAfterSlash(s: Text, last: Text, suffix: Text)
    requires IsCleanSegment(last) && |s| > |last|
    requires s[|s| - |last| - 1] == SLASH && s[|s| - |last|..] == last
    requires suffix == [SLASH] || suffix == [SLASH, DOT] || suffix == [SLASH, DOT, DOT]
    ensures !EndsWith(s, suffix)
  {
    if |s| >= |suffix| {
      var i := Differs(s, last, suffix);
      assert s[|s| - |suffix|..][i] == s[|s| - |suffix| + i];
    }
  }

  /** Where the two differ. */
  lemma Differs(s: Text, last: Text, suffix: Text) returns (i: nat)
    requires IsCleanSegment(last) && |s| > |last| && |s| >= |suffix|
    requires s[|s| - |last| - 1] == SLASH && s[|s| - |last|..] == last
    requires suffix == [SLASH] || suffix == [SLASH, DOT] || suffix == [SLASH, DOT, DOT]
    ensures i < |suffix| && s[|s| - |suffix| + i] != suffix[i]
  {
    var n := |suffix|;
    forall k | 0 <= k < |last|
      ensures s[|s| - |last| + k] == last[k]
    {
      assert s[|s| - |last|..][k] == s[|s| - |last| + k];
    }
    if |last| >= n {
      i := 0;
      assert s[|s| - |last| + (|last| - n)] == last[|last| - n];
      assert last[|last| - n] in last;
    } else if n - |last| >= 2 {
      i := n - |last| - 1;
    } else {
      i := if last[0] != DOT then 1 else 2;
      assert s[|s| - |last| + 0] == last[0];
      assert |last| == 1 ==> last == [last[0]];
      assert |last| == 2 ==> last == [last[0], last[1]] && s[|s| - |last| + 1] == last[1];
    }
  }

  /** A normalized path: the root, or clean segments with or without a slash behind. */
  ghost predicate IsNormal(path: Text, segments: seq<Text>) {
    && AreClean(segments)
    && (segments == [] ==> path == [SLASH])
    && (segments != [] ==> path == Body(segments) || path == Body(segments) + [SLASH])
  }

  /** The result has no empty, `.` or `..` segment left. */
  lemma NormalizedIsNormal(path: Text) returns (segments: seq<Text>)
    ensures IsNormal(Normalized(path), segments)
  {
    var collapsed := Collapse(if path != [] && path[0] == SLASH then path else [SLASH] + path);
    segments := Resolve(Split(collapsed), []);
    PartsHaveNoSlash(collapsed);
    ResolvedAreClean(Split(collapsed), []);
    if segments == [] {
      assert [SLASH] + Join(segments) == [SLASH];
    } else {
      JoinIsBody(segments);
      assert IsCleanSegment(segments[0]);
    }
  }

  lemma NormalIsFixed(path: Text, segments: seq<Text>)
    requires IsNormal(path, segments)
    ensures Normalized(path) == path
  {
    var tail := if segments != [] && path == Body(segments) then [] else [SLASH];
    NormalFacts(path, segments, tail);
    hide Split, Resolve, Collapse, Body, HasTrailingSlash, IsCleanSegment, EmptyPart, Join;
    ResolveSplit(segments, tail);
    if segments == [] {
      JoinOfNone();
    } else {
      JoinIsBody(segments);
      BodyHasNoTrailingSlash(segments);
      BodyIsNotRoot(segments);
      EndsWithSlash(Body(segments));
    }
  }

  lemma NormalFacts(path: Text, segments: seq<Text>, tail: Text)
    requires IsNormal(path, segments)
    requires tail == if segments != [] && path == Body(segments) then [] else [SLASH]
    ensures path == Body(segments) + tail && path != [] && path[0] == SLASH
    ensures Collapse(path) == path && Split(path) == [[]] + (segments + EmptyPart(tail))
  {
    hide IsCleanSegment, Collapse, AreClean, Body, Split, HasDoubleSlash;
    NormalForm(path, segments, tail);
    SplitBody(segments, tail);
    SplitAtSlash(path);
    BodyHasNoDoubleSlash(segments, tail);
    CollapseOfSingle(path);
  }

  lemma NormalForm(path: Text, segments: seq<Text>, tail: Text)
    requires IsNormal(path, segments)
    requires tail == if segments != [] && path == Body(segments) then [] else [SLASH]
    ensures path == Body(segments) + tail && AreClean(segments)
  {
  }

  lemma SplitAtSlash(s: Text)
    ensures s != [] && s[0] == SLASH ==> Split(s) == [[]] + Split(s[1..])
  {
  }

  lemma JoinOfNone()
    ensures Join([]) == []
  {
  }

  lemma EndsWithSlash(s: Text)
    ensures HasTrailingSlash(s + [SLASH])
  {
    assert EndsWith(s + [SLASH], [SLASH]);
  }

  lemma BodyIsNotRoot(segments: seq<Text>)
    requires AreClean(segments) && segments != []
    ensures Body(segments) != [SLASH]
  {
    assert IsCleanSegment(segments[0]);
  }

  lemma ResolveSplit(segments: seq<Text>, tail: Text)
    requires AreClean(segments)
    ensures Resolve([[]] + (segments + EmptyPart(tail)), []) == segments
  {
    var parts := segments + EmptyPart(tail);
    assert ([[]] + parts)[1..] == parts && ([[]] + parts)[0] == [];
    CleanResolveToThemselves(segments, []);
    assert [] + segments == segments;
    assert tail == [] ==> parts == segments;
  }

  /** normalizePath is idempotent. */
  lemma NormalizePathIsIdempotent(path: Text)
    ensures Normalized(Normalized(path)) == Normalized(path)
  {
    var segments := NormalizedIsNormal(path);
    NormalIsFixed(Normalized(path), segments);
  }
}
