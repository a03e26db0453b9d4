/** What decoding, escaping and path normalization do to single characters and segments, in plain numbers. */
module UrlTextFacts {
  import opened Common
  import opened UrlText

  // ----- Hexadecimal digits -----

  const UPPER := "0123456789ABCDEF"
  const LOWER := "0123456789abcdef"

  /** A unit is a digit exactly if it is one of the sixteen characters, in either case. */
  lemma HexDigitsAre(c: Unit, n: nat)
    requires n < 16
    ensures HexValue(c) == Some(n) <==> c == UPPER[n] as int || c == LOWER[n] as int
    ensures HexDigit(n) == UPPER[n] as int
  {
  }

  /** %hh in front is replaced by its byte, and nothing else is. */
  lemma EscapeIsDecoded(high: Unit, low: Unit, h: nat, l: nat, rest: Text)
    requires h < 16 && l < 16 && HexValue(high) == Some(h) && HexValue(low) == Some(l)
    ensures DecodeOnce([0x25, high, low] + rest) == [16 * h + l] + DecodeOnce(rest)
  {
    var s: Text := [0x25, high, low] + rest;
    assert s[3..] == rest;
  }

  lemma OthersAreKept(c: Unit, rest: Text)
    requires c != 0x25 || |rest| < 2 || HexValue(rest[0]).None? || HexValue(rest[1]).None?
    ensures DecodeOnce([c] + rest) == [c] + DecodeOnce(rest)
  {
    var s: Text := [c] + rest;
    assert s[1..] == rest;
    assert |rest| >= 2 ==> s[1] == rest[0] && s[2] == rest[1];
  }

  // ----- Escaping -----

  /** Up to U+00FF: printable ASCII stays, except # and %; everything else is %HH in capitals. */
  lemma LatinIsEscaped(c: Unit, rest: Text)
    requires c <= 0xff
    ensures Escape([c] + rest)
         == (if 0x21 <= c <= 0x7e && c != '#' as int && c != '%' as int then [c]
             else [0x25, UPPER[c / 16] as int, UPPER[c % 16] as int]) + Escape(rest)
  {
    var s: Text := [c] + rest;
    assert s[1..] == rest;
    HexDigitsAre(0, c / 16);
    HexDigitsAre(0, c % 16);
  }

  /** The bytes of a character as RFC 3629 tabulates them (section 3): how many there are, their ranges, and the
      number they stand for. */
  ghost predicate IsUtf8(bytes: seq<int>, codePoint: int) {
    && (codePoint < 0x800 ==>
          |bytes| == 2 && 0xc2 <= bytes[0] <= 0xdf && 0x80 <= bytes[1] <= 0xbf
          && codePoint == (bytes[0] - 0xc0) * 64 + (bytes[1] - 0x80))
    && (0x800 <= codePoint < 0x1_0000 ==>
          |bytes| == 3 && 0xe0 <= bytes[0] <= 0xef && 0x80 <= bytes[1] <= 0xbf && 0x80 <= bytes[2] <= 0xbf
          && codePoint == (bytes[0] - 0xe0) * 4096 + (bytes[1] - 0x80) * 64 + (bytes[2] - 0x80))
    && (0x1_0000 <= codePoint ==>
          |bytes| == 4 && 0xf0 <= bytes[0] <= 0xf4
          && (forall i :: 1 <= i < 4 ==> 0x80 <= bytes[i] <= 0xbf)
          && codePoint == (bytes[0] - 0xf0) * 262144 + (bytes[1] - 0x80) * 4096 + (bytes[2] - 0x80) * 64
                          + (bytes[3] - 0x80))
  }

  /** A character is encoded as UTF-8 says; a surrogate that stands alone as U+FFFD. */
  lemma Utf8Is(codePoint: int)
    requires 0xff < codePoint < 0x11_0000
    ensures IsUtf8(Utf8(codePoint), if 0xd800 <= codePoint <= 0xdfff then 0xfffd else codePoint)
  {
    if codePoint < 0x800 {
      Groups(codePoint);
    } else if 0xd800 <= codePoint <= 0xdfff {
      Groups(0xfffd);
    } else if codePoint < 0x1_0000 {
      ThreeGroups(codePoint);
    } else {
      FourGroups(codePoint);
    }
  }

  lemma Groups(c: int)
    requires c >= 0
    ensures c == c / 64 * 64 + c % 64 && c / 64 / 64 == c / 4096 && c / 4096 / 64 == c / 0x4_0000
  {
  }

  lemma ThreeGroups(c: int)
    requires 0 <= c < 0x1_0000
    ensures c == c / 0x1000 * 4096 + c / 0x40 % 0x40 * 64 + c % 0x40 && c / 0x1000 < 0x10
  {
    Groups(c);
    Groups(c / 64);
  }

  lemma FourGroups(c: int)
    requires 0 <= c < 0x11_0000
    ensures c == c / 0x4_0000 * 262144 + c / 0x1000 % 0x40 * 4096 + c / 0x40 % 0x40 * 64 + c % 0x40
    ensures c / 0x4_0000 <= 4
  {
    Groups(c);
    Groups(c / 64);
    Groups(c / 4096);
  }

  /** Two surrogates, high before low, stand for one character above U+FFFF, and give back both. */
  lemma PairIsOneCharacter(high: Unit, low: Unit)
    requires 0xd800 <= high <= 0xdbff && 0xdc00 <= low <= 0xdfff
    ensures var c := PairValue(high, low);
            && 0x1_0000 <= c < 0x11_0000
            && high == 0xd800 + (c - 0x1_0000) / 0x400 && low == 0xdc00 + (c - 0x1_0000) % 0x400
  {
  }

  /** Above U+00FF: a pair of surrogates is escaped as one character, any other unit as itself, byte by byte. */
  lemma OthersAreEscaped(c: Unit, rest: Text)
    requires c > 0xff
    ensures 0xd800 <= c <= 0xdbff && rest != [] && 0xdc00 <= rest[0] <= 0xdfff ==>
      Escape([c] + rest) == PercentAll(Utf8(PairValue(c, rest[0]))) + Escape(rest[1..])
    ensures !(0xd800 <= c <= 0xdbff && rest != [] && 0xdc00 <= rest[0] <= 0xdfff) ==>
      Escape([c] + rest) == PercentAll(Utf8(c)) + Escape(rest)
  {
    hide PercentAll, Utf8, PairValue;
    var s: Text := [c] + rest;
    assert s[1..] == rest;
    if rest != [] {
      assert s[2..] == rest[1..] && s[1] == rest[0];
    }
  }

  /** Each byte becomes %HH, in order. */
  lemma {:induction false} BytesArePercented(bytes: Text, i: nat)
    requires (forall k :: 0 <= k < |bytes| ==> bytes[k] <= 0xff) && i < |bytes|
    ensures var p := PercentAll(bytes);
            |p| == 3 * |bytes|
            && p[3 * i..3 * i + 3] == [0x25, UPPER[bytes[i] / 16] as int, UPPER[bytes[i] % 16] as int]
  {
    HexDigitsAre(0, bytes[i] / 16);
    HexDigitsAre(0, bytes[i] % 16);
    PercentAllLength(bytes[1..]);
    var rest := PercentAll(bytes[1..]);
    if i > 0 {
      BytesArePercented(bytes[1..], i - 1);
      assert PercentAll(bytes)[3 * i..3 * i + 3] == rest[3 * (i - 1)..3 * (i - 1) + 3];
    }
  }

  lemma {:induction false} PercentAllLength(bytes: Text)
    requires forall k :: 0 <= k < |bytes| ==> bytes[k] <= 0xff
    ensures |PercentAll(bytes)| == 3 * |bytes|
  {
    if bytes != [] {
      PercentAllLength(bytes[1..]);
    }
  }

  // ----- Paths -----

  /** Splitting cuts at every slash, and only there. */
  lemma {:induction false} SplitCutsAtSlashes(s: Text)
    ensures Join(Split(s)) == s
    ensures forall i :: 0 <= i < |Split(s)| ==> 0x2f !in Split(s)[i]
  {
    PartsHaveNoSlash(s);
    if s != [] {
      SplitCutsAtSlashes(s[1..]);
      var parts := Split(s[1..]);
      if s[0] == SLASH {
        assert ([[]] + parts)[1..] == parts;
      } else {
        assert Split(s)[1..] == parts[1..];
        assert s == [s[0]] + s[1..];
        JoinFirst(s[0], parts);
      }
    }
  }

  lemma JoinFirst(c: Unit, parts: seq<Text>)
    requires parts != []
    ensures Join([[c] + parts[0]] + parts[1..]) == [c] + Join(parts)
  {
    var longer := [[c] + parts[0]] + parts[1..];
    assert longer[1..] == parts[1..];
    if |parts| > 1 {
      assert ([c] + parts[0]) + [SLASH] + Join(parts[1..]) == [c] + (parts[0] + [SLASH] + Join(parts[1..]));
    }
  }

  /** One more segment at the end of a path: nothing and `.` leave what there is, `..` takes the last one back if
      there is one, and any other is added. */
  lemma {:induction false} OneMoreSegment(parts: seq<Text>, last: Text, segments: seq<Text>)
    ensures var before := Resolve(parts, segments);
            Resolve(parts + [last], segments)
            == if last == [] || last == [0x2e] then before
               else if last == [0x2e, 0x2e] then if before == [] then [] else before[..|before| - 1]
               else before + [last]
  {
    if parts == [] {
      assert (parts + [last])[1..] == [] && parts + [last] == [last];
    } else {
      assert (parts + [last])[1..] == parts[1..] + [last] && (parts + [last])[0] == parts[0];
      OneMoreSegment(parts[1..], last,
        if parts[0] == [] || parts[0] == [DOT] then segments
        else if parts[0] == [DOT, DOT] then if segments == [] then [] else segments[..|segments| - 1]
        else segments + [parts[0]]);
    }
  }

  /** A path without doubled slashes is its resolved segments behind slashes, with a slash behind exactly if there are
      segments and it ended in a slash or a dot segment. */
  lemma NormalizedPathIs(path: Text)
    requires path != [] && path[0] == 0x2f && !HasDoubleSlash(path)
    ensures var segments := Resolve(Split(path), []);
            var trailing := EndsWith(path, [0x2f]) || EndsWith(path, [0x2f, 0x2e])
                            || EndsWith(path, [0x2f, 0x2e, 0x2e]);
            Normalized(path) == [0x2f] + Join(segments) + if trailing && segments != [] then [0x2f] else []
  {
    hide HasDoubleSlash, Collapse, Split, Resolve;
    CollapseOfSingle(path);
    var segments := Resolve(Split(path), []);
    PartsHaveNoSlash(path);
    ResolvedAreClean(Split(path), []);
    if segments != [] {
      assert IsCleanSegment(segments[0]);
      assert Join(segments) != [];
    }
    assert [SLASH] + Join(segments) + [] == [SLASH] + Join(segments);
  }

  /** Several slashes in a row count as one. */
  lemma {:induction false} SlashesCollapse(before: Text, after: Text)
    ensures Collapse(before + [0x2f, 0x2f] + after) == Collapse(before + [0x2f] + after)
  {
    var two, one := before + [0x2f, 0x2f] + after, before + [0x2f] + after;
    if before == [] {
      assert two[1..] == one;
    } else {
      assert two[1..] == before[1..] + [0x2f, 0x2f] + after && one[1..] == before[1..] + [0x2f] + after;
      SlashesCollapse(before[1..], after);
    }
  }

  /** A path that does not start with a slash is normalized as if it did. */
  lemma MissingSlashIsAdded(path: Text)
    requires path == [] || path[0] != 0x2f
    ensures Normalized(path) == Normalized([0x2f] + path)
  {
  }
}
