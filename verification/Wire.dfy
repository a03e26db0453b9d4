/** Base 128 varints, tags and length-delimited records of the Protocol Buffers encoding. */
module Wire {
  import opened Common

  const VARINT_TYPE := 0
  const BYTES_TYPE := 2
  const END_GROUP_TYPE := 4
  /** The decoder's shift runs 0, 7, .., 63. */
  const MAX_GROUPS: nat := 10

  // ----- Encoding -----

  function Varint(n: nat): (bs: Bytes)
    ensures bs != []
  {
    if n < 0x80 then [n] else [n % 0x80 + 0x80] + Varint(n / 0x80)
  }

  function SizeOfVarint(n: nat): nat {
    if n < 0x80 then 1 else 1 + SizeOfVarint(n / 0x80)
  }

  lemma {:induction false} VarintSize(n: nat)
    ensures |Varint(n)| == SizeOfVarint(n)
  {
    if n >= 0x80 {
      VarintSize(n / 0x80);
    }
  }

  lemma SizeOfVarintBounds(n: nat)
    ensures n < 0x80 ==> SizeOfVarint(n) == 1
    ensures 0x80 <= n < 0x4000 ==> SizeOfVarint(n) == 2
    ensures 0x4000 <= n < 0x20_0000 ==> SizeOfVarint(n) == 3
    ensures 0x20_0000 <= n < 0x1000_0000 ==> SizeOfVarint(n) == 4
  {
    if 0x80 <= n < 0x1000_0000 {
      var m := n / 0x80;
      assert SizeOfVarint(n) == 1 + SizeOfVarint(m);
      if m >= 0x80 {
        var k := m / 0x80;
        assert SizeOfVarint(m) == 1 + SizeOfVarint(k);
        if k >= 0x80 {
          assert k / 0x80 < 0x80;
          assert SizeOfVarint(k) == 2;
        }
      }
    }
  }

  lemma {:induction false} SizeOfVarintMonotone(n: nat, m: nat)
    requires n <= m
    ensures SizeOfVarint(n) <= SizeOfVarint(m)
  {
    if n >= 0x80 {
      SizeOfVarintMonotone(n / 0x80, m / 0x80);
    }
  }

  // Each Put function places one field in front of what is already encoded, which is the
  // order in which the generated marshallers fill their buffer.

  function PutTag(tag: Byte, tail: Bytes): Bytes {
    [tag] + tail
  }

  function PutBytes(tag: Byte, v: Bytes, tail: Bytes): Bytes {
    if v == [] then tail else PutPresent(tag, v, tail)
  }

  /** A length-delimited field that is written even when it is empty (messages, oneof members). */
  function PutPresent(tag: Byte, v: Bytes, tail: Bytes): Bytes {
    PutTag(tag, Varint(|v|) + (v + tail))
  }

  function PutOptional(tag: Byte, v: Option<Bytes>, tail: Bytes): Bytes {
    if v.None? then tail else PutPresent(tag, v.value, tail)
  }

  function PutUint(tag: Byte, n: nat, tail: Bytes): Bytes {
    if n == 0 then tail else PutTag(tag, Varint(n) + tail)
  }

  function SizeOfBytes(v: nat): nat {
    if v == 0 then 0 else SizeOfPresent(v)
  }

  function SizeOfPresent(v: nat): nat {
    1 + v + SizeOfVarint(v)
  }

  function SizeOfUint(n: nat): nat {
    if n == 0 then 0 else 1 + SizeOfVarint(n)
  }

  lemma PutSizes(tag: Byte, v: Bytes, n: nat, tail: Bytes)
    ensures |PutBytes(tag, v, tail)| == SizeOfBytes(|v|) + |tail|
    ensures |PutPresent(tag, v, tail)| == SizeOfPresent(|v|) + |tail|
    ensures |PutUint(tag, n, tail)| == SizeOfUint(n) + |tail|
  {
    VarintSize(|v|);
    VarintSize(n);
  }

  // ----- Decoding -----

  /** Reads up to `groups` seven-bit groups; the value is not yet cut to a machine width. */
  function TakeVarint(d: Bytes, groups: nat): (r: Option<(nat, Bytes)>)
    ensures r.Some? ==> |r.value.1| < |d|
  {
    if groups == 0 || d == [] then None
    else if d[0] < 0x80 then Some((d[0], d[1..]))
    else
      var (v, rest) :- TakeVarint(d[1..], groups - 1);
      Some((d[0] - 0x80 + 0x80 * v, rest))
  }

  /** A number has at most `groups` seven-bit groups. */
  ghost predicate FitsGroups(n: nat, groups: nat) {
    groups > 0 && (n < 0x80 || FitsGroups(n / 0x80, groups - 1))
  }

  lemma {:induction false} TakeVarintInverts(n: nat, groups: nat, rest: Bytes)
    requires FitsGroups(n, groups)
    ensures TakeVarint(Varint(n) + rest, groups) == Some((n, rest))
  {
    var d := Varint(n) + rest;
    if n < 0x80 {
      assert d == [n] + rest;
    } else {
      assert d == [n % 0x80 + 0x80] + (Varint(n / 0x80) + rest);
      TakeVarintInverts(n / 0x80, groups - 1, rest);
    }
  }

  lemma FitsTenGroups(n: nat)
    requires n < TWO64
    ensures FitsGroups(n, MAX_GROUPS)
  {
    var n1 := n / 0x80;
    var n2 := n1 / 0x80;
    var n3 := n2 / 0x80;
    var n4 := n3 / 0x80;
    var n5 := n4 / 0x80;
    var n6 := n5 / 0x80;
    var n7 := n6 / 0x80;
    var n8 := n7 / 0x80;
    var n9 := n8 / 0x80;
    assert FitsGroups(n9, 1);
    assert FitsGroups(n8, 2);
    assert FitsGroups(n7, 3);
    assert FitsGroups(n6, 4);
    assert FitsGroups(n5, 5);
    assert FitsGroups(n4, 6);
    assert FitsGroups(n3, 7);
    assert FitsGroups(n2, 8);
    assert FitsGroups(n1, 9);
  }

  /** A varint kept in 64 bits. */
  function TakeUint64(d: Bytes): (r: Option<(nat, Bytes)>)
    ensures r.Some? ==> r.value.0 < TWO64 && |r.value.1| < |d|
  {
    var (v, rest) :- TakeVarint(d, MAX_GROUPS);
    Some((v % TWO64, rest))
  }

  lemma TakeUint64Inverts(n: nat, rest: Bytes)
    requires n < TWO64
    ensures TakeUint64(Varint(n) + rest) == Some((n, rest))
  {
    hide TakeVarint, Varint, FitsGroups;
    FitsTenGroups(n);
    TakeVarintInverts(n, MAX_GROUPS, rest);
  }

  datatype Tag = Tag(field: Int32, wireType: nat, rest: Bytes)

  /** The field number is cut to int32 after the shift, as the generated code does. */
  function TakeTag(d: Bytes): (r: Option<Tag>)
    ensures r.Some? ==> |r.value.rest| < |d|
  {
    var (wire, rest) :- TakeUint64(d);
    var field := ToInt32(wire / 8);
    if wire % 8 == END_GROUP_TYPE || field <= 0 then None
    else Some(Tag(field, wire % 8, rest))
  }

  lemma TakeShortTag(tag: Byte, rest: Bytes)
    requires 8 <= tag < 0x80 && tag % 8 != END_GROUP_TYPE
    ensures TakeTag(PutTag(tag, rest)) == Some(Tag(tag / 8, tag % 8, rest))
  {
    assert PutTag(tag, rest)[1..] == rest;
  }

  /** A length prefix read as Go's int, then that many bytes. */
  function TakeBytes(d: Bytes): (r: Option<(Bytes, Bytes)>)
    ensures r.Some? ==> |r.value.0| + |r.value.1| < |d|
  {
    var (n, rest) :- TakeUint64(d);
    if n >= TWO63 || n > |rest| then None else Some((rest[..n], rest[n..]))
  }

  lemma TakeBytesInverts(v: Bytes, rest: Bytes)
    requires |v| < TWO63
    ensures TakeBytes(Varint(|v|) + (v + rest)) == Some((v, rest))
  {
    TakeUint64Inverts(|v|, v + rest);
  }

  /** A varint field kept in 32 bits. */
  function TakeUint32(d: Bytes): (r: Option<(Uint32, Bytes)>)
    ensures r.Some? ==> |r.value.1| < |d|
  {
    var (v, rest) :- TakeUint64(d);
    Some((v % TWO32, rest))
  }

  /** An enum field: 32 bits read as two's complement. */
  function TakeInt32(d: Bytes): (r: Option<(Int32, Bytes)>)
    ensures r.Some? ==> |r.value.1| < |d|
  {
    var (v, rest) :- TakeUint64(d);
    Some((ToInt32(v), rest))
  }

  lemma TakeUint32Inverts(n: Uint32, rest: Bytes)
    ensures TakeUint32(Varint(n) + rest) == Some((n, rest))
  {
    TakeUint64Inverts(n, rest);
    assert n % TWO32 == n;
  }

  lemma TakeInt32Inverts(n: Int32, rest: Bytes)
    ensures TakeInt32(Varint(ToUint64(n)) + rest) == Some((n, rest))
  {
    hide TakeUint64, Varint;
    TakeUint64Inverts(ToUint64(n), rest);
    SignExtensionIsCut(n);
  }

  /** Cutting a sign-extended number to 32 bits gives it back. */
  lemma SignExtensionIsCut(n: Int32)
    ensures ToInt32(ToUint64(n)) == n
  {
    assert ToUint64(n) % TWO32 == n % TWO32;
  }

  /** What follows one complete record, groups included; `depth` counts the open groups. */
  function SkipRecords(d: Bytes, depth: nat): (r: Option<Bytes>)
    ensures r.Some? ==> |r.value| < |d|
    decreases |d|
  {
    var (v, rest) :- TakeUint64(d);
    var wireType := v % 8;
    if wireType == 3 then SkipRecords(rest, depth + 1)
    else if wireType == END_GROUP_TYPE then
      if depth == 0 then None
      else if depth == 1 then Some(rest)
      else SkipRecords(rest, depth - 1)
    else
      var after :- SkipScalar(wireType, rest);
      if depth == 0 then Some(after) else SkipRecords(after, depth)
  }

  function SkipScalar(wireType: nat, d: Bytes): (r: Option<Bytes>)
    ensures r.Some? ==> |r.value| <= |d|
  {
    match wireType
    case 0 =>
      var (_, rest) :- TakeUint64(d);
      Some(rest)
    case 1 => if |d| < 8 then None else Some(d[8..])
    case 2 =>
      var (_, rest) :- TakeBytes(d);
      Some(rest)
    case 5 => if |d| < 4 then None else Some(d[4..])
    case _ => None
  }

  /** The bytes of one unknown record, tag included, and what follows. */
  function TakeUnknown(d: Bytes): (r: Option<(Bytes, Bytes)>)
    ensures r.Some? ==> r.value.0 != [] && r.value.0 + r.value.1 == d
  {
    var rest :- SkipRecords(d, 0);
    var n := |d| - |rest|;
    Some((d[..n], d[n..]))
  }
}
