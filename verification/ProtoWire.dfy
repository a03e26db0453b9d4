/** The fields of a Protocol Buffers message as protowire consumes them, each with the very bytes that encode it. */
module ProtoWire {
  import opened Common

  const MAX_VARINT_BYTES: nat := 10
  const MAX_FIELD_NUMBER: nat := 0x7fff_ffff
  /** protowire's DefaultRecursionLimit. */
  const RECURSION_LIMIT: nat := 10_000

  /** Varints keep their bytes, which need not be minimal. */
  datatype Field = Field(tag: Bytes, value: Value)

  datatype Value =
    | VarintValue(raw: Bytes)
    | Fixed64(bytes: Bytes)
    | Delimited(length: Bytes, body: Bytes)
    | Group(fields: seq<Field>, end: Bytes)
    | Fixed32(bytes: Bytes)

  // ----- Varints -----

  /** At most `room` bytes; the tenth may only hold the 64th bit. */
  predicate IsVarint(raw: Bytes, room: nat) {
    && raw != [] && room > 0
    && if |raw| == 1 then raw[0] < 0x80 && (room == 1 ==> raw[0] <= 1)
       else raw[0] >= 0x80 && IsVarint(raw[1..], room - 1)
  }

  function VarintOf(raw: Bytes): nat {
    if |raw| <= 1 then if raw == [] then 0 else raw[0]
    else raw[0] % 0x80 + 0x80 * VarintOf(raw[1..])
  }

  function TakeVarint(d: Bytes, room: nat): (r: Option<(Bytes, Bytes)>)
    ensures r.Some? ==> |r.value.0| + |r.value.1| == |d| && r.value.0 != []
  {
    if d == [] || room == 0 then None
    else if d[0] < 0x80 then if room == 1 && d[0] > 1 then None else Some((d[..1], d[1..]))
    else
      var (raw, rest) :- TakeVarint(d[1..], room - 1);
      Some(([d[0]] + raw, rest))
  }

  lemma {:induction false} VarintIsTaken(d: Bytes, room: nat, raw: Bytes, rest: Bytes)
    ensures TakeVarint(d, room) == Some((raw, rest)) <==> IsVarint(raw, room) && d == raw + rest
  {
    if d != [] && room > 0 {
      if raw != [] && d == raw + rest {
        assert raw[0] == d[0] && d[1..] == raw[1..] + rest;
      }
      if d[0] < 0x80 {
        assert d == d[..1] + d[1..];
      } else if raw != [] {
        VarintIsTaken(d[1..], room - 1, raw[1..], rest);
        assert raw == [raw[0]] + raw[1..];
        assert raw == [d[0]] + raw[1..] ==> raw[0] == d[0];
        assert raw[0] == d[0] && d[1..] == raw[1..] + rest ==> d == raw + rest by {
          assert d == [d[0]] + d[1..];
        }
      }
    }
  }

  ghost function Room(room: nat): nat {
    if room == 0 then 1 else if room == 1 then 2 else 0x80 * Room(room - 1)
  }

  lemma {:induction false} VarintRange(raw: Bytes, room: nat)
    requires IsVarint(raw, room)
    ensures VarintOf(raw) < Room(room)
  {
    if room > 1 && |raw| > 1 {
      VarintRange(raw[1..], room - 1);
    } else if room > 1 {
      RoomForOne(room);
    }
  }

  lemma {:induction false} RoomForOne(room: nat)
    requires room > 1
    ensures Room(room) >= 0x80
  {
    if room > 2 {
      RoomForOne(room - 1);
    }
  }

  /** A consumed varint is a 64-bit number. */
  lemma VarintFits64(raw: Bytes)
    requires IsVarint(raw, MAX_VARINT_BYTES)
    ensures VarintOf(raw) < TWO64
  {
    VarintRange(raw, MAX_VARINT_BYTES);
    var r2, r3, r4 := Room(2), Room(3), Room(4);
    assert r2 == 0x100 && r3 == 0x8000 && r4 == 0x40_0000;
    var r5 := Room(5);
    var r6 := Room(6);
    var r7 := Room(7);
    var r8 := Room(8);
    var r9 := Room(9);
    assert Room(10) == TWO64;
  }

  // ----- Tags -----

  function NumberOf(tag: Bytes): nat {
    VarintOf(tag) / 8
  }

  function TypeOf(tag: Bytes): nat {
    VarintOf(tag) % 8
  }

  predicate IsTag(tag: Bytes) {
    IsVarint(tag, MAX_VARINT_BYTES) && 1 <= NumberOf(tag) <= MAX_FIELD_NUMBER
  }

  function TakeTag(d: Bytes): (r: Option<(Bytes, Bytes)>)
    ensures r.Some? ==> |r.value.0| + |r.value.1| == |d| && r.value.0 != []
  {
    var (tag, rest) :- TakeVarint(d, MAX_VARINT_BYTES);
    if 1 <= NumberOf(tag) <= MAX_FIELD_NUMBER then Some((tag, rest)) else None
  }

  lemma TagIsTaken(d: Bytes, tag: Bytes, rest: Bytes)
    ensures TakeTag(d) == Some((tag, rest)) <==> IsTag(tag) && d == tag + rest
  {
    hide TakeVarint, IsVarint, VarintOf;
    VarintIsTaken(d, MAX_VARINT_BYTES, tag, rest);
    if TakeVarint(d, MAX_VARINT_BYTES).Some? {
      var (t, r) := TakeVarint(d, MAX_VARINT_BYTES).value;
      VarintIsTaken(d, MAX_VARINT_BYTES, t, r);
    }
  }

  // ----- Values -----

  predicate IsDelimited(length: Bytes, body: Bytes) {
    IsVarint(length, MAX_VARINT_BYTES) && VarintOf(length) == |body|
  }

  function TakeDelimited(d: Bytes): (r: Option<(Bytes, Bytes, Bytes)>)
    ensures r.Some? ==> |r.value.2| < |d|
  {
    var (length, rest) :- TakeVarint(d, MAX_VARINT_BYTES);
    var n := VarintOf(length);
    if n > |rest| then None else Some((length, rest[..n], rest[n..]))
  }

  lemma DelimitedIsTaken(d: Bytes, length: Bytes, body: Bytes, rest: Bytes)
    ensures TakeDelimited(d) == Some((length, body, rest)) <==> IsDelimited(length, body) && d == length + (body + rest)
  {
    hide TakeVarint, IsVarint, VarintOf;
    VarintIsTaken(d, MAX_VARINT_BYTES, length, body + rest);
    if TakeDelimited(d).Some? {
      var (l, r) := TakeVarint(d, MAX_VARINT_BYTES).value;
      VarintIsTaken(d, MAX_VARINT_BYTES, l, r);
      assert r == r[..VarintOf(l)] + r[VarintOf(l)..];
    }
    if TakeVarint(d, MAX_VARINT_BYTES) == Some((length, body + rest)) && VarintOf(length) == |body| {
      assert (body + rest)[..|body|] == body && (body + rest)[|body|..] == rest;
    }
  }

  /** ConsumeFieldValue; a group ends with a tag of its own number. */
  function TakeValue(number: nat, wireType: nat, d: Bytes, depth: int): (r: Option<(Value, Bytes)>)
    ensures r.Some? ==> |r.value.1| <= |d|
    decreases |d|, 1
  {
    match wireType
    case 0 =>
      var (raw, rest) :- TakeVarint(d, MAX_VARINT_BYTES);
      Some((VarintValue(raw), rest))
    case 1 => if |d| < 8 then None else Some((Fixed64(d[..8]), d[8..]))
    case 2 =>
      var (length, body, rest) :- TakeDelimited(d);
      Some((Delimited(length, body), rest))
    case 3 =>
      if depth < 0 then None
      else
        var (fields, end, rest) :- TakeGroup(number, d, depth);
        Some((Group(fields, end), rest))
    case 5 => if |d| < 4 then None else Some((Fixed32(d[..4]), d[4..]))
    case _ => None
  }

  function TakeGroup(number: nat, d: Bytes, depth: int): (r: Option<(seq<Field>, Bytes, Bytes)>)
    ensures r.Some? ==> |r.value.2| <= |d|
    decreases |d|, 0
  {
    var (tag, rest) :- TakeTag(d);
    if TypeOf(tag) == 4 then if NumberOf(tag) == number then Some(([], tag, rest)) else None
    else
      var (value, after) :- TakeValue(NumberOf(tag), TypeOf(tag), rest, depth - 1);
      var (fields, end, left) :- TakeGroup(number, after, depth);
      Some(([Field(tag, value)] + fields, end, left))
  }

  /** A message: fields up to the end of the input. */
  function TakeFields(d: Bytes): Option<seq<Field>>
    decreases |d|
  {
    if d == [] then Some([])
    else
      var (field, rest) :- TakeField(d);
      var fields :- TakeFields(rest);
      Some([field] + fields)
  }

  function TakeField(d: Bytes): (r: Option<(Field, Bytes)>)
    ensures r.Some? ==> |r.value.1| < |d|
  {
    var (tag, rest) :- TakeTag(d);
    var (value, after) :- TakeValue(NumberOf(tag), TypeOf(tag), rest, RECURSION_LIMIT);
    Some((Field(tag, value), after))
  }

  // ----- Well-formed fields and their encoding -----

  predicate IsField(f: Field, depth: int)
    decreases f, 1
  {
    IsTag(f.tag) && IsValue(NumberOf(f.tag), TypeOf(f.tag), f.value, depth)
  }

  predicate IsValue(number: nat, wireType: nat, v: Value, depth: int)
    decreases v, 0
  {
    match v
    case VarintValue(raw) => wireType == 0 && IsVarint(raw, MAX_VARINT_BYTES)
    case Fixed64(bytes) => wireType == 1 && |bytes| == 8
    case Delimited(length, body) => wireType == 2 && IsDelimited(length, body)
    case Group(fields, end) =>
      && wireType == 3 && depth >= 0
      && AreFields(fields, depth - 1)
      && IsTag(end) && TypeOf(end) == 4 && NumberOf(end) == number
    case Fixed32(bytes) => wireType == 5 && |bytes| == 4
  }

  predicate AreFields(fields: seq<Field>, depth: int)
    decreases fields, 0
  {
    fields == [] || (IsField(fields[0], depth) && AreFields(fields[1..], depth))
  }

  function Encoded(f: Field): Bytes
    decreases f, 1
  {
    f.tag + EncodedValue(f.value)
  }

  function EncodedValue(v: Value): Bytes
    decreases v, 0
  {
    match v
    case VarintValue(raw) => raw
    case Fixed64(bytes) => bytes
    case Delimited(length, body) => length + body
    case Group(fields, end) => EncodedFields(fields) + end
    case Fixed32(bytes) => bytes
  }

  function EncodedFields(fields: seq<Field>): Bytes
    decreases fields, 0
  {
    if fields == [] then [] else Encoded(fields[0]) + EncodedFields(fields[1..])
  }

  // ----- Taking is the inverse of encoding -----

  lemma {:induction false} TakenValueIsEncoded(number: nat, wireType: nat, d: Bytes, depth: int)
    requires TakeValue(number, wireType, d, depth).Some?
    ensures var (v, rest) := TakeValue(number, wireType, d, depth).value;
            IsValue(number, wireType, v, depth) && d == EncodedValue(v) + rest
    decreases |d|, 1
  {
    hide TakeVarint, IsVarint, VarintOf, TakeGroup, TakeDelimited, IsDelimited, EncodedFields, AreFields;
    hide IsTag, TypeOf, NumberOf;
    var (v, rest) := TakeValue(number, wireType, d, depth).value;
    match wireType
    case 0 => VarintIsTaken(d, MAX_VARINT_BYTES, v.raw, rest);
    case 1 => assert d == d[..8] + d[8..];
    case 2 =>
      DelimitedIsTaken(d, v.length, v.body, rest);
      assert (v.length + v.body) + rest == v.length + (v.body + rest);
    case 3 =>
      TakenGroupIsEncoded(number, d, depth);
      assert (EncodedFields(v.fields) + v.end) + rest == EncodedFields(v.fields) + (v.end + rest);
    case 5 => assert d == d[..4] + d[4..];
    case _ =>
  }

  lemma {:induction false} TakenGroupIsEncoded(number: nat, d: Bytes, depth: int)
    requires TakeGroup(number, d, depth).Some?
    ensures var (fields, end, rest) := TakeGroup(number, d, depth).value;
            && AreFields(fields, depth - 1) && IsTag(end) && TypeOf(end) == 4 && NumberOf(end) == number
            && d == EncodedFields(fields) + (end + rest)
    decreases |d|, 0
  {
    hide TakeTag, IsTag, TypeOf, NumberOf;
    var (fields, end, left) := TakeGroup(number, d, depth).value;
    var (tag, rest) := TakeTag(d).value;
    TagIsTaken(d, tag, rest);
    if TypeOf(tag) == 4 {
      assert EncodedFields([]) + (end + left) == end + left;
    } else {
      var (value, after) := TakeValue(NumberOf(tag), TypeOf(tag), rest, depth - 1).value;
      TakenValueIsEncoded(NumberOf(tag), TypeOf(tag), rest, depth - 1);
      TakenGroupIsEncoded(number, after, depth);
      var others := fields[1..];
      assert fields == [Field(tag, value)] + others;
      Regroup(tag, EncodedValue(value), EncodedFields(others), end + left);
    }
  }

  lemma Regroup(a: Bytes, b: Bytes, c: Bytes, d: Bytes)
    ensures a + (b + (c + d)) == ((a + b) + c) + d
  {
  }

  lemma {:induction false} EncodedValueIsTaken(number: nat, wireType: nat, v: Value, depth: int, rest: Bytes)
    requires IsValue(number, wireType, v, depth)
    ensures TakeValue(number, wireType, EncodedValue(v) + rest, depth) == Some((v, rest))
    decreases v, 0
  {
    var d := EncodedValue(v) + rest;
    match v
    case VarintValue(raw) => VarintIsTaken(d, MAX_VARINT_BYTES, raw, rest);
    case Fixed64(bytes) => assert d[..8] == bytes && d[8..] == rest;
    case Delimited(length, body) =>
      assert d == length + (body + rest);
      DelimitedIsTaken(d, length, body, rest);
    case Group(fields, end) =>
      assert d == EncodedFields(fields) + (end + rest);
      EncodedGroupIsTaken(number, fields, end, depth, rest);
    case Fixed32(bytes) => assert d[..4] == bytes && d[4..] == rest;
  }

  lemma {:induction false} EncodedGroupIsTaken(number: nat, fields: seq<Field>, end: Bytes, depth: int, rest: Bytes)
    requires AreFields(fields, depth - 1) && IsTag(end) && TypeOf(end) == 4 && NumberOf(end) == number
    ensures TakeGroup(number, EncodedFields(fields) + (end + rest), depth) == Some((fields, end, rest))
    decreases fields, 1
  {
    hide TakeTag, IsTag, TypeOf, NumberOf, TakeValue;
    if fields == [] {
      assert EncodedFields(fields) + (end + rest) == end + rest;
      TagIsTaken(end + rest, end, rest);
    } else {
      var f, others := fields[0], fields[1..];
      var tail := EncodedFields(others) + (end + rest);
      Regroup(f.tag, EncodedValue(f.value), EncodedFields(others), end + rest);
      TagIsTaken(f.tag + (EncodedValue(f.value) + tail), f.tag, EncodedValue(f.value) + tail);
      NotAnEnd(f, depth - 1);
      EncodedValueIsTaken(NumberOf(f.tag), TypeOf(f.tag), f.value, depth - 1, tail);
      EncodedGroupIsTaken(number, others, end, depth, rest);
      assert fields == [f] + others;
    }
  }

  lemma NotAnEnd(f: Field, depth: int)
    requires IsField(f, depth)
    ensures TypeOf(f.tag) != 4 && IsTag(f.tag) && IsValue(NumberOf(f.tag), TypeOf(f.tag), f.value, depth)
  {
  }

  lemma FieldIsTaken(d: Bytes, f: Field, rest: Bytes)
    ensures TakeField(d) == Some((f, rest)) <==> IsField(f, RECURSION_LIMIT) && d == Encoded(f) + rest
  {
    hide TakeTag, IsTag, TypeOf, NumberOf, TakeValue, IsValue, EncodedValue;
    if TakeField(d) == Some((f, rest)) {
      var (tag, after) := TakeTag(d).value;
      TagIsTaken(d, tag, after);
      TakenValueIsEncoded(NumberOf(tag), TypeOf(tag), after, RECURSION_LIMIT);
      assert (tag + EncodedValue(f.value)) + rest == tag + (EncodedValue(f.value) + rest);
    }
    if IsField(f, RECURSION_LIMIT) && d == Encoded(f) + rest {
      assert d == f.tag + (EncodedValue(f.value) + rest);
      TagIsTaken(d, f.tag, EncodedValue(f.value) + rest);
      EncodedValueIsTaken(NumberOf(f.tag), TypeOf(f.tag), f.value, RECURSION_LIMIT, rest);
    }
  }

  /** A byte string reads as these fields exactly when they are well formed and it is their encoding. */
  lemma {:induction false} FieldsAreTaken(d: Bytes, fields: seq<Field>)
    ensures TakeFields(d) == Some(fields) <==> AreFields(fields, RECURSION_LIMIT) && d == EncodedFields(fields)
    decreases |d|
  {
    hide TakeField, IsField, Encoded;
    if fields != [] {
      var rest := EncodedFields(fields[1..]);
      FieldIsTaken(d, fields[0], rest);
      if d != [] && TakeField(d).Some? {
        var (f, after) := TakeField(d).value;
        FieldIsTaken(d, f, after);
        FieldsAreTaken(after, fields[1..]);
        if TakeFields(d) == Some(fields) {
          assert fields[0] == f && TakeFields(after).value == fields[1..];
        }
        if AreFields(fields, RECURSION_LIMIT) && d == EncodedFields(fields) {
          assert fields == [fields[0]] + fields[1..];
        }
      }
      if AreFields(fields, RECURSION_LIMIT) {
        EncodedIsNonEmpty(fields[0]);
      }
    }
  }

  lemma EncodedIsNonEmpty(f: Field)
    requires IsField(f, RECURSION_LIMIT)
    ensures Encoded(f) != []
  {
  }
}
