/** What the hashes read from a response carry, in plain numbers and names. */
module HashResults {
  import opened Common
  import opened ProtoWire
  import opened CacheModel
  import opened HashResponse
  import Wire

  const THREATS := ["MALWARE", "SOCIAL_ENGINEERING", "UNWANTED_SOFTWARE", "POTENTIALLY_HARMFUL_APPLICATION"]
  const ATTRIBUTES := ["CANARY", "FRAME_ONLY"]

  // ----- The values of a message, field by field -----

  /** More fields add their values behind those before them. */
  lemma {:induction false} ValuesOfMore(a: seq<Field>, b: seq<Field>, number: nat)
    ensures Threats(a + b) == Threats(a) + Threats(b)
    ensures Attributes(a + b) == Attributes(a) + Attributes(b)
    ensures Bodies(a + b, number) == Bodies(a, number) + Bodies(b, number)
  {
    hide Threats, Attributes, Bodies, NumberOf, VarintOf, AttributesIn;
    NoValues(number);
    if b == [] {
      assert a + b == a;
    } else {
      var front, last := b[..|b| - 1], b[|b| - 1];
      assert b == front + [last] && a + b == (a + front) + [last];
      ValuesOfMore(a, front, number);
      ValuesAfter(a + front, last);
      ValuesAfter(front, last);
      BodiesAfter(a + front, last, number);
      BodiesAfter(front, last, number);
    }
  }

  lemma NoValues(number: nat)
    ensures Threats([]) == [] && Attributes([]) == [] && Bodies([], number) == []
  {
  }

  /** What one field adds: number 1 a threat type, number 2 an attribute or a packed list of them. */
  lemma ValuesOfOne(f: Field, number: nat)
    ensures Threats([f]) == if NumberOf(f.tag) == 1 && f.value.VarintValue? then [VarintOf(f.value.raw)] else []
    ensures NumberOf(f.tag) == 2 && f.value.VarintValue? ==> Attributes([f]) == [VarintOf(f.value.raw)]
    ensures NumberOf(f.tag) == 2 && f.value.Delimited? && TakePacked(f.value.body).Some? ==>
      Attributes([f]) == TakePacked(f.value.body).value
    ensures NumberOf(f.tag) != 2 ==> Attributes([f]) == []
    ensures Bodies([f], number) == if NumberOf(f.tag) == number && f.value.Delimited? then [f.value.body] else []
  {
    hide Threats, Attributes, Bodies, NumberOf, VarintOf, TakePacked;
    NoValues(number);
    ValuesAfter([], f);
    BodiesAfter([], f, number);
    assert [] + [f] == [f];
  }

  /** A packed list is its varints in order. */
  lemma PackedInOrder(raw: Bytes, rest: Bytes)
    requires IsVarint(raw, 10)
    ensures TakePacked([]) == Some([])
    ensures TakePacked(raw + rest)
         == var more := TakePacked(rest); if more.None? then None else Some([VarintOf(raw)] + more.value)
  {
    hide TakeVarint, VarintOf;
    VarintIsTaken(raw + rest, 10, raw, rest);
    assert raw + rest != [];
  }

  // ----- Details -----

  ghost predicate InRange(values: seq<nat>, top: nat) {
    forall i :: 0 <= i < |values| ==> 1 <= values[i] <= top
  }

  /** The name of a value, counted from one. */
  function NameAt(names: seq<string>, value: nat): string {
    if 1 <= value <= |names| then names[value - 1] else ""
  }

  function NamesAt(names: seq<string>, values: seq<nat>): seq<string> {
    if values == [] then []
    else NamesAt(names, values[..|values| - 1]) + [NameAt(names, values[|values| - 1])]
  }

  /** A detail means something exactly if it has a threat type and all its values are known; then it carries the name
      of its last threat type and the names of all its attributes in order. */
  lemma DetailIs(fields: seq<Field>)
    ensures var threats, attributes := Threats(fields), Attributes(fields);
            DetailOf(fields)
            == if threats != [] && InRange(threats, 4) && InRange(attributes, 2)
               then Some(Detail(NameAt(THREATS, threats[|threats| - 1]), NamesAt(ATTRIBUTES, attributes))) else None
  {
    hide Threats, Attributes, ThreatTypeName, ThreatAttributeName, AttributeNames, AllKnown, InRange, NameAt, NamesAt;
    var threats, attributes := Threats(fields), Attributes(fields);
    KnownAre(threats, attributes);
    if threats != [] && AllKnown(threats, attributes) {
      LastInRange(threats, 4);
      NamesAre(threats[|threats| - 1]);
      AllNamed(attributes);
    }
  }

  lemma LastInRange(values: seq<nat>, top: nat)
    requires values != [] && InRange(values, top)
    ensures 1 <= values[|values| - 1] <= top && InRange(values[..|values| - 1], top)
  {
  }

  lemma KnownAre(threats: seq<nat>, attributes: seq<nat>)
    ensures AllKnown(threats, attributes) <==> InRange(threats, 4) && InRange(attributes, 2)
  {
  }

  lemma NamesAre(v: nat)
    ensures ThreatTypeName(v) == if 1 <= v <= 4 then Some(NameAt(THREATS, v)) else None
    ensures ThreatAttributeName(v) == if 1 <= v <= 2 then Some(NameAt(ATTRIBUTES, v)) else None
  {
  }

  lemma {:induction false} AllNamed(values: seq<nat>)
    requires InRange(values, 2)
    ensures AttributeNames(values) == NamesAt(ATTRIBUTES, values)
  {
    hide InRange, NameAt, ThreatAttributeName;
    if values != [] {
      LastInRange(values, 2);
      AllNamed(values[..|values| - 1]);
      NamesAre(values[|values| - 1]);
    }
  }

  // ----- Full hashes and durations -----

  /** The last field of its number decides. */
  lemma {:induction false} LastDecides(fields: seq<Field>, number: nat, at: nat)
    requires at < |fields| && NumberOf(fields[at].tag) == number
    requires forall i :: at < i < |fields| ==> NumberOf(fields[i].tag) != number
    ensures fields[at].value.Delimited? ==>
      var bodies := Bodies(fields, number); bodies != [] && bodies[|bodies| - 1] == fields[at].value.body
    ensures fields[at].value.VarintValue? ==> LastVarint(fields, number) == VarintOf(fields[at].value.raw)
  {
    hide NumberOf, VarintOf;
    if at < |fields| - 1 {
      LastDecides(fields[..|fields| - 1], number, at);
    }
  }

  lemma {:induction false} NoneOfNumber(fields: seq<Field>, number: nat)
    requires forall i :: 0 <= i < |fields| ==> NumberOf(fields[i].tag) != number
    ensures Bodies(fields, number) == [] && LastVarint(fields, number) == 0
  {
    hide NumberOf, VarintOf;
    if fields != [] {
      NoneOfNumber(fields[..|fields| - 1], number);
    }
  }

  /** A full hash message carries the last of its hashes, which must all have 32 bytes; without one it is an error. */
  lemma HashIsLast(fields: seq<Field>, at: nat)
    requires at < |fields| && NumberOf(fields[at].tag) == 1
    ensures !(fields[at].value.Delimited? && |fields[at].value.body| == 32) ==> HashMeaning(fields) == None
    ensures (forall i :: at < i < |fields| ==> NumberOf(fields[i].tag) != 1) && HashMeaning(fields).Some? ==>
      HashMeaning(fields).value.0 == fields[at].value.body
  {
    hide NumberOf, VarintOf, HashDetail, Meaningful, Bodies;
    assert IsHashField(fields[at]) || !AreHashFields(fields);
    if (forall i :: at < i < |fields| ==> NumberOf(fields[i].tag) != 1) && HashMeaning(fields).Some? {
      LastDecides(fields, 1, at);
    }
  }

  lemma HashIsNeeded(fields: seq<Field>)
    requires forall i :: 0 <= i < |fields| ==> NumberOf(fields[i].tag) != 1
    ensures HashMeaning(fields) == None
  {
    hide NumberOf, VarintOf, HashDetail, Meaningful, Bodies;
    NoneOfNumber(fields, 1);
  }

  /** A duration is accepted exactly from 0 to 4294967295 seconds, with less than a second of nanoseconds that do not
      point the other way. */
  lemma DurationIs(fields: seq<Field>)
    ensures var seconds, nanos := ToInt64(LastVarint(fields, 1)), ToInt32(LastVarint(fields, 2));
            DurationMeaning(fields)
            == if AreDurationFields(fields) && 0 <= seconds <= 4294967295 && -1_000_000_000 < nanos < 1_000_000_000
                  && (seconds > 0 ==> nanos >= 0)
               then Some(seconds) else None
  {
    hide LastVarint, ToInt64, ToInt32, AreDurationFields;
  }

  /** A 64-bit number read as two's complement. */
  lemma SixtyFourBits(n: nat)
    requires n < 0x1_0000_0000_0000_0000
    ensures ToInt64(n) == if n < 0x8000_0000_0000_0000 then n else n - 0x1_0000_0000_0000_0000
  {
  }

  /** One bad field, anywhere, makes the whole message an error: a number that is no varint, attributes that are
      neither a varint nor a list of them, a message that is not length-delimited or is an error itself. */
  lemma BadFieldIsError(fields: seq<Field>, at: nat)
    requires at < |fields|
    ensures var f := fields[at];
            var number := NumberOf(f.tag);
            && (number == 1 && !f.value.VarintValue? ==> DetailMeaning(fields) == None)
            && (number == 2 && !f.value.VarintValue? && !(f.value.Delimited? && TakePacked(f.value.body).Some?)
                ==> DetailMeaning(fields) == None)
            && ((number == 1 || number == 2) && !f.value.VarintValue? ==> DurationMeaning(fields) == None)
            && ((number == 1 || number == 2) && !f.value.Delimited?
                ==> HashMeaning(fields) == None && ResponseMeaning(fields) == None)
            && (number == 2 && f.value.Delimited? && HashDetail(f.value.body).None? ==> HashMeaning(fields) == None)
            && (number == 1 && f.value.Delimited? && FullHashMessage(f.value.body).None?
                ==> ResponseMeaning(fields) == None)
            && (number == 2 && f.value.Delimited? && CacheDuration(f.value.body).None?
                ==> ResponseMeaning(fields) == None)
  {
    hide NumberOf, VarintOf, TakePacked, HashDetail, FullHashMessage, CacheDuration, DetailOf, Bodies, LastVarint;
    hide Meaningful, AllHashes, ToInt64, ToInt32;
    var f := fields[at];
    assert IsDetailField(f) || !AreDetailFields(fields);
    assert IsDurationField(f) || !AreDurationFields(fields);
    assert IsHashField(f) || !AreHashFields(fields);
    assert IsResponseField(f) || !AreResponseFields(fields);
  }

  /** A response without a duration is an error. */
  lemma DurationIsNeeded(fields: seq<Field>)
    requires forall i :: 0 <= i < |fields| ==> NumberOf(fields[i].tag) != 2
    ensures ResponseMeaning(fields) == None
  {
    hide NumberOf, VarintOf, FullHashMessage, CacheDuration, AllHashes, Bodies;
    NoneOfNumber(fields, 2);
  }

  // ----- A response as a server writes it -----

  /** A hash of the response, each detail with a threat type and attributes by number. */
  datatype Listed = Listed(hash: Hash, details: seq<(nat, seq<nat>)>)

  ghost predicate IsListed(l: Listed) {
    forall i :: 0 <= i < |l.details| ==> IsDetail(l.details[i])
  }

  /** What a client should see of one detail. */
  function DetailShown(d: (nat, seq<nat>)): Detail {
    Detail(NameAt(THREATS, d.0), NamesAt(ATTRIBUTES, d.1))
  }

  ghost predicate IsDetail(d: (nat, seq<nat>)) {
    InRange([d.0], 4) && InRange(d.1, 2) && |EncodedFields(DetailFields(d))| < TWO63
  }

  /** Tag 0x08 is number 1 as a varint, 0x10 number 2 as a varint, 0x0a and 0x12 the same numbers length-delimited. */
  function NumberField(tag: Byte, n: nat): Field {
    Field([tag], VarintValue(Wire.Varint(n)))
  }

  function BytesField(tag: Byte, body: Bytes): Field {
    Field([tag], Delimited(Wire.Varint(|body|), body))
  }

  function AttributeFields(attributes: seq<nat>): seq<Field> {
    if attributes == [] then []
    else AttributeFields(attributes[..|attributes| - 1]) + [NumberField(0x10, attributes[|attributes| - 1])]
  }

  function DetailFields(d: (nat, seq<nat>)): seq<Field> {
    [NumberField(0x08, d.0)] + AttributeFields(d.1)
  }

  function AllDetailFields(details: seq<(nat, seq<nat>)>): seq<Field> {
    if details == [] then []
    else
      AllDetailFields(details[..|details| - 1])
      + [BytesField(0x12, EncodedFields(DetailFields(details[|details| - 1])))]
  }

  function HashFields(l: Listed): seq<Field> {
    [BytesField(0x0a, l.hash)] + AllDetailFields(l.details)
  }

  function ListFields(list: seq<Listed>): seq<Field> {
    if list == [] then []
    else ListFields(list[..|list| - 1]) + [BytesField(0x0a, EncodedFields(HashFields(list[|list| - 1])))]
  }

  function WrittenFields(list: seq<Listed>, seconds: Uint32): seq<Field> {
    ListFields(list) + [BytesField(0x12, EncodedFields([NumberField(0x08, seconds)]))]
  }

  /** One hash for each of its details, by name. */
  ghost function HashShown(l: Listed, seconds: Uint32): seq<FullHash> {
    seq(|l.details|, i requires 0 <= i < |l.details| =>
      FullHash(l.hash, DetailShown(l.details[i]).threatType, DetailShown(l.details[i]).attributes, seconds))
  }

  ghost function Shown(list: seq<Listed>, seconds: Uint32): seq<FullHash> {
    if list == [] then [] else Shown(list[..|list| - 1], seconds) + HashShown(list[|list| - 1], seconds)
  }

  /** The shortest varint of a number is read as that number. */
  lemma {:induction false} ShortestVarint(n: nat, room: nat)
    requires Wire.FitsGroups(n, room) && (room == 10 ==> n < TWO64) && room <= 10
    requires room < 10 ==> n < Room(room)
    ensures IsVarint(Wire.Varint(n), room) && VarintOf(Wire.Varint(n)) == n
  {
    var raw := Wire.Varint(n);
    if n >= 0x80 {
      assert raw[1..] == Wire.Varint(n / 0x80) && raw[0] % 0x80 == n % 0x80;
      TopOfNumber(n, room);
      ShortestVarint(n / 0x80, room - 1);
    } else {
      assert room == 1 ==> Room(1) == 2;
    }
  }

  lemma TopOfNumber(n: nat, room: nat)
    requires 1 < room <= 10 && (if room == 10 then n < TWO64 else n < Room(room))
    ensures n / 0x80 < Room(room - 1)
  {
    if room == 10 {
      NineGroups();
    }
  }

  lemma NineGroups()
    ensures Room(9) * 0x80 == TWO64
  {
    assert Room(1) == 2 && Room(2) == 0x100 && Room(3) == 0x8000 && Room(4) == 0x40_0000;
    assert Room(5) == 0x2000_0000 && Room(6) == 0x10_0000_0000 && Room(7) == 0x800_0000_0000;
    assert Room(8) == 0x4_0000_0000_0000;
  }

  lemma NumberIsRead(n: nat)
    requires n < TWO64
    ensures IsVarint(Wire.Varint(n), MAX_VARINT_BYTES) && VarintOf(Wire.Varint(n)) == n
  {
    hide Wire.FitsGroups, Wire.Varint, IsVarint, VarintOf;
    Wire.FitsTenGroups(n);
    ShortestVarint(n, 10);
  }

  lemma {:induction false} FieldsAppend(a: seq<Field>, f: Field)
    requires AreFields(a, RECURSION_LIMIT) && IsField(f, RECURSION_LIMIT)
    ensures AreFields(a + [f], RECURSION_LIMIT)
  {
    hide IsField;
    if a == [] {
      assert (a + [f])[1..] == [];
    } else {
      assert (a + [f])[1..] == a[1..] + [f];
      FieldsAppend(a[1..], f);
    }
  }

  lemma {:induction false} FieldsBehind(f: Field, b: seq<Field>)
    requires IsField(f, RECURSION_LIMIT) && AreFields(b, RECURSION_LIMIT)
    ensures AreFields([f] + b, RECURSION_LIMIT)
  {
    hide IsField;
    assert ([f] + b)[1..] == b;
  }

  /** The fields this server writes. */
  lemma WrittenField(tag: Byte, n: nat, body: Bytes)
    requires n < TWO64 && |body| < TWO63 && 8 <= tag < 0x80
    ensures tag == 0x08 || tag == 0x10 ==>
      && IsField(NumberField(tag, n), RECURSION_LIMIT) && NumberOf([tag]) == (if tag == 0x08 then 1 else 2)
      && VarintOf(Wire.Varint(n)) == n
    ensures tag == 0x0a || tag == 0x12 ==>
      IsField(BytesField(tag, body), RECURSION_LIMIT) && NumberOf([tag]) == (if tag == 0x0a then 1 else 2)
  {
    hide Wire.Varint;
    NumberIsRead(n);
    NumberIsRead(|body|);
    hide VarintOf, IsVarint;
    TagIs(tag);
  }

  lemma TagIs(tag: Byte)
    requires 8 <= tag < 0x80
    ensures IsTag([tag]) && NumberOf([tag]) == tag / 8 && TypeOf([tag]) == tag % 8
  {
  }

  ghost predicate ReadsAttributes(fields: seq<Field>, attributes: seq<nat>) {
    && AreFields(fields, RECURSION_LIMIT) && AreDetailFields(fields)
    && Threats(fields) == [] && Attributes(fields) == attributes
  }

  lemma {:induction false} AttributesWritten(attributes: seq<nat>)
    requires InRange(attributes, 2)
    ensures ReadsAttributes(AttributeFields(attributes), attributes)
  {
    hide ReadsAttributes, InRange, NumberField;
    NoAttributes();
    if attributes != [] {
      var front, last := attributes[..|attributes| - 1], attributes[|attributes| - 1];
      assert attributes == front + [last];
      LastInRange(attributes, 2);
      AttributesWritten(front);
      OneMoreAttribute(AttributeFields(front), front, last);
    }
  }

  lemma NoAttributes()
    ensures ReadsAttributes([], [])
  {
  }

  lemma OneMoreAttribute(fields: seq<Field>, attributes: seq<nat>, last: nat)
    requires ReadsAttributes(fields, attributes) && last < TWO64
    ensures ReadsAttributes(fields + [NumberField(0x10, last)], attributes + [last])
  {
    hide IsField, NumberOf, TypeOf, VarintOf, Threats, Attributes, NumberField, AttributesIn, AreFields, IsDetailField;
    AttributeWritten(last);
    var f := NumberField(0x10, last);
    FieldsAppend(fields, f);
    ValuesOfMore(fields, [f], 0);
  }

  lemma AttributeWritten(n: nat)
    requires n < TWO64
    ensures var f := NumberField(0x10, n);
            && IsField(f, RECURSION_LIMIT) && IsDetailField(f)
            && Threats([f]) == [] && Attributes([f]) == [n]
  {
    hide IsField, NumberOf, VarintOf, Threats, Attributes, Wire.Varint;
    WrittenField(0x10, n, []);
    ValuesOfOne(NumberField(0x10, n), 0);
  }

  lemma ThreatWritten(n: nat)
    requires n < TWO64
    ensures var f := NumberField(0x08, n);
            && IsField(f, RECURSION_LIMIT) && IsDetailField(f)
            && Threats([f]) == [n] && Attributes([f]) == []
  {
    hide IsField, NumberOf, VarintOf, Threats, Attributes, Wire.Varint;
    WrittenField(0x08, n, []);
    ValuesOfOne(NumberField(0x08, n), 0);
  }

  /** A written detail is read with its names. */
  lemma DetailIsRead(d: (nat, seq<nat>))
    requires IsDetail(d)
    ensures HashDetail(EncodedFields(DetailFields(d))) == Some(Some(DetailShown(d)))
  {
    hide IsField, NumberOf, VarintOf, Threats, Attributes, NumberField, EncodedFields, HashDetail, DetailOf;
    hide AttributeFields, IsDetailField, AreFields, InRange, NameAt, NamesAt;
    var first, rest := NumberField(0x08, d.0), AttributeFields(d.1);
    LastInRange([d.0], 4);
    ThreatWritten(d.0);
    AttributesWritten(d.1);
    FieldsBehind(first, rest);
    ValuesOfMore([first], rest, 0);
    assert [d.0] + [] == [d.0] && [] + d.1 == d.1;
    MessagesOfEncoded(DetailFields(d));
    DetailIs(DetailFields(d));
  }

  lemma BodyWritten(tag: Byte, body: Bytes)
    requires (tag == 0x0a || tag == 0x12) && |body| < TWO63
    ensures var f := BytesField(tag, body);
            && IsField(f, RECURSION_LIMIT) && NumberOf(f.tag) == (if tag == 0x0a then 1 else 2)
            && Bodies([f], 1) == (if tag == 0x0a then [body] else [])
            && Bodies([f], 2) == (if tag == 0x12 then [body] else [])
  {
    hide IsField, NumberOf, VarintOf, Bodies, Wire.Varint;
    WrittenField(tag, 0, body);
    ValuesOfOne(BytesField(tag, body), 1);
    ValuesOfOne(BytesField(tag, body), 2);
  }

  /** The details as they are read. */
  ghost function DetailsShown(details: seq<(nat, seq<nat>)>): seq<Detail> {
    seq(|details|, k requires 0 <= k < |details| => DetailShown(details[k]))
  }

  ghost predicate ReadsDetails(fields: seq<Field>, details: seq<(nat, seq<nat>)>) {
    && AreFields(fields, RECURSION_LIMIT) && AreHashFields(fields)
    && Bodies(fields, 1) == [] && Meaningful(Bodies(fields, 2)) == DetailsShown(details)
  }

  lemma {:induction false} DetailsWritten(details: seq<(nat, seq<nat>)>)
    requires forall i :: 0 <= i < |details| ==> IsDetail(details[i])
    ensures ReadsDetails(AllDetailFields(details), details)
  {
    hide ReadsDetails, IsDetail, BytesField, EncodedFields, DetailFields;
    NoDetails();
    if details != [] {
      var front, last := details[..|details| - 1], details[|details| - 1];
      assert IsDetail(last) && details == front + [last];
      DetailsWritten(front);
      OneMoreDetail(AllDetailFields(front), front, last);
    }
  }

  lemma NoDetails()
    ensures ReadsDetails([], [])
  {
  }

  lemma OneMoreDetail(fields: seq<Field>, details: seq<(nat, seq<nat>)>, last: (nat, seq<nat>))
    requires ReadsDetails(fields, details) && IsDetail(last)
    ensures ReadsDetails(fields + [BytesField(0x12, EncodedFields(DetailFields(last)))], details + [last])
  {
    hide IsField, NumberOf, Bodies, BytesField, EncodedFields, HashDetail, DetailFields, Meaningful, IsDetail;
    hide IsHashField, AreFields, DetailShown;
    var body := EncodedFields(DetailFields(last));
    var f := BytesField(0x12, body);
    IsShort(last);
    DetailIsRead(last);
    BodyWritten(0x12, body);
    HashFieldWritten(0x12, body);
    FieldsAppend(fields, f);
    ValuesOfMore(fields, [f], 1);
    ValuesOfMore(fields, [f], 2);
    MeaningfulStep(Bodies(fields, 2), body);
    assert DetailsShown(details + [last]) == DetailsShown(details) + [DetailShown(last)];
  }

  lemma IsShort(d: (nat, seq<nat>))
    requires IsDetail(d)
    ensures |EncodedFields(DetailFields(d))| < TWO63
  {
  }

  lemma HashFieldWritten(tag: Byte, body: Bytes)
    requires (tag == 0x0a || tag == 0x12) && |body| < TWO63
    requires if tag == 0x0a then |body| == 32 else HashDetail(body).Some?
    ensures IsHashField(BytesField(tag, body))
  {
    hide HashDetail, NumberOf, IsField, Bodies;
    BodyWritten(tag, body);
  }

  /** A written hash is read with its details. */
  lemma HashIsRead(l: Listed)
    requires IsListed(l) && |EncodedFields(HashFields(l))| < TWO63
    ensures FullHashMessage(EncodedFields(HashFields(l))) == Some((l.hash, DetailsShown(l.details)))
  {
    hide IsField, NumberOf, Bodies, BytesField, EncodedFields, HashDetail, Meaningful, IsDetail, FullHashMessage;
    hide AllDetailFields, IsHashField, AreFields, DetailsShown;
    var first, rest := BytesField(0x0a, l.hash), AllDetailFields(l.details);
    BodyWritten(0x0a, l.hash);
    HashFieldWritten(0x0a, l.hash);
    DetailsWritten(l.details);
    FieldsBehind(first, rest);
    ValuesOfMore([first], rest, 1);
    ValuesOfMore([first], rest, 2);
    assert [l.hash] + [] == [l.hash] && [] + Bodies(rest, 2) == Bodies(rest, 2);
    MessagesOfEncoded(HashFields(l));
  }

  ghost predicate IsWritten(l: Listed) {
    IsListed(l) && |EncodedFields(HashFields(l))| < TWO63
  }

  lemma {:induction false} ListWritten(list: seq<Listed>, seconds: Uint32)
    requires forall i :: 0 <= i < |list| ==> IsWritten(list[i])
    ensures var fields := ListFields(list);
            && AreFields(fields, RECURSION_LIMIT) && AreResponseFields(fields)
            && Bodies(fields, 2) == [] && AllHashes(Bodies(fields, 1), seconds) == Shown(list, seconds)
  {
    hide IsField, NumberOf, Bodies, BytesField, EncodedFields, FullHashMessage, HashFields, AllHashes, CacheDuration;
    hide IsListed, HashShown, IsResponseField;
    NoValues(1);
    NoValues(2);
    NothingCarried(seconds);
    if list != [] {
      var front, last := list[..|list| - 1], list[|list| - 1];
      assert IsWritten(last);
      var body := EncodedFields(HashFields(last));
      var f := BytesField(0x0a, body);
      ListWritten(front, seconds);
      HashIsRead(last);
      BodyWritten(0x0a, body);
      ResponseFieldWritten(0x0a, body);
      FieldsAppend(ListFields(front), f);
      ValuesOfMore(ListFields(front), [f], 1);
      ValuesOfMore(ListFields(front), [f], 2);
      AllHashesStep(Bodies(ListFields(front), 1), body, seconds);
      HashIsShown(last, seconds);
    }
  }

  lemma HashIsShown(l: Listed, seconds: Uint32)
    ensures HashesOf(l.hash, DetailsShown(l.details), seconds) == HashShown(l, seconds)
  {
    hide DetailShown;
  }

  lemma ResponseFieldWritten(tag: Byte, body: Bytes)
    requires (tag == 0x0a || tag == 0x12) && |body| < TWO63
    requires if tag == 0x0a then FullHashMessage(body).Some? else CacheDuration(body).Some?
    ensures IsResponseField(BytesField(tag, body))
  {
    hide FullHashMessage, CacheDuration, NumberOf, IsField, Bodies;
    BodyWritten(tag, body);
  }

  /** A written duration is read as its seconds. */
  lemma SecondsAreRead(seconds: Uint32)
    ensures CacheDuration(EncodedFields([NumberField(0x08, seconds)])) == Some(seconds)
    ensures |EncodedFields([NumberField(0x08, seconds)])| < TWO63
  {
    hide IsField, NumberOf, VarintOf, EncodedFields, CacheDuration, Wire.Varint, LastVarint;
    var f := NumberField(0x08, seconds);
    WrittenField(0x08, seconds, []);
    OneField(f);
    OnlySeconds(f);
    MessagesOfEncoded([f]);
    DurationIs([f]);
    SixtyFourBits(seconds);
    ShortVarint(seconds);
  }

  lemma ShortVarint(n: Uint32)
    ensures |Encoded(NumberField(0x08, n))| < TWO63
  {
    Wire.VarintSize(n);
    Wire.SizeOfVarintMonotone(n, 0xffff_ffff);
    assert Wire.SizeOfVarint(0xffff_ffff) == 1 + Wire.SizeOfVarint(0x1ff_ffff);
    assert Wire.SizeOfVarint(0x1ff_ffff) == 1 + Wire.SizeOfVarint(0x3_ffff);
  }

  /**
   * What a server lists is what the decoder returns: every hash with the names of each of its details, in order, and
   * with the seconds of the response.
   */
  lemma WrittenResponseIsRead(list: seq<Listed>, seconds: Uint32)
    requires forall i :: 0 <= i < |list| ==> IsWritten(list[i])
    ensures SearchResponse(EncodedFields(WrittenFields(list, seconds)))
         == Some(LookupResult(Shown(list, seconds), seconds))
  {
    hide IsField, NumberOf, Bodies, BytesField, EncodedFields, CacheDuration, AllHashes, Shown, ListFields, IsWritten;
    hide IsResponseField, SearchResponse, AreFields;
    var body := EncodedFields([NumberField(0x08, seconds)]);
    var f := BytesField(0x12, body);
    ListWritten(list, seconds);
    SecondsAreRead(seconds);
    BodyWritten(0x12, body);
    ResponseFieldWritten(0x12, body);
    FieldsAppend(ListFields(list), f);
    ValuesOfMore(ListFields(list), [f], 1);
    ValuesOfMore(ListFields(list), [f], 2);
    assert Bodies(ListFields(list), 1) + [] == Bodies(ListFields(list), 1) && [] + [body] == [body];
    MessagesOfEncoded(WrittenFields(list, seconds));
  }
}
