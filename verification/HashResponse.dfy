/** Decoding of a Safe Browsing hash search response. */
module HashResponse {
  import opened Common
  import opened ProtoWire
  import opened CacheModel

  /** Ten thousand years, the range of a Duration. */
  const MAX_DURATION_SECONDS := 315_576_000_000
  const NANOS := 1_000_000_000

  datatype Detail = Detail(threatType: string, attributes: seq<string>)

  function ThreatTypeName(value: nat): Option<string> {
    match value
    case 1 => Some("MALWARE")
    case 2 => Some("SOCIAL_ENGINEERING")
    case 3 => Some("UNWANTED_SOFTWARE")
    case 4 => Some("POTENTIALLY_HARMFUL_APPLICATION")
    case _ => None
  }

  function ThreatAttributeName(value: nat): Option<string> {
    match value
    case 1 => Some("CANARY")
    case 2 => Some("FRAME_ONLY")
    case _ => None
  }

  // ----- What the fields of a message mean -----

  /** A packed list of varints, up to the end of the input. */
  function TakePacked(d: Bytes): Option<seq<nat>>
    decreases |d|
  {
    if d == [] then Some([])
    else
      var (raw, rest) :- TakeVarint(d, MAX_VARINT_BYTES);
      var values :- TakePacked(rest);
      Some([VarintOf(raw)] + values)
  }

  /** The values a field contributes to a repeated enum; none when it is malformed. */
  function AttributesIn(f: Field): Option<seq<nat>> {
    if NumberOf(f.tag) != 2 then Some([])
    else
      match f.value
      case VarintValue(raw) => Some([VarintOf(raw)])
      case Delimited(_, body) => TakePacked(body)
      case _ => None
  }

  predicate IsDetailField(f: Field) {
    (NumberOf(f.tag) == 1 ==> f.value.VarintValue?) && AttributesIn(f).Some?
  }

  /** All threat type values of a detail, in order. */
  function Threats(fields: seq<Field>): seq<nat> {
    if fields == [] then []
    else
      var last := fields[|fields| - 1];
      Threats(fields[..|fields| - 1])
      + if NumberOf(last.tag) == 1 && last.value.VarintValue? then [VarintOf(last.value.raw)] else []
  }

  /** All threat attribute values of a detail, in order. */
  function Attributes(fields: seq<Field>): seq<nat> {
    if fields == [] then []
    else
      var last := fields[|fields| - 1];
      Attributes(fields[..|fields| - 1]) + if AttributesIn(last).Some? then AttributesIn(last).value else []
  }

  predicate AllKnown(threats: seq<nat>, attributes: seq<nat>) {
    && (forall i :: 0 <= i < |threats| ==> ThreatTypeName(threats[i]).Some?)
    && (forall i :: 0 <= i < |attributes| ==> ThreatAttributeName(attributes[i]).Some?)
  }

  /** The names of the known attribute values, in order. */
  function AttributeNames(values: seq<nat>): seq<string> {
    if values == [] then []
    else
      var last := ThreatAttributeName(values[|values| - 1]);
      AttributeNames(values[..|values| - 1]) + if last.Some? then [last.value] else []
  }

  /** What a hash detail means: nothing unless it has a threat type and knows all its values. */
  function DetailOf(fields: seq<Field>): Option<Detail> {
    var threats, attributes := Threats(fields), Attributes(fields);
    if threats != [] && AllKnown(threats, attributes) then
      Some(Detail(ThreatTypeName(threats[|threats| - 1]).value, AttributeNames(attributes)))
    else None
  }

  ghost predicate AreDetailFields(fields: seq<Field>) {
    forall i :: 0 <= i < |fields| ==> IsDetailField(fields[i])
  }

  /** A detail message; the outer option is the error. */
  ghost function HashDetail(d: Bytes): Option<Option<Detail>> {
    var fields :- TakeFields(d);
    DetailMeaning(fields)
  }

  ghost function DetailMeaning(fields: seq<Field>): Option<Option<Detail>> {
    if AreDetailFields(fields) then Some(DetailOf(fields)) else None
  }

  ghost predicate IsHashField(f: Field) {
    && (NumberOf(f.tag) == 1 ==> f.value.Delimited? && |f.value.body| == 32)
    && (NumberOf(f.tag) == 2 ==> f.value.Delimited? && HashDetail(f.value.body).Some?)
  }

  ghost predicate AreHashFields(fields: seq<Field>) {
    forall i :: 0 <= i < |fields| ==> IsHashField(fields[i])
  }

  /** The bodies of all length-delimited fields of that number, in order. */
  function Bodies(fields: seq<Field>, number: nat): seq<Bytes> {
    if fields == [] then []
    else
      var last := fields[|fields| - 1];
      Bodies(fields[..|fields| - 1], number)
      + if NumberOf(last.tag) == number && last.value.Delimited? then [last.value.body] else []
  }

  /** The details that mean something, in order. */
  ghost function Meaningful(bodies: seq<Bytes>): seq<Detail> {
    if bodies == [] then []
    else
      var last := HashDetail(bodies[|bodies| - 1]);
      Meaningful(bodies[..|bodies| - 1]) + if last.Some? && last.value.Some? then [last.value.value] else []
  }

  /** The last hash and the details of one full hash message. */
  ghost function FullHashMessage(d: Bytes): (r: Option<(Bytes, seq<Detail>)>)
    ensures r.Some? ==> |r.value.0| == 32
  {
    var fields :- TakeFields(d);
    HashMeaning(fields)
  }

  ghost function HashMeaning(fields: seq<Field>): (r: Option<(Bytes, seq<Detail>)>)
    ensures r.Some? ==> |r.value.0| == 32
  {
    if AreHashFields(fields) && Bodies(fields, 1) != [] then
      BodiesAreHashes(fields);
      Some((Bodies(fields, 1)[|Bodies(fields, 1)| - 1], Meaningful(Bodies(fields, 2))))
    else None
  }

  lemma {:induction false} BodiesAreHashes(fields: seq<Field>)
    requires AreHashFields(fields)
    ensures forall i :: 0 <= i < |Bodies(fields, 1)| ==> |Bodies(fields, 1)[i]| == 32
  {
    if fields != [] {
      BodiesAreHashes(fields[..|fields| - 1]);
      assert IsHashField(fields[|fields| - 1]);
    }
  }

  predicate IsDurationField(f: Field) {
    NumberOf(f.tag) == 1 || NumberOf(f.tag) == 2 ==> f.value.VarintValue?
  }

  ghost predicate AreDurationFields(fields: seq<Field>) {
    forall i :: 0 <= i < |fields| ==> IsDurationField(fields[i])
  }

  /** The last varint of that number, zero when there is none. */
  function LastVarint(fields: seq<Field>, number: nat): nat {
    if fields == [] then 0
    else
      var last := fields[|fields| - 1];
      if NumberOf(last.tag) == number && last.value.VarintValue? then VarintOf(last.value.raw)
      else LastVarint(fields[..|fields| - 1], number)
  }

  /** A Go conversion of a uint64 to int64. */
  function ToInt64(n: nat): int {
    var low := n % TWO64;
    if low < TWO63 then low else low - TWO64
  }

  /** durationpb's CheckValid. */
  predicate IsDuration(seconds: int, nanos: int) {
    && -MAX_DURATION_SECONDS <= seconds <= MAX_DURATION_SECONDS
    && -NANOS < nanos < NANOS
    && !(seconds > 0 && nanos < 0) && !(seconds < 0 && nanos > 0)
  }

  /** The whole seconds of a duration message that is valid, not negative and fits 32 bits. */
  ghost function CacheDuration(d: Bytes): Option<Uint32> {
    var fields :- TakeFields(d);
    DurationMeaning(fields)
  }

  ghost function DurationMeaning(fields: seq<Field>): Option<Uint32> {
    var seconds, nanos := ToInt64(LastVarint(fields, 1)), ToInt32(LastVarint(fields, 2));
    if AreDurationFields(fields) && 0 <= seconds <= MAX_UINT32 && IsDuration(seconds, nanos) then Some(seconds)
    else None
  }

  ghost predicate IsResponseField(f: Field) {
    && (NumberOf(f.tag) == 1 ==> f.value.Delimited? && FullHashMessage(f.value.body).Some?)
    && (NumberOf(f.tag) == 2 ==> f.value.Delimited? && CacheDuration(f.value.body).Some?)
  }

  ghost predicate AreResponseFields(fields: seq<Field>) {
    forall i :: 0 <= i < |fields| ==> IsResponseField(fields[i])
  }

  /** One hash per detail, in order. */
  function HashesOf(hash: Hash, details: seq<Detail>, seconds: Uint32): (r: seq<FullHash>)
    ensures |r| == |details|
  {
    seq(|details|, i requires 0 <= i < |details|
        => FullHash(hash, details[i].threatType, details[i].attributes, seconds))
  }

  ghost function AllHashes(bodies: seq<Bytes>, seconds: Uint32): seq<FullHash> {
    if bodies == [] then []
    else
      var last := FullHashMessage(bodies[|bodies| - 1]);
      AllHashes(bodies[..|bodies| - 1], seconds)
      + if last.Some? then HashesOf(last.value.0, last.value.1, seconds) else []
  }

  /** What a response means: every meaningful detail with its hash, under the last duration. */
  ghost function SearchResponse(d: Bytes): Option<LookupResult> {
    var fields :- TakeFields(d);
    ResponseMeaning(fields)
  }

  ghost function ResponseMeaning(fields: seq<Field>): Option<LookupResult> {
    var hashes, durations := Bodies(fields, 1), Bodies(fields, 2);
    if AreResponseFields(fields) && durations != [] && CacheDuration(durations[|durations| - 1]).Some? then
      var seconds := CacheDuration(durations[|durations| - 1]).value;
      Some(LookupResult(AllHashes(hashes, seconds), seconds))
    else None
  }

  // ----- Reading field by field -----

  /** What has been read and what is left make up the input. */
  ghost predicate Read(input: Bytes, done: seq<Field>, data: Bytes) {
    TakeFields(input) == (match TakeFields(data) case None => None case Some(fields) => Some(done + fields))
  }

  lemma ReadStart(input: Bytes)
    ensures Read(input, [], input)
  {
    if TakeFields(input).Some? {
      assert [] + TakeFields(input).value == TakeFields(input).value;
    }
  }

  lemma ReadStep(input: Bytes, done: seq<Field>, data: Bytes)
    requires Read(input, done, data) && data != []
    ensures match TakeField(data)
            case None => TakeFields(input) == None
            case Some((f, rest)) =>
              && Read(input, done + [f], rest) && |rest| < |data|
              && (TakeFields(input).Some? ==>
                    |done| < |TakeFields(input).value| && TakeFields(input).value[|done|] == f)
  {
    if TakeField(data).Some? {
      var (f, rest) := TakeField(data).value;
      if TakeFields(rest).Some? {
        assert done + ([f] + TakeFields(rest).value) == (done + [f]) + TakeFields(rest).value;
      }
    }
  }

  lemma ReadEnd(input: Bytes, done: seq<Field>)
    requires Read(input, done, [])
    ensures TakeFields(input) == Some(done)
  {
    assert done + [] == done;
  }

  /** The parts of a field that the decoders consume one after the other. */
  lemma FieldParts(data: Bytes)
    ensures TakeTag(data).None? ==> TakeField(data).None?
    ensures TakeTag(data).Some? ==>
      var (tag, rest) := TakeTag(data).value;
      var value := TakeValue(NumberOf(tag), TypeOf(tag), rest, RECURSION_LIMIT);
      && (value.None? ==> TakeField(data).None?)
      && (value.Some? ==> TakeField(data) == Some((Field(tag, value.value.0), value.value.1)))
      && (value.Some? ==> (value.value.0.VarintValue? <==> TypeOf(tag) == 0))
      && (value.Some? ==> (value.value.0.Delimited? <==> TypeOf(tag) == 2))
  {
  }

  lemma Snoc(done: seq<Field>, f: Field)
    ensures (done + [f])[..|done|] == done && (done + [f])[|done|] == f
  {
  }

  // ----- The decoders -----

  method DecodeCacheDuration(input: Bytes) returns (r: Option<Uint32>)
    ensures r == CacheDuration(input)
  {
    hide Read, TakeFields, TakeTag, TakeValue, TakeField, NumberOf, TypeOf, VarintOf, ToInt64, ToInt32, IsDuration;
    hide LastVarint, AreDurationFields, CacheDuration;
    var data := input;
    var seconds, nanos := 0, 0;
    ghost var done: seq<Field> := [];
    ReadStart(input);
    NoDurationFields();
    while |data| > 0
      invariant Read(input, done, data) && AreDurationFields(done)
      invariant seconds == ToInt64(LastVarint(done, 1)) && nanos == ToInt32(LastVarint(done, 2))
      decreases |data|
    {
      ReadStep(input, done, data);
      FieldParts(data);
      BadDurationField(input, done, data);
      var tagged := TakeTag(data);
      if tagged.None? {
        return None;
      }
      var (tag, rest) := tagged.value;
      var number := NumberOf(tag);
      if (number == 1 || number == 2) && TypeOf(tag) != 0 {
        return None;
      }
      var taken := TakeValue(number, TypeOf(tag), rest, RECURSION_LIMIT);
      if taken.None? {
        return None;
      }
      var (value, after) := taken.value;
      if number == 1 {
        seconds := ToInt64(VarintOf(value.raw));
      } else if number == 2 {
        nanos := ToInt32(VarintOf(value.raw));
      }
      DurationFieldRead(done, Field(tag, value));
      done := done + [Field(tag, value)];
      data := after;
    }
    ReadEnd(input, done);
    DurationIs(input, done);
    if seconds < 0 || seconds > MAX_UINT32 || !IsDuration(seconds, nanos) {
      return None;
    }
    return Some(seconds);
  }

  lemma NoDurationFields()
    ensures AreDurationFields([]) && ToInt64(LastVarint([], 1)) == 0 && ToInt32(LastVarint([], 2)) == 0
  {
  }

  /** A malformed field makes the whole duration an error, whatever follows. */
  lemma BadDurationField(input: Bytes, done: seq<Field>, data: Bytes)
    requires Read(input, done, data) && data != []
    ensures TakeField(data).None? || !IsDurationField(TakeField(data).value.0) ==> CacheDuration(input) == None
  {
    hide Read, IsDurationField, TakeField, TakeFields, LastVarint;
    ReadStep(input, done, data);
  }

  lemma LastVarintAfter(done: seq<Field>, f: Field, number: nat)
    ensures LastVarint(done + [f], number)
         == if NumberOf(f.tag) == number && f.value.VarintValue? then VarintOf(f.value.raw)
            else LastVarint(done, number)
  {
    hide NumberOf, VarintOf;
    Snoc(done, f);
  }

  lemma DurationFieldRead(done: seq<Field>, f: Field)
    requires AreDurationFields(done) && IsDurationField(f)
    ensures AreDurationFields(done + [f])
    ensures LastVarint(done + [f], 1) == if NumberOf(f.tag) == 1 then VarintOf(f.value.raw) else LastVarint(done, 1)
    ensures LastVarint(done + [f], 2) == if NumberOf(f.tag) == 2 then VarintOf(f.value.raw) else LastVarint(done, 2)
  {
    hide NumberOf, VarintOf, LastVarint;
    LastVarintAfter(done, f, 1);
    LastVarintAfter(done, f, 2);
  }

  lemma DurationIs(input: Bytes, fields: seq<Field>)
    requires TakeFields(input) == Some(fields) && AreDurationFields(fields)
    ensures var seconds, nanos := ToInt64(LastVarint(fields, 1)), ToInt32(LastVarint(fields, 2));
            CacheDuration(input)
            == if 0 <= seconds <= MAX_UINT32 && IsDuration(seconds, nanos) then Some(seconds) else None
  {
    hide TakeFields, LastVarint, ToInt64, ToInt32, IsDuration, AreDurationFields;
  }

  lemma {:induction false} AttributeNamesOfSum(a: seq<nat>, b: seq<nat>)
    ensures AttributeNames(a + b) == AttributeNames(a) + AttributeNames(b)
  {
    if b == [] {
      assert a + b == a;
    } else {
      var last := |b| - 1;
      assert (a + b)[..|a + b| - 1] == a + b[..last];
      AttributeNamesOfSum(a, b[..last]);
    }
  }

  predicate AttributesKnown(values: seq<nat>) {
    forall i :: 0 <= i < |values| ==> ThreatAttributeName(values[i]).Some?
  }

  lemma KnownOfSum(threats: seq<nat>, more: seq<nat>, attributes: seq<nat>, values: seq<nat>)
    ensures AllKnown(threats, attributes + values) == (AllKnown(threats, attributes) && AttributesKnown(values))
    ensures AllKnown(threats + more, attributes)
         == (AllKnown(threats, attributes) && forall i :: 0 <= i < |more| ==> ThreatTypeName(more[i]).Some?)
  {
    hide ThreatTypeName, ThreatAttributeName;
    assert forall i :: 0 <= i < |values| ==> (attributes + values)[|attributes| + i] == values[i];
    assert forall i :: 0 <= i < |attributes| ==> (attributes + values)[i] == attributes[i];
    assert forall i :: 0 <= i < |more| ==> (threats + more)[|threats| + i] == more[i];
    assert forall i :: 0 <= i < |threats| ==> (threats + more)[i] == threats[i];
  }

  /** The names of a packed list, and whether it only holds known values. */
  method DecodePackedAttributes(body: Bytes) returns (r: Option<(seq<string>, bool)>)
    ensures match TakePacked(body)
            case None => r == None
            case Some(values) => r == Some((AttributeNames(values), AttributesKnown(values)))
  {
    hide TakeVarint, VarintOf;
    var packed := body;
    var names, valid := [], true;
    ghost var done: seq<nat> := [];
    assert forall values: seq<nat> :: [] + values == values;
    while |packed| > 0
      invariant TakePacked(body)
             == (match TakePacked(packed) case None => None case Some(values) => Some(done + values))
      invariant names == AttributeNames(done) && valid == AttributesKnown(done)
      decreases |packed|
    {
      var taken := TakeVarint(packed, MAX_VARINT_BYTES);
      if taken.None? {
        return None;
      }
      var (raw, rest) := taken.value;
      var name := ThreatAttributeName(VarintOf(raw));
      PackedStep(done, packed);
      AttributeNamesOfSum(done, [VarintOf(raw)]);
      OneName(VarintOf(raw));
      KnownOfSum([], [], done, [VarintOf(raw)]);
      packed := rest;
      valid := valid && name.Some?;
      if name.Some? {
        names := names + [name.value];
      }
      done := done + [VarintOf(raw)];
    }
    assert done + [] == done;
    return Some((names, valid));
  }

  lemma PackedStep(done: seq<nat>, packed: Bytes)
    requires packed != [] && TakeVarint(packed, MAX_VARINT_BYTES).Some?
    ensures var (raw, rest) := TakeVarint(packed, MAX_VARINT_BYTES).value;
            (match TakePacked(packed) case None => None case Some(values) => Some(done + values))
            == (match TakePacked(rest) case None => None case Some(values) => Some((done + [VarintOf(raw)]) + values))
  {
    var (raw, rest) := TakeVarint(packed, MAX_VARINT_BYTES).value;
    if TakePacked(rest).Some? {
      var values := TakePacked(rest).value;
      assert done + ([VarintOf(raw)] + values) == (done + [VarintOf(raw)]) + values;
    }
  }

  lemma OneName(value: nat)
    ensures var name := ThreatAttributeName(value);
            && AttributeNames([value]) == (if name.Some? then [name.value] else [])
            && AttributesKnown([value]) == name.Some?
  {
    assert AttributeNames([]) == [];
  }

  /** The variables of the decoder's loop tell what the fields read so far mean. */
  ghost predicate Tracks(threatType: string, attributes: seq<string>, valid: bool, hasThreatType: bool,
                         done: seq<Field>)
  {
    var threats := Threats(done);
    && AreDetailFields(done)
    && hasThreatType == (threats != [])
    && valid == AllKnown(threats, Attributes(done))
    && attributes == AttributeNames(Attributes(done))
    && (hasThreatType && ThreatTypeName(threats[|threats| - 1]).Some?
        ==> threatType == ThreatTypeName(threats[|threats| - 1]).value)
  }

  lemma TracksNothing()
    ensures Tracks("", [], true, false, [])
  {
  }

  lemma TracksThreat(t: string, a: seq<string>, valid: bool, has: bool, done: seq<Field>, f: Field)
    requires Tracks(t, a, valid, has, done) && NumberOf(f.tag) == 1 && f.value.VarintValue?
    ensures var name := ThreatTypeName(VarintOf(f.value.raw));
            Tracks(if name.Some? then name.value else "", a, valid && name.Some?, true, done + [f])
  {
    hide NumberOf, VarintOf, ThreatTypeName, ThreatAttributeName, AllKnown, AttributeNames, Threats, Attributes;
    var more := [VarintOf(f.value.raw)];
    UnchangedBy(done, f);
    KnownOfSum(Threats(done), more, Attributes(done), []);
    assert more[0] == VarintOf(f.value.raw);
    assert (Threats(done) + more)[|Threats(done)|] == more[0];
  }

  lemma TracksAttributes(t: string, a: seq<string>, valid: bool, has: bool, done: seq<Field>, f: Field)
    requires Tracks(t, a, valid, has, done) && NumberOf(f.tag) == 2 && AttributesIn(f).Some?
    ensures var values := AttributesIn(f).value;
            Tracks(t, a + AttributeNames(values), valid && AttributesKnown(values), has, done + [f])
  {
    hide NumberOf, VarintOf, ThreatTypeName, ThreatAttributeName, AllKnown, AttributeNames, Threats, Attributes;
    hide AttributesIn, AttributesKnown;
    UnchangedBy(done, f);
    KnownOfSum(Threats(done), [], Attributes(done), AttributesIn(f).value);
    AttributeNamesOfSum(Attributes(done), AttributesIn(f).value);
  }

  lemma TracksOther(t: string, a: seq<string>, valid: bool, has: bool, done: seq<Field>, f: Field)
    requires Tracks(t, a, valid, has, done) && NumberOf(f.tag) != 1 && NumberOf(f.tag) != 2
    ensures Tracks(t, a, valid, has, done + [f])
  {
    hide NumberOf, VarintOf, AllKnown, AttributeNames, Threats, Attributes;
    UnchangedBy(done, f);
  }

  /** The detail the loop's variables stand for at the end. */
  lemma TracksDetail(t: string, a: seq<string>, valid: bool, has: bool, done: seq<Field>)
    requires Tracks(t, a, valid, has, done)
    ensures DetailOf(done) == if valid && has then Some(Detail(t, a)) else None
  {
  }

  /** A detail, and whether it means something. */
  method DecodeHashDetail(input: Bytes) returns (r: Option<(Detail, bool)>)
    ensures match HashDetail(input)
            case None => r == None
            case Some(None) => r.Some? && !r.value.1
            case Some(Some(detail)) => r == Some((detail, true))
  {
    hide Read, TakeFields, TakeTag, TakeValue, TakeField, NumberOf, TypeOf, VarintOf, AttributeNames, TakePacked;
    hide Tracks, DetailOf, ThreatTypeName, AttributesKnown;
    var data := input;
    var threatType: string, attributes: seq<string> := "", [];
    var valid, hasThreatType := true, false;
    ghost var done: seq<Field> := [];
    ReadStart(input);
    TracksNothing();
    while |data| > 0
      invariant Read(input, done, data) && Tracks(threatType, attributes, valid, hasThreatType, done)
      decreases |data|
    {
      ReadStep(input, done, data);
      FieldParts(data);
      var tagged := TakeTag(data);
      if tagged.None? {
        return None;
      }
      var (tag, rest) := tagged.value;
      var number := NumberOf(tag);
      if (number == 1 && TypeOf(tag) != 0) || (number == 2 && TypeOf(tag) != 0 && TypeOf(tag) != 2) {
        BadDetailField(input, done, data);
        return None;
      }
      var taken := TakeValue(number, TypeOf(tag), rest, RECURSION_LIMIT);
      if taken.None? {
        return None;
      }
      var (value, after) := taken.value;
      ghost var f := Field(tag, value);
      if number == 1 {
        TracksThreat(threatType, attributes, valid, hasThreatType, done, f);
        var name := ThreatTypeName(VarintOf(value.raw));
        threatType := if name.Some? then name.value else "";
        hasThreatType, valid := true, valid && name.Some?;
      } else if number == 2 && value.VarintValue? {
        TracksAttributes(threatType, attributes, valid, hasThreatType, done, f);
        OneName(VarintOf(value.raw));
        var name := ThreatAttributeName(VarintOf(value.raw));
        valid := valid && name.Some?;
        attributes := attributes + if name.Some? then [name.value] else [];
      } else if number == 2 {
        var packed := DecodePackedAttributes(value.body);
        if packed.None? {
          BadDetailField(input, done, data);
          return None;
        }
        TracksAttributes(threatType, attributes, valid, hasThreatType, done, f);
        attributes, valid := attributes + packed.value.0, valid && packed.value.1;
      } else {
        TracksOther(threatType, attributes, valid, hasThreatType, done, f);
      }
      done := done + [f];
      data := after;
    }
    ReadEnd(input, done);
    TracksFields(threatType, attributes, valid, hasThreatType, done);
    TracksDetail(threatType, attributes, valid, hasThreatType, done);
    return Some((Detail(threatType, attributes), valid && hasThreatType));
  }

  lemma TracksFields(t: string, a: seq<string>, valid: bool, has: bool, done: seq<Field>)
    requires Tracks(t, a, valid, has, done)
    ensures AreDetailFields(done)
  {
  }

  lemma UnchangedBy(done: seq<Field>, f: Field)
    ensures NumberOf(f.tag) != 1 ==> Threats(done + [f]) == Threats(done)
    ensures NumberOf(f.tag) != 2 ==> Attributes(done + [f]) == Attributes(done)
    ensures NumberOf(f.tag) == 1 && f.value.VarintValue? ==>
      Threats(done + [f]) == Threats(done) + [VarintOf(f.value.raw)]
    ensures NumberOf(f.tag) == 2 && AttributesIn(f).Some? ==>
      Attributes(done + [f]) == Attributes(done) + AttributesIn(f).value
  {
    Snoc(done, f);
  }

  /** A malformed field makes the whole detail an error, whatever follows. */
  lemma BadDetailField(input: Bytes, done: seq<Field>, data: Bytes)
    requires Read(input, done, data) && data != []
    requires TakeField(data).Some? ==> !IsDetailField(TakeField(data).value.0)
    ensures HashDetail(input) == None
  {
    hide Read, IsDetailField, TakeField, TakeFields;
    ReadStep(input, done, data);
  }

  // ----- Full hashes and the whole response -----

  lemma BodiesStep(done: seq<Field>, f: Field, number: nat)
    ensures Bodies(done + [f], number)
         == Bodies(done, number) + if NumberOf(f.tag) == number && f.value.Delimited? then [f.value.body] else []
  {
    Snoc(done, f);
  }

  lemma MeaningfulStep(bodies: seq<Bytes>, body: Bytes)
    ensures Meaningful(bodies + [body])
         == Meaningful(bodies)
            + (var last := HashDetail(body); if last.Some? && last.value.Some? then [last.value.value] else [])
  {
    assert (bodies + [body])[..|bodies|] == bodies;
  }

  lemma BadHashField(input: Bytes, done: seq<Field>, data: Bytes)
    requires Read(input, done, data) && data != []
    requires TakeField(data).Some? ==> !IsHashField(TakeField(data).value.0)
    ensures FullHashMessage(input) == None
  {
    hide Read, IsHashField, TakeField, TakeFields;
    ReadStep(input, done, data);
  }

  /** The variables of decodeFullHash. */
  ghost predicate TracksHash(hash: Hash, hasHash: bool, details: seq<Detail>, done: seq<Field>) {
    var hashes := Bodies(done, 1);
    && AreHashFields(done)
    && hasHash == (hashes != []) && (hasHash ==> hash == hashes[|hashes| - 1])
    && details == Meaningful(Bodies(done, 2))
  }

  lemma TracksHashStep(hash: Hash, hasHash: bool, details: seq<Detail>, done: seq<Field>, f: Field)
    requires TracksHash(hash, hasHash, details, done) && IsHashField(f)
    ensures NumberOf(f.tag) == 1 ==> TracksHash(f.value.body, true, details, done + [f])
    ensures NumberOf(f.tag) == 2 ==>
      var detail := HashDetail(f.value.body).value;
      TracksHash(hash, hasHash, details + (if detail.Some? then [detail.value] else []), done + [f])
    ensures NumberOf(f.tag) != 1 && NumberOf(f.tag) != 2 ==> TracksHash(hash, hasHash, details, done + [f])
  {
    hide NumberOf, HashDetail, Bodies, Meaningful;
    BodiesStep(done, f, 1);
    BodiesStep(done, f, 2);
    assert Bodies(done, 1) + [] == Bodies(done, 1) && Bodies(done, 2) + [] == Bodies(done, 2);
    if NumberOf(f.tag) == 2 {
      MeaningfulStep(Bodies(done, 2), f.value.body);
    }
  }

  lemma TracksHashStart(hash: Hash)
    ensures TracksHash(hash, false, [], [])
  {
  }

  lemma TracksHashEnd(hash: Hash, hasHash: bool, details: seq<Detail>, done: seq<Field>)
    requires TracksHash(hash, hasHash, details, done)
    ensures AreHashFields(done)
    ensures hasHash == (Bodies(done, 1) != [])
    ensures hasHash ==> hash == Bodies(done, 1)[|Bodies(done, 1)| - 1]
    ensures details == Meaningful(Bodies(done, 2))
  {
  }

  method DecodeFullHash(input: Bytes) returns (r: Option<(Hash, seq<Detail>)>)
    ensures r == FullHashMessage(input)
  {
    hide Read, TakeFields, TakeTag, TakeValue, TakeField, NumberOf, TypeOf, VarintOf;
    hide TracksHash, HashDetail, Bodies, Meaningful;
    var data := input;
    var hash: Hash := seq(32, _ => 0);
    var details: seq<Detail>, hasHash := [], false;
    ghost var done: seq<Field> := [];
    ReadStart(input);
    TracksHashStart(hash);
    while |data| > 0
      invariant Read(input, done, data) && TracksHash(hash, hasHash, details, done)
      decreases |data|
    {
      ReadStep(input, done, data);
      FieldParts(data);
      var tagged := TakeTag(data);
      if tagged.None? {
        return None;
      }
      var (tag, rest) := tagged.value;
      var number := NumberOf(tag);
      if (number == 1 || number == 2) && TypeOf(tag) != 2 {
        BadHashField(input, done, data);
        return None;
      }
      var taken := TakeValue(number, TypeOf(tag), rest, RECURSION_LIMIT);
      if taken.None? {
        return None;
      }
      var (value, after) := taken.value;
      ghost var before, was := hash, details;
      ghost var had := hasHash;
      if number == 1 {
        if |value.body| != 32 {
          BadHashField(input, done, data);
          return None;
        }
        hash, hasHash := value.body, true;
      } else if number == 2 {
        var detail := DecodeHashDetail(value.body);
        if detail.None? {
          BadHashField(input, done, data);
          return None;
        }
        assert details + [] == details;
        if detail.value.1 {
          details := details + [detail.value.0];
        }
      }
      TracksHashStep(before, had, was, done, Field(tag, value));
      done := done + [Field(tag, value)];
      data := after;
    }
    ReadEnd(input, done);
    TracksHashEnd(hash, hasHash, details, done);
    return if hasHash then Some((hash, details)) else None;
  }

  lemma BadResponseField(input: Bytes, done: seq<Field>, data: Bytes)
    requires Read(input, done, data) && data != []
    requires TakeField(data).Some? ==> !IsResponseField(TakeField(data).value.0)
    ensures SearchResponse(input) == None
  {
    hide Read, IsResponseField, TakeField, TakeFields, FullHashMessage, CacheDuration;
    ReadStep(input, done, data);
  }

  /** The variables of decodeSearchHashesResponse; the hashes get their seconds at the end. */
  ghost predicate TracksResponse(hashes: seq<FullHash>, seconds: Uint32, hasDuration: bool, done: seq<Field>) {
    var durations := Bodies(done, 2);
    && AreResponseFields(done)
    && hashes == AllHashes(Bodies(done, 1), 0)
    && hasDuration == (durations != [])
    && (hasDuration ==> CacheDuration(durations[|durations| - 1]) == Some(seconds))
  }

  lemma AllHashesStep(bodies: seq<Bytes>, body: Bytes, seconds: Uint32)
    ensures AllHashes(bodies + [body], seconds)
         == AllHashes(bodies, seconds)
            + (var last := FullHashMessage(body);
               if last.Some? then HashesOf(last.value.0, last.value.1, seconds) else [])
  {
    assert (bodies + [body])[..|bodies|] == bodies;
  }

  lemma TracksResponseStep(hashes: seq<FullHash>, seconds: Uint32, hasDuration: bool, done: seq<Field>, f: Field)
    requires TracksResponse(hashes, seconds, hasDuration, done) && IsResponseField(f)
    ensures NumberOf(f.tag) == 1 ==>
      var message := FullHashMessage(f.value.body).value;
      TracksResponse(hashes + HashesOf(message.0, message.1, 0), seconds, hasDuration, done + [f])
    ensures NumberOf(f.tag) == 2 ==>
      TracksResponse(hashes, CacheDuration(f.value.body).value, true, done + [f])
    ensures NumberOf(f.tag) != 1 && NumberOf(f.tag) != 2 ==>
      TracksResponse(hashes, seconds, hasDuration, done + [f])
  {
    hide NumberOf, FullHashMessage, CacheDuration, Bodies, AllHashes, HashesOf;
    BodiesStep(done, f, 1);
    BodiesStep(done, f, 2);
    assert Bodies(done, 1) + [] == Bodies(done, 1) && Bodies(done, 2) + [] == Bodies(done, 2);
    if NumberOf(f.tag) == 1 {
      AllHashesStep(Bodies(done, 1), f.value.body, 0);
    }
  }

  lemma TracksResponseStart()
    ensures TracksResponse([], 0, false, [])
  {
  }

  lemma {:induction false} SecondsComeLast(bodies: seq<Bytes>, seconds: Uint32)
    ensures WithSeconds(AllHashes(bodies, 0), seconds) == AllHashes(bodies, seconds)
  {
    if bodies == [] {
      assert WithSeconds([], seconds) == [];
    } else {
      hide FullHashMessage;
      SecondsComeLast(bodies[..|bodies| - 1], seconds);
    }
  }

  lemma TracksResponseEnd(hashes: seq<FullHash>, seconds: Uint32, hasDuration: bool, done: seq<Field>)
    requires TracksResponse(hashes, seconds, hasDuration, done)
    ensures AreResponseFields(done)
    ensures hasDuration == (Bodies(done, 2) != [])
    ensures hasDuration ==> CacheDuration(Bodies(done, 2)[|Bodies(done, 2)| - 1]) == Some(seconds)
    ensures WithSeconds(hashes, seconds) == AllHashes(Bodies(done, 1), seconds)
  {
    hide FullHashMessage, CacheDuration, AllHashes, HashesOf, WithSeconds, Bodies, IsResponseField;
    SecondsComeLast(Bodies(done, 1), seconds);
  }

  ghost function Pairs(hash: Hash, details: seq<Detail>): seq<(Hash, Detail)> {
    seq(|details|, i requires 0 <= i < |details| => (hash, details[i]))
  }

  /** Every full hash message's hash with each of its details, in order. */
  ghost function AllPairs(bodies: seq<Bytes>): seq<(Hash, Detail)> {
    if bodies == [] then []
    else
      var message := FullHashMessage(bodies[|bodies| - 1]);
      AllPairs(bodies[..|bodies| - 1]) + if message.Some? then Pairs(message.value.0, message.value.1) else []
  }

  ghost function Carried(hashes: seq<FullHash>): seq<(Hash, Detail)> {
    seq(|hashes|, i requires 0 <= i < |hashes| => (hashes[i].hash, Detail(hashes[i].threatType, hashes[i].attributes)))
  }

  lemma CarriedMore(a: seq<FullHash>, b: seq<FullHash>)
    ensures Carried(a + b) == Carried(a) + Carried(b)
  {
  }

  lemma HashCarriesPairs(hash: Hash, details: seq<Detail>, seconds: Uint32)
    ensures Carried(HashesOf(hash, details, seconds)) == Pairs(hash, details)
    ensures forall i :: 0 <= i < |HashesOf(hash, details, seconds)| ==>
      HashesOf(hash, details, seconds)[i].cacheSeconds == seconds
  {
  }

  lemma NothingCarried(seconds: Uint32)
    ensures AllHashes([], seconds) == [] && Carried([]) == AllPairs([]) == []
  {
  }

  lemma AllPairsStep(bodies: seq<Bytes>, body: Bytes)
    ensures AllPairs(bodies + [body])
         == AllPairs(bodies)
            + (var message := FullHashMessage(body);
               if message.Some? then Pairs(message.value.0, message.value.1) else [])
  {
    assert (bodies + [body])[..|bodies|] == bodies;
  }

  lemma {:induction false} HashesCarryPairs(bodies: seq<Bytes>, seconds: Uint32)
    ensures Carried(AllHashes(bodies, seconds)) == AllPairs(bodies)
    ensures forall i :: 0 <= i < |AllHashes(bodies, seconds)| ==> AllHashes(bodies, seconds)[i].cacheSeconds == seconds
  {
    hide FullHashMessage, AllHashes, AllPairs, HashesOf, Pairs, Carried;
    NothingCarried(seconds);
    if bodies != [] {
      var front, body := bodies[..|bodies| - 1], bodies[|bodies| - 1];
      assert bodies == front + [body];
      HashesCarryPairs(front, seconds);
      AllHashesStep(front, body, seconds);
      AllPairsStep(front, body);
      var message := FullHashMessage(body);
      var more := if message.Some? then HashesOf(message.value.0, message.value.1, seconds) else [];
      if message.Some? {
        HashCarriesPairs(message.value.0, message.value.1, seconds);
      }
      CarriedMore(AllHashes(front, seconds), more);
    }
  }

  /** In order, each full hash with its details, all with the seconds of the response. */
  ghost predicate CarriesAll(r: LookupResult, fields: seq<Field>) {
    && Carried(r.fullHashes) == AllPairs(Bodies(fields, 1))
    && forall i :: 0 <= i < |r.fullHashes| ==> r.fullHashes[i].cacheSeconds == r.cacheSeconds
  }

  lemma ResponseCarries(d: Bytes)
    ensures SearchResponse(d).Some? ==> TakeFields(d).Some? && CarriesAll(SearchResponse(d).value, TakeFields(d).value)
  {
    hide TakeFields, Bodies, CacheDuration, AllHashes, AllPairs, Carried, AreResponseFields;
    if SearchResponse(d).Some? {
      var fields := TakeFields(d).value;
      HashesCarryPairs(Bodies(fields, 1), SearchResponse(d).value.cacheSeconds);
    }
  }

  method DecodeSearchHashesResponse(input: Bytes) returns (r: Option<LookupResult>)
    ensures r == SearchResponse(input)
    ensures r.Some? ==> TakeFields(input).Some? && CarriesAll(r.value, TakeFields(input).value)
  {
    ResponseCarries(input);
    hide CarriesAll;
    hide Read, TakeFields, TakeTag, TakeValue, TakeField, NumberOf, TypeOf, VarintOf;
    hide TracksResponse, FullHashMessage, CacheDuration, Bodies, AllHashes, HashesOf, WithSeconds;
    var data := input;
    var fullHashes: seq<FullHash>, cacheSeconds: Uint32, hasCacheDuration := [], 0, false;
    ghost var done: seq<Field> := [];
    ReadStart(input);
    TracksResponseStart();
    while |data| > 0
      invariant Read(input, done, data) && TracksResponse(fullHashes, cacheSeconds, hasCacheDuration, done)
      decreases |data|
    {
      ReadStep(input, done, data);
      FieldParts(data);
      var tagged := TakeTag(data);
      if tagged.None? {
        return None;
      }
      var (tag, rest) := tagged.value;
      var number := NumberOf(tag);
      if (number == 1 || number == 2) && TypeOf(tag) != 2 {
        BadResponseField(input, done, data);
        return None;
      }
      var taken := TakeValue(number, TypeOf(tag), rest, RECURSION_LIMIT);
      if taken.None? {
        return None;
      }
      var (value, after) := taken.value;
      ghost var was, before, had := fullHashes, cacheSeconds, hasCacheDuration;
      if number == 1 {
        var message := DecodeFullHash(value.body);
        if message.None? {
          BadResponseField(input, done, data);
          return None;
        }
        fullHashes := fullHashes + HashesOf(message.value.0, message.value.1, 0);
      } else if number == 2 {
        var duration := DecodeCacheDuration(value.body);
        if duration.None? {
          BadResponseField(input, done, data);
          return None;
        }
        cacheSeconds, hasCacheDuration := duration.value, true;
      }
      TracksResponseStep(was, before, had, done, Field(tag, value));
      done := done + [Field(tag, value)];
      data := after;
    }
    ReadEnd(input, done);
    TracksResponseEnd(fullHashes, cacheSeconds, hasCacheDuration, done);
    return if hasCacheDuration then Some(LookupResult(WithSeconds(fullHashes, cacheSeconds), cacheSeconds)) else None;
  }

  // ----- Valid encodings, and unknown fields -----

  /** A response is read from a byte string exactly when that is an encoding of fields with that meaning. */
  lemma ResponseIffEncoded(d: Bytes, r: LookupResult)
    ensures SearchResponse(d) == Some(r)
        <==> exists fields :: AreFields(fields, RECURSION_LIMIT) && d == EncodedFields(fields)
                              && ResponseMeaning(fields) == Some(r)
  {
    hide TakeFields, EncodedFields, AreFields, ResponseMeaning;
    if SearchResponse(d) == Some(r) {
      FieldsAreTaken(d, TakeFields(d).value);
    }
    forall fields | AreFields(fields, RECURSION_LIMIT) && d == EncodedFields(fields)
                    && ResponseMeaning(fields) == Some(r)
      ensures SearchResponse(d) == Some(r)
    {
      FieldsAreTaken(d, fields);
    }
  }

  /** The same for the messages inside a response, whatever they mean. */
  lemma MessagesOfEncoded(fields: seq<Field>)
    requires AreFields(fields, RECURSION_LIMIT)
    ensures SearchResponse(EncodedFields(fields)) == ResponseMeaning(fields)
    ensures FullHashMessage(EncodedFields(fields)) == HashMeaning(fields)
    ensures HashDetail(EncodedFields(fields)) == DetailMeaning(fields)
    ensures CacheDuration(EncodedFields(fields)) == DurationMeaning(fields)
  {
    hide TakeFields, EncodedFields, AreFields, ResponseMeaning, HashMeaning, DetailMeaning, DurationMeaning;
    FieldsAreTaken(EncodedFields(fields), fields);
  }

  /** The fields the decoders know; all their messages number them 1 and 2. */
  function KnownFields(fields: seq<Field>): seq<Field> {
    if fields == [] then []
    else
      var last := fields[|fields| - 1];
      KnownFields(fields[..|fields| - 1])
      + if NumberOf(last.tag) == 1 || NumberOf(last.tag) == 2 then [last] else []
  }

  lemma {:induction false} KnownFieldsKeep(fields: seq<Field>, number: nat)
    requires number == 1 || number == 2
    ensures Bodies(KnownFields(fields), number) == Bodies(fields, number)
    ensures LastVarint(KnownFields(fields), number) == LastVarint(fields, number)
  {
    hide NumberOf, VarintOf, Bodies, LastVarint;
    if fields != [] {
      var front, last := fields[..|fields| - 1], fields[|fields| - 1];
      KnownFieldsKeep(front, number);
      BodiesAfter(front, last, number);
      BodiesAfter(KnownFields(front), last, number);
      LastVarintAfter(front, last, number);
      LastVarintAfter(KnownFields(front), last, number);
      assert fields == front + [last] && KnownFields(front) + [] == KnownFields(front);
    }
  }

  lemma BodiesAfter(done: seq<Field>, f: Field, number: nat)
    ensures Bodies(done + [f], number)
         == Bodies(done, number) + if NumberOf(f.tag) == number && f.value.Delimited? then [f.value.body] else []
  {
    hide NumberOf;
    Snoc(done, f);
  }

  lemma {:induction false} KnownFieldsKeepValues(fields: seq<Field>)
    ensures Threats(KnownFields(fields)) == Threats(fields)
    ensures Attributes(KnownFields(fields)) == Attributes(fields)
  {
    hide NumberOf, AttributesIn, Threats, Attributes;
    if fields != [] {
      var front, last := fields[..|fields| - 1], fields[|fields| - 1];
      KnownFieldsKeepValues(front);
      ValuesAfter(front, last);
      ValuesAfter(KnownFields(front), last);
      UnknownHasNoAttributes(last);
      assert fields == front + [last] && KnownFields(front) + [] == KnownFields(front);
    }
  }

  /** What one more field adds to the values of a detail. */
  lemma ValuesAfter(done: seq<Field>, f: Field)
    ensures Threats(done + [f])
         == Threats(done) + if NumberOf(f.tag) == 1 && f.value.VarintValue? then [VarintOf(f.value.raw)] else []
    ensures Attributes(done + [f])
         == Attributes(done) + if AttributesIn(f).Some? then AttributesIn(f).value else []
  {
    hide NumberOf, VarintOf, AttributesIn;
    Snoc(done, f);
  }

  lemma UnknownHasNoAttributes(f: Field)
    ensures NumberOf(f.tag) != 2 ==> AttributesIn(f) == Some([])
  {
    hide NumberOf, TakePacked;
  }

  lemma {:induction false} KnownFieldsMembers(fields: seq<Field>, f: Field)
    ensures f in KnownFields(fields) <==> f in fields && (NumberOf(f.tag) == 1 || NumberOf(f.tag) == 2)
  {
    if fields != [] {
      hide NumberOf;
      var last := |fields| - 1;
      assert fields == fields[..last] + [fields[last]];
      KnownFieldsMembers(fields[..last], f);
    }
  }

  lemma KnownFieldsAreGood(fields: seq<Field>)
    ensures AreDetailFields(KnownFields(fields)) == AreDetailFields(fields)
    ensures AreHashFields(KnownFields(fields)) == AreHashFields(fields)
    ensures AreDurationFields(KnownFields(fields)) == AreDurationFields(fields)
    ensures AreResponseFields(KnownFields(fields)) == AreResponseFields(fields)
  {
    hide NumberOf, HashDetail, FullHashMessage, CacheDuration, TakePacked, KnownFields;
    var known := KnownFields(fields);
    forall f
      ensures f in known <==> f in fields && (NumberOf(f.tag) == 1 || NumberOf(f.tag) == 2)
    {
      KnownFieldsMembers(fields, f);
    }
    assert forall i :: 0 <= i < |known| ==> known[i] in fields;
    assert forall i :: 0 <= i < |fields| && (NumberOf(fields[i].tag) == 1 || NumberOf(fields[i].tag) == 2)
                       ==> fields[i] in known;
  }

  /** Unknown fields, anywhere and of any shape, do not change what a message means. */
  lemma UnknownFieldsAreIgnored(fields: seq<Field>)
    ensures ResponseMeaning(KnownFields(fields)) == ResponseMeaning(fields)
    ensures HashMeaning(KnownFields(fields)) == HashMeaning(fields)
    ensures DetailMeaning(KnownFields(fields)) == DetailMeaning(fields)
    ensures DurationMeaning(KnownFields(fields)) == DurationMeaning(fields)
  {
    hide AreDetailFields, AreHashFields, AreDurationFields, AreResponseFields;
    hide Bodies, LastVarint, Threats, Attributes, KnownFields, AllHashes, CacheDuration;
    KnownFieldsAreGood(fields);
    KnownFieldsKeep(fields, 1);
    KnownFieldsKeep(fields, 2);
    KnownFieldsKeepValues(fields);
  }

  lemma LongestVarint()
    ensures VarintOf([0xff, 0xff, 0xff, 0xff, 0x0f]) == MAX_UINT32
    ensures IsVarint([0xff, 0xff, 0xff, 0xff, 0x0f], MAX_VARINT_BYTES)
  {
    var raw: Bytes := [0xff, 0xff, 0xff, 0xff, 0x0f];
    assert raw[1..] == [0xff, 0xff, 0xff, 0x0f] && raw[1..][1..] == [0xff, 0xff, 0x0f];
    assert raw[1..][1..][1..] == [0xff, 0x0f] && raw[1..][1..][1..][1..] == [0x0f];
    assert VarintOf([0xff, 0x0f]) == 0x7ff && VarintOf([0xff, 0xff, 0x0f]) == 0x3_ffff;
    assert VarintOf([0xff, 0xff, 0xff, 0x0f]) == 0x1ff_ffff;
    assert IsVarint([0x0f], 6) && IsVarint([0xff, 0x0f], 7) && IsVarint([0xff, 0xff, 0x0f], 8);
  }

  lemma LongestDuration()
    ensures CacheDuration([0x08, 0xff, 0xff, 0xff, 0xff, 0x0f]) == Some(MAX_UINT32)
  {
    hide IsVarint, NumberOf, VarintOf, IsField, CacheDuration, SearchResponse, FullHashMessage, HashDetail, LastVarint;
    hide ResponseMeaning, HashMeaning, DetailMeaning, EncodedFields, AreFields;
    var tag: Bytes, raw: Bytes := [0x08], [0xff, 0xff, 0xff, 0xff, 0x0f];
    var f := Field(tag, VarintValue(raw));
    LongestVarint();
    SecondsField(f);
    OneField(f);
    OnlySeconds(f);
    MessagesOfEncoded([f]);
    assert tag + raw == [0x08, 0xff, 0xff, 0xff, 0xff, 0x0f];
  }

  /** A response may carry the longest duration, 2^32 - 1 seconds: it is accepted. */
  lemma LongestDurationIsAccepted()
    ensures SearchResponse([0x12, 0x06, 0x08, 0xff, 0xff, 0xff, 0xff, 0x0f]) == Some(LookupResult([], MAX_UINT32))
  {
    hide IsVarint, NumberOf, VarintOf, IsField, CacheDuration, SearchResponse, FullHashMessage, HashDetail;
    hide ResponseMeaning, HashMeaning, DetailMeaning, DurationMeaning, EncodedFields, AreFields;
    var tag: Bytes, length: Bytes, body: Bytes := [0x12], [0x06], [0x08, 0xff, 0xff, 0xff, 0xff, 0x0f];
    var f := Field(tag, Delimited(length, body));
    LongestDuration();
    DurationField(f);
    OneField(f);
    DurationAlone(f);
    MessagesOfEncoded([f]);
    assert tag + (length + body) == [0x12, 0x06, 0x08, 0xff, 0xff, 0xff, 0xff, 0x0f];
  }

  lemma OneField(f: Field)
    ensures EncodedFields([f]) == Encoded(f) && AreFields([f], RECURSION_LIMIT) == IsField(f, RECURSION_LIMIT)
  {
    hide IsField;
    assert [f][1..] == [];
  }

  lemma DurationField(f: Field)
    requires f.tag == [0x12] && f.value.Delimited? && f.value.length == [0x06] && |f.value.body| == 6
    ensures NumberOf(f.tag) == 2 && IsField(f, RECURSION_LIMIT)
  {
  }

  /** A duration without hashes. */
  lemma DurationAlone(f: Field)
    requires NumberOf(f.tag) == 2 && f.value.Delimited? && CacheDuration(f.value.body).Some?
    ensures ResponseMeaning([f]) == Some(LookupResult([], CacheDuration(f.value.body).value))
  {
    hide NumberOf, CacheDuration, FullHashMessage, Bodies;
    OnlyDuration(f);
  }

  lemma OnlyDuration(f: Field)
    requires NumberOf(f.tag) == 2 && f.value.Delimited?
    ensures Bodies([f], 1) == [] && Bodies([f], 2) == [f.value.body]
  {
    assert [f][..0] == [];
  }

  lemma SecondsField(f: Field)
    requires f.tag == [0x08] && f.value.VarintValue? && IsVarint(f.value.raw, MAX_VARINT_BYTES)
    ensures NumberOf(f.tag) == 1 && IsField(f, RECURSION_LIMIT)
  {
  }

  lemma OnlySeconds(f: Field)
    requires NumberOf(f.tag) == 1 && f.value.VarintValue?
    ensures LastVarint([f], 1) == VarintOf(f.value.raw) && LastVarint([f], 2) == 0
  {
    assert [f][..0] == [];
  }
}
