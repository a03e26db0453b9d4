/** The generated decoders: loops that advance an index and assign message fields. */
module Unmarshal {
  import opened Common
  import opened Wire
  import opened Messages

  // ----- Reading one item at index i -----

  lemma ScaleStep(exact: nat, scale: nat, b: nat, v: nat)
    ensures exact + scale * (b + 0x80 * v) == (exact + b * scale) + (scale * 0x80) * v
  {
  }

  lemma AddModulo(value: nat, exact: nat, x: nat, modulus: nat)
    requires modulus > 0 && value == exact % modulus
    ensures (value + x) % modulus == (exact + x) % modulus
  {
    var q := exact / modulus;
    assert exact + x == (value + x) + q * modulus;
    var r := (value + x) % modulus;
    var p := (value + x) / modulus;
    assert exact + x == r + (p + q) * modulus by {
      assert (p + q) * modulus == p * modulus + q * modulus;
    }
    ModuloUnique(exact + x, p + q, r, modulus);
  }

  lemma ModuloUnique(n: nat, q: nat, r: nat, modulus: nat)
    requires r < modulus && n == r + q * modulus
    ensures n % modulus == r
  {
    var d := n / modulus - q;
    assert n == n % modulus + (n / modulus) * modulus;
    assert (n / modulus) * modulus == (q + d) * modulus == q * modulus + d * modulus;
    assert r - n % modulus == d * modulus;
    MultipleIsZeroOrLarge(d, modulus);
  }

  lemma MultipleIsZeroOrLarge(d: int, modulus: nat)
    ensures d == 0 || d * modulus >= modulus || d * modulus + modulus <= 0
  {
    if d > 0 {
      assert (d - 1) * modulus >= 0;
    } else if d < 0 {
      assert (-d - 1) * modulus >= 0;
    }
  }

  /** The groups from i on complete the number read from `start`: `exact` plus `scale` times theirs. */
  ghost predicate Reading(d: Bytes, start: nat, i: nat, groups: nat, exact: nat, scale: nat) {
    && start <= i <= |d|
    && match TakeVarint(d[i..], groups)
       case None => TakeVarint(d[start..], MAX_GROUPS) == None
       case Some((v, rest)) => TakeVarint(d[start..], MAX_GROUPS) == Some((exact + scale * v, rest))
  }

  lemma MoreGroups(d: Bytes, i: nat, groups: nat)
    requires i < |d| && groups > 0
    ensures d[i] >= 0x80 ==>
      TakeVarint(d[i..], groups)
      == match TakeVarint(d[i + 1..], groups - 1)
         case None => None
         case Some((v, rest)) => Some((d[i] - 0x80 + 0x80 * v, rest))
    ensures d[i] < 0x80 ==> TakeVarint(d[i..], groups) == Some((d[i], d[i + 1..]))
  {
    assert d[i..][1..] == d[i + 1..];
  }

  lemma ReadingStep(d: Bytes, start: nat, i: nat, groups: nat, exact: nat, scale: nat)
    requires Reading(d, start, i, groups, exact, scale) && i < |d| && groups > 0
    ensures d[i] >= 0x80 ==> Reading(d, start, i + 1, groups - 1, exact + (d[i] % 0x80) * scale, scale * 0x80)
    ensures d[i] < 0x80 ==>
      TakeVarint(d[start..], MAX_GROUPS) == Some((exact + (d[i] % 0x80) * scale, d[i + 1..]))
  {
    hide TakeVarint;
    MoreGroups(d, i, groups);
    ScaleStep(exact, scale, d[i] % 0x80, 0);
    if d[i] >= 0x80 && TakeVarint(d[i + 1..], groups - 1).Some? {
      ScaleStep(exact, scale, d[i] % 0x80, TakeVarint(d[i + 1..], groups - 1).value.0);
    }
  }

  lemma ReadingNothing(d: Bytes, start: nat, i: nat, groups: nat, exact: nat, scale: nat)
    requires Reading(d, start, i, groups, exact, scale) && (i == |d| || groups == 0)
    ensures TakeVarint(d[start..], MAX_GROUPS) == None
  {
  }

  lemma ReadingStart(d: Bytes, start: nat)
    requires start <= |d|
    ensures Reading(d, start, start, MAX_GROUPS, 0, 1)
  {
  }

  /** The inlined varint loop; the accumulator is a machine integer of the given modulus. */
  method ReadVarint(d: Bytes, start: nat, modulus: nat) returns (r: Option<(nat, nat)>)
    requires start <= |d| && modulus > 0
    ensures r.None? <==> TakeVarint(d[start..], MAX_GROUPS).None?
    ensures r.Some? ==> start < r.value.1 <= |d|
    ensures r.Some? ==> TakeVarint(d[start..], MAX_GROUPS).value.1 == d[r.value.1..]
    ensures r.Some? ==> r.value.0 == TakeVarint(d[start..], MAX_GROUPS).value.0 % modulus
  {
    hide Reading, TakeVarint;
    var i: nat, shift: nat, scale: nat, value: nat := start, 0, 1, 0;
    ghost var exact: nat, groups: nat := 0, MAX_GROUPS;
    ReadingStart(d, start);
    while true
      invariant start <= i <= |d| && shift == 7 * (MAX_GROUPS - groups) && groups <= MAX_GROUPS
      invariant Reading(d, start, i, groups, exact, scale) && value == exact % modulus
      decreases groups
    {
      if shift >= 64 || i >= |d| {
        ReadingNothing(d, start, i, groups, exact, scale);
        return None;
      }
      var b := d[i];
      ReadingStep(d, start, i, groups, exact, scale);
      AddModulo(value, exact, (b % 0x80) * scale, modulus);
      value := (value + (b % 0x80) * scale) % modulus;
      exact := exact + (b % 0x80) * scale;
      if b < 0x80 {
        return Some((value, i + 1));
      }
      i, shift, scale, groups := i + 1, shift + 7, scale * 0x80, groups - 1;
    }
  }

  method ReadUint64(d: Bytes, i: nat) returns (r: Option<(nat, nat)>)
    requires i <= |d|
    ensures r.None? ==> TakeUint64(d[i..]).None?
    ensures r.Some? ==> i < r.value.1 <= |d| && TakeUint64(d[i..]) == Some((r.value.0, d[r.value.1..]))
  {
    r := ReadVarint(d, i, TWO64);
  }

  method ReadUint32(d: Bytes, i: nat) returns (r: Option<(Uint32, nat)>)
    requires i <= |d|
    ensures r.None? ==> TakeUint32(d[i..]).None?
    ensures r.Some? ==> i < r.value.1 <= |d| && TakeUint32(d[i..]) == Some((r.value.0, d[r.value.1..]))
  {
    var v := ReadVarint(d, i, TWO32);
    if v.None? {
      return None;
    }
    CutTwice(TakeVarint(d[i..], MAX_GROUPS).value.0);
    r := Some((v.value.0, v.value.1));
  }

  lemma CutTwice(n: nat)
    ensures n % TWO64 % TWO32 == n % TWO32
  {
    var q := n / TWO64;
    assert n == n % TWO64 + q * TWO32 * TWO32;
    AddModulo(n % TWO64 % TWO32, n % TWO64, q * TWO32 * TWO32, TWO32);
    ModuloUnique(n % TWO64 % TWO32 + q * TWO32 * TWO32, q * TWO32, n % TWO64 % TWO32, TWO32);
  }

  method ReadInt32(d: Bytes, i: nat) returns (r: Option<(Int32, nat)>)
    requires i <= |d|
    ensures r.None? ==> TakeInt32(d[i..]).None?
    ensures r.Some? ==> i < r.value.1 <= |d| && TakeInt32(d[i..]) == Some((r.value.0, d[r.value.1..]))
  {
    var v := ReadVarint(d, i, TWO32);
    if v.None? {
      return None;
    }
    CutTwice(TakeVarint(d[i..], MAX_GROUPS).value.0);
    assert v.value.0 % TWO32 == v.value.0;
    r := Some((ToInt32(v.value.0), v.value.1));
  }

  method ReadTag(d: Bytes, i: nat) returns (r: Option<(Int32, nat, nat)>)
    requires i <= |d|
    ensures r.None? ==> TakeTag(d[i..]).None?
    ensures r.Some? ==> i < r.value.2 <= |d|
    ensures r.Some? ==> TakeTag(d[i..]) == Some(Tag(r.value.0, r.value.1, d[r.value.2..]))
  {
    var wire := ReadUint64(d, i);
    if wire.None? {
      return None;
    }
    var field, wireType := ToInt32(wire.value.0 / 8), wire.value.0 % 8;
    if wireType == END_GROUP_TYPE || field <= 0 {
      return None;
    }
    r := Some((field, wireType, wire.value.1));
  }

  /** A length prefix and its content, with the checks against int64 wrap-around. */
  method ReadBytes(d: Bytes, i: nat) returns (r: Option<(Bytes, nat)>)
    requires i <= |d| < TWO63
    ensures r.None? ==> TakeBytes(d[i..]).None?
    ensures r.Some? ==> i < r.value.1 <= |d| && TakeBytes(d[i..]) == Some((r.value.0, d[r.value.1..]))
  {
    var prefix := ReadUint64(d, i);
    if prefix.None? {
      return None;
    }
    var byteLen := if prefix.value.0 < TWO63 then prefix.value.0 else prefix.value.0 - TWO64;
    if byteLen < 0 {
      return None;
    }
    var postIndex := prefix.value.1 + byteLen;
    if postIndex >= TWO63 {
      postIndex := postIndex - TWO64;
    }
    if postIndex < 0 || postIndex > |d| {
      return None;
    }
    assert d[prefix.value.1..][..byteLen] == d[prefix.value.1..postIndex];
    assert d[prefix.value.1..][byteLen..] == d[postIndex..];
    r := Some((d[prefix.value.1..postIndex], postIndex));
  }

  lemma SkipStep(d: Bytes, depth: nat, wire: nat, rest: Bytes)
    requires TakeUint64(d) == Some((wire, rest))
    ensures wire % 8 == 3 ==> SkipRecords(d, depth) == SkipRecords(rest, depth + 1)
    ensures wire % 8 == END_GROUP_TYPE && depth == 0 ==> SkipRecords(d, depth) == None
    ensures wire % 8 == END_GROUP_TYPE && depth == 1 ==> SkipRecords(d, depth) == Some(rest)
    ensures wire % 8 == END_GROUP_TYPE && depth > 1 ==> SkipRecords(d, depth) == SkipRecords(rest, depth - 1)
    ensures wire % 8 != 3 && wire % 8 != END_GROUP_TYPE ==>
      var after := SkipScalar(wire % 8, rest);
      && (after.None? ==> SkipRecords(d, depth) == None)
      && (after.Some? && depth == 0 ==> SkipRecords(d, depth) == after)
      && (after.Some? && depth > 0 ==> SkipRecords(d, depth) == SkipRecords(after.value, depth))
  {
  }

  /** protohelpers.Skip followed by the bounds check of its callers. */
  method Skip(d: Bytes, start: nat) returns (r: Option<nat>)
    requires start <= |d| < TWO63
    ensures r.None? ==> SkipRecords(d[start..], 0).None?
    ensures r.Some? ==> start < r.value <= |d| && SkipRecords(d[start..], 0) == Some(d[r.value..])
  {
    var i, depth := start, 0;
    while i < |d|
      invariant start <= i <= |d|
      invariant SkipRecords(d[start..], 0) == SkipRecords(d[i..], depth)
      decreases |d| - i
    {
      var wire := ReadUint64(d, i);
      if wire.None? {
        return None;
      }
      var next := wire.value.1;
      var wireType := wire.value.0 % 8;
      SkipStep(d[i..], depth, wire.value.0, d[next..]);
      if wireType == 3 {
        depth := depth + 1;
      } else if wireType == END_GROUP_TYPE {
        if depth == 0 {
          return None;
        }
        depth := depth - 1;
      } else {
        var after := SkipOneScalar(d, next, wireType);
        if after.None? {
          return None;
        }
        next := after.value;
      }
      if depth == 0 {
        return Some(next);
      }
      i := next;
    }
    return None;
  }

  method SkipOneScalar(d: Bytes, i: nat, wireType: nat) returns (r: Option<nat>)
    requires i <= |d| < TWO63
    ensures r.None? ==> SkipScalar(wireType, d[i..]).None?
    ensures r.Some? ==> i <= r.value <= |d| && SkipScalar(wireType, d[i..]) == Some(d[r.value..])
  {
    match wireType
    case 0 =>
      var v := ReadUint64(d, i);
      r := if v.None? then None else Some(v.value.1);
    case 1 =>
      r := if i + 8 > |d| then None else Some(i + 8);
    case 2 =>
      var v := ReadBytes(d, i);
      r := if v.None? then None else Some(v.value.1);
    case 5 =>
      r := if i + 4 > |d| then None else Some(i + 4);
    case _ =>
      r := None;
  }

  method ReadUnknown(d: Bytes, i: nat) returns (r: Option<(Bytes, nat)>)
    requires i <= |d| < TWO63
    ensures r.None? ==> TakeUnknown(d[i..]).None?
    ensures r.Some? ==> i < r.value.1 <= |d| && TakeUnknown(d[i..]) == Some((r.value.0, d[r.value.1..]))
  {
    var next := Skip(d, i);
    if next.None? {
      return None;
    }
    var n := next.value - i;
    assert d[i..][..n] == d[i..next.value] && d[i..][n..] == d[next.value..];
    r := Some((d[i..next.value], next.value));
  }

  // ----- UnmarshalVT -----

  method UnmarshalPassword(start: PasswordLayer, d: Bytes) returns (r: Option<PasswordLayer>)
    requires |d| < TWO63
    ensures r == DecodePassword(start, d)
  {
    var m, i := start, 0;
    while i < |d|
      invariant i <= |d| && DecodePassword(start, d) == DecodePassword(m, d[i..])
    {
      var t := ReadTag(d, i);
      if t.None? {
        return None;
      }
      var (field, wireType, next) := t.value;
      if field == 1 || field == 2 {
        if wireType != BYTES_TYPE {
          return None;
        }
        var v := ReadBytes(d, next);
        if v.None? {
          return None;
        }
        m := if field == 1 then m.(salt := v.value.0) else m.(nonce := v.value.0);
        i := v.value.1;
      } else if field == 3 {
        if wireType != VARINT_TYPE {
          return None;
        }
        var v := ReadInt32(d, next);
        if v.None? {
          return None;
        }
        m := m.(profile := v.value.0);
        i := v.value.1;
      } else {
        var v := ReadUnknown(d, i);
        if v.None? {
          return None;
        }
        m := m.(unknown := m.unknown + v.value.0);
        i := v.value.1;
      }
    }
    r := Some(m);
  }

  method UnmarshalCaptcha(start: CaptchaLayer, d: Bytes) returns (r: Option<CaptchaLayer>)
    requires |d| < TWO63
    ensures r == DecodeCaptcha(start, d)
  {
    var m, i := start, 0;
    while i < |d|
      invariant i <= |d| && DecodeCaptcha(start, d) == DecodeCaptcha(m, d[i..])
    {
      var t := ReadTag(d, i);
      if t.None? {
        return None;
      }
      var (field, wireType, next) := t.value;
      if field == 1 {
        if wireType != BYTES_TYPE {
          return None;
        }
        var v := ReadBytes(d, next);
        if v.None? {
          return None;
        }
        m := m.(nonce := v.value.0);
        i := v.value.1;
      } else {
        var v := ReadUnknown(d, i);
        if v.None? {
          return None;
        }
        m := m.(unknown := m.unknown + v.value.0);
        i := v.value.1;
      }
    }
    r := Some(m);
  }

  method UnmarshalMetadata(start: EnvelopeMetadata, d: Bytes) returns (r: Option<EnvelopeMetadata>)
    requires |d| < TWO63
    ensures r == DecodeMetadata(start, d)
  {
    var m, i := start, 0;
    while i < |d|
      invariant i <= |d| && DecodeMetadata(start, d) == DecodeMetadata(m, d[i..])
    {
      var t := ReadTag(d, i);
      if t.None? {
        return None;
      }
      var (field, wireType, next) := t.value;
      if field == 1 || field == 2 || field == 3 {
        if wireType != VARINT_TYPE {
          return None;
        }
        var v := ReadUint32(d, next);
        if v.None? {
          return None;
        }
        m := if field == 1 then m.(protocolVersion := v.value.0)
             else if field == 2 then m.(featureFlags := v.value.0)
             else m.(ttlSeconds := v.value.0);
        i := v.value.1;
      } else if field == 4 || field == 5 || field == 6 {
        if wireType != BYTES_TYPE {
          return None;
        }
        var v := ReadBytes(d, next);
        if v.None? {
          return None;
        }
        if field == 4 {
          m := m.(payloadNonce := v.value.0);
        } else if field == 5 {
          var layer := UnmarshalPassword(if m.password.None? then EMPTY_PASSWORD else m.password.value, v.value.0);
          if layer.None? {
            return None;
          }
          m := m.(password := layer);
        } else {
          var layer := UnmarshalCaptcha(if m.captcha.None? then EMPTY_CAPTCHA else m.captcha.value, v.value.0);
          if layer.None? {
            return None;
          }
          m := m.(captcha := layer);
        }
        i := v.value.1;
      } else if field == 7 {
        if wireType != VARINT_TYPE {
          return None;
        }
        var v := ReadInt32(d, next);
        if v.None? {
          return None;
        }
        m := m.(payloadKind := v.value.0);
        i := v.value.1;
      } else {
        var v := ReadUnknown(d, i);
        if v.None? {
          return None;
        }
        m := m.(unknown := m.unknown + v.value.0);
        i := v.value.1;
      }
    }
    r := Some(m);
  }

  method UnmarshalEnvelope(start: Envelope, d: Bytes) returns (r: Option<Envelope>)
    requires |d| < TWO63
    ensures r == DecodeEnvelope(start, d)
  {
    var m, i := start, 0;
    while i < |d|
      invariant i <= |d| && DecodeEnvelope(start, d) == DecodeEnvelope(m, d[i..])
    {
      var t := ReadTag(d, i);
      if t.None? {
        return None;
      }
      var (field, wireType, next) := t.value;
      if field == 1 || field == 2 {
        if wireType != BYTES_TYPE {
          return None;
        }
        var v := ReadBytes(d, next);
        if v.None? {
          return None;
        }
        if field == 1 {
          var metadata :=
            UnmarshalMetadata(if m.metadata.None? then EMPTY_METADATA else m.metadata.value, v.value.0);
          if metadata.None? {
            return None;
          }
          m := m.(metadata := metadata);
        } else {
          m := m.(ciphertext := v.value.0);
        }
        i := v.value.1;
      } else {
        var v := ReadUnknown(d, i);
        if v.None? {
          return None;
        }
        m := m.(unknown := m.unknown + v.value.0);
        i := v.value.1;
      }
    }
    r := Some(m);
  }

  method UnmarshalRequest(start: CreateRequest, d: Bytes) returns (r: Option<CreateRequest>)
    requires |d| < TWO63
    ensures r == DecodeRequest(start, d)
  {
    var m, i := start, 0;
    while i < |d|
      invariant i <= |d| && DecodeRequest(start, d) == DecodeRequest(m, d[i..])
    {
      var t := ReadTag(d, i);
      if t.None? {
        return None;
      }
      var (field, wireType, next) := t.value;
      if 1 <= field <= 4 {
        if wireType != BYTES_TYPE {
          return None;
        }
        var v := ReadBytes(d, next);
        if v.None? {
          return None;
        }
        if field == 1 {
          m := m.(storageKey := v.value.0);
        } else if field == 2 {
          var envelope :=
            UnmarshalEnvelope(if m.envelope.None? then EMPTY_ENVELOPE else m.envelope.value, v.value.0);
          if envelope.None? {
            return None;
          }
          m := m.(envelope := envelope);
        } else if field == 3 {
          m := m.(captchaKey := v.value.0);
        } else {
          m := m.(captchaToken := v.value.0);
        }
        i := v.value.1;
      } else {
        var v := ReadUnknown(d, i);
        if v.None? {
          return None;
        }
        m := m.(unknown := m.unknown + v.value.0);
        i := v.value.1;
      }
    }
    r := Some(m);
  }
}
