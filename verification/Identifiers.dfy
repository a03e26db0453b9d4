/** Link identifiers: eight little-endian bytes as eleven Base62 characters. */
module Identifiers {
  import opened Common

  const BASE: nat := 62
  const ID_LENGTH: nat := 8
  const ENCODED_ID_LENGTH: nat := 11

  /** The character for a digit; the alphabet is 0-9, A-Z, a-z in this order. */
  function CharOf(digit: nat): char
    requires digit < BASE
  {
    if digit < 10 then ('0' as int + digit) as char
    else if digit < 36 then ('A' as int + (digit - 10)) as char
    else ('a' as int + (digit - 36)) as char
  }

  /** The position of a character in the alphabet, if it is there. */
  function DigitOf(c: char): (digit: Option<nat>)
    ensures digit.Some? ==> digit.value < BASE
  {
    if '0' <= c <= '9' then Some(c as int - '0' as int)
    else if 'A' <= c <= 'Z' then Some(c as int - 'A' as int + 10)
    else if 'a' <= c <= 'z' then Some(c as int - 'a' as int + 36)
    else None
  }

  /** Each character of the alphabet has one digit. */
  lemma DigitsAreDistinct(digit: nat, c: char)
    requires digit < BASE
    ensures DigitOf(c) == Some(digit) <==> c == CharOf(digit)
  {
  }

  const ALPHABET := "0123456789" + "ABCDEFGHIJKLMNOPQRSTUVWXYZ" + "abcdefghijklmnopqrstuvwxyz"

  /** The digits are the 62 characters of the alphabet, in this order, and there are no others. */
  lemma DigitsAreAlphabet(digit: nat, c: char)
    requires digit < 62
    ensures |ALPHABET| == 62 && CharOf(digit) == ALPHABET[digit]
    ensures DigitOf(c) == Some(digit) <==> c == ALPHABET[digit]
  {
    DigitsAreDistinct(digit, c);
    assert digit < 10 ==> CharOf(digit) == "0123456789"[digit];
    assert 10 <= digit < 36 ==> CharOf(digit) == "ABCDEFGHIJKLMNOPQRSTUVWXYZ"[digit - 10];
    assert 36 <= digit ==> CharOf(digit) == "abcdefghijklmnopqrstuvwxyz"[digit - 36];
  }

  function LittleEndian(bytes: Bytes): nat {
    if bytes == [] then 0 else bytes[0] + 256 * LittleEndian(bytes[1..])
  }

  function BytesOf(value: nat, n: nat): (bytes: Bytes)
    ensures |bytes| == n
  {
    if n == 0 then [] else [value % 256] + BytesOf(value / 256, n - 1)
  }

  function Pow(base: nat, n: nat): (p: nat)
    requires base > 0
    ensures p > 0
  {
    if n == 0 then 1 else base * Pow(base, n - 1)
  }

  /** The Base62 digits of a number, exactly `width` of them. */
  function Digits(value: nat, width: nat): (s: string)
    ensures |s| == width
  {
    if width == 0 then [] else Digits(value / BASE, width - 1) + [CharOf(value % BASE)]
  }

  /** The Base62 digits of a number without leading zeros. */
  function ShortDigits(value: nat): (s: string)
    ensures s != []
  {
    if value < BASE then [CharOf(value)] else ShortDigits(value / BASE) + [CharOf(value % BASE)]
  }

  predicate IsBase62(s: string) {
    forall i :: 0 <= i < |s| ==> DigitOf(s[i]).Some?
  }

  function ValueOf(s: string): nat
    requires IsBase62(s)
  {
    if s == [] then 0 else ValueOf(s[..|s| - 1]) * BASE + DigitOf(s[|s| - 1]).value
  }

  // ----- Both directions -----

  lemma {:induction false} LittleEndianOfBytes(value: nat, n: nat)
    requires value < Pow(256, n)
    ensures LittleEndian(BytesOf(value, n)) == value
  {
    if n > 0 {
      LittleEndianOfBytes(value / 256, n - 1);
      assert BytesOf(value, n)[1..] == BytesOf(value / 256, n - 1);
    }
  }

  lemma {:induction false} BytesOfLittleEndian(bytes: Bytes)
    ensures BytesOf(LittleEndian(bytes), |bytes|) == bytes
    ensures LittleEndian(bytes) < Pow(256, |bytes|)
  {
    if bytes != [] {
      BytesOfLittleEndian(bytes[1..]);
      LowByte(bytes[0], LittleEndian(bytes[1..]));
    }
  }

  /** A byte behind the others weighs more than all of them. */
  lemma {:induction false} HighByte(bytes: Bytes, high: Byte)
    ensures LittleEndian(bytes + [high]) == LittleEndian(bytes) + high * Pow(256, |bytes|)
  {
    if bytes == [] {
      assert ([] + [high])[1..] == [];
    } else {
      assert (bytes + [high])[1..] == bytes[1..] + [high];
      HighByte(bytes[1..], high);
      Distribute(high, Pow(256, |bytes| - 1));
    }
  }

  lemma Distribute(high: Byte, power: nat)
    ensures 256 * (high * power) == high * (256 * power)
  {
  }

  lemma LowByte(low: Byte, rest: nat)
    ensures (low + 256 * rest) % 256 == low && (low + 256 * rest) / 256 == rest
  {
  }

  lemma {:induction false} ValueOfDigits(value: nat, width: nat)
    requires value < Pow(BASE, width)
    ensures IsBase62(Digits(value, width)) && ValueOf(Digits(value, width)) == value
  {
    if width > 0 {
      hide ValueOf, IsBase62, CharOf, DigitOf;
      ValueOfDigits(value / BASE, width - 1);
      ValueAppend(Digits(value / BASE, width - 1), value % BASE);
    }
  }

  lemma ValueAppend(s: string, digit: nat)
    requires IsBase62(s) && digit < BASE
    ensures IsBase62(s + [CharOf(digit)]) && ValueOf(s + [CharOf(digit)]) == ValueOf(s) * BASE + digit
  {
    hide CharOf, DigitOf;
    var longer := s + [CharOf(digit)];
    DigitsAreDistinct(digit, CharOf(digit));
    assert longer[..|s|] == s && longer[|s|] == CharOf(digit);
    assert forall i :: 0 <= i < |s| ==> longer[i] == s[i];
  }

  lemma {:induction false} DigitsOfValue(s: string)
    requires IsBase62(s)
    ensures Digits(ValueOf(s), |s|) == s && ValueOf(s) < Pow(BASE, |s|)
  {
    if s != [] {
      var last := |s| - 1;
      DigitsOfValue(s[..last]);
      var digit := DigitOf(s[last]).value;
      DigitsAreDistinct(digit, s[last]);
      assert ValueOf(s) / BASE == ValueOf(s[..last]) && ValueOf(s) % BASE == digit;
      assert s == s[..last] + [s[last]];
    }
  }

  /** Eleven digits are enough for 64 bits, and ten are not. */
  lemma ElevenDigitsFit()
    ensures Pow(BASE, 10) < TWO64 < Pow(BASE, ENCODED_ID_LENGTH)
    ensures Pow(256, ID_LENGTH) == TWO64
  {
    assert Pow(BASE, 1) == BASE;
    assert Pow(BASE, 2) == 3844;
    assert Pow(BASE, 3) == 238328;
    assert Pow(BASE, 4) == 14776336;
    assert Pow(BASE, 5) == 916132832;
    assert Pow(BASE, 6) == 56800235584;
    assert Pow(BASE, 7) == 3521614606208;
    assert Pow(BASE, 8) == 218340105584896;
    assert Pow(BASE, 9) == 13537086546263552;
    assert Pow(BASE, 10) == 839299365868340224;
    assert Pow(BASE, 11) == 52036560683837093888;
    assert Pow(256, 1) == 0x100;
    assert Pow(256, 2) == 0x1_0000;
    assert Pow(256, 3) == 0x100_0000;
    assert Pow(256, 4) == 0x1_0000_0000;
    assert Pow(256, 5) == 0x100_0000_0000;
    assert Pow(256, 6) == 0x1_0000_0000_0000;
    assert Pow(256, 7) == 0x100_0000_0000_0000;
  }

  // ----- encodeId and decodeId -----

  function Encoded(idBytes: Bytes): string {
    Digits(LittleEndian(idBytes), ENCODED_ID_LENGTH)
  }

  function Decoded(encoded: string): Option<Bytes> {
    if |encoded| == ENCODED_ID_LENGTH && IsBase62(encoded) && ValueOf(encoded) < TWO64 then
      Some(BytesOf(ValueOf(encoded), ID_LENGTH))
    else None
  }

  /** The two are inverse bijections between identifiers and the encodings that decode. */
  lemma InverseBijections(idBytes: Bytes, encoded: string)
    requires |idBytes| == ID_LENGTH
    ensures Decoded(encoded) == Some(idBytes) <==> encoded == Encoded(idBytes)
  {
    ElevenDigitsFit();
    BytesOfLittleEndian(idBytes);
    ValueOfDigits(LittleEndian(idBytes), ENCODED_ID_LENGTH);
    if Decoded(encoded) == Some(idBytes) {
      DigitsOfValue(encoded);
      LittleEndianOfBytes(ValueOf(encoded), ID_LENGTH);
    }
  }

  function Zeros(n: nat): (s: string)
    ensures |s| == n
  {
    seq(n, _ => '0')
  }

  /** Padding the short form with zeros gives the long one. */
  lemma {:induction false} PaddedDigits(value: nat, width: nat)
    requires 0 < width && value < Pow(BASE, width)
    ensures |ShortDigits(value)| <= width
    ensures Zeros(width - |ShortDigits(value)|) + ShortDigits(value) == Digits(value, width)
  {
    if value < BASE {
      ZeroDigits(width - 1);
    } else {
      assert Pow(BASE, 1) == BASE;
      PaddedDigits(value / BASE, width - 1);
      var short := ShortDigits(value / BASE);
      assert Zeros(width - 1 - |short|) + (short + [CharOf(value % BASE)])
          == (Zeros(width - 1 - |short|) + short) + [CharOf(value % BASE)];
    }
  }

  lemma {:induction false} ZeroDigits(width: nat)
    ensures Digits(0, width) == Zeros(width)
  {
    if width > 0 {
      ZeroDigits(width - 1);
    }
  }

  method ReadLittleEndian(idBytes: array<Byte>) returns (value: nat)
    ensures value == LittleEndian(idBytes[..])
  {
    value := 0;
    var index := idBytes.Length - 1;
    while index >= 0
      invariant -1 <= index < idBytes.Length && value == LittleEndian(idBytes[index + 1..])
    {
      assert idBytes[index..][0] == idBytes[index] && idBytes[index..][1..] == idBytes[index + 1..];
      value := value * 256 + idBytes[index];
      index := index - 1;
    }
    assert idBytes[0..] == idBytes[..];
  }

  lemma ShortDigitsStep(value: nat, encoded: string)
    ensures value >= BASE
      ==> ShortDigits(value) + encoded == ShortDigits(value / BASE) + ([CharOf(value % BASE)] + encoded)
    ensures value < BASE ==> ShortDigits(value) + encoded == [CharOf(value % BASE)] + encoded
  {
  }

  /** The do loop of encodeId, its first turn written out. */
  method ToBase62(number: nat) returns (encoded: string)
    ensures encoded == ShortDigits(number)
  {
    ShortDigitsStep(number, []);
    assert ShortDigits(number) + [] == ShortDigits(number);
    encoded := [CharOf(number % BASE)];
    assert [CharOf(number % BASE)] + [] == encoded;
    var value := number / BASE;
    while value > 0
      invariant (if value > 0 then ShortDigits(value) else []) + encoded == ShortDigits(number)
    {
      hide ShortDigits;
      ShortDigitsStep(value, encoded);
      encoded := [CharOf(value % BASE)] + encoded;
      value := value / BASE;
    }
    assert [] + encoded == encoded;
  }

  method EncodeId(idBytes: array<Byte>) returns (r: Option<string>)
    ensures r == if idBytes.Length == ID_LENGTH then Some(Encoded(idBytes[..])) else None
  {
    if idBytes.Length != ID_LENGTH {
      return None;
    }
    var value := ReadLittleEndian(idBytes);
    var encoded := ToBase62(value);
    ElevenDigitsFit();
    BytesOfLittleEndian(idBytes[..]);
    PaddedDigits(value, ENCODED_ID_LENGTH);
    return Some(Zeros(ENCODED_ID_LENGTH - |encoded|) + encoded);
  }

  /** The check for canonical encoding at the end never rejects: what is in range is canonical. */
  method DecodeId(encoded: string) returns (r: Option<array<Byte>>)
    ensures r.Some? <==> Decoded(encoded).Some?
    ensures r.Some? ==> fresh(r.value) && Decoded(encoded) == Some(r.value[..])
  {
    if |encoded| != ENCODED_ID_LENGTH {
      return None;
    }
    var value: nat := 0;
    var i := 0;
    while i < |encoded|
      invariant i <= |encoded| && IsBase62(encoded[..i]) && value == ValueOf(encoded[..i])
    {
      var digit := DigitOf(encoded[i]);
      if digit.None? {
        return None;
      }
      assert encoded[..i + 1][..i] == encoded[..i];
      value := value * BASE + digit.value;
      i := i + 1;
    }
    assert encoded[..|encoded|] == encoded;
    if value >= TWO64 {
      return None;
    }
    var decoded := FillBytes(value);
    var again := EncodeId(decoded);
    InverseBijections(decoded[..], encoded);
    if again != Some(encoded) {
      return None;
    }
    return Some(decoded);
  }

  lemma BytesOfStep(done: Bytes, value: nat, n: nat)
    requires n > 0
    ensures done + BytesOf(value, n) == (done + [value % 256]) + BytesOf(value / 256, n - 1)
  {
  }

  method FillBytes(number: nat) returns (decoded: array<Byte>)
    ensures fresh(decoded) && decoded[..] == BytesOf(number, ID_LENGTH)
  {
    hide BytesOf;
    decoded := new Byte[ID_LENGTH];
    var value, index := number, 0;
    assert decoded[..0] + BytesOf(value, ID_LENGTH) == BytesOf(value, ID_LENGTH);
    while index < decoded.Length
      invariant index <= decoded.Length
      invariant decoded[..index] + BytesOf(value, decoded.Length - index) == BytesOf(number, ID_LENGTH)
    {
      ghost var was := decoded[..index];
      BytesOfStep(was, value, decoded.Length - index);
      decoded[index] := value % 256;
      assert decoded[..index + 1] == was + [value % 256];
      value := value / 256;
      index := index + 1;
    }
    assert decoded[..] == decoded[..index] + BytesOf(value, 0);
  }
}
