/** How much zero padding the client puts behind a URL or a compressed paste. */
module Padding {
  import opened Common
  import opened Wire

  const MAX_URL_BYTES: nat := 4096
  const URL_PADDING_ALIGNMENT: nat := 32
  const MAX_URL_PADDING_LENGTH: nat := 128
  const MARKDOWN_PADDING_BUCKET: nat := 1024

  // ----- Markdown -----

  /** The length of a payload once a padding field of `padding` bytes follows it; none when it is empty. */
  function Framed(unpadded: nat, padding: nat): nat {
    unpadded + SizeOfBytes(padding)
  }

  /** The bytes missing to the next bucket boundary. */
  function Gap(unpadded: nat): nat {
    (MARKDOWN_PADDING_BUCKET - unpadded % MARKDOWN_PADDING_BUCKET) % MARKDOWN_PADDING_BUCKET
  }

  /** No padding field takes exactly one, two or 130 bytes. */
  predicate Unreachable(gap: nat) {
    gap == 1 || gap == 2 || gap == 130
  }

  /** The padding makes the framed total the smallest multiple of the bucket that any padding reaches. */
  ghost predicate IsMarkdownPadding(unpadded: nat, padding: nat) {
    && Framed(unpadded, padding) % MARKDOWN_PADDING_BUCKET == 0
    && forall q: nat :: Framed(unpadded, q) % MARKDOWN_PADDING_BUCKET == 0
                        ==> Framed(unpadded, padding) <= Framed(unpadded, q)
  }

  method VarintLength(value: nat) returns (length: nat)
    ensures length == SizeOfVarint(value)
  {
    length := 1;
    var v := value;
    while v >= 0x80
      invariant length + SizeOfVarint(v) == 1 + SizeOfVarint(value)
    {
      v := v / 0x80;
      length := length + 1;
    }
  }

  /** The padding field of a given total size, if there is one. */
  lemma FieldSizes(padding: nat)
    ensures SizeOfBytes(padding) == 0 <==> padding == 0
    ensures 0 < padding < 0x80 ==> SizeOfBytes(padding) == padding + 2
    ensures 0x80 <= padding < 0x4000 ==> SizeOfBytes(padding) == padding + 3
    ensures padding >= 0x4000 ==> SizeOfBytes(padding) > 0x4000
  {
    SizeOfVarintBounds(padding);
  }

  lemma CeilingIsNext(n: nat)
    ensures var target := (n + MARKDOWN_PADDING_BUCKET - 1) / MARKDOWN_PADDING_BUCKET * MARKDOWN_PADDING_BUCKET;
            target == n + Gap(n) && target % MARKDOWN_PADDING_BUCKET == 0
  {
    var k, r := n / MARKDOWN_PADDING_BUCKET, n % MARKDOWN_PADDING_BUCKET;
    assert n == k * MARKDOWN_PADDING_BUCKET + r;
    if r == 0 {
      assert (n + MARKDOWN_PADDING_BUCKET - 1) / MARKDOWN_PADDING_BUCKET == k;
    } else {
      assert (n + MARKDOWN_PADDING_BUCKET - 1) / MARKDOWN_PADDING_BUCKET == k + 1;
    }
  }

  /** The loop over bucket boundaries, which stops at the first boundary or the one after it. */
  method MarkdownPaddingLength(unpadded: nat) returns (padding: nat)
    ensures IsMarkdownPadding(unpadded, padding)
    ensures Framed(unpadded, padding)
         == unpadded + Gap(unpadded) + if Unreachable(Gap(unpadded)) then MARKDOWN_PADDING_BUCKET else 0
  {
    var target := (unpadded + MARKDOWN_PADDING_BUCKET - 1) / MARKDOWN_PADDING_BUCKET * MARKDOWN_PADDING_BUCKET;
    CeilingIsNext(unpadded);
    ghost var first := target;
    while true
      invariant target == first || (target == first + MARKDOWN_PADDING_BUCKET && Unreachable(Gap(unpadded)))
      decreases first + MARKDOWN_PADDING_BUCKET - target
    {
      var gap := target - unpadded;
      if gap == 0 {
        FieldSizes(0);
        ExactIsSmallest(unpadded, 0);
        return 0;
      }
      var lengthBytes := 1;
      while lengthBytes <= 3
        invariant 1 <= lengthBytes <= 4
        invariant forall l :: 1 <= l < lengthBytes ==> !FieldFits(gap, l)
      {
        if gap - 1 - lengthBytes > 0 {
          var taken := VarintLength(gap - 1 - lengthBytes);
          if taken == lengthBytes {
            padding := gap - 1 - lengthBytes;
            assert Framed(unpadded, padding) == target;
            ExactIsSmallest(unpadded, padding);
            return;
          }
        }
        lengthBytes := lengthBytes + 1;
      }
      NotReachable(gap);
      target := target + MARKDOWN_PADDING_BUCKET;
    }
  }

  /** A padding field with a length prefix of `lengthBytes` bytes fills the gap. */
  predicate FieldFits(gap: nat, lengthBytes: nat) {
    gap - 1 - lengthBytes > 0 && SizeOfVarint(gap - 1 - lengthBytes) == lengthBytes
  }

  /** A gap the inner loop finds no padding for. */
  lemma NotReachable(gap: nat)
    requires 0 < gap < 2 * MARKDOWN_PADDING_BUCKET
    requires forall l :: 1 <= l < 4 ==> !FieldFits(gap, l)
    ensures Unreachable(gap)
  {
    if gap > 2 {
      SizeOfVarintBounds(gap - 2);
      assert !FieldFits(gap, 1);
      if gap > 3 {
        SizeOfVarintBounds(gap - 3);
        assert !FieldFits(gap, 2);
      }
    }
  }

  lemma TwoMultiples(n: nat)
    ensures (n + MARKDOWN_PADDING_BUCKET) % MARKDOWN_PADDING_BUCKET == n % MARKDOWN_PADDING_BUCKET
  {
  }

  /** A field that fills up to a boundary fills the gap, or the gap and whole buckets. */
  lemma NextMultiple(unpadded: nat, size: nat)
    requires (unpadded + size) % MARKDOWN_PADDING_BUCKET == 0
    ensures size == Gap(unpadded) || size >= Gap(unpadded) + MARKDOWN_PADDING_BUCKET
  {
  }

  lemma ExactIsSmallest(unpadded: nat, padding: nat)
    requires Framed(unpadded, padding)
          == unpadded + Gap(unpadded) + if Unreachable(Gap(unpadded)) then MARKDOWN_PADDING_BUCKET else 0
    ensures IsMarkdownPadding(unpadded, padding)
  {
    hide SizeOfBytes;
    CeilingIsNext(unpadded);
    hide Gap;
    forall q: nat | Framed(unpadded, q) % MARKDOWN_PADDING_BUCKET == 0
      ensures Framed(unpadded, padding) <= Framed(unpadded, q)
    {
      FieldSizes(q);
      NextMultiple(unpadded, SizeOfBytes(q));
    }
    hide Unreachable;
    TwoMultiples(unpadded + Gap(unpadded));
  }

  /** At most one padding reaches a given total, so the specification has one solution. */
  lemma MarkdownPaddingIsUnique(unpadded: nat, p: nat, q: nat)
    requires IsMarkdownPadding(unpadded, p) && IsMarkdownPadding(unpadded, q)
    ensures p == q
  {
    FramedIsIncreasing(unpadded, p, q);
    FramedIsIncreasing(unpadded, q, p);
  }

  lemma FramedIsIncreasing(unpadded: nat, p: nat, q: nat)
    ensures p < q ==> Framed(unpadded, p) < Framed(unpadded, q)
  {
    if p < q {
      SizeOfVarintMonotone(p, q);
    }
  }

  /** The framed total stays within 1154 bytes of the payload, and that is attained. */
  lemma MarkdownPaddingBound(unpadded: nat, padding: nat)
    requires IsMarkdownPadding(unpadded, padding)
    ensures Framed(unpadded, padding) <= unpadded + 1154
    ensures Framed(unpadded, padding) == unpadded + 1154 <==> unpadded % MARKDOWN_PADDING_BUCKET == 894
  {
    var p := MarkdownPadding(unpadded);
    FieldSizes(p);
    ExactIsSmallest(unpadded, p);
    MarkdownPaddingIsUnique(unpadded, p, padding);
  }

  /** The padding in closed form. */
  function MarkdownPadding(unpadded: nat): (padding: nat)
    ensures IsMarkdownPadding(unpadded, padding)
  {
    var gap := Gap(unpadded);
    var reached := if Unreachable(gap) then gap + MARKDOWN_PADDING_BUCKET else gap;
    var padding := if reached == 0 then 0 else if reached < 130 then reached - 2 else reached - 3;
    FieldSizes(padding);
    ExactIsSmallest(unpadded, padding);
    padding
  }

  // ----- URLs -----

  function AlignmentPadding(length: nat): nat {
    (URL_PADDING_ALIGNMENT - length % URL_PADDING_ALIGNMENT) % URL_PADDING_ALIGNMENT
  }

  function AvailablePadding(length: nat): nat
    requires length <= MAX_URL_BYTES
  {
    if MAX_URL_BYTES - length < MAX_URL_PADDING_LENGTH then MAX_URL_BYTES - length else MAX_URL_PADDING_LENGTH
  }

  lemma AlignmentIsAvailable(length: nat)
    requires length <= MAX_URL_BYTES
    ensures AlignmentPadding(length) <= AvailablePadding(length)
    ensures (length + AlignmentPadding(length)) % URL_PADDING_ALIGNMENT == 0
  {
  }

  function CandidateCount(length: nat): (n: nat)
    requires length <= MAX_URL_BYTES
    ensures 1 <= n <= 5
  {
    AlignmentIsAvailable(length);
    (AvailablePadding(length) - AlignmentPadding(length)) / URL_PADDING_ALIGNMENT + 1
  }

  function UrlPadding(length: nat, choice: Byte): nat
    requires length <= MAX_URL_BYTES
  {
    AlignmentPadding(length) + choice * CandidateCount(length) / 256 * URL_PADDING_ALIGNMENT
  }

  /** The paddings a URL may get: those that fit and align it. */
  predicate IsCandidate(length: nat, padding: nat)
    requires length <= MAX_URL_BYTES
  {
    padding <= AvailablePadding(length) && (length + padding) % URL_PADDING_ALIGNMENT == 0
  }

  /** Whatever the random byte, the padding fits, aligns the URL and keeps it within its limit. */
  lemma UrlPaddingFits(length: nat, choice: Byte)
    requires length <= MAX_URL_BYTES
    ensures var padding := UrlPadding(length, choice);
            && IsCandidate(length, padding) && padding <= MAX_URL_PADDING_LENGTH
            && length + padding <= MAX_URL_BYTES
  {
    AlignmentIsAvailable(length);
    var k := choice * CandidateCount(length) / 256;
    IndexInRange(choice, CandidateCount(length));
    AlignedMultiple(length, k);
  }

  /** The paddings among which one is chosen. */
  lemma CandidatesAre(length: nat, padding: nat)
    requires length <= 4096
    ensures IsCandidate(length, padding)
        <==> padding <= 128 && length + padding <= 4096 && (length + padding) % 32 == 0
    ensures CandidateCount(length) == 5 <==> length % 32 == 0 && length <= 3968
  {
  }

  lemma IndexInRange(choice: Byte, count: nat)
    requires 1 <= count <= 5
    ensures 0 <= choice * count / 256 < count
  {
  }

  lemma AlignedMultiple(length: nat, k: nat)
    requires length <= MAX_URL_BYTES
    ensures var padding := AlignmentPadding(length) + k * URL_PADDING_ALIGNMENT;
            (length + padding) % URL_PADDING_ALIGNMENT == 0
  {
    AlignmentIsAvailable(length);
    assert (length + AlignmentPadding(length) + k * URL_PADDING_ALIGNMENT) % URL_PADDING_ALIGNMENT
        == (length + AlignmentPadding(length)) % URL_PADDING_ALIGNMENT;
  }

  lemma CandidateIndex(length: nat, padding: nat) returns (k: nat)
    requires length <= MAX_URL_BYTES && IsCandidate(length, padding)
    ensures k < CandidateCount(length) && padding == AlignmentPadding(length) + k * URL_PADDING_ALIGNMENT
  {
    AlignmentIsAvailable(length);
    var a := AlignmentPadding(length);
    assert (padding - a) % URL_PADDING_ALIGNMENT == 0;
    assert padding >= a;
    k := (padding - a) / URL_PADDING_ALIGNMENT;
  }

  /** The random bytes that pick the k-th of `count` candidates. */
  ghost function Choices(count: nat, k: nat): set<int> {
    set c: int | 0 <= c < 256 && c * count / 256 == k
  }

  ghost function Interval(from: int, size: nat): set<int> {
    if size == 0 then {} else Interval(from, size - 1) + {from + size - 1}
  }

  lemma {:induction false} IntervalSize(from: int, size: nat)
    ensures |Interval(from, size)| == size
    ensures forall c :: c in Interval(from, size) <==> from <= c < from + size
  {
    if size > 0 {
      IntervalSize(from, size - 1);
    }
  }

  lemma ChoiceBounds(count: nat, k: nat, c: int)
    requires 1 <= count <= 5 && k < count
    ensures 0 <= c < 256 && c * count / 256 == k
        <==> (256 * k + count - 1) / count <= c < (256 * (k + 1) + count - 1) / count
  {
  }

  lemma ChoiceCount(count: nat, k: nat)
    requires 1 <= count <= 5 && k < count
    ensures 256 / count <= (256 * (k + 1) + count - 1) / count - (256 * k + count - 1) / count <= 256 / count + 1
  {
  }

  /** Each of `count` candidates is picked by 256 / count random bytes, up to rounding. */
  lemma ChoicesSize(count: nat, k: nat)
    requires 1 <= count <= 5 && k < count
    ensures 256 / count <= |Choices(count, k)| <= 256 / count + 1
  {
    hide Interval;
    var from, to := (256 * k + count - 1) / count, (256 * (k + 1) + count - 1) / count;
    ChoiceCount(count, k);
    IntervalSize(from, to - from);
    forall c: int
      ensures c in Choices(count, k) <==> c in Interval(from, to - from)
    {
      ChoiceBounds(count, k, c);
    }
    assert Choices(count, k) == Interval(from, to - from);
  }

  /** Exactly the candidates are reached, and their frequencies over all random bytes differ by at most one. */
  lemma UrlPaddingIsUniform(length: nat, padding: nat)
    requires length <= MAX_URL_BYTES
    ensures var picked := set c: int | 0 <= c < 256 && UrlPadding(length, c) == padding;
            && (IsCandidate(length, padding) <==> picked != {})
            && (IsCandidate(length, padding)
                ==> 256 / CandidateCount(length) <= |picked| <= 256 / CandidateCount(length) + 1)
  {
    var picked := set c: int | 0 <= c < 256 && UrlPadding(length, c) == padding;
    if IsCandidate(length, padding) {
      var k := CandidateIndex(length, padding);
      ChoicesSize(CandidateCount(length), k);
      assert picked == Choices(CandidateCount(length), k);
    } else if picked != {} {
      var c :| c in picked;
      UrlPaddingFits(length, c);
    }
  }
}
