/** The limits of the hand-written decoder's tags and groups, in plain numbers. */
module WireLimits {
  import opened Common
  import opened ProtoWire
  import opened HashResults
  import Wire

  /** A tag carries a field number from 1 to 2147483647 and a wire type in its low three bits. */
  lemma TagsAre(number: nat, wireType: nat)
    requires wireType < 8 && number < 0x2000_0000_0000_0000
    ensures var tag := Wire.Varint(number * 8 + wireType);
            && NumberOf(tag) == number && TypeOf(tag) == wireType
            && (IsTag(tag) <==> 1 <= number <= 2147483647)
  {
    hide Wire.Varint, VarintOf, IsVarint;
    NumberIsRead(number * 8 + wireType);
  }

  // ----- Groups -----

  /** Start tags and end tags of groups with number 1. */
  function Opens(n: nat): Bytes {
    if n == 0 then [] else [0x0b] + Opens(n - 1)
  }

  function Closes(n: nat): Bytes {
    if n == 0 then [] else [0x0c] + Closes(n - 1)
  }

  lemma {:induction false} ClosesAtEnd(n: nat, rest: Bytes)
    ensures Closes(n + 1) + rest == Closes(n) + ([0x0c] + rest)
  {
    if n > 0 {
      ClosesAtEnd(n - 1, rest);
      assert Closes(n + 1) + rest == [0x0c] + (Closes(n) + rest);
    }
  }

  lemma GroupTags(rest: Bytes)
    ensures TakeTag([0x0b] + rest) == Some(([0x0b], rest)) && NumberOf([0x0b]) == 1 && TypeOf([0x0b]) == 3
    ensures TakeTag([0x0c] + rest) == Some(([0x0c], rest)) && NumberOf([0x0c]) == 1 && TypeOf([0x0c]) == 4
  {
    TagIs(0x0b);
    TagIs(0x0c);
    hide IsTag, NumberOf, TypeOf, TakeTag;
    TagIsTaken([0x0b] + rest, [0x0b], rest);
    TagIsTaken([0x0c] + rest, [0x0c], rest);
  }

  /** A group ends at its end tag; one that starts in it must be read first. */
  lemma GroupReads(inner: Bytes, rest: Bytes, depth: int)
    ensures TakeGroup(1, [0x0c] + rest, depth) == Some(([], [0x0c], rest))
    ensures var value := TakeValue(1, 3, inner, depth - 1);
            && (value.None? ==> TakeGroup(1, [0x0b] + inner, depth) == None)
            && (value.Some? && value.value.1 == [0x0c] + rest ==>
                  TakeGroup(1, [0x0b] + inner, depth)
                  == Some(([Field([0x0b], value.value.0)] + [], [0x0c], rest)))
  {
    hide TakeTag, NumberOf, TypeOf, TakeValue;
    GroupTags(inner);
    GroupTags(rest);
  }

  /** So many groups inside one another, the first already opened, are read down to the given depth. */
  lemma {:induction false} NestedAreTaken(groups: nat, depth: int, rest: Bytes)
    requires groups > 0 && depth >= -1
    ensures var r := TakeValue(1, 3, Opens(groups - 1) + (Closes(groups) + rest), depth);
            && (r.Some? <==> groups - 1 <= depth)
            && (r.Some? ==> r.value.1 == rest)
  {
    hide TakeValue, TakeGroup, Closes;
    var d := Opens(groups - 1) + (Closes(groups) + rest);
    ClosesAtEnd(groups - 1, rest);
    GroupIsValue(d, depth);
    if depth >= 0 {
      if groups == 1 {
        NothingCloses();
        assert d == [0x0c] + rest;
        GroupReads([], rest, depth);
      } else {
        var inner := Opens(groups - 2) + (Closes(groups - 1) + ([0x0c] + rest));
        assert d == [0x0b] + inner;
        NestedAreTaken(groups - 1, depth - 1, [0x0c] + rest);
        GroupReads(inner, rest, depth);
      }
    }
  }

  lemma NothingCloses()
    ensures Closes(0) == []
  {
  }

  lemma GroupIsValue(d: Bytes, depth: int)
    ensures TakeValue(1, 3, d, depth).Some? <==> depth >= 0 && TakeGroup(1, d, depth).Some?
    ensures TakeValue(1, 3, d, depth).Some? ==> TakeValue(1, 3, d, depth).value.1 == TakeGroup(1, d, depth).value.2
  {
    hide TakeGroup;
  }

  /** Up to 10001 groups may stand in one another. */
  lemma GroupsNest(groups: nat, rest: Bytes)
    requires groups > 0
    ensures TakeField(Opens(groups) + (Closes(groups) + rest)).Some? <==> groups <= 10_001
  {
    hide TakeTag, NumberOf, TypeOf, TakeValue;
    var inner := Opens(groups - 1) + (Closes(groups) + rest);
    assert Opens(groups) + (Closes(groups) + rest) == [0x0b] + inner;
    GroupTags(inner);
    NestedAreTaken(groups, RECURSION_LIMIT, rest);
  }
}
