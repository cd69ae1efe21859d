/** The merge on the cases of modbus_client/address_range_test.py. The test writes a range
    as (first, last); here it is `AddressRange(first, last - first + 1)`. */
module AddressRangeExamples {
  import opened Wrappers
  import opened AddressRanges

  /** (0..1) and (1..2) overlap: one bucket. */
  lemma OverlappingRangesJoin(s: seq<AddressRange>)
    requires s == [AddressRange(0, 2), AddressRange(1, 2)]
    ensures Merged(s, false, 10) == [AddressRange(0, 3)]
  {
    SortedFixed(s);
    OverlappingRangesJoinSweep(s);
  }

  lemma OverlappingRangesJoinSweep(s: seq<AddressRange>)
    requires s == [AddressRange(0, 2), AddressRange(1, 2)]
    ensures Sweep(s, None, false, 10) == [AddressRange(0, 3)]
  {
    assert s[0..] == s;
    SweepByStep(s, 0, None, false, 10);
    SweepByStep(s, 1, Some(AddressRange(0, 2)), false, 10);
  }

  /** (0..1) and (2..3) touch: one bucket. */
  lemma AdjacentRangesJoin(s: seq<AddressRange>)
    requires s == [AddressRange(0, 2), AddressRange(2, 2)]
    ensures Merged(s, false, 10) == [AddressRange(0, 4)]
  {
    SortedFixed(s);
    AdjacentRangesJoinSweep(s);
  }

  lemma AdjacentRangesJoinSweep(s: seq<AddressRange>)
    requires s == [AddressRange(0, 2), AddressRange(2, 2)]
    ensures Sweep(s, None, false, 10) == [AddressRange(0, 4)]
  {
    assert s[0..] == s;
    SweepByStep(s, 0, None, false, 10);
    SweepByStep(s, 1, Some(AddressRange(0, 2)), false, 10);
  }

  /** (0..1) and (5..6) are two reads when holes are not allowed. */
  lemma GapSplits(s: seq<AddressRange>)
    requires s == [AddressRange(0, 2), AddressRange(5, 2)]
    ensures Merged(s, false, 10) == [AddressRange(0, 2), AddressRange(5, 2)]
  {
    SortedFixed(s);
    GapSplitsSweep(s);
  }

  lemma GapSplitsSweep(s: seq<AddressRange>)
    requires s == [AddressRange(0, 2), AddressRange(5, 2)]
    ensures Sweep(s, None, false, 10) == [AddressRange(0, 2), AddressRange(5, 2)]
  {
    assert s[0..] == s;
    SweepByStep(s, 0, None, false, 10);
    SweepByStep(s, 1, Some(AddressRange(0, 2)), false, 10);
  }

  /** (0..1) and (5..6) are one read (0..6) when holes are allowed. */
  lemma GapJoinedWithHoles(s: seq<AddressRange>)
    requires s == [AddressRange(0, 2), AddressRange(5, 2)]
    ensures Merged(s, true, 10) == [AddressRange(0, 7)]
  {
    SortedFixed(s);
    GapJoinedWithHolesSweep(s);
  }

  lemma GapJoinedWithHolesSweep(s: seq<AddressRange>)
    requires s == [AddressRange(0, 2), AddressRange(5, 2)]
    ensures Sweep(s, None, true, 10) == [AddressRange(0, 7)]
  {
    assert s[0..] == s;
    SweepByStep(s, 0, None, true, 10);
    SweepByStep(s, 1, Some(AddressRange(0, 2)), true, 10);
  }

  /** Ranges given out of order are read in address order. */
  lemma InputOrderIrrelevant(registers: seq<AddressRange>)
    requires registers == [AddressRange(10, 2), AddressRange(5, 2)]
    ensures Merged(registers, false, 10) == [AddressRange(5, 2), AddressRange(10, 2)]
  {
    var s := [AddressRange(5, 2), AddressRange(10, 2)];
    SortUnique(registers, s);
    InputOrderIrrelevantSweep(s);
  }

  lemma InputOrderIrrelevantSweep(s: seq<AddressRange>)
    requires s == [AddressRange(5, 2), AddressRange(10, 2)]
    ensures Sweep(s, None, false, 10) == [AddressRange(5, 2), AddressRange(10, 2)]
  {
    assert s[0..] == s;
    SweepByStep(s, 0, None, false, 10);
    SweepByStep(s, 1, Some(AddressRange(5, 2)), false, 10);
  }

  /** (10..15) and (7..12) overlap: one read (7..15). */
  lemma OverlapJoined(registers: seq<AddressRange>)
    requires registers == [AddressRange(10, 6), AddressRange(7, 6)]
    ensures Merged(registers, true, 10) == [AddressRange(7, 9)]
  {
    var s := [AddressRange(7, 6), AddressRange(10, 6)];
    SortUnique(registers, s);
    OverlapJoinedSweep(s);
  }

  lemma OverlapJoinedSweep(s: seq<AddressRange>)
    requires s == [AddressRange(7, 6), AddressRange(10, 6)]
    ensures Sweep(s, None, true, 10) == [AddressRange(7, 9)]
  {
    assert s[0..] == s;
    SweepByStep(s, 0, None, true, 10);
    SweepByStep(s, 1, Some(AddressRange(7, 6)), true, 10);
  }

  /** `maxReadSize` closes the bucket: (0..1) and (8..9) fit in ten words, (15..16) does
      not. */
  lemma MaxReadSizeSplits(s: seq<AddressRange>)
    requires s == [AddressRange(0, 2), AddressRange(8, 2), AddressRange(15, 2)]
    ensures Merged(s, true, 10) == [AddressRange(0, 10), AddressRange(15, 2)]
  {
    SortedFixed(s);
    MaxReadSizeSplitsSweep(s);
  }

  lemma MaxReadSizeSplitsSweep(s: seq<AddressRange>)
    requires s == [AddressRange(0, 2), AddressRange(8, 2), AddressRange(15, 2)]
    ensures Sweep(s, None, true, 10) == [AddressRange(0, 10), AddressRange(15, 2)]
  {
    assert s[0..] == s;
    SweepByStep(s, 0, None, true, 10);
    SweepByStep(s, 1, Some(AddressRange(0, 2)), true, 10);
    SweepByStep(s, 2, Some(AddressRange(0, 10)), true, 10);
  }

  /** With a hundred words, (0..1) and (15..16) are one read (0..16). */
  lemma LargeReadSizeJoins(s: seq<AddressRange>)
    requires s == [AddressRange(0, 2), AddressRange(15, 2)]
    ensures Merged(s, true, 100) == [AddressRange(0, 17)]
  {
    SortedFixed(s);
    LargeReadSizeJoinsSweep(s);
  }

  lemma LargeReadSizeJoinsSweep(s: seq<AddressRange>)
    requires s == [AddressRange(0, 2), AddressRange(15, 2)]
    ensures Sweep(s, None, true, 100) == [AddressRange(0, 17)]
  {
    assert s[0..] == s;
    SweepByStep(s, 0, None, true, 100);
    SweepByStep(s, 1, Some(AddressRange(0, 2)), true, 100);
  }

  /** (0..1), (0..5), (5..9), (10..10) with ten words at most: (0..5) sorts first and
      swallows (0..1), (5..9) fills the bucket to ten words, and (10..10) opens a second
      read. */
  lemma ElevenWordsNeedTwoReads(registers: seq<AddressRange>)
    requires registers == [AddressRange(0, 2), AddressRange(0, 6), AddressRange(5, 5), AddressRange(10, 1)]
    ensures Merged(registers, true, 10) == [AddressRange(0, 10), AddressRange(10, 1)]
  {
    var s := [AddressRange(0, 6), AddressRange(0, 2), AddressRange(5, 5), AddressRange(10, 1)];
    ElevenWordsSorted(registers, s);
    SortUnique(registers, s);
    ElevenWordsNeedTwoReadsSweep(s);
  }

  lemma ElevenWordsSorted(registers: seq<AddressRange>, s: seq<AddressRange>)
    requires registers == [AddressRange(0, 2), AddressRange(0, 6), AddressRange(5, 5), AddressRange(10, 1)]
    requires s == [AddressRange(0, 6), AddressRange(0, 2), AddressRange(5, 5), AddressRange(10, 1)]
    ensures Sorted(s) && multiset(registers) == multiset(s)
  {
    assert registers == [registers[0], registers[1]] + registers[2..];
    assert s == [registers[1], registers[0]] + registers[2..];
  }

  lemma ElevenWordsNeedTwoReadsSweep(s: seq<AddressRange>)
    requires s == [AddressRange(0, 6), AddressRange(0, 2), AddressRange(5, 5), AddressRange(10, 1)]
    ensures Sweep(s, None, true, 10) == [AddressRange(0, 10), AddressRange(10, 1)]
  {
    assert s[0..] == s;
    SweepByStep(s, 0, None, true, 10);
    SweepByStep(s, 1, Some(AddressRange(0, 6)), true, 10);
    SweepByStep(s, 2, Some(AddressRange(0, 6)), true, 10);
    SweepByStep(s, 3, Some(AddressRange(0, 10)), true, 10);
  }
}
