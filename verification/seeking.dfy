/** Seeking through the index: the slot arithmetic of `seek` and the range it advertises. */
module Seeking {
  import opened MachineInts
  import opened SeekIndex

  datatype Index = Index(bookmarks: seq<Bookmark>, tsShiftUs: int)

  /** `PastTheEnd` is the source reading beyond the bookmark list. */
  datatype Outcome = NotReachable | PastTheEnd | Lands(slot: nat, byteOffset: nat, reachedUs: int)

  /** The target on the index's clock. */
  function OnIndexClock(index: Index, timeShifting: bool, targetUs: int): int {
    if timeShifting then targetUs else targetUs - index.tsShiftUs
  }

  function FromIndexClock(index: Index, timeShifting: bool, ts: int): int {
    if timeShifting then ts else ts + index.tsShiftUs
  }

  /** The first slot from `i` on with a valid timestamp. */
  ghost predicate FirstValidFrom(bookmarks: seq<Bookmark>, i: nat, slot: nat) {
    && i <= slot < |bookmarks| && bookmarks[slot].timestamp >= 0
    && forall j :: i <= j < slot ==> bookmarks[j].timestamp < 0
  }

  ghost predicate InRange(index: Index, t: int) { t >= 0 && t / PERIOD_US < |index.bookmarks| }

  /** No slot from `i` on has a valid timestamp. */
  ghost predicate NoneValidFrom(bookmarks: seq<Bookmark>, i: nat) {
    forall j :: i <= j < |bookmarks| ==> bookmarks[j].timestamp < 0
  }

  ghost predicate IsSeek(index: Index, timeShifting: bool, targetUs: int, r: Outcome) {
    var t := OnIndexClock(index, timeShifting, targetUs);
    match r
    case NotReachable => !InRange(index, t)
    case PastTheEnd => InRange(index, t) && NoneValidFrom(index.bookmarks, t / PERIOD_US)
    case Lands(slot, byteOffset, reachedUs) =>
      && InRange(index, t) && FirstValidFrom(index.bookmarks, t / PERIOD_US, slot)
      && byteOffset == index.bookmarks[slot].byteOffset
      && reachedUs == FromIndexClock(index, timeShifting, index.bookmarks[slot].timestamp)
  }

  /** The advertised range of an index with a valid slot. */
  ghost predicate IsRange(index: Index, timeShifting: bool, startUs: int, endUs: int)
  {
    && index.bookmarks != []
    && (exists i: nat :: FirstValidFrom(index.bookmarks, 0, i)
                         && startUs == FromIndexClock(index, timeShifting, index.bookmarks[i].timestamp))
    && endUs == FromIndexClock(index, timeShifting, index.bookmarks[|index.bookmarks| - 1].timestamp)
  }

  method Seek(index: Index, timeShifting: bool, targetUs: int) returns (r: Outcome)
    ensures IsSeek(index, timeShifting, targetUs, r)
  {
    var target := if timeShifting then targetUs else targetUs - index.tsShiftUs;
    if target < 0 || target / PERIOD_US >= |index.bookmarks| {
      return NotReachable;
    }
    var bookmarkIndex := target / PERIOD_US;
    while bookmarkIndex < |index.bookmarks| && index.bookmarks[bookmarkIndex].timestamp < 0
      invariant target / PERIOD_US <= bookmarkIndex <= |index.bookmarks|
      invariant forall j :: target / PERIOD_US <= j < bookmarkIndex ==> index.bookmarks[j].timestamp < 0
    {
      bookmarkIndex := bookmarkIndex + 1;
    }
    if bookmarkIndex == |index.bookmarks| {
      return PastTheEnd;
    }
    r := Lands(bookmarkIndex, index.bookmarks[bookmarkIndex].byteOffset,
               index.bookmarks[bookmarkIndex].timestamp + (if timeShifting then 0 else index.tsShiftUs));
  }

  /** `valid` is false when the source leaves the start of the range unset. */
  method GetSeekRange(index: Index, timeShifting: bool) returns (valid: bool, startUs: int, endUs: int)
    requires index.bookmarks != []
    ensures valid <==> !NoneValidFrom(index.bookmarks, 0)
    ensures valid ==> IsRange(index, timeShifting, startUs, endUs)
  {
    valid, startUs := false, 0;
    var i := 0;
    while i < |index.bookmarks|
      invariant i <= |index.bookmarks| && !valid
      invariant forall j :: 0 <= j < i ==> index.bookmarks[j].timestamp < 0
    {
      assert index.bookmarks[i].timestamp >= 0 ==> FirstValidFrom(index.bookmarks, 0, i);
      if index.bookmarks[i].timestamp >= 0 {
        valid, startUs := true, index.bookmarks[i].timestamp;
        break;
      }
      i := i + 1;
    }
    endUs := index.bookmarks[|index.bookmarks| - 1].timestamp;
    if !timeShifting {
      startUs := startUs + index.tsShiftUs;
      endUs := endUs + index.tsShiftUs;
    }
  }

  // ----- Slots of a built index -----

  /** The word a slot belongs to; its timestamp is valid exactly when there is one. */
  lemma SlotWord(steps: seq<RawStep>, layout: Layout, bookmarks: seq<Bookmark>, i: nat) returns (k: int)
    requires IndexOf(steps, layout, bookmarks) && i < |bookmarks|
    ensures BelongsTo(steps, layout, bookmarks, |steps|, i, k) && -1 <= k < |steps|
    ensures bookmarks[i].timestamp >= 0 <==> k >= 0
    ensures k >= 0 ==> IsCrossing(steps, k) && 0 < Slot(steps[k].ts) <= i && bookmarks[i].timestamp == steps[k].ts
    ensures k >= 0 ==> steps[k].ts < i * 2000
  {
    hide RunningMax, KnownAfter;
    assert SlotRight(steps, layout, bookmarks, i);
    k :| BelongsTo(steps, layout, bookmarks, |steps|, i, k);
  }

  /** Once a slot is valid, every later one is, and points no earlier. */
  lemma ValidStaysValid(steps: seq<RawStep>, layout: Layout, bookmarks: seq<Bookmark>, i: nat, j: nat)
    requires IndexOf(steps, layout, bookmarks) && i <= j < |bookmarks| && bookmarks[i].timestamp >= 0
    ensures bookmarks[j].timestamp >= 0
  {
    hide IndexOf, IsCrossing, Slot, PointsAt;
    var k := SlotWord(steps, layout, bookmarks, i);
    var k' := SlotWord(steps, layout, bookmarks, j);
  }

  /** Some word has a valid timestamp once the shift is known. */
  ghost predicate HasTimestamp(steps: seq<RawStep>) {
    exists k: nat :: Indexed(steps, k) && steps[k].ts >= 0
  }

  lemma LastSlotValidIff(steps: seq<RawStep>, layout: Layout, bookmarks: seq<Bookmark>)
    requires IndexOf(steps, layout, bookmarks)
    ensures HasTimestamp(steps) <==> bookmarks[|bookmarks| - 1].timestamp >= 0
  {
    var last := |bookmarks| - 1;
    var k := SlotWord(steps, layout, bookmarks, last);
    if HasTimestamp(steps) {
      var j: nat :| Indexed(steps, j) && steps[j].ts >= 0;
      RunningMaxBounds(steps, j, |steps|);
      var c := RunningMaxAttained(steps, |steps|);
      hide KnownAfter, RunningMax, Slot;
    }
  }

  /**
   The skip-invalid loop of `seek` stays inside the bookmark list, for every target that passes the bounds test, if
   and only if the file has a valid timestamp.
   */
  lemma SkipLoopEndsIff(steps: seq<RawStep>, layout: Layout, index: Index, timeShifting: bool)
    requires IndexOf(steps, layout, index.bookmarks)
    ensures HasTimestamp(steps) <==> forall targetUs :: !IsSeek(index, timeShifting, targetUs, PastTheEnd)
  {
    LastSlotValidIff(steps, layout, index.bookmarks);
    hide HasTimestamp, IndexOf;
    var last := |index.bookmarks| - 1;
    if index.bookmarks[last].timestamp < 0 {
      var t := last * PERIOD_US;
      assert IsSeek(index, timeShifting, FromIndexClock(index, timeShifting, t), PastTheEnd);
    }
  }

  /**
   Seeking never skips data. Every indexed word whose timestamp is at or after the target lies at or after the byte
   offset that `seek` jumps to, however the timestamps go up and down.
   */
  lemma NeverSkips(steps: seq<RawStep>, layout: Layout, index: Index, timeShifting: bool, targetUs: int, r: Outcome,
                   j: nat)
    requires IndexOf(steps, layout, index.bookmarks) && IsSeek(index, timeShifting, targetUs, r) && r.Lands?
    requires Indexed(steps, j) && steps[j].ts >= OnIndexClock(index, timeShifting, targetUs)
    ensures r.byteOffset <= layout.Offset(j)
  {
    var t := OnIndexClock(index, timeShifting, targetUs);
    var i := t / PERIOD_US;
    var k := SlotWord(steps, layout, index.bookmarks, r.slot);
    if j < k {
      RunningMaxBounds(steps, j, k);
      EarlierWordHasEarlierSlot(steps, layout, index.bookmarks, i, r.slot, j, k);
      assert false;
    }
    OffsetsGrow(layout, k, j);
  }

  lemma OffsetsGrow(layout: Layout, k: nat, j: nat)
    requires k <= j
    ensures layout.Offset(k) <= layout.Offset(j)
  {
  }

  /** Words before the one a lookup from slot `i` lands on belong to periods before slot `i`. */
  lemma EarlierWordHasEarlierSlot(steps: seq<RawStep>, layout: Layout, bookmarks: seq<Bookmark>, i: nat, slot: nat,
                                  j: nat, k: nat)
    requires IndexOf(steps, layout, bookmarks) && FirstValidFrom(bookmarks, i, slot)
    requires BelongsTo(steps, layout, bookmarks, |steps|, slot, k) && IsCrossing(steps, k)
    requires Indexed(steps, j) && j < k && steps[j].ts >= 0
    ensures Slot(steps[j].ts) <= i
  {
    hide IndexOf, KnownAfter, PointsAt, RunningMax;
    RunningMaxBounds(steps, j, k);
    if slot > i {
      // the slot before the first valid one belongs to no word, yet word j or one before it is a crossing
      var none := SlotWord(steps, layout, bookmarks, slot - 1);
      RunningMaxBounds(steps, j, j + 1);
      var c := RunningMaxAttained(steps, j + 1);
      RunningMaxBounds(steps, c, k);
      assert c <= none;
    }
  }

  /**
   Every target in the advertised range can be reached: it passes the bounds test, the skip-invalid loop ends inside
   the list, and the time reached is not after the target. Time shifting may be on or off.
   */
  lemma RangeIsSeekable(steps: seq<RawStep>, layout: Layout, index: Index, timeShifting: bool, startUs: int, endUs: int,
                        targetUs: int, r: Outcome)
    requires IndexOf(steps, layout, index.bookmarks) && IsRange(index, timeShifting, startUs, endUs)
    requires startUs <= targetUs <= endUs && IsSeek(index, timeShifting, targetUs, r)
    ensures r.Lands? && r.reachedUs <= targetUs
  {
    var bookmarks, t := index.bookmarks, OnIndexClock(index, timeShifting, targetUs);
    var first: nat :| FirstValidFrom(bookmarks, 0, first)
                      && startUs == FromIndexClock(index, timeShifting, bookmarks[first].timestamp);
    var last := |bookmarks| - 1;
    ValidStaysValid(steps, layout, bookmarks, first, last);
    var kLast := SlotWord(steps, layout, bookmarks, last);
    assert bookmarks[first].timestamp <= t <= bookmarks[last].timestamp;
    assert t / PERIOD_US < last + 1;
    if r.Lands? {
      var k := SlotWord(steps, layout, bookmarks, r.slot);
      if r.slot > t / PERIOD_US {
        FirstIsFirst(steps, layout, bookmarks, first, t / PERIOD_US, r.slot);
      }
    }
  }

  /** A lookup that had to skip lands on the first valid slot of all. */
  lemma FirstIsFirst(steps: seq<RawStep>, layout: Layout, bookmarks: seq<Bookmark>, first: nat, i: nat, slot: nat)
    requires IndexOf(steps, layout, bookmarks)
    requires FirstValidFrom(bookmarks, 0, first) && FirstValidFrom(bookmarks, i, slot) && i < slot
    ensures first == slot
  {
    hide IndexOf;
    if first < slot {
      ValidStaysValid(steps, layout, bookmarks, first, slot - 1);
    }
  }

  /** Valid slots hold timestamps that only go up, even when the stream's do not. */
  lemma SlotTimesGrow(steps: seq<RawStep>, layout: Layout, bookmarks: seq<Bookmark>, i: nat, j: nat)
    requires IndexOf(steps, layout, bookmarks) && i <= j < |bookmarks| && bookmarks[i].timestamp >= 0
    ensures bookmarks[i].timestamp <= bookmarks[j].timestamp
  {
    hide IndexOf, PointsAt, RunningMax, KnownAfter;
    var k := SlotWord(steps, layout, bookmarks, i);
    ValidStaysValid(steps, layout, bookmarks, i, j);
    var k' := SlotWord(steps, layout, bookmarks, j);
    if k < k' {
      RunningMaxBounds(steps, k, k');
    }
  }

  /** A lookup that lands reaches a time at or before the target if and only if the target is not before the range. */
  lemma ReachesTargetIff(steps: seq<RawStep>, layout: Layout, index: Index, timeShifting: bool, startUs: int,
                         endUs: int, targetUs: int, r: Outcome)
    requires IndexOf(steps, layout, index.bookmarks) && IsRange(index, timeShifting, startUs, endUs)
    requires IsSeek(index, timeShifting, targetUs, r) && r.Lands?
    ensures r.reachedUs <= targetUs <==> startUs <= targetUs
  {
    var bookmarks, t := index.bookmarks, OnIndexClock(index, timeShifting, targetUs);
    var first: nat :| FirstValidFrom(bookmarks, 0, first)
                      && startUs == FromIndexClock(index, timeShifting, bookmarks[first].timestamp);
    hide IndexOf;
    SlotTimesGrow(steps, layout, bookmarks, first, r.slot);
    if r.slot > t / PERIOD_US {
      FirstIsFirst(steps, layout, bookmarks, first, t / PERIOD_US, r.slot);
    } else {
      var k := SlotWord(steps, layout, bookmarks, r.slot);
    }
  }

  /** The indexed timestamps never go down. */
  ghost predicate Monotone(steps: seq<RawStep>) {
    forall i: nat, j: nat :: Indexed(steps, i) && Indexed(steps, j) && i <= j ==> steps[i].ts <= steps[j].ts
  }

  /**
   How far back a seek lands. For monotone timestamps, if some word lies in the period before the target's, the time
   reached is less than two periods before the target.
   */
  lemma LagIsBounded(steps: seq<RawStep>, layout: Layout, index: Index, timeShifting: bool, targetUs: int, r: Outcome,
                     j: nat)
    requires IndexOf(steps, layout, index.bookmarks) && IsSeek(index, timeShifting, targetUs, r)
    requires InRange(index, OnIndexClock(index, timeShifting, targetUs))
    requires Monotone(steps) && Indexed(steps, j) && steps[j].ts >= 0
    requires steps[j].ts / 2000 == OnIndexClock(index, timeShifting, targetUs) / 2000 - 1
    ensures r.Lands? && targetUs - 4000 < r.reachedUs <= targetUs
  {
    var bookmarks, t := index.bookmarks, OnIndexClock(index, timeShifting, targetUs);
    var i := t / PERIOD_US;
    var k := SlotWord(steps, layout, bookmarks, i);
    SlotReached(steps, j);
    var c := RunningMaxAttained(steps, j + 1);
    assert Slot(steps[c].ts) == i && c <= k;
    CrossingsClimb(steps, c, k);
    assert bookmarks[i].timestamp >= 0;
    assert r.Lands? ==> r.slot == i;
  }

  /** With monotone timestamps the running maximum after a word is that word's own slot. */
  lemma SlotReached(steps: seq<RawStep>, j: nat)
    requires Monotone(steps) && Indexed(steps, j) && steps[j].ts >= 0
    ensures RunningMax(steps, j + 1) == Slot(steps[j].ts) > 0
  {
    hide KnownAfter;
    RunningMaxBounds(steps, j, j + 1);
    var c := RunningMaxAttained(steps, j + 1);
    assert steps[c].ts <= steps[j].ts;
  }

  lemma CrossingsClimb(steps: seq<RawStep>, c: nat, k: nat)
    requires IsCrossing(steps, c) && IsCrossing(steps, k) && c <= k
    ensures Slot(steps[c].ts) <= Slot(steps[k].ts)
  {
    hide KnownAfter, Slot, RunningMax;
    if c < k {
      RunningMaxBounds(steps, c, k);
    }
  }

  /**
   CD events are conserved. A valid slot points at a word, and the counts of the slots up to it add up to the CD events
   of every word up to and including that one if and only if no stretch between two crossings up to it has 2^32 CD
   events or more. The length of the recording does not matter. A stretch that overflows loses a multiple of 2^32.
   */
  lemma CdCountsConserved(steps: seq<RawStep>, layout: Layout, bookmarks: seq<Bookmark>, i: nat)
    requires IndexOf(steps, layout, bookmarks) && i < |bookmarks| && bookmarks[i].timestamp >= 0
    ensures exists k: nat :: k < |steps| && CountsUpTo(steps, layout, bookmarks, i, k)
  {
    hide IndexOf;
    var k := SlotWord(steps, layout, bookmarks, i);
    CountedExactIff(steps, k + 1);
    assert CountsUpTo(steps, layout, bookmarks, i, k);
  }

  /** Slot `i` points at word `k`, and what the counts of the slots up to it say about the words up to that one. */
  predicate CountsUpTo(steps: seq<RawStep>, layout: Layout, bookmarks: seq<Bookmark>, i: nat, k: nat)
    requires i < |bookmarks| && k < |steps|
  {
    var sum, total := SumCounts(bookmarks, i + 1), TotalCds(steps, k + 1);
    && bookmarks[i].byteOffset == layout.Offset(k) && bookmarks[i].timestamp == steps[k].ts
    && (sum == total <==> StretchesFit(steps, k + 1))
    && sum <= total && ToU32(sum) == ToU32(total)
  }

  // ----- A file from its words to a seek, on the caller's clock -----

  /** Word `j` was decoded with a valid timestamp, and the decoder knew its timestamp shift by then. */
  ghost predicate Dated(steps: seq<RawStep>, j: nat): (r: bool)
    ensures r ==> j < |steps| && steps[j].ts >= 0
  {
    j < |steps| && steps[j].ts >= 0 && exists i :: 0 <= i <= j && steps[i].shift.Known?
  }

  lemma DatedIff(steps: seq<RawStep>, j: nat)
    ensures Dated(steps, j) <==> Indexed(steps, j) && steps[j].ts >= 0
  {
    if j < |steps| {
      KnownAfterIff(steps, j + 1);
    }
  }

  /** The index has a slot for the target exactly if some word is at most one period before it. */
  lemma ReachableIff(steps: seq<RawStep>, layout: Layout, index: Index, timeShifting: bool, targetUs: int, r: Outcome)
    requires IndexOf(steps, layout, index.bookmarks) && IsSeek(index, timeShifting, targetUs, r)
    ensures var t := OnIndexClock(index, timeShifting, targetUs);
            r.Lands? <==> t >= 0 && exists j: nat :: Dated(steps, j) && t / 2000 <= steps[j].ts / 2000 + 1
  {
    hide IndexOf, KnownAfter, Dated;
    assert |index.bookmarks| == RunningMax(steps, |steps|) + 1 by { SlotCount(steps, layout, index.bookmarks); }
    LastSlotValidIff(steps, layout, index.bookmarks);
    var t, max := OnIndexClock(index, timeShifting, targetUs), RunningMax(steps, |steps|);
    if r.Lands? {
      ValidStaysValid(steps, layout, index.bookmarks, r.slot, max);
      var j: nat :| Indexed(steps, j) && steps[j].ts >= 0;
      RunningMaxBounds(steps, j, |steps|);
      var c := RunningMaxAttained(steps, |steps|);
      DatedIff(steps, c);
    } else if t >= 0 && exists j: nat :: Dated(steps, j) && t / 2000 <= steps[j].ts / 2000 + 1 {
      var j: nat :| Dated(steps, j) && t / 2000 <= steps[j].ts / 2000 + 1;
      DatedIff(steps, j);
      RunningMaxBounds(steps, j, |steps|);
    }
  }

  lemma SlotCount(steps: seq<RawStep>, layout: Layout, bookmarks: seq<Bookmark>)
    requires IndexOf(steps, layout, bookmarks)
    ensures |bookmarks| == RunningMax(steps, |steps|) + 1
  {
  }

  /**
   Indexing a file and seeking in it. The shift used is the one the decoder knew first. On the caller's clock, where a
   word's time is its timestamp plus the shift unless time shifting is on: a target is reached exactly if it is not
   before the clock's zero and not beyond the period after the last one with a word; the offset is that of a word, with
   that word's time; and every word at or after the target is still ahead.
   */
  method SeekInFile(steps: seq<RawStep>, layout: Layout, timeShifting: bool, targetUs: int)
    returns (r: Outcome, shift: Shift)
    ensures FirstShift(steps, |steps|, shift)
    ensures var us := if timeShifting || shift.Unknown? then 0 else shift.us;
            && (r.Lands? <==> targetUs >= us
                              && exists j: nat :: Dated(steps, j) && (targetUs - us) / 2000 <= steps[j].ts / 2000 + 1)
            && (r.Lands? ==> exists k: nat :: Dated(steps, k) && r.byteOffset == layout.start + k * layout.eventSize
                                         && r.reachedUs == steps[k].ts + us)
            && (r.Lands? ==> forall j: nat :: Dated(steps, j) && steps[j].ts + us >= targetUs ==>
                               r.byteOffset <= layout.start + j * layout.eventSize)
  {
    hide IndexOf, Dated, FirstShift, IsSeek;
    var bookmarks;
    bookmarks, shift := BuildBookmarks(steps, layout);
    var index := Index(bookmarks, if shift.Known? then shift.us else 0);
    r := Seek(index, timeShifting, targetUs);
    ReachableIff(steps, layout, index, timeShifting, targetUs, r);
    if r.Lands? {
      LandsOnWord(steps, layout, index, timeShifting, targetUs, r);
      forall j: nat | Dated(steps, j) && steps[j].ts >= OnIndexClock(index, timeShifting, targetUs)
        ensures r.byteOffset <= layout.start + j * layout.eventSize
      {
        DatedIff(steps, j);
        NeverSkips(steps, layout, index, timeShifting, targetUs, r, j);
      }
    }
  }

  lemma LandsOnWord(steps: seq<RawStep>, layout: Layout, index: Index, timeShifting: bool, targetUs: int, r: Outcome)
    requires IndexOf(steps, layout, index.bookmarks) && IsSeek(index, timeShifting, targetUs, r) && r.Lands?
    ensures exists k: nat :: Dated(steps, k) && r.byteOffset == layout.start + k * layout.eventSize
                        && r.reachedUs == FromIndexClock(index, timeShifting, steps[k].ts)
  {
    hide IndexOf, Dated;
    var k := SlotWord(steps, layout, index.bookmarks, r.slot);
    DatedIff(steps, k);
  }

  /** The advertised range of an index: the first dated word, and the first one of the latest period. */
  lemma RangeIs(steps: seq<RawStep>, layout: Layout, index: Index, timeShifting: bool, startUs: int, endUs: int)
    requires IndexOf(steps, layout, index.bookmarks) && IsRange(index, timeShifting, startUs, endUs)
    ensures exists k: nat :: Dated(steps, k) && startUs == FromIndexClock(index, timeShifting, steps[k].ts)
                             && forall j: nat :: Dated(steps, j) ==> k <= j
    ensures exists k: nat :: Dated(steps, k) && endUs == FromIndexClock(index, timeShifting, steps[k].ts)
                             && forall j: nat :: Dated(steps, j) ==>
                                  steps[j].ts / 2000 <= steps[k].ts / 2000
                                  && (steps[j].ts / 2000 == steps[k].ts / 2000 ==> k <= j)
  {
    hide KnownAfter, Dated;
    var bookmarks, last := index.bookmarks, |index.bookmarks| - 1;
    var first: nat :| FirstValidFrom(bookmarks, 0, first)
                      && startUs == FromIndexClock(index, timeShifting, bookmarks[first].timestamp);
    hide RunningMax, IndexOf, IsRange;
    FirstSlotWord(steps, layout, bookmarks, first);
    ValidStaysValid(steps, layout, bookmarks, first, last);
    LastSlotWord(steps, layout, bookmarks);
  }

  lemma FirstSlotWord(steps: seq<RawStep>, layout: Layout, bookmarks: seq<Bookmark>, first: nat)
    requires IndexOf(steps, layout, bookmarks) && FirstValidFrom(bookmarks, 0, first)
    ensures exists k: nat :: Dated(steps, k) && bookmarks[first].timestamp == steps[k].ts
                             && forall j: nat :: Dated(steps, j) ==> k <= j
  {
    hide KnownAfter, Dated, IndexOf;
    var k := SlotWord(steps, layout, bookmarks, first);
    DatedIff(steps, k);
    forall j: nat | Dated(steps, j) ensures k <= j {
      DatedIff(steps, j);
      if j < k {
        NothingBeforeFirst(steps, layout, bookmarks, first, j, k);
      }
    }
  }

  /** A dated word before the first slot's would have been a crossing into an earlier slot. */
  lemma NothingBeforeFirst(steps: seq<RawStep>, layout: Layout, bookmarks: seq<Bookmark>, first: nat, j: nat, k: nat)
    requires IndexOf(steps, layout, bookmarks) && FirstValidFrom(bookmarks, 0, first)
    requires BelongsTo(steps, layout, bookmarks, |steps|, first, k) && IsCrossing(steps, k)
    requires Indexed(steps, j) && steps[j].ts >= 0
    ensures k <= j
  {
    if j < k {
      EarlierWordHasEarlierSlot(steps, layout, bookmarks, 0, first, j, k);
      assert false;
    }
  }

  lemma LastSlotWord(steps: seq<RawStep>, layout: Layout, bookmarks: seq<Bookmark>)
    requires IndexOf(steps, layout, bookmarks) && bookmarks[|bookmarks| - 1].timestamp >= 0
    ensures exists k: nat :: Dated(steps, k) && bookmarks[|bookmarks| - 1].timestamp == steps[k].ts
                             && forall j: nat :: Dated(steps, j) ==>
                                  steps[j].ts / 2000 <= steps[k].ts / 2000
                                  && (steps[j].ts / 2000 == steps[k].ts / 2000 ==> k <= j)
  {
    SlotCount(steps, layout, bookmarks);
    hide KnownAfter, Dated, IndexOf;
    var last := |bookmarks| - 1;
    var k := SlotWord(steps, layout, bookmarks, last);
    DatedIff(steps, k);
    var c := RunningMaxAttained(steps, |steps|);
    assert c <= k;
    CrossingsClimb(steps, c, k);
    forall j: nat | Dated(steps, j)
      ensures steps[j].ts / 2000 <= steps[k].ts / 2000
      ensures steps[j].ts / 2000 == steps[k].ts / 2000 ==> k <= j
    {
      DatedIff(steps, j);
      RunningMaxBounds(steps, j, |steps|);
      if j < k { RunningMaxBounds(steps, j, k); }
    }
  }

  /**
   Indexing a file and asking for its range. There is one exactly if some word is dated; it starts at the first dated
   word's time and ends at the time of the first word in the latest period.
   */
  method RangeOfFile(steps: seq<RawStep>, layout: Layout, timeShifting: bool)
    returns (valid: bool, startUs: int, endUs: int, shift: Shift)
    ensures FirstShift(steps, |steps|, shift)
    ensures valid <==> exists j: nat :: Dated(steps, j)
    ensures var us := if timeShifting || shift.Unknown? then 0 else shift.us;
            valid ==>
              && (exists k: nat :: Dated(steps, k) && startUs == steps[k].ts + us
                                   && forall j: nat :: Dated(steps, j) ==> k <= j)
              && (exists k: nat :: Dated(steps, k) && endUs == steps[k].ts + us
                                   && forall j: nat :: Dated(steps, j) ==>
                                        steps[j].ts / 2000 <= steps[k].ts / 2000
                                        && (steps[j].ts / 2000 == steps[k].ts / 2000 ==> k <= j))
  {
    hide IndexOf, Dated, FirstShift, IsRange;
    var bookmarks;
    bookmarks, shift := BuildBookmarks(steps, layout);
    SlotCount(steps, layout, bookmarks);
    var index := Index(bookmarks, if shift.Known? then shift.us else 0);
    valid, startUs, endUs := GetSeekRange(index, timeShifting);
    SomeSlotValidIff(steps, layout, bookmarks);
    if valid {
      RangeIs(steps, layout, index, timeShifting, startUs, endUs);
    }
  }

  lemma SomeSlotValidIff(steps: seq<RawStep>, layout: Layout, bookmarks: seq<Bookmark>)
    requires IndexOf(steps, layout, bookmarks)
    ensures !NoneValidFrom(bookmarks, 0) <==> exists j: nat :: Dated(steps, j)
  {
    hide IndexOf, KnownAfter, Dated;
    LastSlotValidIff(steps, layout, bookmarks);
    SlotCount(steps, layout, bookmarks);
    if !NoneValidFrom(bookmarks, 0) {
      var i: nat :| i < |bookmarks| && bookmarks[i].timestamp >= 0;
      var k := SlotWord(steps, layout, bookmarks, i);
      DatedIff(steps, k);
    }
    if j: nat :| Dated(steps, j) {
      DatedIff(steps, j);
    }
  }
}
