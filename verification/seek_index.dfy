/**
 The seek index of a RAW file: one bookmark slot per 2000 us, built in one pass over the decoded words and used
 as a direct-address table.
 */
module SeekIndex {
  import opened MachineInts

  const PERIOD_US: nat := 2000

  datatype Shift = Unknown | Known(us: int)

  /**
   What the builder sees after one raw event was decoded: whether the decoder knows its timestamp shift, its last
   timestamp (-1 until a valid one was decoded) and how many CD events it handed to the callback.
   */
  datatype RawStep = RawStep(shift: Shift, ts: Timestamp, cds: nat)

  /** A shifted timestamp, or the decoder's default -1. */
  type Timestamp = t: int | t >= -1 witness 0

  const NO_TIMESTAMP: Timestamp := -1

  datatype Bookmark = Bookmark(byteOffset: nat, timestamp: int, cdEventCount: U32)

  // ----- What the index should hold -----

  /** The shift is known after the first `n` words. */
  predicate KnownAfter(steps: seq<RawStep>, n: nat)
    requires n <= |steps|
  {
    n > 0 && (steps[n - 1].shift.Known? || KnownAfter(steps, n - 1))
  }

  lemma {:induction false} KnownAfterIff(steps: seq<RawStep>, n: nat)
    requires n <= |steps|
    ensures KnownAfter(steps, n) <==> exists i :: 0 <= i < n && steps[i].shift.Known?
  {
    if n > 0 { KnownAfterIff(steps, n - 1); }
  }

  /** The shift that the decoder knew first, among the first `n` words. */
  ghost predicate FirstShift(steps: seq<RawStep>, n: nat, shift: Shift)
    requires n <= |steps|
  {
    if shift.Unknown? then forall k :: 0 <= k < n ==> steps[k].shift.Unknown?
    else exists k :: 0 <= k < n && steps[k].shift == shift && forall j :: 0 <= j < k ==> steps[j].shift.Unknown?
  }

  /** Words decoded before the shift is known are not indexed. */
  predicate Indexed(steps: seq<RawStep>, k: nat) {
    k < |steps| && KnownAfter(steps, k + 1)
  }

  /** The slot after the period of a timestamp; 0 for no timestamp. */
  function Slot(ts: Timestamp): nat {
    if ts < 0 then 0 else ts / PERIOD_US + 1
  }

  /** The largest slot of the indexed words among the first `n`. */
  function RunningMax(steps: seq<RawStep>, n: nat): nat
    requires n <= |steps|
  {
    if n == 0 then 0
    else
      var before := RunningMax(steps, n - 1);
      if Indexed(steps, n - 1) && Slot(steps[n - 1].ts) > before then Slot(steps[n - 1].ts) else before
  }

  /** Word `k` enters a period later than all indexed words before it. */
  predicate IsCrossing(steps: seq<RawStep>, k: nat) {
    Indexed(steps, k) && Slot(steps[k].ts) > RunningMax(steps, k)
  }

  function TotalCds(steps: seq<RawStep>, n: nat): nat
    requires n <= |steps|
  {
    if n == 0 then 0 else TotalCds(steps, n - 1) + steps[n - 1].cds
  }

  function SumCounts(bookmarks: seq<Bookmark>, n: nat): nat
    requires n <= |bookmarks|
  {
    if n == 0 then 0 else SumCounts(bookmarks, n - 1) + bookmarks[n - 1].cdEventCount
  }

  /** The CD events of the words after the latest crossing among the first `n`. */
  function Since(steps: seq<RawStep>, n: nat): nat
    requires n <= |steps|
  {
    if n == 0 then 0 else (if IsCrossing(steps, n - 1) then 0 else Since(steps, n - 1) + steps[n - 1].cds)
  }

  /** The CD events from the crossing before word `k`, exclusive, up to word `k`. */
  function Stretch(steps: seq<RawStep>, k: nat): nat
    requires k < |steps|
  {
    Since(steps, k) + steps[k].cds
  }

  /** The stretches up to the crossings among the first `n` words, each as a 32-bit counter holds it. */
  function Counted(steps: seq<RawStep>, n: nat): nat
    requires n <= |steps|
  {
    if n == 0 then 0
    else Counted(steps, n - 1) + if IsCrossing(steps, n - 1) then ToU32(Stretch(steps, n - 1)) else 0
  }

  /** No stretch up to a crossing among the first `n` words overflows the counter. */
  predicate StretchesFit(steps: seq<RawStep>, n: nat)
    requires n <= |steps|
  {
    forall k :: 0 <= k < n && IsCrossing(steps, k) ==> Stretch(steps, k) < TWO32
  }

  /** Where the raw events of a file lie. */
  datatype Layout = Layout(start: nat, eventSize: nat) {
    function Offset(k: nat): nat { start + k * eventSize }
  }

  /** Word `k` is the latest crossing among the first `n` words into a slot up to `i`; -1 if there is none. */
  ghost predicate LatestCrossing(steps: seq<RawStep>, n: nat, i: nat, k: int) {
    && (k == -1 || (0 <= k < n && IsCrossing(steps, k) && Slot(steps[k].ts) <= i))
    && (forall j: nat :: j < n && IsCrossing(steps, j) && Slot(steps[j].ts) <= i ==> j <= k)
  }

  /** A bookmark to word `k`, or to the start of the data with no timestamp. */
  predicate PointsAt(steps: seq<RawStep>, layout: Layout, timestamp: int, byteOffset: nat, k: int)
    requires -1 <= k < |steps|
  {
    if k == -1 then timestamp == NO_TIMESTAMP && byteOffset == layout.Offset(0)
    else timestamp == steps[k].ts && byteOffset == layout.Offset(k)
  }

  /**
   Slot `i` belongs to word `k`: it points there, and the counts of the slots up to it add up to the stretches of CD
   events that end at a crossing up to that word.
   */
  ghost predicate BelongsTo(steps: seq<RawStep>, layout: Layout, bookmarks: seq<Bookmark>, n: nat, i: nat, k: int)
    requires i < |bookmarks| && n <= |steps|
  {
    && LatestCrossing(steps, n, i, k)
    && PointsAt(steps, layout, bookmarks[i].timestamp, bookmarks[i].byteOffset, k)
    && SumCounts(bookmarks, i + 1) == Counted(steps, k + 1)
  }

  ghost predicate SlotRight(steps: seq<RawStep>, layout: Layout, bookmarks: seq<Bookmark>, i: nat)
    requires i < |bookmarks|
  {
    exists k :: BelongsTo(steps, layout, bookmarks, |steps|, i, k)
  }

  /** The index a linear scan of the file would give. */
  ghost predicate IndexOf(steps: seq<RawStep>, layout: Layout, bookmarks: seq<Bookmark>) {
    && |bookmarks| == RunningMax(steps, |steps|) + 1
    && forall i :: 0 <= i < |bookmarks| ==> SlotRight(steps, layout, bookmarks, i)
  }

  // ----- Facts about the scan -----

  lemma {:induction false} RunningMaxBounds(steps: seq<RawStep>, j: nat, n: nat)
    requires j < n <= |steps| && Indexed(steps, j)
    ensures Slot(steps[j].ts) <= RunningMax(steps, n)
    decreases n
  {
    hide Slot, KnownAfter;
    if j < n - 1 { RunningMaxBounds(steps, j, n - 1); }
  }

  /** The running maximum is the slot of some crossing. */
  lemma {:induction false} RunningMaxAttained(steps: seq<RawStep>, n: nat) returns (k: nat)
    requires n <= |steps| && RunningMax(steps, n) > 0
    ensures k < n && IsCrossing(steps, k) && Slot(steps[k].ts) == RunningMax(steps, n)
    decreases n
  {
    hide Slot, KnownAfter;
    if RunningMax(steps, n) > RunningMax(steps, n - 1) {
      k := n - 1;
    } else {
      k := RunningMaxAttained(steps, n - 1);
    }
  }

  lemma {:induction false} SumCountsPrefix(a: seq<Bookmark>, b: seq<Bookmark>, n: nat)
    requires n <= |a|
    ensures SumCounts(a + b, n) == SumCounts(a, n)
  {
    if n > 0 { SumCountsPrefix(a, b, n - 1); }
  }

  // ----- Building -----

  function Repeat(b: Bookmark, n: nat): (r: seq<Bookmark>)
    ensures |r| == n && forall i :: 0 <= i < n ==> r[i] == b
  {
    seq(n, _ => b)
  }

  /** Fills the slots up to `bookmarkIndex` with one bookmark; only the first of them gets its count. */
  method AddBookmarks(lastBookmarkIndex: nat, bookmarkIndex: nat, bookmark: Bookmark, bookmarks: seq<Bookmark>)
    returns (bookmarks': seq<Bookmark>, bookmark': Bookmark)
    requires lastBookmarkIndex < bookmarkIndex
    ensures bookmarks' == bookmarks + [bookmark]
                        + Repeat(bookmark.(cdEventCount := 0), bookmarkIndex - lastBookmarkIndex - 1)
    ensures bookmark' == bookmark.(cdEventCount := 0)
  {
    bookmarks', bookmark' := bookmarks, bookmark;
    var last := lastBookmarkIndex;
    while last < bookmarkIndex
      invariant lastBookmarkIndex <= last <= bookmarkIndex
      invariant bookmark' == if last == lastBookmarkIndex then bookmark else bookmark.(cdEventCount := 0)
      invariant last == lastBookmarkIndex ==> bookmarks' == bookmarks
      invariant last > lastBookmarkIndex ==>
        bookmarks' == bookmarks + [bookmark] + Repeat(bookmark.(cdEventCount := 0), last - lastBookmarkIndex - 1)
    {
      bookmarks' := bookmarks' + [bookmark'];
      bookmark' := bookmark'.(cdEventCount := 0);
      last := last + 1;
    }
  }

  lemma NoCrossing(steps: seq<RawStep>, n: nat, i: nat, k: int)
    requires n < |steps| && LatestCrossing(steps, n, i, k)
    requires IsCrossing(steps, n) ==> Slot(steps[n].ts) > i
    ensures LatestCrossing(steps, n + 1, i, k)
  {
  }

  lemma LatestOfAll(steps: seq<RawStep>, n: nat, c: int, i: nat)
    requires n <= |steps| && LatestCrossing(steps, n, RunningMax(steps, n), c) && RunningMax(steps, n) <= i
    ensures LatestCrossing(steps, n, i, c)
  {
  }

  lemma NewCrossing(steps: seq<RawStep>, n: nat)
    requires n < |steps| && IsCrossing(steps, n)
    ensures LatestCrossing(steps, n + 1, RunningMax(steps, n + 1), n)
  {
  }

  lemma {:induction false} ZeroCounts(bookmarks: seq<Bookmark>, from: nat, n: nat)
    requires from <= n <= |bookmarks|
    requires forall i :: from <= i < n ==> bookmarks[i].cdEventCount == 0
    ensures SumCounts(bookmarks, n) == SumCounts(bookmarks, from)
    decreases n
  {
    if from < n { ZeroCounts(bookmarks, from, n - 1); }
  }

  /** The slots filled so far, each with the word it belongs to. */
  ghost predicate Filled(steps: seq<RawStep>, layout: Layout, bookmarks: seq<Bookmark>, n: nat, at: seq<int>)
    requires n <= |steps|
  {
    |at| == |bookmarks| && forall i :: 0 <= i < |at| ==> BelongsTo(steps, layout, bookmarks, n, i, at[i])
  }

  /** One more word that is no crossing into an old slot leaves the old slots right. */
  lemma FilledLater(steps: seq<RawStep>, layout: Layout, bookmarks: seq<Bookmark>, n: nat, at: seq<int>)
    requires n < |steps| && Filled(steps, layout, bookmarks, n, at)
    requires IsCrossing(steps, n) ==> Slot(steps[n].ts) >= |bookmarks|
    ensures Filled(steps, layout, bookmarks, n + 1, at)
  {
    hide Slot, IsCrossing, LatestCrossing, PointsAt, SumCounts, Counted;
    forall i | 0 <= i < |at| ensures BelongsTo(steps, layout, bookmarks, n + 1, i, at[i]) {
      NoCrossing(steps, n, i, at[i]);
    }
  }

  /** Filling slots with the last crossing. */
  lemma FilledMore(steps: seq<RawStep>, layout: Layout, bookmarks: seq<Bookmark>, n: nat, at: seq<int>,
                   b: Bookmark, c: int, more: nat)
    requires n <= |steps| && Filled(steps, layout, bookmarks, n, at)
    requires |bookmarks| == RunningMax(steps, n) && LatestCrossing(steps, n, RunningMax(steps, n), c)
    requires -1 <= c < |steps| && PointsAt(steps, layout, b.timestamp, b.byteOffset, c)
    requires SumCounts(bookmarks, |bookmarks|) + b.cdEventCount == Counted(steps, c + 1)
    ensures var all := bookmarks + [b] + Repeat(b.(cdEventCount := 0), more);
            && Filled(steps, layout, all, n, at + [c] + seq(more, _ => c))
            && SumCounts(all, |all|) == SumCounts(bookmarks, |bookmarks|) + b.cdEventCount
  {
    hide Slot, IsCrossing, LatestCrossing, PointsAt, Counted, RunningMax;
    var all, at' := bookmarks + [b] + Repeat(b.(cdEventCount := 0), more), at + [c] + seq(more, _ => c);
    assert all == bookmarks + ([b] + Repeat(b.(cdEventCount := 0), more));
    SumCountsPrefix(bookmarks, [b] + Repeat(b.(cdEventCount := 0), more), |bookmarks|);
    forall i | 0 <= i < |at'| ensures BelongsTo(steps, layout, all, n, i, at'[i]) {
      if i < |bookmarks| {
        SumCountsPrefix(bookmarks, [b] + Repeat(b.(cdEventCount := 0), more), i + 1);
        assert BelongsTo(steps, layout, bookmarks, n, i, at[i]);
      } else {
        LatestOfAll(steps, n, c, i);
        ZeroCounts(all, |bookmarks| + 1, i + 1);
      }
    }
    ZeroCounts(all, |bookmarks| + 1, |all|);
  }

  /** `new_ts / bookmark_period_us + 1`, with the division of C++, which truncates towards zero. */
  function BookmarkIndex(ts: Timestamp): nat {
    (if ts >= 0 then ts / PERIOD_US else -(-ts / PERIOD_US)) + 1
  }

  lemma OneWord(steps: seq<RawStep>, n: nat, prevTs: Timestamp)
    requires n < |steps| && Slot(prevTs) <= RunningMax(steps, n) && (RunningMax(steps, n) == 0 ==> prevTs == -1)
    ensures KnownAfter(steps, n + 1) == (KnownAfter(steps, n) || steps[n].shift.Known?)
    ensures var ts := steps[n].ts;
            var enters := KnownAfter(steps, n + 1) && prevTs != ts && BookmarkIndex(ts) > RunningMax(steps, n);
            && (IsCrossing(steps, n) <==> enters)
            && RunningMax(steps, n + 1) == (if enters then BookmarkIndex(ts) else RunningMax(steps, n))
            && (enters ==> BookmarkIndex(ts) == Slot(ts))
            && (KnownAfter(steps, n + 1) ==> Slot(ts) <= RunningMax(steps, n + 1)
                                             && (RunningMax(steps, n + 1) == 0 ==> ts == -1))
  {
  }

  /** One more word: the running 32-bit count is that of the stretch so far, whether or not a crossing ends it. */
  lemma CountMore(steps: seq<RawStep>, n: nat)
    requires n < |steps|
    ensures ToU32(ToU32(Since(steps, n)) + steps[n].cds) == ToU32(Stretch(steps, n))
    ensures if IsCrossing(steps, n)
            then Since(steps, n + 1) == 0 && Counted(steps, n + 1) == Counted(steps, n) + ToU32(Stretch(steps, n))
            else Since(steps, n + 1) == Stretch(steps, n) && Counted(steps, n + 1) == Counted(steps, n)
  {
    hide IsCrossing;
  }

  /**
   Every CD event lies in one stretch, so the counted events are the true number if and only if no stretch overflows
   the 32-bit counter. They are right modulo 2^32 and never too large in any case.
   */
  lemma {:induction false} CountedExactIff(steps: seq<RawStep>, n: nat)
    requires n <= |steps|
    ensures Counted(steps, n) <= TotalCds(steps, n) - Since(steps, n)
    ensures ToU32(Counted(steps, n)) == ToU32(TotalCds(steps, n) - Since(steps, n))
    ensures Counted(steps, n) == TotalCds(steps, n) - Since(steps, n) <==> StretchesFit(steps, n)
  {
    hide IsCrossing, ToU32;
    if n > 0 {
      CountedExactIff(steps, n - 1);
      Truncated(Counted(steps, n - 1), TotalCds(steps, n - 1) - Since(steps, n - 1), Stretch(steps, n - 1));
    }
  }

  /** Adding a truncated number to one side and the number itself to the other. */
  lemma Truncated(a: nat, b: nat, x: nat)
    ensures ToU32(x) <= x && (ToU32(x) == x <==> x < TWO32)
    ensures ToU32(a) == ToU32(b) ==> ToU32(a + ToU32(x)) == ToU32(b + x)
  {
  }

  lemma ShiftMore(steps: seq<RawStep>, n: nat, shift: Shift)
    requires n < |steps| && FirstShift(steps, n, shift)
    ensures FirstShift(steps, n + 1, if shift.Unknown? then steps[n].shift else shift)
  {
    if shift.Known? {
      var k :| 0 <= k < n && steps[k].shift == shift && forall j :: 0 <= j < k ==> steps[j].shift.Unknown?;
      assert k < n + 1;
    }
  }

  lemma NextOffset(layout: Layout, n: nat)
    ensures layout.Offset(0) == layout.start && layout.Offset(n + 1) == layout.Offset(n) + layout.eventSize
  {
  }

  lemma Start(steps: seq<RawStep>, layout: Layout)
    ensures LatestCrossing(steps, 0, 0, -1) && Slot(-1) == 0 && ToU32(0) == 0
    ensures Counted(steps, 0) == SumCounts([], 0) == Since(steps, 0) == 0
    ensures RunningMax(steps, 0) == 0 && !KnownAfter(steps, 0) && FirstShift(steps, 0, Unknown)
    ensures PointsAt(steps, layout, NO_TIMESTAMP, layout.Offset(0), -1) && Filled(steps, layout, [], 0, [])
  {
  }

  lemma AtWord(steps: seq<RawStep>, layout: Layout, n: nat)
    requires n < |steps|
    ensures PointsAt(steps, layout, steps[n].ts, layout.Offset(n), n)
  {
  }

  lemma FilledIsIndex(steps: seq<RawStep>, layout: Layout, bookmarks: seq<Bookmark>, at: seq<int>)
    requires Filled(steps, layout, bookmarks, |steps|, at) && |bookmarks| == RunningMax(steps, |steps|) + 1
    ensures IndexOf(steps, layout, bookmarks)
  {
    hide BelongsTo, RunningMax;
    forall i | 0 <= i < |bookmarks| ensures SlotRight(steps, layout, bookmarks, i) {
      assert BelongsTo(steps, layout, bookmarks, |steps|, i, at[i]);
    }
  }

  /**
   One pass over the decoded words of a file. Whatever the timestamps do, the slots are those of the linear scan.
   */
  method BuildBookmarks(steps: seq<RawStep>, layout: Layout) returns (bookmarks: seq<Bookmark>, shift: Shift)
    ensures IndexOf(steps, layout, bookmarks)
    ensures FirstShift(steps, |steps|, shift)
  {
    hide IsCrossing, LatestCrossing, PointsAt, SumCounts, Counted, Since, Stretch, Filled, Slot, BookmarkIndex;
    hide RunningMax, KnownAfter, IndexOf, ToU32, Repeat, FirstShift;
    bookmarks, shift := [], Unknown;
    var bookmark := Bookmark(0, 0, 0);
    var prevTs: int, lastTs: int := NO_TIMESTAMP, NO_TIMESTAMP;
    var tsShiftComputed := false;
    var lastBookmarkIndex, currentByteOffset := 0, layout.start;
    var lastByteOffset: nat, lastEventCount: U32 := currentByteOffset, 0;
    ghost var at: seq<int>, c: int := [], -1;
    Start(steps, layout);
    NextOffset(layout, 0);
    var n := 0;
    while n < |steps|
      invariant n <= |steps| && currentByteOffset == layout.Offset(n)
      invariant tsShiftComputed == KnownAfter(steps, n) == shift.Known? && FirstShift(steps, n, shift)
      invariant |bookmarks| == lastBookmarkIndex == RunningMax(steps, n)
      invariant prevTs >= -1 && Slot(prevTs) <= lastBookmarkIndex && (lastBookmarkIndex == 0 ==> prevTs == -1)
      invariant -1 <= c < n && LatestCrossing(steps, n, RunningMax(steps, n), c)
      invariant PointsAt(steps, layout, lastTs, lastByteOffset, c)
      invariant Filled(steps, layout, bookmarks, n, at)
      invariant SumCounts(bookmarks, |bookmarks|) + lastEventCount == Counted(steps, n) == Counted(steps, c + 1)
      invariant bookmark.cdEventCount == ToU32(Since(steps, n))
    {
      bookmark := bookmark.(cdEventCount := ToU32(bookmark.cdEventCount + steps[n].cds));
      CountMore(steps, n);
      ShiftMore(steps, n, shift);
      if !tsShiftComputed && steps[n].shift.Known? {
        shift := steps[n].shift;
        tsShiftComputed := true;
      }
      var newTs := steps[n].ts;
      OneWord(steps, n, prevTs);
      NextOffset(layout, n);
      if tsShiftComputed && prevTs != newTs {
        prevTs := newTs;
        var bookmarkIndex := BookmarkIndex(newTs);
        if bookmarkIndex > lastBookmarkIndex {
          var eventCount := bookmark.cdEventCount;
          bookmark := Bookmark(lastByteOffset, lastTs, lastEventCount);
          FilledMore(steps, layout, bookmarks, n, at, bookmark, c, bookmarkIndex - lastBookmarkIndex - 1);
          at := at + [c] + seq(bookmarkIndex - lastBookmarkIndex - 1, _ => c);
          bookmarks, bookmark := AddBookmarks(lastBookmarkIndex, bookmarkIndex, bookmark, bookmarks);
          FilledLater(steps, layout, bookmarks, n, at);
          NewCrossing(steps, n);
          AtWord(steps, layout, n);
          lastByteOffset := currentByteOffset;
          lastTs := newTs;
          lastEventCount := eventCount;
          lastBookmarkIndex := bookmarkIndex;
          c := n;
        } else {
          FilledLater(steps, layout, bookmarks, n, at);
          NoCrossing(steps, n, lastBookmarkIndex, c);
        }
      } else {
        FilledLater(steps, layout, bookmarks, n, at);
        NoCrossing(steps, n, lastBookmarkIndex, c);
      }
      currentByteOffset := currentByteOffset + layout.eventSize;
      n := n + 1;
    }
    bookmark := Bookmark(lastByteOffset, lastTs, lastEventCount);
    FilledMore(steps, layout, bookmarks, n, at, bookmark, c, 0);
    at := at + [c] + seq(0, _ => c);
    bookmarks, bookmark := AddBookmarks(lastBookmarkIndex, lastBookmarkIndex + 1, bookmark, bookmarks);
    FilledIsIndex(steps, layout, bookmarks, at);
  }
}
