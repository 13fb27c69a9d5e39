/** The HAL EVT2 encoder: one event at a time, time highs written lazily just before the event that needs them. */
module Evt2HalEncoder {
  import opened MachineInts
  import opened Sequences
  import opened Evt2Words
  import opened Evt2Stream
  import opened Evt2FileEncoder

  const MIN_TIMESTAMP: I64 := -0x8000_0000_0000_0000

  predicate Is64Bit(t: int) { -0x8000_0000_0000_0000 <= t < 0x8000_0000_0000_0000 }

  /** The HAL takes only polarity 1 as ON; the standalone encoder takes everything but 0. */
  function HalEventItem(e: Event): Item {
    match e
    case Cd(e) => CdItem(e.x % 0x800, e.y % 0x800, if e.p == 1 then 1 else 0, e.t % 0x40)
    case Trigger(e) => TriggerItem(e.p % 2, e.id % 0x20, e.t % 0x40)
  }

  datatype HalState = HalState(started: bool, lastTimeHigh: int, lastEvent: int)

  const RESET: HalState := HalState(false, MIN_TIMESTAMP, MIN_TIMESTAMP)

  /** The time highs from `th` up to the 16 us slot of `t`. */
  function TimeHighs(th: int, t: int): seq<Item>
    decreases t - th
  {
    if t < th then [] else [TimeHighItem(th)] + TimeHighs(th + TH_NEXT_STEP, t)
  }

  function Accepts(s: HalState, e: Event): bool { s.lastEvent <= e.Time() }

  function Emit(s: HalState, e: Event): seq<Item> {
    (if s.started then TimeHighs(s.lastTimeHigh + TH_NEXT_STEP, e.Time()) else [TimeHighItem(Floor16(e.Time()))])
    + [HalEventItem(e)]
  }

  function After(s: HalState, e: Event): HalState {
    var slot := Floor16(e.Time());
    HalState(true, if s.started && slot <= s.lastTimeHigh then s.lastTimeHigh else slot, e.Time())
  }

  /** The words for a list of events that are all accepted. */
  function HalItems(s: HalState, events: seq<Event>): seq<Item>
    decreases events
  {
    if events == [] then [] else Emit(s, events[0]) + HalItems(After(s, events[0]), events[1..])
  }

  /** The events that get through: those not earlier than the last one that did. */
  function Accepted(last: int, events: seq<Event>): seq<Event>
    decreases events
  {
    if events == [] then []
    else if events[0].Time() < last then Accepted(last, events[1..])
    else [events[0]] + Accepted(events[0].Time(), events[1..])
  }

  class Evt2Encoder {
    var firstTimehighWritten: bool
    var tsLastTimehigh: int
    var tsLastEv: int
    /** The output stream. */
    var out: seq<Word>

    constructor ()
      ensures Current() == RESET && out == [] && Valid()
    {
      firstTimehighWritten, tsLastTimehigh, tsLastEv, out := false, MIN_TIMESTAMP, MIN_TIMESTAMP, [];
    }

    ghost function Current(): HalState
      reads this
    {
      HalState(firstTimehighWritten, tsLastTimehigh, tsLastEv)
    }

    ghost predicate Valid()
      reads this
    {
      firstTimehighWritten ==> tsLastTimehigh % TH_NEXT_STEP == 0
    }

    method ResetState()
      modifies this
      ensures Current() == RESET && out == old(out) && Valid()
    {
      firstTimehighWritten, tsLastTimehigh, tsLastEv := false, MIN_TIMESTAMP, MIN_TIMESTAMP;
    }

    method WriteTimehigh(th: int)
      modifies `out, `tsLastEv
      ensures ItemsOf(out) == ItemsOf(old(out)) + [TimeHighItem(th)]
      ensures tsLastEv == th
    {
      hide HalTimeHigh, ItemOf;
      HalTimeHighMeans(th);
      ItemsOfConcat(out, [HalTimeHigh(th)]);
      assert ItemsOf([HalTimeHigh(th)]) == [TimeHighItem(th)];
      out := out + [HalTimeHigh(th)];
      tsLastEv := th;
    }

    method UpdateTimehigh(ts: int)
      requires Valid()
      modifies this
      ensures Valid() && firstTimehighWritten
      ensures var s := old(Current());
              && ItemsOf(out) == ItemsOf(old(out)) +
                 (if s.started then TimeHighs(s.lastTimeHigh + TH_NEXT_STEP, ts) else [TimeHighItem(Floor16(ts))])
              && tsLastTimehigh == (if s.started && Floor16(ts) <= s.lastTimeHigh then s.lastTimeHigh else Floor16(ts))
    {
      hide ItemsOf, TimeHighItem, TimeHighs, Floor16;
      Floor16Slot(ts);
      if !firstTimehighWritten {
        firstTimehighWritten := true;
        tsLastTimehigh := ts - ts % 16;
        WriteTimehigh(tsLastTimehigh);
      } else {
        ghost var start, all := ItemsOf(out), TimeHighs(tsLastTimehigh + TH_NEXT_STEP, ts);
        while tsLastTimehigh / 16 < ts / 16
          invariant Valid() && firstTimehighWritten
          invariant old(tsLastTimehigh) <= tsLastTimehigh
          invariant tsLastTimehigh <= Floor16(ts) || tsLastTimehigh == old(tsLastTimehigh)
          invariant ItemsOf(out) + TimeHighs(tsLastTimehigh + TH_NEXT_STEP, ts) == start + all
          decreases ts - tsLastTimehigh
        {
          ghost var done, th := ItemsOf(out), tsLastTimehigh + TH_NEXT_STEP;
          tsLastTimehigh := tsLastTimehigh - tsLastTimehigh % 16 + 16;
          WriteTimehigh(tsLastTimehigh);
          OneMoreHigh(done, th, ts);
        }
        NoMoreHighs(tsLastTimehigh + TH_NEXT_STEP, ts);
      }
    }

    /** Throws, in the source, when the event is too early; nothing has been written then. */
    method EncodeEventCd(ev: CdEvent) returns (ok: bool)
      requires Valid()
      modifies this
      ensures Valid() && ok == Accepts(old(Current()), Cd(ev))
      ensures !ok ==> Current() == old(Current()) && out == old(out)
      ensures ok ==> Current() == After(old(Current()), Cd(ev))
      ensures ok ==> ItemsOf(out) == ItemsOf(old(out)) + Emit(old(Current()), Cd(ev))
    {
      hide ItemsOf, HalCd, TimeHighs, TimeHighItem;
      if ev.t < tsLastEv {
        return false;
      }
      ok := true;
      ghost var s := Current();
      UpdateTimehigh(ev.t);
      HalCdMeans(ev);
      WordAppended(out, HalCd(ev));
      out := out + [HalCd(ev)];
      tsLastEv := ev.t;
    }

    method EncodeEventTrigger(ev: TriggerEvent) returns (ok: bool)
      requires Valid()
      modifies this
      ensures Valid() && ok == Accepts(old(Current()), Trigger(ev))
      ensures !ok ==> Current() == old(Current()) && out == old(out)
      ensures ok ==> Current() == After(old(Current()), Trigger(ev))
      ensures ok ==> ItemsOf(out) == ItemsOf(old(out)) + Emit(old(Current()), Trigger(ev))
    {
      hide ItemsOf, HalTrigger, TimeHighs, TimeHighItem;
      if ev.t < tsLastEv {
        return false;
      }
      ok := true;
      UpdateTimehigh(ev.t);
      HalTriggerMeans(ev);
      WordAppended(out, HalTrigger(ev));
      out := out + [HalTrigger(ev)];
      tsLastEv := ev.t;
    }
  }

  lemma OneMoreHigh(done: seq<Item>, th: int, ts: int)
    requires th <= ts
    ensures (done + [TimeHighItem(th)]) + TimeHighs(th + TH_NEXT_STEP, ts) == done + TimeHighs(th, ts)
  {
  }

  lemma NoMoreHighs(th: int, ts: int)
    requires ts < th
    ensures TimeHighs(th, ts) == []
  {
  }

  lemma WordAppended(out: seq<Word>, w: Word)
    ensures ItemsOf(out + [w]) == ItemsOf(out) + [ItemOf(w)]
  {
  }

  /** Feeding a list of events, in any order, keeps exactly the accepted ones. */
  method EncodeAll(events: seq<Event>) returns (out: seq<Word>)
    requires forall i :: 0 <= i < |events| ==> Is64Bit(events[i].Time())
    ensures ItemsOf(out) == HalItems(RESET, Accepted(MIN_TIMESTAMP, events))
  {
    hide ItemsOf, Emit;
    var encoder := new Evt2Encoder();
    ghost var goal := HalItems(RESET, Accepted(MIN_TIMESTAMP, events));
    EmptyItems();
    var k := 0;
    while k < |events|
      invariant k <= |events| && encoder.Valid()
      invariant ItemsOf(encoder.out) + HalItems(encoder.Current(), Accepted(encoder.tsLastEv, events[k..])) == goal
      decreases |events| - k
    {
      ghost var done, s := ItemsOf(encoder.out), encoder.Current();
      assert events[k..][1..] == events[k + 1..];
      var ok;
      match events[k] {
        case Cd(e) => ok := encoder.EncodeEventCd(e);
        case Trigger(e) => ok := encoder.EncodeEventTrigger(e);
      }
      if ok {
        var rest := Accepted(events[k].Time(), events[k + 1..]);
        assert Accepted(s.lastEvent, events[k..]) == [events[k]] + rest;
        HalItemsCons(s, events[k], rest);
        Assoc(done, Emit(s, events[k]), HalItems(After(s, events[k]), rest));
      }
      k := k + 1;
    }
    out := encoder.out;
  }

  lemma EmptyItems()
    ensures ItemsOf([]) == []
  {
  }

  lemma HalItemsCons(s: HalState, e: Event, rest: seq<Event>)
    ensures HalItems(s, [e] + rest) == Emit(s, e) + HalItems(After(s, e), rest)
  {
  }

  // ----- What gets through -----

  lemma {:induction false} AcceptedIsSorted(last: int, events: seq<Event>)
    ensures Sorted(Accepted(last, events))
    ensures forall i :: 0 <= i < |Accepted(last, events)| ==> last <= Accepted(last, events)[i].Time()
    decreases events
  {
    if events != [] {
      AcceptedIsSorted(if events[0].Time() < last then last else events[0].Time(), events[1..]);
    }
  }

  lemma {:induction false} SortedIsAccepted(last: int, events: seq<Event>)
    requires Sorted(events) && (events != [] ==> last <= events[0].Time())
    ensures Accepted(last, events) == events
    decreases events
  {
    if events != [] {
      SortedIsAccepted(events[0].Time(), events[1..]);
    }
  }

  /** The encoder rejects nothing if and only if the events come in time order. */
  lemma AcceptsAllIff(events: seq<Event>)
    requires forall i :: 0 <= i < |events| ==> Is64Bit(events[i].Time())
    ensures Accepted(MIN_TIMESTAMP, events) == events <==> Sorted(events)
  {
    if Sorted(events) {
      SortedIsAccepted(MIN_TIMESTAMP, events);
    } else {
      AcceptedIsSorted(MIN_TIMESTAMP, events);
    }
  }

  /** Exactly the events that are not earlier than any event before them get through. */
  lemma {:induction false} AcceptedAppend(last: int, events: seq<Event>, e: Event)
    ensures Accepted(last, events + [e]) == Accepted(last, events)
            + if last <= e.Time() && forall i :: 0 <= i < |events| ==> events[i].Time() <= e.Time() then [e] else []
    decreases events
  {
    if events == [] {
      assert ([] + [e])[1..] == [];
    } else {
      assert (events + [e])[1..] == events[1..] + [e];
      AcceptedAppend(if events[0].Time() < last then last else events[0].Time(), events[1..], e);
    }
  }

  // ----- Agreement with the standalone encoder -----

  predicate BinaryPolarity(e: Event) { e.Cd? ==> e.cd.p == 0 || e.cd.p == 1 }

  lemma SlotAgainst(th: int, t: int)
    requires th % TH_NEXT_STEP == 0
    ensures t < th <==> Floor16(t) + TH_NEXT_STEP <= th
    ensures t >= th <==> Floor16(t) >= th
  {
  }

  lemma {:induction false} InterleaveByEvent(th: int, e: Event, rest: seq<Event>)
    requires th % TH_NEXT_STEP == 0
    ensures var next := if Floor16(e.Time()) + TH_NEXT_STEP <= th then th else Floor16(e.Time()) + TH_NEXT_STEP;
            Interleave(th, [e] + rest) == TimeHighs(th, e.Time()) + ([EventItem(e)] + Interleave(next, rest))
    decreases e.Time() - th
  {
    hide EventItem, TimeHighItem, Floor16;
    SlotAgainst(th, e.Time());
    var next := if Floor16(e.Time()) + TH_NEXT_STEP <= th then th else Floor16(e.Time()) + TH_NEXT_STEP;
    assert ([e] + rest)[1..] == rest;
    if e.Time() >= th {
      InterleaveByEvent(th + TH_NEXT_STEP, e, rest);
      Assoc([TimeHighItem(th)], TimeHighs(th + TH_NEXT_STEP, e.Time()), [EventItem(e)] + Interleave(next, rest));
    }
  }

  lemma {:induction false} HalItemsInterleave(s: HalState, events: seq<Event>)
    requires s.started && s.lastTimeHigh % TH_NEXT_STEP == 0
    requires forall i :: 0 <= i < |events| ==> BinaryPolarity(events[i])
    ensures HalItems(s, events) == Interleave(s.lastTimeHigh + TH_NEXT_STEP, events)
    decreases events
  {
    hide Interleave, EventItem, HalEventItem, TimeHighs, BinaryPolarity, Floor16;
    if events == [] {
      EmptyInterleave(s.lastTimeHigh + TH_NEXT_STEP);
    } else {
      var e, rest := events[0], events[1..];
      assert events == [e] + rest;
      Floor16Slot(e.Time());
      InterleaveByEvent(s.lastTimeHigh + TH_NEXT_STEP, e, rest);
      HalItemsInterleave(After(s, e), rest);
      SameItem(e);
      Assoc(TimeHighs(s.lastTimeHigh + TH_NEXT_STEP, e.Time()), [EventItem(e)],
            Interleave(After(s, e).lastTimeHigh + TH_NEXT_STEP, rest));
    }
  }

  lemma SameItem(e: Event)
    ensures HalEventItem(e) == EventItem(e) <==> BinaryPolarity(e)
  {
  }

  lemma EmptyInterleave(th: int)
    ensures Interleave(th, []) == []
  {
  }

  lemma {:induction false} NonTimeConcat(a: seq<Item>, b: seq<Item>)
    ensures NonTime(a + b) == NonTime(a) + NonTime(b)
  {
    if a == [] {
      assert a + b == b;
    } else {
      assert (a + b)[1..] == a[1..] + b;
      NonTimeConcat(a[1..], b);
    }
  }

  lemma {:induction false} TimeHighsAreTime(th: int, t: int)
    ensures NonTime(TimeHighs(th, t)) == []
    decreases t - th
  {
    if th <= t {
      TimeHighsAreTime(th + TH_NEXT_STEP, t);
      assert TimeHighs(th, t)[1..] == TimeHighs(th + TH_NEXT_STEP, t);
    }
  }

  lemma EmitKeepsEvent(s: HalState, e: Event)
    ensures NonTime(Emit(s, e)) == [HalEventItem(e)]
  {
    hide HalEventItem;
    var highs :=
      if s.started then TimeHighs(s.lastTimeHigh + TH_NEXT_STEP, e.Time()) else [TimeHighItem(Floor16(e.Time()))];
    NonTimeConcat(highs, [HalEventItem(e)]);
    TimeHighsAreTime(s.lastTimeHigh + TH_NEXT_STEP, e.Time());
    assert !HalEventItem(e).TimeItem? by { NeverTime(e); }
    assert NonTime([TimeHighItem(Floor16(e.Time()))]) == [];
    assert NonTime([HalEventItem(e)]) == [HalEventItem(e)];
  }

  lemma NeverTime(e: Event)
    ensures !HalEventItem(e).TimeItem?
  {
  }

  lemma {:induction false} HalItemsKeepEvents(s: HalState, events: seq<Event>)
    ensures |NonTime(HalItems(s, events))| == |events|
    ensures forall i :: 0 <= i < |events| ==> NonTime(HalItems(s, events))[i] == HalEventItem(events[i])
    decreases events
  {
    hide HalEventItem, Emit, NonTime;
    if events == [] {
      assert NonTime([]) == [] by { EmptyNonTime(); }
    } else {
      var rest := HalItems(After(s, events[0]), events[1..]);
      EmitKeepsEvent(s, events[0]);
      NonTimeConcat(Emit(s, events[0]), rest);
      HalItemsKeepEvents(After(s, events[0]), events[1..]);
    }
  }

  lemma EmptyNonTime()
    ensures NonTime([]) == []
  {
  }

  /** The standalone encoder starts its clock at the first CD event; without one it starts at 0. */
  predicate ClockStartsAtFirstEvent(cds: seq<CdEvent>, triggers: seq<TriggerEvent>) {
    cds != [] || (triggers != [] && triggers[0].t < TH_NEXT_STEP)
  }

  lemma FirstTimeSlot(cds: seq<CdEvent>, triggers: seq<TriggerEvent>)
    requires ClockStartsAtFirstEvent(cds, triggers)
    requires cds == [] ==> triggers[0].t >= 0
    ensures Floor16(FirstTime(cds, triggers)) == Floor16(Merge(cds, triggers)[0].Time())
  {
  }

  lemma FirstEventWritten(th: int, e: Event, rest: seq<Event>)
    requires e.Time() < th
    ensures Interleave(th, [e] + rest) == [EventItem(e)] + Interleave(th, rest)
  {
  }

  /** Lazily written time highs are those of a clock that starts in the first event's slot. */
  lemma {:induction false} HalItemsFromFirst(events: seq<Event>)
    requires events != [] && forall i :: 0 <= i < |events| ==> BinaryPolarity(events[i])
    ensures var th := Floor16(events[0].Time());
            HalItems(RESET, events) == [TimeHighItem(th)] + Interleave(th + TH_NEXT_STEP, events)
  {
    hide HalItems, Interleave, EventItem, HalEventItem, TimeHighItem, Floor16, BinaryPolarity;
    var e, rest, th := events[0], events[1..], Floor16(events[0].Time());
    Floor16Slot(e.Time());
    assert events == [e] + rest;
    HalItemsCons(RESET, e, rest);
    FirstEventWritten(th + TH_NEXT_STEP, e, rest);
    HalItemsInterleave(After(RESET, e), rest);
    SameItem(e);
    Assoc([TimeHighItem(th)], [EventItem(e)], Interleave(th + TH_NEXT_STEP, rest));
  }

  /** A CD event with the polarity that the HAL writes. */
  function Binary(e: CdEvent): CdEvent { e.(p := if e.p == 1 then 1 else 0) }

  function BinaryCds(cds: seq<CdEvent>): (r: seq<CdEvent>)
    ensures |r| == |cds|
    ensures forall i :: 0 <= i < |r| ==> r[i] == Binary(cds[i])
  {
    if cds == [] then [] else [Binary(cds[0])] + BinaryCds(cds[1..])
  }

  function BinaryEvent(e: Event): Event {
    match e case Cd(cd) => Cd(Binary(cd)) case Trigger(_) => e
  }

  function BinaryEvents(events: seq<Event>): (r: seq<Event>)
    ensures |r| == |events|
    ensures forall i :: 0 <= i < |r| ==> r[i] == BinaryEvent(events[i]) && r[i].Time() == events[i].Time()
    ensures forall i :: 0 <= i < |r| ==> BinaryPolarity(r[i])
  {
    if events == [] then [] else [BinaryEvent(events[0])] + BinaryEvents(events[1..])
  }

  /** The HAL writes the same words for any polarity as for the binary one it takes it for. */
  lemma {:induction false} HalItemsBinary(s: HalState, events: seq<Event>)
    ensures HalItems(s, events) == HalItems(s, BinaryEvents(events))
    decreases events
  {
    hide TimeHighs, TimeHighItem, Floor16;
    if events != [] {
      HalItemsBinary(After(s, events[0]), events[1..]);
      HalItemsCons(s, BinaryEvent(events[0]), BinaryEvents(events[1..]));
    }
  }

  lemma {:induction false} BinaryParts(events: seq<Event>)
    ensures CdsOf(BinaryEvents(events)) == BinaryCds(CdsOf(events))
    ensures TriggersOf(BinaryEvents(events)) == TriggersOf(events)
  {
    hide CdsOf, TriggersOf, Binary, BinaryCds;
    if events == [] {
      NoEvents();
      NoBinaryCds();
    } else {
      var e, rest := events[0], events[1..];
      assert events == [e] + rest;
      BinaryParts(rest);
      HeadOf(e, rest);
      HeadOf(BinaryEvent(e), BinaryEvents(rest));
      if e.Cd? { BinaryCons(e.cd, CdsOf(rest)); }
    }
  }

  lemma BinaryCons(e: CdEvent, rest: seq<CdEvent>)
    ensures BinaryCds([e] + rest) == [Binary(e)] + BinaryCds(rest)
  {
    assert ([e] + rest)[1..] == rest;
  }

  lemma NoBinaryCds()
    ensures BinaryCds([]) == []
  {
  }

  /** With polarities 0 or 1 and the same clock start, the two encoders write the same words. */
  lemma SameWords(cds: seq<CdEvent>, triggers: seq<TriggerEvent>)
    requires ClockStartsAtFirstEvent(cds, triggers)
    requires cds == [] ==> triggers[0].t >= 0
    requires forall i :: 0 <= i < |Merge(cds, triggers)| ==> BinaryPolarity(Merge(cds, triggers)[i])
    ensures HalItems(RESET, Merge(cds, triggers)) == FileItems(cds, triggers)
  {
    FirstTimeSlot(cds, triggers);
    hide Merge, Interleave, TimeHighItem, Floor16, BinaryPolarity, FirstTime, HalItems;
    HalItemsFromFirst(Merge(cds, triggers));
  }

  /** With no CD event and a first trigger at 16 us or later, the standalone encoder writes an extra time high. */
  lemma {:induction false} ExtraTimeHigh(triggers: seq<TriggerEvent>)
    requires triggers != [] && triggers[0].t >= TH_NEXT_STEP
    ensures HalItems(RESET, Merge([], triggers)) != FileItems([], triggers)
  {
    var m := Merge([], triggers);
    assert m[0] == Trigger(triggers[0]);
    assert FileItems([], triggers)[1] == TimeHighItem(TH_NEXT_STEP);
    assert HalItems(RESET, m)[1] == HalEventItem(m[0]);
    NeverTime(m[0]);
  }

  lemma {:induction false} MergeContainsCds(cds: seq<CdEvent>, triggers: seq<TriggerEvent>, k: nat)
    requires k < |cds|
    ensures Cd(cds[k]) in Merge(cds, triggers)
    decreases |cds| + |triggers|
  {
    if triggers != [] && triggers[0].t < cds[0].t {
      MergeContainsCds(cds, triggers[1..], k);
      assert Merge(cds, triggers)[1..] == Merge(cds, triggers[1..]);
    } else if k > 0 {
      MergeContainsCds(cds[1..], triggers, k - 1);
      assert Merge(cds, triggers)[1..] == Merge(cds[1..], triggers);
    }
  }

  lemma {:induction false} MergeCdFrom(cds: seq<CdEvent>, triggers: seq<TriggerEvent>, k: nat)
    requires k < |Merge(cds, triggers)| && Merge(cds, triggers)[k].Cd?
    ensures Merge(cds, triggers)[k].cd in cds
    decreases |cds| + |triggers|
  {
    if cds == [] || (triggers != [] && triggers[0].t < cds[0].t) {
      MergeCdFrom(cds, triggers[1..], k - 1);
    } else if k > 0 {
      MergeCdFrom(cds[1..], triggers, k - 1);
    }
  }

  predicate BinaryPolarities(cds: seq<CdEvent>) {
    forall i :: 0 <= i < |cds| ==> cds[i].p == 0 || cds[i].p == 1
  }

  /**
   The two EVT2 encoders agree. Feeding the time-ordered merge of two lists to the HAL encoder gives the word
   sequence of the standalone two-input loop, field for field, if and only if every CD polarity is 0 or 1 and
   the standalone clock starts at the first event.
   */
  lemma EncodersAgreeIff(cds: seq<CdEvent>, triggers: seq<TriggerEvent>)
    requires cds != [] || triggers != []
    requires CdsSorted(cds) && TriggersSorted(triggers)
    requires cds == [] ==> triggers[0].t >= 0
    ensures HalItems(RESET, Merge(cds, triggers)) == FileItems(cds, triggers)
       <==> BinaryPolarities(cds) && ClockStartsAtFirstEvent(cds, triggers)
  {
    hide HalItems, FileItems, Merge, EventItem, HalEventItem, NonTime, FirstTime;
    var m := Merge(cds, triggers);
    if !ClockStartsAtFirstEvent(cds, triggers) {
      ExtraTimeHigh(triggers);
    } else if BinaryPolarities(cds) {
      forall k | 0 <= k < |m| ensures BinaryPolarity(m[k]) {
        if m[k].Cd? { MergeCdFrom(cds, triggers, k); }
      }
      SameWords(cds, triggers);
    } else {
      var k :| 0 <= k < |cds| && !(cds[k].p == 0 || cds[k].p == 1);
      MergeContainsCds(cds, triggers, k);
      var j :| 0 <= j < |m| && m[j] == Cd(cds[k]);
      SameItem(m[j]);
      HalItemsKeepEvents(RESET, m);
      FileItemsConserve(cds, triggers);
      assert EventItems(m)[j] == EventItem(m[j]);
    }
  }

  /** Both encoders on the same two lists, the HAL one fed with their merge. */
  method EncodeBothWays(cds: seq<CdEvent>, triggers: seq<TriggerEvent>)
    returns (standalone: seq<Word>, hal: seq<Word>)
    requires cds != [] || triggers != []
    requires InputsEncodable(cds, triggers) && CdsSorted(cds) && TriggersSorted(triggers)
    requires forall i :: 0 <= i < |Merge(cds, triggers)| ==> Is64Bit(Merge(cds, triggers)[i].Time())
    ensures ItemsOf(hal) == ItemsOf(standalone)
       <==> BinaryPolarities(cds) && ClockStartsAtFirstEvent(cds, triggers)
  {
    hide ItemsOf, HalItems, FileItems, Accepted, BinaryPolarities, ClockStartsAtFirstEvent;
    var ok;
    ok, standalone := EncodeFile(cds, triggers);
    hal := EncodeAll(Merge(cds, triggers));
    MergeSorted(cds, triggers);
    SortedIsAccepted(MIN_TIMESTAMP, Merge(cds, triggers));
    EncodersAgreeIff(cds, triggers);
  }
}
