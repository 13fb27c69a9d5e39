/**
 The meaning of an EVT2 file, independent of how it is written: the ordered merge of two event lists with a
 redundant time-high word every 16 us.
 */
module Evt2Stream {
  import opened MachineInts
  import opened Evt2Words

  datatype Event = Cd(cd: CdEvent) | Trigger(trigger: TriggerEvent) {
    function Time(): int {
      match this case Cd(e) => e.t case Trigger(e) => e.t
    }
  }

  const TH_NEXT_STEP: nat := 16

  // ----- The ordered merge -----

  /** Two lists into one: the earlier head first, the CD event on ties. */
  function Merge(cds: seq<CdEvent>, triggers: seq<TriggerEvent>): (r: seq<Event>)
    ensures |r| == |cds| + |triggers|
  {
    if cds == [] && triggers == [] then []
    else if cds == [] || (triggers != [] && triggers[0].t < cds[0].t) then
      [Trigger(triggers[0])] + Merge(cds, triggers[1..])
    else
      [Cd(cds[0])] + Merge(cds[1..], triggers)
  }

  function CdsOf(events: seq<Event>): seq<CdEvent> {
    if events == [] then []
    else (match events[0] case Cd(e) => [e] case Trigger(_) => []) + CdsOf(events[1..])
  }

  function TriggersOf(events: seq<Event>): seq<TriggerEvent> {
    if events == [] then []
    else (match events[0] case Cd(_) => [] case Trigger(e) => [e]) + TriggersOf(events[1..])
  }

  ghost predicate CdsSorted(cds: seq<CdEvent>) {
    forall i, j :: 0 <= i < j < |cds| ==> cds[i].t <= cds[j].t
  }

  ghost predicate TriggersSorted(triggers: seq<TriggerEvent>) {
    forall i, j :: 0 <= i < j < |triggers| ==> triggers[i].t <= triggers[j].t
  }

  ghost predicate Sorted(events: seq<Event>) {
    forall i, j :: 0 <= i < j < |events| ==> events[i].Time() <= events[j].Time()
  }

  /** The merge is a shuffle: each input list comes back whole and in order. */
  lemma {:induction false} MergeKeepsBoth(cds: seq<CdEvent>, triggers: seq<TriggerEvent>)
    ensures CdsOf(Merge(cds, triggers)) == cds && TriggersOf(Merge(cds, triggers)) == triggers
    decreases |cds| + |triggers|
  {
    hide CdsOf, TriggersOf;
    if cds == [] && triggers == [] {
      NoEvents();
    } else if cds == [] || (triggers != [] && triggers[0].t < cds[0].t) {
      MergeKeepsBoth(cds, triggers[1..]);
      HeadOf(Trigger(triggers[0]), Merge(cds, triggers[1..]));
    } else {
      MergeKeepsBoth(cds[1..], triggers);
      HeadOf(Cd(cds[0]), Merge(cds[1..], triggers));
    }
  }

  lemma NoEvents()
    ensures CdsOf([]) == [] && TriggersOf([]) == []
  {
  }

  lemma HeadOf(e: Event, rest: seq<Event>)
    ensures CdsOf([e] + rest) == (if e.Cd? then [e.cd] else []) + CdsOf(rest)
    ensures TriggersOf([e] + rest) == (if e.Cd? then [] else [e.trigger]) + TriggersOf(rest)
  {
    assert ([e] + rest)[1..] == rest;
  }

  lemma {:induction false} MergeLowerBound(cds: seq<CdEvent>, triggers: seq<TriggerEvent>, t: int)
    requires forall i :: 0 <= i < |cds| ==> t <= cds[i].t
    requires forall i :: 0 <= i < |triggers| ==> t <= triggers[i].t
    ensures forall i :: 0 <= i < |Merge(cds, triggers)| ==> t <= Merge(cds, triggers)[i].Time()
    decreases |cds| + |triggers|
  {
    if cds == [] && triggers == [] {
    } else if cds == [] || (triggers != [] && triggers[0].t < cds[0].t) {
      MergeLowerBound(cds, triggers[1..], t);
    } else {
      MergeLowerBound(cds[1..], triggers, t);
    }
  }

  lemma {:induction false} MergeSorted(cds: seq<CdEvent>, triggers: seq<TriggerEvent>)
    requires CdsSorted(cds) && TriggersSorted(triggers)
    ensures Sorted(Merge(cds, triggers))
    decreases |cds| + |triggers|
  {
    if cds == [] && triggers == [] {
    } else if cds == [] || (triggers != [] && triggers[0].t < cds[0].t) {
      MergeSorted(cds, triggers[1..]);
      MergeLowerBound(cds, triggers[1..], triggers[0].t);
    } else {
      MergeSorted(cds[1..], triggers);
      MergeLowerBound(cds[1..], triggers, cds[0].t);
    }
  }

  // ----- Time-high words between the events -----

  /** The word of an event as the standalone encoder writes it: every field truncated to its width. */
  function EventItem(e: Event): Item {
    match e
    case Cd(e) => CdItem(e.x % 0x800, e.y % 0x800, if e.p != 0 then 1 else 0, e.t % 0x40)
    case Trigger(e) => TriggerItem(e.p % 2, e.id % 0x20, e.t % 0x40)
  }

  function EventItems(events: seq<Event>): (r: seq<Item>)
    ensures |r| == |events|
    ensures forall i :: 0 <= i < |r| ==> r[i] == EventItem(events[i])
  {
    seq(|events|, i requires 0 <= i < |events| => EventItem(events[i]))
  }

  function TimeHighItem(th: int): Item {
    TimeItem(th / 0x40 % 0x1000_0000)
  }

  /** `th` is the next time high to write; an event waits until `th` has passed it. */
  function Interleave(th: int, events: seq<Event>): seq<Item>
    decreases |events|, if events != [] && events[0].Time() >= th then events[0].Time() - th + 1 else 0
  {
    if events == [] then []
    else if events[0].Time() < th then [EventItem(events[0])] + Interleave(th, events[1..])
    else [TimeHighItem(th)] + Interleave(th + TH_NEXT_STEP, events)
  }

  /** The time the encoder takes for the oldest event. With no CD event this is 0, whatever the triggers say. */
  function FirstTime(cds: seq<CdEvent>, triggers: seq<TriggerEvent>): int {
    var first := if cds != [] then cds[0].t else 0;
    if triggers != [] && triggers[0].t < first then triggers[0].t else first
  }

  function Floor16(t: int): int { t / TH_NEXT_STEP * TH_NEXT_STEP }

  /** All words of a file for two input lists. */
  function FileItems(cds: seq<CdEvent>, triggers: seq<TriggerEvent>): seq<Item> {
    var th := Floor16(FirstTime(cds, triggers));
    [TimeHighItem(th)] + Interleave(th + TH_NEXT_STEP, Merge(cds, triggers))
  }

  // ----- What the words preserve -----

  function NonTime(items: seq<Item>): seq<Item> {
    if items == [] then []
    else (if items[0].TimeItem? then [] else [items[0]]) + NonTime(items[1..])
  }

  function TimeCount(items: seq<Item>): nat {
    if items == [] then 0 else (if items[0].TimeItem? then 1 else 0) + TimeCount(items[1..])
  }

  /** Dropping the time words leaves exactly the events, in order, whether or not they are sorted. */
  lemma {:induction false} InterleaveKeepsEvents(th: int, events: seq<Event>)
    ensures NonTime(Interleave(th, events)) == EventItems(events)
    decreases |events|, if events != [] && events[0].Time() >= th then events[0].Time() - th + 1 else 0
  {
    if events == [] {
    } else if events[0].Time() < th {
      InterleaveKeepsEvents(th, events[1..]);
    } else {
      InterleaveKeepsEvents(th + TH_NEXT_STEP, events);
    }
  }

  /** One time word for every 16 us slot from the one of the next time high up to the one of the last event. */
  lemma {:induction false} InterleaveTimeCount(th: int, events: seq<Event>)
    requires Sorted(events) && events != [] && th % TH_NEXT_STEP == 0
    requires events[0].Time() >= th - TH_NEXT_STEP
    ensures TimeCount(Interleave(th, events)) == events[|events| - 1].Time() / TH_NEXT_STEP - th / TH_NEXT_STEP + 1
    decreases |events|, if events[0].Time() >= th then events[0].Time() - th + 1 else 0
  {
    if events[0].Time() < th {
      if |events| > 1 {
        InterleaveTimeCount(th, events[1..]);
      }
    } else {
      InterleaveTimeCount(th + TH_NEXT_STEP, events);
    }
  }

  /** The clock starts at the first merged event, but at 0 when there is no CD event. */
  lemma FirstTimeIs(cds: seq<CdEvent>, triggers: seq<TriggerEvent>)
    requires cds != [] || triggers != []
    requires cds == [] ==> triggers[0].t >= 0
    ensures FirstTime(cds, triggers) == if cds == [] then 0 else Merge(cds, triggers)[0].Time()
    ensures Merge(cds, triggers)[0].Time() >= FirstTime(cds, triggers)
  {
  }

  lemma Floor16Slot(t: int)
    ensures Floor16(t) % TH_NEXT_STEP == 0 && Floor16(t) <= t < Floor16(t) + TH_NEXT_STEP
    ensures (Floor16(t) + TH_NEXT_STEP) % TH_NEXT_STEP == 0
    ensures (Floor16(t) + TH_NEXT_STEP) / TH_NEXT_STEP == t / TH_NEXT_STEP + 1
  {
  }

  lemma LeadingTimeWord(item: Item, rest: seq<Item>)
    requires item.TimeItem?
    ensures NonTime([item] + rest) == NonTime(rest) && TimeCount([item] + rest) == 1 + TimeCount(rest)
  {
  }

  /**
   The merge loses nothing and invents nothing: the words of a file other than time-high words are the
   ordered merge of both inputs, and there is exactly one time-high word per 16 us slot up to the last event, from the
   first event on, or from time 0 on when there is no CD event.
   */
  lemma FileItemsConserve(cds: seq<CdEvent>, triggers: seq<TriggerEvent>)
    requires cds != [] || triggers != []
    requires cds == [] ==> triggers[0].t >= 0
    requires CdsSorted(cds) && TriggersSorted(triggers)
    ensures var m := Merge(cds, triggers);
            && NonTime(FileItems(cds, triggers)) == EventItems(m)
            && CdsOf(m) == cds && TriggersOf(m) == triggers && Sorted(m)
            && TimeCount(FileItems(cds, triggers))
               == m[|m| - 1].Time() / 16 - (if cds == [] then 0 else m[0].Time() / 16) + 1
  {
    hide Interleave, Merge, FirstTime, CdsOf, TriggersOf, Sorted, EventItems, NonTime, TimeCount;
    hide CdsSorted, TriggersSorted;
    var first, m := FirstTime(cds, triggers), Merge(cds, triggers);
    var th := Floor16(first);
    Floor16Slot(first);
    FirstTimeIs(cds, triggers);
    MergeKeepsBoth(cds, triggers);
    MergeSorted(cds, triggers);
    InterleaveKeepsEvents(th + TH_NEXT_STEP, m);
    InterleaveTimeCount(th + TH_NEXT_STEP, m);
    LeadingTimeWord(TimeHighItem(th), Interleave(th + TH_NEXT_STEP, m));
  }
}
