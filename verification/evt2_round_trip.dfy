/** Decoding what the standalone encoder wrote. */
module Evt2RoundTrip {
  import opened MachineInts
  import opened Sequences
  import opened TimeBase
  import opened Evt2Words
  import opened Evt2Stream
  import opened Evt2Decoder
  import opened Evt2FileEncoder
  import Hal = Evt2HalEncoder

  /** One turn of the 34-bit clock, in microseconds and in time-high steps. */
  const CLOCK: nat := 0x4_0000_0000
  const CLOCK_STEPS: nat := 0x1000_0000

  /** An event with its fields truncated to their widths, at the given time. */
  function DecodedAt(e: CdEvent, t: int): CdEvent {
    CdEvent(e.x % 0x800, e.y % 0x800, if e.p != 0 then 1 else 0, t)
  }

  function DecodedTriggerAt(e: TriggerEvent, t: int): TriggerEvent {
    TriggerEvent(e.p % 2, e.id % 0x20, t)
  }

  function DecodedCd(e: CdEvent, turns: nat): CdEvent { DecodedAt(e, e.t - turns * CLOCK) }

  function DecodedTrigger(e: TriggerEvent, turns: nat): TriggerEvent { DecodedTriggerAt(e, e.t - turns * CLOCK) }

  function DecodedCds(cds: seq<CdEvent>, turns: nat): (r: seq<CdEvent>)
    ensures |r| == |cds|
    ensures forall i :: 0 <= i < |r| ==> r[i] == DecodedCd(cds[i], turns)
  {
    if cds == [] then [] else [DecodedCd(cds[0], turns)] + DecodedCds(cds[1..], turns)
  }

  function DecodedTriggers(triggers: seq<TriggerEvent>, turns: nat): (r: seq<TriggerEvent>)
    ensures |r| == |triggers|
    ensures forall i :: 0 <= i < |r| ==> r[i] == DecodedTrigger(triggers[i], turns)
  {
    if triggers == [] then [] else [DecodedTrigger(triggers[0], turns)] + DecodedTriggers(triggers[1..], turns)
  }

  /** The decoder stands in the 64 us block of the last time high before `th`, `turns` clock turns behind. */
  ghost predicate InStep(s: State, th: nat, turns: nat) {
    && s.ready && th % 16 == 0 && turns * CLOCK_STEPS <= (th - 16) / 0x40 < 0x400_0000_0000_0000
    && s.base == At(Evt2, (th - 16) / 0x40 - turns * CLOCK_STEPS)
  }

  lemma SameBlock(th: nat, t: int)
    requires th % 16 == 0 && th - 16 <= t < th
    ensures t / 0x40 == (th - 16) / 0x40
  {
  }

  lemma EventTimeRecovered(s: State, th: nat, turns: nat, t: int)
    requires InStep(s, th, turns) && Encodable(t) && th - 16 <= t < th
    ensures ToU64(s.base.us + t % 0x40) == t - turns * CLOCK
  {
    SameBlock(th, t);
    assert t == t / 0x40 * 0x40 + t % 0x40;
    assert s.base.us == t / 0x40 * 0x40 - turns * CLOCK;
  }

  lemma NextTimeHigh(s: State, th: nat, turns: nat)
    requires InStep(s, th, turns) && th < TWO64
    ensures InStep(Step(s, true, TimeHighItem(th)), th + TH_NEXT_STEP, turns)
    ensures Step(s, true, TimeHighItem(th)).cds == s.cds && Step(s, true, TimeHighItem(th)).triggers == s.triggers
  {
    hide Advance, At;
    var h, next := (th - 16) / 0x40 - turns * CLOCK_STEPS, th / 0x40 - turns * CLOCK_STEPS;
    assert h <= next <= h + 1;
    FieldOfTurned(th / 0x40, turns);
    AdvanceExact(Evt2, h, next);
  }

  lemma FieldOfTurned(h: nat, turns: nat)
    requires turns * CLOCK_STEPS <= h
    ensures (h - turns * CLOCK_STEPS) % CLOCK_STEPS == h % CLOCK_STEPS
  {
  }

  lemma EventDecoded(s: State, th: nat, turns: nat, e: Event)
    requires InStep(s, th, turns) && Encodable(e.Time()) && th - 16 <= e.Time() < th
    ensures var r := Step(s, true, EventItem(e));
            && InStep(r, th, turns)
            && r.cds == s.cds + DecodedCds(CdsOf([e]), turns)
            && r.triggers == s.triggers + DecodedTriggers(TriggersOf([e]), turns)
  {
    hide ToU64, Step, EventItem, CdsOf, TriggersOf, DecodedCds, DecodedTriggers;
    EventTimeRecovered(s, th, turns, e.Time());
    OneEvent(e, turns);
    StepEvent(s, e);
  }

  lemma StepEvent(s: State, e: Event)
    requires s.ready
    ensures var r := Step(s, true, EventItem(e));
            if e.Cd? then
              r == s.(cds := s.cds + [DecodedAt(e.cd, ToU64(s.base.us + e.cd.t % 0x40))])
            else
              r == s.(triggers := s.triggers + [DecodedTriggerAt(e.trigger, ToU64(s.base.us + e.trigger.t % 0x40))])
  {
  }

  lemma OneEvent(e: Event, turns: nat)
    ensures DecodedCds(CdsOf([e]), turns) == if e.Cd? then [DecodedCd(e.cd, turns)] else []
    ensures DecodedTriggers(TriggersOf([e]), turns)
         == if e.Cd? then [] else [DecodedTrigger(e.trigger, turns)]
  {
  }

  lemma DecodedConcat(e: Event, rest: seq<Event>, turns: nat)
    ensures DecodedCds(CdsOf([e] + rest), turns) == DecodedCds(CdsOf([e]), turns) + DecodedCds(CdsOf(rest), turns)
    ensures DecodedTriggers(TriggersOf([e] + rest), turns)
         == DecodedTriggers(TriggersOf([e]), turns) + DecodedTriggers(TriggersOf(rest), turns)
  {
    hide DecodedCd, DecodedTrigger, DecodedCds, DecodedTriggers;
    OneEvent(e, turns);
    assert ([e] + rest)[1..] == rest;
    if e.Cd? {
      DecodedCons(e.cd, CdsOf(rest), turns);
    } else {
      DecodedTriggerCons(e.trigger, TriggersOf(rest), turns);
    }
  }

  lemma DecodedCons(e: CdEvent, rest: seq<CdEvent>, turns: nat)
    ensures DecodedCds([e] + rest, turns) == [DecodedCd(e, turns)] + DecodedCds(rest, turns)
  {
  }

  lemma DecodedTriggerCons(e: TriggerEvent, rest: seq<TriggerEvent>, turns: nat)
    ensures DecodedTriggers([e] + rest, turns) == [DecodedTrigger(e, turns)] + DecodedTriggers(rest, turns)
  {
  }

  lemma RunCons(s: State, item: Item, rest: seq<Item>)
    ensures Run(s, true, [item] + rest) == Run(Step(s, true, item), true, rest)
  {
  }

  lemma {:induction false} RunInterleave(s: State, th: nat, events: seq<Event>, turns: nat)
    requires InStep(s, th, turns) && Sorted(events)
    requires forall i :: 0 <= i < |events| ==> Encodable(events[i].Time())
    requires events != [] ==> th - 16 <= events[0].Time()
    ensures var r := Run(s, true, Interleave(th, events));
            && r.cds == s.cds + DecodedCds(CdsOf(events), turns)
            && r.triggers == s.triggers + DecodedTriggers(TriggersOf(events), turns)
    decreases |events|, Wait(th, events)
  {
    hide InStep, Advance, Step, Run, DecodedCds, DecodedTriggers, EventItem, TimeHighItem, CdsOf, TriggersOf;
    if events == [] {
      EmptyStream(s, turns);
    } else if events[0].Time() < th {
      var s', rest := Step(s, true, EventItem(events[0])), events[1..];
      RunCons(s, EventItem(events[0]), Interleave(th, rest));
      EventDecoded(s, th, turns, events[0]);
      RunInterleave(s', th, rest, turns);
      assert events == [events[0]] + rest;
      DecodedConcat(events[0], rest, turns);
      Assoc(s.cds, DecodedCds(CdsOf([events[0]]), turns), DecodedCds(CdsOf(rest), turns));
      Assoc(s.triggers, DecodedTriggers(TriggersOf([events[0]]), turns), DecodedTriggers(TriggersOf(rest), turns));
    } else {
      RunCons(s, TimeHighItem(th), Interleave(th + TH_NEXT_STEP, events));
      NextTimeHigh(s, th, turns);
      RunInterleave(Step(s, true, TimeHighItem(th)), th + TH_NEXT_STEP, events, turns);
    }
  }

  lemma EmptyStream(s: State, turns: nat)
    ensures Run(s, true, []) == s
    ensures DecodedCds(CdsOf([]), turns) == [] && DecodedTriggers(TriggersOf([]), turns) == []
  {
  }

  lemma FirstTimeHigh(first: nat)
    requires first < TWO64 - 16
    ensures var s := Step(INIT, true, TimeHighItem(Floor16(first)));
            && InStep(s, Floor16(first) + TH_NEXT_STEP, first / CLOCK) && s.cds == [] && s.triggers == []
  {
    hide Advance;
    var th, turns := Floor16(first), first / CLOCK;
    Floor16Slot(first);
    SameBlock(th + 16, first);
    assert first / 0x40 / CLOCK_STEPS == turns;
    FieldOfTurned(th / 0x40, turns);
    var h := th / 0x40 - turns * CLOCK_STEPS;
    assert h == th / 0x40 % CLOCK_STEPS;
  }

  /** Any sorted events behind a clock that starts at `first`. */
  lemma DecodeFromFirst(first: nat, events: seq<Event>)
    requires first < TWO64 - 16 && Sorted(events)
    requires forall i :: 0 <= i < |events| ==> Encodable(events[i].Time())
    requires events != [] ==> first <= events[0].Time()
    ensures var th, turns := Floor16(first), first / CLOCK;
            var r := Run(INIT, true, [TimeHighItem(th)] + Interleave(th + TH_NEXT_STEP, events));
            r.cds == DecodedCds(CdsOf(events), turns) && r.triggers == DecodedTriggers(TriggersOf(events), turns)
  {
    hide Step, Run, Interleave, InStep, EventItem, TimeHighItem, DecodedCds, DecodedTriggers, CdsOf, TriggersOf;
    Floor16Slot(first);
    hide Floor16;
    var th := Floor16(first);
    FirstTimeHigh(first);
    RunCons(INIT, TimeHighItem(th), Interleave(th + TH_NEXT_STEP, events));
    RunInterleave(Step(INIT, true, TimeHighItem(th)), th + TH_NEXT_STEP, events, first / CLOCK);
  }

  /**
   The full behaviour of encoding and then decoding two time-ordered lists, over any number of turns of the
   34-bit clock: every event comes back, in order, with its fields truncated to their widths and its time moved
   back by the whole clock turns that had passed before the first event. Without a CD event no time is moved.
   */
  lemma DecodeAfterEncode(cds: seq<CdEvent>, triggers: seq<TriggerEvent>)
    requires InputsEncodable(cds, triggers) && CdsSorted(cds) && TriggersSorted(triggers)
    requires cds != [] || triggers != []
    ensures var turns := if cds == [] then 0 else Merge(cds, triggers)[0].Time() / 0x4_0000_0000;
            0 <= turns &&
            var r := Run(INIT, true, FileItems(cds, triggers));
            r.cds == DecodedCds(cds, turns) && r.triggers == DecodedTriggers(triggers, turns)
  {
    hide Run, Interleave, TimeHighItem, DecodedCds, DecodedTriggers, CdsOf, TriggersOf, Floor16, Step;
    FirstTimeIs(cds, triggers);
    MergedTimes(cds, triggers);
    MergeSorted(cds, triggers);
    MergeKeepsBoth(cds, triggers);
    hide Merge, FirstTime, Sorted;
    DecodeFromFirst(FirstTime(cds, triggers), Merge(cds, triggers));
  }

  lemma MergedTimes(cds: seq<CdEvent>, triggers: seq<TriggerEvent>)
    requires InputsEncodable(cds, triggers)
    ensures forall i :: 0 <= i < |Merge(cds, triggers)| ==> Encodable(Merge(cds, triggers)[i].Time())
  {
  }

  predicate CdFits(e: CdEvent) { e.x < 0x800 && e.y < 0x800 && (e.p == 0 || e.p == 1) }

  predicate TriggerFits(e: TriggerEvent) { (e.p == 0 || e.p == 1) && 0 <= e.id < 0x20 }

  /** Every field fits its width and, if there is a CD event, the first time of all fits 34 bits. */
  predicate LosslessInput(cds: seq<CdEvent>, triggers: seq<TriggerEvent>) {
    && (forall i :: 0 <= i < |cds| ==> CdFits(cds[i]))
    && (forall i :: 0 <= i < |triggers| ==> TriggerFits(triggers[i]))
    && (cds == [] || cds[0].t < 0x4_0000_0000 || (triggers != [] && triggers[0].t < 0x4_0000_0000))
  }

  lemma CdsUnchangedIff(cds: seq<CdEvent>, turns: nat)
    ensures DecodedCds(cds, turns) == cds <==> (forall i :: 0 <= i < |cds| ==> CdFits(cds[i]) && turns == 0)
  {
  }

  lemma TriggersUnchangedIff(triggers: seq<TriggerEvent>, turns: nat)
    ensures DecodedTriggers(triggers, turns) == triggers
       <==> (forall i :: 0 <= i < |triggers| ==> TriggerFits(triggers[i]) && turns == 0)
  {
  }

  /**
   The round trip. For time-ordered inputs, decoding the encoder's file gives both input lists back exactly if
   and only if every field fits its width and the first time high was written in the first clock turn; later
   turns are recovered.
   */
  lemma RoundTripIff(cds: seq<CdEvent>, triggers: seq<TriggerEvent>)
    requires InputsEncodable(cds, triggers) && CdsSorted(cds) && TriggersSorted(triggers)
    requires cds != [] || triggers != []
    ensures var r := Run(INIT, true, FileItems(cds, triggers));
            r.cds == cds && r.triggers == triggers <==> LosslessInput(cds, triggers)
  {
    DecodeAfterEncode(cds, triggers);
    var turns := if cds == [] then 0 else Merge(cds, triggers)[0].Time() / CLOCK;
    hide Run, FileItems, DecodedCds, DecodedTriggers, CdFits, TriggerFits;
    CdsUnchangedIff(cds, turns);
    TriggersUnchangedIff(triggers, turns);
  }

  /** The two programs run one after the other. */
  method EncodeThenDecode(cds: seq<CdEvent>, triggers: seq<TriggerEvent>)
    returns (cdsOut: seq<CdEvent>, triggersOut: seq<TriggerEvent>)
    requires InputsEncodable(cds, triggers) && CdsSorted(cds) && TriggersSorted(triggers)
    requires cds != [] || triggers != []
    ensures cdsOut == cds && triggersOut == triggers <==> LosslessInput(cds, triggers)
  {
    var ok, words := EncodeFile(cds, triggers);
    cdsOut, triggersOut := DecodeFile(words, true);
    RoundTripIff(cds, triggers);
  }

  /**
   The HAL encoder's words decode the same way: time-ordered events come back whole, with their times moved back by the
   clock turns before the first event and with polarity 1 for a CD event of polarity 1, else 0. The decoder returns them
   split into CD and trigger events.
   */
  lemma DecodeAfterHalEncode(events: seq<Event>)
    requires events != [] && Sorted(events)
    requires forall i :: 0 <= i < |events| ==> Encodable(events[i].Time())
    ensures Encodable(events[0].Time())
    ensures var turns := events[0].Time() / CLOCK;
            var r := Run(INIT, true, Hal.HalItems(Hal.RESET, events));
            && r.cds == DecodedCds(Hal.BinaryCds(CdsOf(events)), turns)
            && r.triggers == DecodedTriggers(TriggersOf(events), turns)
  {
    hide Step, Run, Interleave, EventItem, TimeHighItem, DecodedCds, DecodedTriggers, CdsOf, TriggersOf, Sorted;
    hide Floor16, Hal.HalItems, Hal.BinaryCds, Hal.BinaryEvents;
    var binary := BinaryInput(events);
    Hal.HalItemsBinary(Hal.RESET, events);
    Hal.BinaryParts(events);
    DecodeFromFirst(events[0].Time(), binary);
  }

  lemma BinaryInput(events: seq<Event>) returns (binary: seq<Event>)
    requires events != [] && Sorted(events)
    requires forall i :: 0 <= i < |events| ==> Encodable(events[i].Time())
    ensures binary == Hal.BinaryEvents(events) && binary != [] && binary[0].Time() == events[0].Time() && Sorted(binary)
    ensures forall i :: 0 <= i < |binary| ==> Encodable(binary[i].Time())
    ensures var th := Floor16(events[0].Time());
            Hal.HalItems(Hal.RESET, binary) == [TimeHighItem(th)] + Interleave(th + TH_NEXT_STEP, binary)
  {
    hide Hal.HalItems, Interleave, TimeHighItem, Floor16, Hal.BinaryEvent, Hal.BinaryPolarity;
    binary := Hal.BinaryEvents(events);
    Hal.HalItemsFromFirst(binary);
  }
}
