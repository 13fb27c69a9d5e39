/** The standalone EVT2 encoder: two event lists to one file, through a reused buffer of words. */
module Evt2FileEncoder {
  import opened MachineInts
  import opened Evt2Words
  import opened Evt2Stream

  const BUFFER_SIZE: nat := 1000

  /** Times whose next time high still fits the 64-bit counter. */
  predicate Encodable(t: int) { 0 <= t <= TWO64 - 17 }

  predicate InputsEncodable(cds: seq<CdEvent>, triggers: seq<TriggerEvent>) {
    && (forall i :: 0 <= i < |cds| ==> Encodable(cds[i].t))
    && (forall i :: 0 <= i < |triggers| ==> Encodable(triggers[i].t))
  }

  method EncodeCd(ev: CdEvent, slot: array<Word>, k: nat)
    requires k < slot.Length
    modifies slot
    ensures slot[..] == old(slot[..])[k := CdOver(old(slot[k]), ev)]
  {
    hide SetX, SetY, SetStamp, SetType;
    slot[k] := SetX(slot[k], ev.x);
    slot[k] := SetY(slot[k], ev.y);
    slot[k] := SetStamp(slot[k], ev.t);
    slot[k] := SetType(slot[k], if ev.p != 0 then CD_ON else CD_OFF);
  }

  method EncodeTrigger(ev: TriggerEvent, slot: array<Word>, k: nat)
    requires k < slot.Length
    modifies slot
    ensures slot[..] == old(slot[..])[k := TriggerOver(old(slot[k]), ev)]
  {
    hide SetStamp, SetId, SetValue, SetType;
    slot[k] := SetStamp(slot[k], ev.t);
    slot[k] := SetId(slot[k], ev.id);
    slot[k] := SetValue(slot[k], ev.p);
    slot[k] := SetType(slot[k], EXT_TRIGGER);
  }

  class EventTimeEncoder {
    var th: U64

    constructor (base: U64)
      ensures th == Floor16(base)
    {
      th := base / TH_NEXT_STEP * TH_NEXT_STEP;
    }

    method Encode(slot: array<Word>, k: nat)
      requires k < slot.Length
      modifies this, slot
      ensures slot[..] == old(slot[..])[k := TimeHighOver(old(slot[k]), old(th))]
      ensures th == ToU64(old(th) + TH_NEXT_STEP)
    {
      hide SetTimeHigh, SetType;
      slot[k] := SetTimeHigh(slot[k], th / 0x40);
      slot[k] := SetType(slot[k], EVT_TIME_HIGH);
      th := ToU64(th + TH_NEXT_STEP);
    }
  }

  function Wait(th: int, events: seq<Event>): nat {
    if events != [] && events[0].Time() >= th then events[0].Time() - th + 1 else 0
  }

  lemma AppendWord(done: seq<Word>, w: Word, rest: seq<Item>, total: seq<Item>, rest': seq<Item>)
    requires ItemsOf(done) + rest == total && rest == [ItemOf(w)] + rest'
    ensures ItemsOf(done + [w]) + rest' == total
  {
  }

  lemma SlotWritten(file: seq<Word>, before: seq<Word>, k: nat, w: Word)
    requires k < |before|
    ensures file + before[k := w][..k + 1] == (file + before[..k]) + [w]
  {
  }

  lemma NextIsCd(th: int, cds: seq<CdEvent>, triggers: seq<TriggerEvent>)
    requires cds != [] && !(triggers != [] && triggers[0].t < cds[0].t) && cds[0].t < th
    ensures Interleave(th, Merge(cds, triggers)) == [EventItem(Cd(cds[0]))] + Interleave(th, Merge(cds[1..], triggers))
  {
  }

  lemma NextIsTrigger(th: int, cds: seq<CdEvent>, triggers: seq<TriggerEvent>)
    requires triggers != [] && (cds == [] || triggers[0].t < cds[0].t) && triggers[0].t < th
    ensures Interleave(th, Merge(cds, triggers))
         == [EventItem(Trigger(triggers[0]))] + Interleave(th, Merge(cds, triggers[1..]))
  {
  }

  lemma NextIsTime(th: int, cds: seq<CdEvent>, triggers: seq<TriggerEvent>)
    requires cds != [] || triggers != []
    requires cds != [] ==> th <= cds[0].t
    requires triggers != [] ==> th <= triggers[0].t
    ensures var m := Merge(cds, triggers);
            && Interleave(th, m) == [TimeHighItem(th)] + Interleave(th + TH_NEXT_STEP, m)
            && Wait(th + TH_NEXT_STEP, m) < Wait(th, m)
  {
  }

  /** The loop's variables: the next time high, and what is left of each input. */
  datatype Loop = Loop(th: U64, cds: seq<CdEvent>, triggers: seq<TriggerEvent>) {
    predicate Done() { cds == [] && triggers == [] }

    /** One turn, as the source nests its tests. Each turn writes one word; the clock wraps at 64 bits. */
    function Turn(): Loop
      requires !Done()
    {
      if cds != [] then
        if cds[0].t < th then
          if triggers != [] && triggers[0].t < cds[0].t then this.(triggers := triggers[1..])
          else this.(cds := cds[1..])
        else if triggers != [] && triggers[0].t < th then this.(triggers := triggers[1..])
        else this.(th := ToU64(th + TH_NEXT_STEP))
      else if triggers[0].t < th then this.(triggers := triggers[1..])
      else this.(th := ToU64(th + TH_NEXT_STEP))
    }

    /** The loop is done within `n` turns. */
    predicate EndsWithin(n: nat)
      decreases n
    {
      Done() || (n > 0 && Turn().EndsWithin(n - 1))
    }

    predicate Valid() { th % TH_NEXT_STEP == 0 }

    /** How far the clock is from the earlier of the two next events. */
    function Ahead(): nat {
      var t :=
        if Done() then 0
        else if cds == [] || (triggers != [] && triggers[0].t < cds[0].t) then triggers[0].t
        else cds[0].t;
      if t >= th then t - th + 1 else 0
    }
  }

  /** The words written so far and those still to come make up the whole file. */
  ghost predicate Progress(done: seq<Word>, th: int, cds: seq<CdEvent>, triggers: seq<TriggerEvent>, total: seq<Item>) {
    ItemsOf(done) + Interleave(th, Merge(cds, triggers)) == total
  }

  lemma CdWritten(done: seq<Word>, w: Word, th: U64, allCds: seq<CdEvent>, i: nat, triggers: seq<TriggerEvent>,
                  total: seq<Item>)
    requires i < |allCds| && Progress(done, th, allCds[i..], triggers, total)
    requires !(triggers != [] && triggers[0].t < allCds[i].t) && allCds[i].t < th
    ensures Progress(done + [CdOver(w, allCds[i])], th, allCds[i + 1..], triggers, total)
    ensures Loop(th, allCds[i..], triggers).Turn() == Loop(th, allCds[i + 1..], triggers)
  {
    hide CdOver, ItemOf, ItemsOf, Interleave, Merge;
    var cds := allCds[i..];
    assert cds[1..] == allCds[i + 1..];
    NextIsCd(th, cds, triggers);
    CdOverMeans(w, cds[0]);
    AppendWord(done, CdOver(w, cds[0]), Interleave(th, Merge(cds, triggers)), total,
               Interleave(th, Merge(cds[1..], triggers)));
  }

  lemma TriggerWritten(done: seq<Word>, w: Word, th: U64, cds: seq<CdEvent>, allTriggers: seq<TriggerEvent>, j: nat,
                       total: seq<Item>)
    requires j < |allTriggers| && Progress(done, th, cds, allTriggers[j..], total)
    requires (cds == [] || allTriggers[j].t < cds[0].t) && allTriggers[j].t < th
    ensures Progress(done + [TriggerOver(w, allTriggers[j])], th, cds, allTriggers[j + 1..], total)
    ensures Loop(th, cds, allTriggers[j..]).Turn() == Loop(th, cds, allTriggers[j + 1..])
  {
    hide TriggerOver, ItemOf, ItemsOf, Interleave, Merge;
    var triggers := allTriggers[j..];
    assert triggers[1..] == allTriggers[j + 1..];
    NextIsTrigger(th, cds, triggers);
    TriggerOverMeans(w, triggers[0]);
    AppendWord(done, TriggerOver(w, triggers[0]), Interleave(th, Merge(cds, triggers)), total,
               Interleave(th, Merge(cds, triggers[1..])));
  }

  lemma TimeWritten(done: seq<Word>, w: Word, th: U64, cds: seq<CdEvent>, triggers: seq<TriggerEvent>, total: seq<Item>)
    requires Progress(done, th, cds, triggers, total)
    requires cds != [] || triggers != []
    requires cds != [] ==> th <= cds[0].t
    requires triggers != [] ==> th <= triggers[0].t
    ensures Progress(done + [TimeHighOver(w, th)], th + TH_NEXT_STEP, cds, triggers, total)
    ensures Loop(th, cds, triggers).Turn() == Loop(ToU64(th + TH_NEXT_STEP), cds, triggers)
    ensures Wait(th + TH_NEXT_STEP, Merge(cds, triggers)) < Wait(th, Merge(cds, triggers))
  {
    hide TimeHighOver, ItemOf, ItemsOf, Interleave, Merge, Wait;
    NextIsTime(th, cds, triggers);
    TimeHighOverMeans(w, th);
    AppendWord(done, TimeHighOver(w, th), Interleave(th, Merge(cds, triggers)), total,
               Interleave(th + TH_NEXT_STEP, Merge(cds, triggers)));
  }

  lemma FirstWritten(w: Word, th: nat, cds: seq<CdEvent>, triggers: seq<TriggerEvent>)
    requires th == Floor16(FirstTime(cds, triggers))
    ensures Progress([TimeHighOver(w, th)], th + TH_NEXT_STEP, cds, triggers, FileItems(cds, triggers))
  {
    hide TimeHighOver, ItemOf, Interleave, Merge, FirstTime, Floor16;
    TimeHighOverMeans(w, th);
    assert ItemsOf([TimeHighOver(w, th)]) == [TimeHighItem(th)];
  }

  lemma TimeHighFits(th: int, t: int)
    requires Encodable(t) && th <= t && th % TH_NEXT_STEP == 0 && 0 <= th
    ensures ToU64(th + TH_NEXT_STEP) == th + TH_NEXT_STEP && (th + TH_NEXT_STEP) % TH_NEXT_STEP == 0
  {
  }

  /**
   Writes the words of both lists; fails only when both are empty. The file is every emitted word, flushed
   through the buffer in order, and by the used fields of its words it is the ordered merge with its time-high
   words. The inputs need not be sorted.
   */
  method EncodeFile(cds: seq<CdEvent>, triggers: seq<TriggerEvent>) returns (ok: bool, file: seq<Word>)
    requires InputsEncodable(cds, triggers)
    ensures ok <==> cds != [] || triggers != []
    ensures ok ==> ItemsOf(file) == FileItems(cds, triggers)
  {
    hide ItemsOf, ItemOf, CdOver, TriggerOver, TimeHighOver, Progress, Merge, FileItems, Floor16, Wait, Interleave;
    hide ToU64, Loop.Turn;
    file := [];
    var i, j := 0, 0;
    var cdDone, triggerDone := i == |cds|, j == |triggers|;
    if cdDone && triggerDone {
      return false, [];
    }
    ok := true;
    var rawEvents := new Word[BUFFER_SIZE](_ => 0);
    var current := 0;

    var first := 0;
    if !cdDone {
      first := cds[i].t;
    }
    if !triggerDone && triggers[j].t < first {
      first := triggers[j].t;
    }
    var timeHigh := new EventTimeEncoder(first);
    Floor16Slot(first);
    TimeHighFits(timeHigh.th, first);
    ghost var total, loop := FileItems(cds, triggers), StartOf(cds, triggers);
    FirstWritten(rawEvents[0], timeHigh.th, cds, triggers);
    ghost var before, w := rawEvents[..], TimeHighOver(rawEvents[0], timeHigh.th);
    timeHigh.Encode(rawEvents, current);
    current := current + 1;
    SlotWritten(file, before, 0, w);
    assert file + before[..0] + [w] == [w];

    while !(cdDone && triggerDone)
      invariant i <= |cds| && j <= |triggers| && current <= BUFFER_SIZE
      invariant cdDone == (i == |cds|) && triggerDone == (j == |triggers|)
      invariant timeHigh.th % TH_NEXT_STEP == 0 && loop == Loop(timeHigh.th, cds[i..], triggers[j..])
      invariant Progress(file + rawEvents[..current], timeHigh.th, cds[i..], triggers[j..], total)
      decreases |cds| - i + |triggers| - j, Wait(timeHigh.th, Merge(cds[i..], triggers[j..]))
    {
      if current == BUFFER_SIZE {
        assert file + rawEvents[..current] == (file + rawEvents[..]) + rawEvents[..0];
        file := file + rawEvents[..];
        current := 0;
      }
      ghost var done, was, th, i0, j0 := file + rawEvents[..current], rawEvents[..], timeHigh.th, i, j;
      ghost var w: Word;
      if !cdDone {
        if cds[i].t < timeHigh.th {
          if !triggerDone && triggers[j].t < cds[i].t {
            EncodeTrigger(triggers[j], rawEvents, current);
            j := j + 1; triggerDone := j == |triggers|;
          } else {
            EncodeCd(cds[i], rawEvents, current);
            i := i + 1; cdDone := i == |cds|;
          }
        } else {
          if !triggerDone && triggers[j].t < timeHigh.th {
            EncodeTrigger(triggers[j], rawEvents, current);
            j := j + 1; triggerDone := j == |triggers|;
          } else {
            timeHigh.Encode(rawEvents, current);
          }
        }
      } else {
        if triggers[j].t < timeHigh.th {
          EncodeTrigger(triggers[j], rawEvents, current);
          j := j + 1; triggerDone := j == |triggers|;
        } else {
          timeHigh.Encode(rawEvents, current);
        }
      }
      assert !loop.Done();
      loop := loop.Turn();
      if j > j0 {
        w := TriggerOver(was[current], triggers[j0]);
        TriggerWritten(done, was[current], th, cds[i..], triggers, j0, total);
      } else if i > i0 {
        w := CdOver(was[current], cds[i0]);
        CdWritten(done, was[current], th, cds, i0, triggers[j..], total);
      } else {
        w := TimeHighOver(was[current], th);
        TimeWritten(done, was[current], th, cds[i..], triggers[j..], total);
        TimeHighFits(th, if i < |cds| then cds[i].t else triggers[j].t);
      }
      SlotWritten(file, was, current, w);
      current := current + 1;
    }

    assert Progress(file + rawEvents[..current], timeHigh.th, [], [], total);
    EndOfFile(file + rawEvents[..current], timeHigh.th, total);
    if current != 0 {
      file := file + rawEvents[..current];
    }
  }

  lemma EndOfFile(done: seq<Word>, th: int, total: seq<Item>)
    requires Progress(done, th, [], [], total)
    ensures ItemsOf(done) == total
  {
  }

  // ----- When the loop ends -----

  /** The variables after the first time high. */
  function StartOf(cds: seq<CdEvent>, triggers: seq<TriggerEvent>): Loop
    requires TimesAre64Bit(cds, triggers)
  {
    Loop(ToU64(Floor16(FirstTime(cds, triggers)) + TH_NEXT_STEP), cds, triggers)
  }

  /** Every time fits the source's type. */
  predicate TimesAre64Bit(cds: seq<CdEvent>, triggers: seq<TriggerEvent>) {
    && (forall i :: 0 <= i < |cds| ==> 0 <= cds[i].t < TWO64)
    && (forall i :: 0 <= i < |triggers| ==> 0 <= triggers[i].t < TWO64)
  }

  /** The clock can pass a time, and so the event be written, if and only if a multiple of 16 above it fits 64 bits. */
  lemma EncodableIff(t: int)
    requires t >= 0
    ensures Encodable(t) <==> exists th: U64 :: th % TH_NEXT_STEP == 0 && t < th
  {
    if Encodable(t) {
      var th: U64 := Floor16(t) + TH_NEXT_STEP;
      assert th % TH_NEXT_STEP == 0 && t < th;
    }
  }

  lemma TurnKeeps(l: Loop)
    requires l.Valid() && !l.Done() && InputsEncodable(l.cds, l.triggers)
    ensures l.Turn().Valid() && InputsEncodable(l.Turn().cds, l.Turn().triggers)
    ensures |l.Turn().cds| + |l.Turn().triggers| < |l.cds| + |l.triggers|
         || (l.Turn() == l.(th := l.Turn().th) && l.Turn().Ahead() < l.Ahead())
  {
  }

  lemma {:induction false} LoopEnds(l: Loop) returns (n: nat)
    requires l.Valid() && InputsEncodable(l.cds, l.triggers)
    ensures l.EndsWithin(n)
    decreases |l.cds| + |l.triggers|, l.Ahead()
  {
    n := 0;
    if !l.Done() {
      TurnKeeps(l);
      var m := LoopEnds(l.Turn());
      n := m + 1;
    }
  }

  /** An event past the last time high is never written: no turn takes it off its list. */
  lemma TurnStuck(l: Loop)
    requires l.Valid() && !l.Done() && !InputsEncodable(l.cds, l.triggers) && TimesAre64Bit(l.cds, l.triggers)
    ensures l.Turn().Valid() && !InputsEncodable(l.Turn().cds, l.Turn().triggers)
    ensures TimesAre64Bit(l.Turn().cds, l.Turn().triggers)
  {
  }

  lemma {:induction false} NeverEnds(l: Loop, n: nat)
    requires l.Valid() && !InputsEncodable(l.cds, l.triggers) && TimesAre64Bit(l.cds, l.triggers)
    ensures !l.EndsWithin(n)
    decreases n
  {
    if n > 0 {
      TurnStuck(l);
      NeverEnds(l.Turn(), n - 1);
    }
  }

  /**
   The encoder ends if and only if every time is at most 2^64 - 17. A later one, such as the -1 of an input line, which
   is read as 2^64 - 1, is never passed by the time high.
   */
  lemma EncoderEndsIff(cds: seq<CdEvent>, triggers: seq<TriggerEvent>)
    requires TimesAre64Bit(cds, triggers)
    ensures (exists n: nat :: StartOf(cds, triggers).EndsWithin(n)) <==> InputsEncodable(cds, triggers)
  {
    hide Loop.EndsWithin;
    var l := StartOf(cds, triggers);
    StartIsValid(FirstTime(cds, triggers));
    if InputsEncodable(cds, triggers) {
      var n := LoopEnds(l);
      assert l.EndsWithin(n);
    } else {
      forall n: nat ensures !l.EndsWithin(n) {
        NeverEnds(l, n);
      }
    }
  }

  lemma StartIsValid(first: nat)
    ensures ToU64(Floor16(first) + TH_NEXT_STEP) % TH_NEXT_STEP == 0
  {
  }
}
