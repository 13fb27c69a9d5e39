/** What an EVT3 file decodes to: words built from numbers for time-ordered events, and the events back. */
module Evt3RoundTrip {
  import opened MachineInts
  import opened Sequences
  import opened TimeBase
  import opened Evt3Decoder
  import Evt3Vectors

  /** What a few words write at one time: a pixel, vectors of pixels from `x` to the right, or a trigger. */
  datatype Burst =
    | Pixel(x: Bits11, y: Bits11, p: Bit, t: nat)
    | Vectors(x: Bits11, y: Bits11, p: Bit, ons: seq<seq<bool>>, t: nat)
    | Trigger(value: Bit, id: Bits4, t: nat)
  {
    /** Times of 56 bits; vectors of 12 or 8 pixels, as many as fit 16-bit columns. */
    predicate Valid() {
      && t < 0x100_0000_0000_0000
      && (Vectors? ==> Widths(ons) && x + Total(ons) < 0x1_0000)
    }
  }

  predicate Widths(ons: seq<seq<bool>>) { forall i :: 0 <= i < |ons| ==> |ons[i]| == 12 || |ons[i]| == 8 }

  function Total(ons: seq<seq<bool>>): nat { if ons == [] then 0 else |ons[0]| + Total(ons[1..]) }

  // ----- The words -----

  /** The number whose bit `i` is `on[i]`. */
  function Number(on: seq<bool>): nat {
    if on == [] then 0 else (if on[0] then 1 else 0) + 2 * Number(on[1..])
  }

  lemma NumberFits(on: seq<bool>)
    requires |on| == 8 || |on| == 12
    ensures Number(on) < if |on| == 8 then 0x100 else 0x1000
  {
    NumberBelow(on, |on|);
    assert Power(8) == 0x100 && Power(12) == 0x1000 by { assert Power(4) == 0x10; assert Power(8) == 0x100; }
  }

  function Power(n: nat): nat { if n == 0 then 1 else 2 * Power(n - 1) }

  lemma {:induction false} NumberBelow(on: seq<bool>, n: nat)
    requires n == |on|
    ensures Number(on) < Power(n)
    decreases n
  {
    if n > 0 { NumberBelow(on[1..], n - 1); }
  }

  /** A vector word: its type says how many pixels it has. */
  function VectorWord(on: seq<bool>): Word
    requires |on| == 12 || |on| == 8
  {
    NumberFits(on);
    (if |on| == 12 then 0x4000 else 0x5000) + Number(on)
  }

  function VectorWords(ons: seq<seq<bool>>): seq<Word>
    requires Widths(ons)
  {
    if ons == [] then [] else [VectorWord(ons[0])] + VectorWords(ons[1..])
  }

  /** The pixels or the trigger; the layout of the format in numbers. */
  function BurstWords(b: Burst): seq<Word>
    requires b.Valid()
  {
    match b
    case Pixel(x, y, p, _) => [0x2000 + p * 0x800 + x]
    case Vectors(x, y, p, ons, _) => [0x3000 + p * 0x800 + x] + VectorWords(ons)
    case Trigger(value, id, _) => [0xA000 + id * 0x100 + value]
  }

  function HighWord(high: nat): Word { 0x8000 + high % 0x1000 }

  function LowWord(t: nat): Word { 0x6000 + t % 0x1000 }

  ghost predicate Ordered(bursts: seq<Burst>) {
    && (forall i :: 0 <= i < |bursts| ==> bursts[i].Valid())
    && (forall i, j :: 0 <= i < j < |bursts| ==> bursts[i].t <= bursts[j].t)
  }

  /** What the words so far have set: the time high, the time and the line. */
  datatype Pen = Pen(high: nat, clock: nat, line: Bits11)

  /** A time high for every 4096 us that pass; the low bits of the time and the line when they change. */
  function Words(pen: Pen, bursts: seq<Burst>): seq<Word>
    requires forall i :: 0 <= i < |bursts| ==> bursts[i].Valid()
    decreases |bursts|, Behind(pen, bursts), if bursts != [] && bursts[0].t != pen.clock then 1 else 0,
              if bursts != [] && !bursts[0].Trigger? && bursts[0].y != pen.line then 1 else 0
  {
    if bursts == [] then []
    else
      var b := bursts[0];
      if b.t / 0x1000 > pen.high then
        [HighWord(pen.high + 1)] + Words(Pen(pen.high + 1, (pen.high + 1) * 0x1000, pen.line), bursts)
      else if b.t != pen.clock then [LowWord(b.t)] + Words(pen.(clock := b.t), bursts)
      else if !b.Trigger? && b.y != pen.line then [b.y] + Words(pen.(line := b.y), bursts)
      else BurstWords(b) + Words(pen, bursts[1..])
  }

  function Behind(pen: Pen, bursts: seq<Burst>): nat {
    if bursts != [] && bursts[0].t / 0x1000 > pen.high then bursts[0].t / 0x1000 - pen.high else 0
  }

  function FileWords(bursts: seq<Burst>): seq<Word>
    requires forall i :: 0 <= i < |bursts| ==> bursts[i].Valid()
  {
    if bursts == [] then []
    else
      var high := bursts[0].t / 0x1000;
      [HighWord(high)] + Words(Pen(high, high * 0x1000, 0), bursts)
  }

  // ----- The events -----

  /** One event for every pixel that is on, in ascending x. */
  function VectorCds(x: nat, y: Bits11, p: Bit, on: seq<bool>, t: U64): seq<CdEvent>
    requires x + |on| <= 0x1_0000
    decreases on
  {
    if on == [] then []
    else (if on[0] then [CdEvent(x, y, p, t)] else []) + VectorCds(x + 1, y, p, on[1..], t)
  }

  /** The vectors side by side. */
  function VectorsCds(x: nat, y: Bits11, p: Bit, ons: seq<seq<bool>>, t: U64): seq<CdEvent>
    requires x + Total(ons) <= 0x1_0000
    decreases ons
  {
    if ons == [] then [] else VectorCds(x, y, p, ons[0], t) + VectorsCds(x + |ons[0]|, y, p, ons[1..], t)
  }

  function BurstCds(b: Burst, t: U64): seq<CdEvent>
    requires b.Valid()
  {
    match b
    case Pixel(x, y, p, _) => [CdEvent(x, y, p, t)]
    case Vectors(x, y, p, ons, _) => VectorsCds(x, y, p, ons, t)
    case Trigger(_, _, _) => []
  }

  function BurstTriggers(b: Burst, t: U64): seq<TriggerEvent> {
    if b.Trigger? then [TriggerEvent(b.value, b.id, t)] else []
  }

  /** All bursts are valid and none is before `back` turns of the 24-bit clock. */
  ghost predicate From(bursts: seq<Burst>, back: nat) {
    forall i :: 0 <= i < |bursts| ==> bursts[i].Valid() && back * 0x100_0000 <= bursts[i].t
  }

  /** The CD events, with times moved back by whole turns of the clock. */
  ghost function CdsOf(bursts: seq<Burst>, back: nat): seq<CdEvent>
    requires From(bursts, back)
  {
    if bursts == [] then []
    else BurstCds(bursts[0], bursts[0].t - back * 0x100_0000) + CdsOf(bursts[1..], back)
  }

  ghost function TriggersOf(bursts: seq<Burst>, back: nat): seq<TriggerEvent>
    requires From(bursts, back)
  {
    if bursts == [] then []
    else BurstTriggers(bursts[0], bursts[0].t - back * 0x100_0000) + TriggersOf(bursts[1..], back)
  }

  // ----- Single words -----

  lemma RunCons(s: State, w: Word, rest: seq<Word>)
    ensures Run(s, true, [w] + rest) == Run(Step(s, true, w), true, rest)
    ensures Run(s, true, []) == s
  {
    hide Step;
    assert ([w] + rest)[1..] == rest;
  }

  lemma RunLast(s: State, w: Word)
    ensures Run(s, true, [w]) == Step(s, true, w)
  {
    hide Step;
    assert [w][1..] == [];
  }

  lemma StepLine(s: State, y: Bits11)
    requires s.ready
    ensures Step(s, true, y) == s.(y := y)
  {
    assert TypeOf(y) == EVT_ADDR_Y && XOf(y) == y;
  }

  lemma StepPixel(s: State, x: Bits11, p: Bit)
    requires s.ready
    ensures Step(s, true, 0x2000 + p * 0x800 + x) == s.(cds := s.cds + [CdEvent(x, s.y, p, s.time)])
  {
    var w := 0x2000 + p * 0x800 + x;
    assert TypeOf(w) == EVT_ADDR_X && XOf(w) == x && PolarityOf(w) == p;
  }

  lemma StepBaseX(s: State, x: Bits11, p: Bit)
    requires s.ready
    ensures Step(s, true, 0x3000 + p * 0x800 + x) == s.(polarity := p, baseX := x)
  {
    var w := 0x3000 + p * 0x800 + x;
    assert TypeOf(w) == VECT_BASE_X && XOf(w) == x && PolarityOf(w) == p;
  }

  lemma StepTrigger(s: State, value: Bit, id: Bits4)
    requires s.ready
    ensures Step(s, true, 0xA000 + id * 0x100 + value) == s.(triggers := s.triggers + [TriggerEvent(value, id, s.time)])
  {
    var w := 0xA000 + id * 0x100 + value;
    assert TypeOf(w) == EXT_TRIGGER && ValueOf(w) == value && IdOf(w) == id;
  }

  lemma StepLow(s: State, low: Bits12)
    requires s.ready
    ensures Step(s, true, 0x6000 + low) == s.(timeLow := low, time := ToU64(s.base.us + low))
  {
    hide ToU64;
    assert TypeOf(0x6000 + low) == EVT_TIME_LOW && TimeOf(0x6000 + low) == low;
  }

  lemma {:induction false} VectorMeans(s: State, x: nat, y: Bits11, p: Bit, on: seq<bool>)
    requires x + |on| < 0x1_0000 && s.y == y && s.polarity == p
    ensures VectorEvents(s, x, |on|, Number(on)) == VectorCds(x, y, p, on, s.time)
    decreases on
  {
    if on != [] {
      VectorMeans(s, x + 1, y, p, on[1..]);
    }
  }

  lemma VectorFields(on: seq<bool>)
    requires |on| == 12 || |on| == 8
    ensures var w := VectorWord(on);
            Evt3Vectors.IsVector(w) && VectorWidth(w) == |on| && ValidOf(w, |on|) == Number(on)
  {
    NumberFits(on);
    hide Number;
  }

  lemma SmallCounter(x: nat)
    requires x < 0x1_0000
    ensures ToU16(x) == x
  {
  }

  lemma StepVectorWord(s: State, on: seq<bool>)
    requires s.ready && (|on| == 12 || |on| == 8)
    ensures Step(s, true, VectorWord(on))
         == s.(cds := s.cds + VectorEvents(s, s.baseX, |on|, Number(on)), baseX := ToU16(s.baseX + |on|))
  {
    hide Step, VectorEvents, Number, VectorWord, ToU16, ValidOf, TypeOf, VectorWidth, Evt3Vectors.IsVector;
    VectorFields(on);
    Evt3Vectors.StepVector(s, true, VectorWord(on));
  }

  lemma StepVector(s: State, on: seq<bool>)
    requires s.ready && (|on| == 12 || |on| == 8) && s.baseX + |on| < 0x1_0000 && s.y < 0x800 && s.polarity < 2
    ensures Step(s, true, VectorWord(on))
         == s.(cds := s.cds + VectorCds(s.baseX, s.y, s.polarity, on, s.time), baseX := s.baseX + |on|)
  {
    hide Step, VectorEvents, VectorCds, Number, VectorWord, ToU16;
    StepVectorWord(s, on);
    SmallCounter(s.baseX + |on|);
    VectorMeans(s, s.baseX, s.y, s.polarity, on);
  }

  /** The system bit of a line word and the unused bits of an 8-pixel vector and of a trigger make no difference. */
  lemma UnusedBitsIgnored(s: State, writeTriggers: bool, y: Bits11, orig: Bit, valid: nat, unused: nat, value: Bit,
                          id: Bits4, unused2: nat)
    requires valid < 0x100 && unused < 0x10 && unused2 < 0x80
    ensures Step(s, writeTriggers, y + orig * 0x800) == Step(s, writeTriggers, y)
    ensures Step(s, writeTriggers, 0x5000 + unused * 0x100 + valid) == Step(s, writeTriggers, 0x5000 + valid)
    ensures Step(s, writeTriggers, 0xA000 + id * 0x100 + unused2 * 2 + value)
         == Step(s, writeTriggers, 0xA000 + id * 0x100 + value)
  {
    LineFields(y, orig);
    VectorUnused(valid, unused);
    TriggerFields(value, id, unused2);
    hide TypeOf, XOf, PolarityOf, ValidOf, ValueOf, IdOf, TimeOf, Advance, VectorEvents, ToU16, ToU64;
  }

  lemma LineFields(y: Bits11, orig: Bit)
    ensures TypeOf(y + orig * 0x800) == TypeOf(y) == EVT_ADDR_Y && XOf(y + orig * 0x800) == XOf(y)
  {
  }

  lemma VectorUnused(valid: nat, unused: nat)
    requires valid < 0x100 && unused < 0x10
    ensures TypeOf(0x5000 + unused * 0x100 + valid) == TypeOf(0x5000 + valid) == VECT_8
    ensures ValidOf(0x5000 + unused * 0x100 + valid, 8) == ValidOf(0x5000 + valid, 8)
  {
  }

  lemma TriggerFields(value: Bit, id: Bits4, unused: nat)
    requires unused < 0x80
    ensures var a, b := 0xA000 + id * 0x100 + unused * 2 + value, 0xA000 + id * 0x100 + value;
            TypeOf(a) == TypeOf(b) == EXT_TRIGGER && ValueOf(a) == ValueOf(b) && IdOf(a) == IdOf(b)
  {
  }

  // ----- One burst -----

  /** What a burst adds to the outputs; the polarity and the base may change. */
  ghost predicate Adds(s: State, r: State, b: Burst)
    requires b.Valid()
  {
    && r.ready && r.base == s.base && r.y == s.y && r.time == s.time
    && r.cds == s.cds + BurstCds(b, s.time) && r.triggers == s.triggers + BurstTriggers(b, s.time)
  }

  lemma PixelDecoded(s: State, b: Burst)
    requires s.ready && b.Valid() && b.Pixel? && s.y == b.y
    ensures Adds(s, Run(s, true, BurstWords(b)), b)
  {
    hide Run, Step;
    var pixel: Word := 0x2000 + b.p * 0x800 + b.x;
    StepPixel(s, b.x, b.p);
    RunLast(s, pixel);
    assert s.triggers + [] == s.triggers;
    assert BurstWords(b) == [pixel];
  }

  lemma {:induction false} VectorsDecoded(s: State, ons: seq<seq<bool>>)
    requires s.ready && s.y < 0x800 && s.polarity < 2 && Widths(ons) && s.baseX + Total(ons) < 0x1_0000
    ensures var r := Run(s, true, VectorWords(ons));
            r == s.(cds := s.cds + VectorsCds(s.baseX, s.y, s.polarity, ons, s.time), baseX := r.baseX)
    decreases ons
  {
    hide Run, Step, VectorCds, VectorWord;
    if ons == [] {
      RunCons(s, 0, []);
      assert s.cds + [] == s.cds;
    } else {
      StepVector(s, ons[0]);
      var s' := Step(s, true, VectorWord(ons[0]));
      RunCons(s, VectorWord(ons[0]), VectorWords(ons[1..]));
      VectorsDecoded(s', ons[1..]);
      Assoc(s.cds, VectorCds(s.baseX, s.y, s.polarity, ons[0], s.time),
            VectorsCds(s'.baseX, s.y, s.polarity, ons[1..], s.time));
    }
  }

  lemma VectorBurstDecoded(s: State, b: Burst)
    requires s.ready && b.Valid() && b.Vectors? && s.y == b.y
    ensures Adds(s, Run(s, true, BurstWords(b)), b)
  {
    hide Run, Step, VectorsCds, VectorWords;
    var based, base: Word := s.(polarity := b.p, baseX := b.x), 0x3000 + b.p * 0x800 + b.x;
    StepBaseX(s, b.x, b.p);
    VectorsDecoded(based, b.ons);
    RunCons(s, base, VectorWords(b.ons));
    assert s.triggers + [] == s.triggers;
    assert BurstWords(b) == [base] + VectorWords(b.ons);
  }

  lemma TriggerDecoded(s: State, b: Burst)
    requires s.ready && b.Valid() && b.Trigger?
    ensures Adds(s, Run(s, true, BurstWords(b)), b)
  {
    hide Run, Step;
    var w: Word := 0xA000 + b.id * 0x100 + b.value;
    StepTrigger(s, b.value, b.id);
    RunLast(s, w);
    assert s.cds + [] == s.cds;
    assert BurstWords(b) == [w];
  }

  lemma BurstDecoded(s: State, b: Burst)
    requires s.ready && b.Valid() && (b.Trigger? || s.y == b.y)
    ensures Adds(s, Run(s, true, BurstWords(b)), b)
  {
    hide Run, BurstWords, Adds;
    match b {
      case Pixel(_, _, _, _) => PixelDecoded(s, b);
      case Vectors(_, _, _, _, _) => VectorBurstDecoded(s, b);
      case Trigger(_, _, _) => TriggerDecoded(s, b);
    }
  }

  // ----- The clock -----

  /** The decoder's variables are what the pen has set, `back` turns of the clock behind. */
  ghost predicate Follows(s: State, pen: Pen, back: nat) {
    && s.ready && s.y == pen.line
    && back * 0x1000 <= pen.high < 0x1000_0000_0000 && pen.clock / 0x1000 == pen.high
    && s.base == At(Evt3, pen.high - back * 0x1000) && s.time == pen.clock - back * 0x100_0000
  }

  lemma FieldOfTurned(high: nat, back: nat)
    requires back * 0x1000 <= high
    ensures (high - back * 0x1000) % 0x1000 == high % 0x1000
  {
  }

  /** A time high also sets the time. */
  lemma NextHigh(s: State, pen: Pen, back: nat)
    requires Follows(s, pen, back) && pen.high + 1 < 0x1000_0000_0000
    ensures var r := Step(s, true, HighWord(pen.high + 1));
            && Follows(r, Pen(pen.high + 1, (pen.high + 1) * 0x1000, pen.line), back)
            && r.cds == s.cds && r.triggers == s.triggers
  {
    var w, h := HighWord(pen.high + 1), pen.high - back * 0x1000;
    assert TypeOf(w) == EVT_TIME_HIGH && TimeOf(w) == (pen.high + 1) % 0x1000;
    assert At(Evt3, h + 1).us == (h + 1) * 0x1000;
    hide Advance, At, TypeOf, TimeOf;
    FieldOfTurned(pen.high + 1, back);
    AdvanceExact(Evt3, h, h + 1);
  }

  lemma FirstHigh(t: nat)
    requires t < 0x100_0000_0000_0000
    ensures var r, high := Step(INIT, true, HighWord(t / 0x1000)), t / 0x1000;
            Follows(r, Pen(high, high * 0x1000, 0), t / 0x100_0000) && r.cds == [] && r.triggers == []
  {
    var w, high, back := HighWord(t / 0x1000), t / 0x1000, t / 0x100_0000;
    assert TypeOf(w) == EVT_TIME_HIGH && TimeOf(w) == high % 0x1000;
    assert high / 0x1000 == back;
    assert high == back * 0x1000 + high % 0x1000;
  }

  lemma NextLow(s: State, pen: Pen, back: nat, t: nat)
    requires Follows(s, pen, back) && t / 0x1000 == pen.high
    ensures var r := Step(s, true, LowWord(t));
            Follows(r, pen.(clock := t), back) && r.cds == s.cds && r.triggers == s.triggers
  {
    StepLow(s, t % 0x1000);
    assert t == t / 0x1000 * 0x1000 + t % 0x1000;
  }

  lemma NextLine(s: State, pen: Pen, back: nat, y: Bits11)
    requires Follows(s, pen, back)
    ensures var r := Step(s, true, y);
            Follows(r, pen.(line := y), back) && r.cds == s.cds && r.triggers == s.triggers
  {
    StepLine(s, y);
  }

  lemma NextBurst(s: State, pen: Pen, back: nat, b: Burst, rest: seq<Word>) returns (r: State)
    requires Follows(s, pen, back) && b.Valid() && b.t == pen.clock && (b.Trigger? || b.y == pen.line)
    ensures back * 0x100_0000 <= b.t && Follows(r, pen, back)
    ensures r.cds == s.cds + BurstCds(b, b.t - back * 0x100_0000)
    ensures r.triggers == s.triggers + BurstTriggers(b, b.t - back * 0x100_0000)
    ensures Run(s, true, BurstWords(b) + rest) == Run(r, true, rest)
  {
    hide Run, At, BurstWords, BurstCds, BurstTriggers;
    BurstDecoded(s, b);
    r := Run(s, true, BurstWords(b));
    RunConcat(s, true, BurstWords(b), rest);
  }

  // ----- The file -----

  lemma {:induction false} WordsDecoded(s: State, pen: Pen, bursts: seq<Burst>, back: nat)
    requires Follows(s, pen, back) && Ordered(bursts) && From(bursts, back)
    requires bursts != [] ==> pen.high <= bursts[0].t / 0x1000
    ensures var r := Run(s, true, Words(pen, bursts));
            r.cds == s.cds + CdsOf(bursts, back) && r.triggers == s.triggers + TriggersOf(bursts, back)
    decreases |bursts|, Behind(pen, bursts), if bursts != [] && bursts[0].t != pen.clock then 1 else 0,
              if bursts != [] && !bursts[0].Trigger? && bursts[0].y != pen.line then 1 else 0
  {
    hide Run, Step, Follows, BurstWords, BurstCds, BurstTriggers, HighWord, LowWord;
    if bursts == [] {
      RunCons(s, 0, []);
    } else {
      var b := bursts[0];
      if b.t / 0x1000 > pen.high {
        NextHigh(s, pen, back);
        var next := Pen(pen.high + 1, (pen.high + 1) * 0x1000, pen.line);
        RunCons(s, HighWord(pen.high + 1), Words(next, bursts));
        WordsDecoded(Step(s, true, HighWord(pen.high + 1)), next, bursts, back);
      } else if b.t != pen.clock {
        NextLow(s, pen, back, b.t);
        RunCons(s, LowWord(b.t), Words(pen.(clock := b.t), bursts));
        WordsDecoded(Step(s, true, LowWord(b.t)), pen.(clock := b.t), bursts, back);
      } else if !b.Trigger? && b.y != pen.line {
        NextLine(s, pen, back, b.y);
        RunCons(s, b.y, Words(pen.(line := b.y), bursts));
        WordsDecoded(Step(s, true, b.y), pen.(line := b.y), bursts, back);
      } else {
        var rest, t := bursts[1..], b.t - back * 0x100_0000;
        var r := NextBurst(s, pen, back, b, Words(pen, rest));
        WordsDecoded(r, pen, rest, back);
        Assoc(s.cds, BurstCds(b, t), CdsOf(rest, back));
        Assoc(s.triggers, BurstTriggers(b, t), TriggersOf(rest, back));
      }
    }
  }

  lemma OrderedFrom(bursts: seq<Burst>)
    requires Ordered(bursts) && bursts != []
    ensures From(bursts, bursts[0].t / 0x100_0000)
  {
  }

  /**
   The EVT3 round trip. A file written for any time-ordered bursts decodes to exactly their events: every pixel with its
   x, y, polarity and time, vectors from left to right, and every trigger with its value, id and time. Times are moved
   back by the whole turns of the 24-bit clock before the first burst; later turns are recovered, any number of them.
   */
  lemma DecodesToItsEvents(bursts: seq<Burst>)
    requires Ordered(bursts) && bursts != []
    ensures From(bursts, bursts[0].t / 0x100_0000)
    ensures var back, r := bursts[0].t / 0x100_0000, Run(INIT, true, FileWords(bursts));
            r.cds == CdsOf(bursts, back) && r.triggers == TriggersOf(bursts, back)
  {
    hide Run, Step, Follows, Words, CdsOf, TriggersOf, HighWord;
    OrderedFrom(bursts);
    var high := bursts[0].t / 0x1000;
    var pen := Pen(high, high * 0x1000, 0);
    FirstHigh(bursts[0].t);
    RunCons(INIT, HighWord(high), Words(pen, bursts));
    WordsDecoded(Step(INIT, true, HighWord(high)), pen, bursts, bursts[0].t / 0x100_0000);
  }

  /** The decoder on such a file. The flag takes away the triggers and nothing else. */
  method DecodeWritten(bursts: seq<Burst>, writeTriggers: bool)
    returns (cds: seq<CdEvent>, triggers: seq<TriggerEvent>)
    requires Ordered(bursts) && bursts != []
    ensures From(bursts, bursts[0].t / 0x100_0000)
    ensures cds == CdsOf(bursts, bursts[0].t / 0x100_0000)
    ensures triggers == if writeTriggers then TriggersOf(bursts, bursts[0].t / 0x100_0000) else []
  {
    hide Run, FileWords, CdsOf, TriggersOf;
    DecodesToItsEvents(bursts);
    FileWithoutTriggers(FileWords(bursts));
    cds, triggers := DecodeFile(FileWords(bursts), writeTriggers);
  }
}
