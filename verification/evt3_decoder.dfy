/** The standalone EVT3 decoder: a machine over 16-bit words with vectors of pixels and 24-bit time unwrapping. */
module Evt3Decoder {
  import opened MachineInts
  import opened TimeBase

  type Word = U16

  type Bits4 = x: nat | x < 0x10
  type Bits11 = x: nat | x < 0x800
  type Bits12 = x: nat | x < 0x1000
  type Bit = x: nat | x < 2

  datatype CdEvent = CdEvent(x: U16, y: U16, p: U16, t: U64)
  datatype TriggerEvent = TriggerEvent(value: Bit, id: Bits4, t: U64)

  const EVT_ADDR_Y: nat := 0x0
  const EVT_ADDR_X: nat := 0x2
  const VECT_BASE_X: nat := 0x3
  const VECT_12: nat := 0x4
  const VECT_8: nat := 0x5
  const EVT_TIME_LOW: nat := 0x6
  const EVT_TIME_HIGH: nat := 0x8
  const EXT_TRIGGER: nat := 0xA

  const WORDS_TO_READ: nat := 1000000

  // ----- Fields of a word, least significant first -----

  function TypeOf(w: Word): Bits4 { w / 0x1000 }

  function TimeOf(w: Word): Bits12 { w % 0x1000 }

  function XOf(w: Word): Bits11 { w % 0x800 }

  function PolarityOf(w: Word): Bit { w / 0x800 % 2 }

  function ValidOf(w: Word, width: nat): Bits12
    requires width == 12 || width == 8
  {
    if width == 12 then w % 0x1000 else w % 0x100
  }

  function ValueOf(w: Word): Bit { w % 2 }

  function IdOf(w: Word): Bits4 { w / 0x100 % 0x10 }

  function ToU16(x: nat): U16 { x % 0x1_0000 }

  // ----- The machine -----

  datatype State = State(ready: bool, base: Base, timeLow: Bits12, time: U64, y: U16, baseX: U16, polarity: U16,
                         cds: seq<CdEvent>, triggers: seq<TriggerEvent>)

  const INIT: State := State(false, Base(0, 0), 0, 0, 0, 0, 0, [], [])

  function VectorWidth(w: Word): nat
    requires TypeOf(w) == VECT_12 || TypeOf(w) == VECT_8
  {
    if TypeOf(w) == VECT_12 then 12 else 8
  }

  /** The CD events of the low `width` bits of `valid`, in ascending x; x is a 16-bit counter. */
  function VectorEvents(s: State, x: U16, width: nat, valid: nat): seq<CdEvent>
    decreases width
  {
    if width == 0 then []
    else (if valid % 2 == 1 then [CdEvent(x, s.y, s.polarity, s.time)] else [])
         + VectorEvents(s, ToU16(x + 1), width - 1, valid / 2)
  }

  lemma CounterStep(x: U16, n: nat)
    ensures ToU16(x + n) == ToU16(ToU16(x) + n) && ToU16(ToU16(x + n) + 1) == ToU16(x + (n + 1)) && ToU16(x) == x
  {
  }

  lemma CounterReachesEnd(x: U16, n: nat, width: nat)
    requires n <= width <= 12
    ensures ToU16(x + n) == ToU16(x + width) <==> n == width
  {
  }

  lemma VectorSplit(cds: seq<CdEvent>, s: State, x: U16, width: nat, valid: nat)
    requires width > 0
    ensures cds + VectorEvents(s, x, width, valid)
         == (if valid % 2 == 1 then cds + [CdEvent(x, s.y, s.polarity, s.time)] else cds)
            + VectorEvents(s, ToU16(x + 1), width - 1, valid / 2)
  {
  }

  lemma NoMoreEvents(s: State, x: U16, valid: nat)
    ensures VectorEvents(s, x, 0, valid) == []
  {
  }

  function Step(s: State, writeTriggers: bool, w: Word): State {
    var t := TypeOf(w);
    if !s.ready then
      if t == EVT_TIME_HIGH then
        var us := Scale(Evt3, TimeOf(w));
        s.(ready := true, base := Base(us, s.base.loops), time := us)
      else s
    else if t == EVT_ADDR_X then s.(cds := s.cds + [CdEvent(XOf(w), s.y, PolarityOf(w), s.time)])
    else if t == VECT_12 || t == VECT_8 then
      var width := VectorWidth(w);
      s.(cds := s.cds + VectorEvents(s, s.baseX, width, ValidOf(w, width)), baseX := ToU16(s.baseX + width))
    else if t == EVT_ADDR_Y then s.(y := XOf(w))
    else if t == VECT_BASE_X then s.(polarity := PolarityOf(w), baseX := XOf(w))
    else if t == EVT_TIME_HIGH then
      var b := Advance(Evt3, s.base, TimeOf(w));
      s.(base := b, time := b.us)
    else if t == EVT_TIME_LOW then s.(timeLow := TimeOf(w), time := ToU64(s.base.us + TimeOf(w)))
    else if t == EXT_TRIGGER && writeTriggers then
      s.(triggers := s.triggers + [TriggerEvent(ValueOf(w), IdOf(w), s.time)])
    else s
  }

  function Run(s: State, writeTriggers: bool, words: seq<Word>): State
    decreases words
  {
    if words == [] then s else Run(Step(s, writeTriggers, words[0]), writeTriggers, words[1..])
  }

  lemma {:induction false} RunConcat(s: State, writeTriggers: bool, a: seq<Word>, b: seq<Word>)
    ensures Run(s, writeTriggers, a + b) == Run(Run(s, writeTriggers, a), writeTriggers, b)
    decreases a
  {
    hide Step;
    if a == [] {
      assert a + b == b;
    } else {
      assert (a + b)[1..] == a[1..] + b;
      RunConcat(Step(s, writeTriggers, a[0]), writeTriggers, a[1..], b);
    }
  }

  /** The loop that looks for the first time high stops on it, so the main loop decodes that word again. */
  lemma SkipOrSet(s: State, writeTriggers: bool, w: Word)
    requires !s.ready && s.base.loops == 0
    ensures if TypeOf(w) == EVT_TIME_HIGH then
              var s' := s.(base := Base(Scale(Evt3, TimeOf(w)), 0), ready := true);
              Step(s', writeTriggers, w) == Step(s, writeTriggers, w)
            else Step(s, writeTriggers, w) == s
  {
    hide Advance, TypeOf, TimeOf;
    if TypeOf(w) == EVT_TIME_HIGH {
      AdvanceRepeatsFirst(Evt3, TimeOf(w));
    }
  }

  // ----- What the output depends on -----

  /** The flag decides the triggers only: without it none is output, and everything else is the same. */
  lemma {:induction false} TriggersOptional(a: State, b: State, words: seq<Word>)
    requires a == b.(triggers := a.triggers)
    ensures Run(a, false, words) == Run(b, true, words).(triggers := a.triggers)
    decreases words
  {
    if words != [] {
      StepTriggersOptional(a, b, words[0]);
      TriggersOptional(Step(a, false, words[0]), Step(b, true, words[0]), words[1..]);
    }
  }

  lemma StepTriggersOptional(a: State, b: State, w: Word)
    requires a == b.(triggers := a.triggers)
    ensures Step(a, false, w) == Step(b, true, w).(triggers := a.triggers)
  {
    hide Advance, TimeOf, XOf, PolarityOf, ValidOf, ValueOf, IdOf, ToU16, ToU64;
    if a.ready && (TypeOf(w) == VECT_12 || TypeOf(w) == VECT_8) {
      SameVector(a, b, a.baseX, VectorWidth(w), ValidOf(w, VectorWidth(w)));
    }
  }

  lemma {:induction false} SameVector(a: State, b: State, x: U16, width: nat, valid: nat)
    requires a.y == b.y && a.polarity == b.polarity && a.time == b.time
    ensures VectorEvents(a, x, width, valid) == VectorEvents(b, x, width, valid)
    decreases width
  {
    hide ToU16;
    if width > 0 {
      SameVector(a, b, ToU16(x + 1), width - 1, valid / 2);
    }
  }

  /** A file decoded without and with its triggers. */
  lemma FileWithoutTriggers(words: seq<Word>)
    ensures Run(INIT, false, words).cds == Run(INIT, true, words).cds && Run(INIT, false, words).triggers == []
  {
    hide Run;
    TriggersOptional(INIT, INIT, words);
  }

  lemma {:induction false} SkipsUntilTimeHigh(s: State, writeTriggers: bool, words: seq<Word>)
    requires !s.ready && forall i :: 0 <= i < |words| ==> words[i] / 0x1000 != 0x8
    ensures Run(s, writeTriggers, words) == s
    decreases words
  {
    if words != [] {
      SkipsUntilTimeHigh(s, writeTriggers, words[1..]);
    }
  }

  /** The words before the first time high have no effect at all. */
  lemma LeadingWordsDropped(writeTriggers: bool, before: seq<Word>, rest: seq<Word>)
    requires forall i :: 0 <= i < |before| ==> before[i] / 0x1000 != 0x8
    ensures Run(INIT, writeTriggers, before + rest) == Run(INIT, writeTriggers, rest)
  {
    hide Run;
    RunConcat(INIT, writeTriggers, before, rest);
    SkipsUntilTimeHigh(INIT, writeTriggers, before);
  }

  /** A word of any type that the decoder does not know can be taken out of a file anywhere. */
  lemma OtherWordsIgnored(s: State, writeTriggers: bool, a: seq<Word>, w: Word, b: seq<Word>)
    requires w / 0x1000 !in {0x0, 0x2, 0x3, 0x4, 0x5, 0x6, 0x8, 0xA}
    ensures Run(s, writeTriggers, a + [w] + b) == Run(s, writeTriggers, a + b)
  {
    OtherWord(Run(s, writeTriggers, a), writeTriggers, w);
    hide Run;
    RunConcat(s, writeTriggers, a + [w], b);
    RunConcat(s, writeTriggers, a, [w]);
    RunConcat(s, writeTriggers, a, b);
  }

  lemma OtherWord(s: State, writeTriggers: bool, w: Word)
    requires w / 0x1000 !in {0x0, 0x2, 0x3, 0x4, 0x5, 0x6, 0x8, 0xA}
    ensures Run(s, writeTriggers, [w]) == s
  {
    assert [w][1..] == [];
  }

  class Decoder {
    const writeTriggers: bool
    var firstTimeBaseSet: bool
    var currentTimeBase: U64
    var currentTimeLow: Bits12
    var currentTime: U64
    var currentEvAddrY: U16
    var currentBaseX: U16
    var currentPolarity: U16
    var nTimeHighLoop: U32
    var cds: seq<CdEvent>
    var triggers: seq<TriggerEvent>

    constructor (writeTriggers: bool)
      ensures this.writeTriggers == writeTriggers && Current() == INIT && Valid()
    {
      this.writeTriggers := writeTriggers;
      firstTimeBaseSet, currentTimeBase, currentTimeLow, currentTime := false, 0, 0, 0;
      currentEvAddrY, currentBaseX, currentPolarity, nTimeHighLoop := 0, 0, 0, 0;
      cds, triggers := [], [];
    }

    ghost function Current(): State
      reads this
    {
      State(firstTimeBaseSet, Base(currentTimeBase, nTimeHighLoop), currentTimeLow, currentTime, currentEvAddrY,
            currentBaseX, currentPolarity, cds, triggers)
    }

    ghost predicate Valid()
      reads this
    {
      !firstTimeBaseSet ==> nTimeHighLoop == 0
    }

    /** The inner loop of a vector word: the counter runs to `end` modulo 2^16 while `valid` is shifted down. */
    method DecodeVector(width: nat, mask: Bits12)
      requires width == 12 || width == 8
      modifies `cds, `currentBaseX
      ensures cds == old(cds) + VectorEvents(old(Current()), old(currentBaseX), width, mask)
      ensures currentBaseX == ToU16(old(currentBaseX) + width)
    {
      hide VectorEvents, ToU16;
      ghost var s := Current();
      var end := ToU16(currentBaseX + width);
      var valid: nat, i: nat := mask, currentBaseX;
      ghost var n, goal := 0, s.cds + VectorEvents(s, s.baseX, width, mask);
      CounterStep(s.baseX, 0);
      while i != end
        invariant n <= width && i == ToU16(s.baseX + n)
        invariant s == Current().(cds := s.cds)
        invariant cds + VectorEvents(s, i, width - n, valid) == goal
        decreases width - n
      {
        CounterReachesEnd(s.baseX, n, width);
        CounterStep(s.baseX, n);
        VectorSplit(cds, s, i, width - n, valid);
        if valid % 2 == 1 {
          cds := cds + [CdEvent(i, currentEvAddrY, currentPolarity, currentTime)];
        }
        valid := valid / 2;
        i := ToU16(i + 1);
        n := n + 1;
      }
      CounterReachesEnd(s.baseX, n, width);
      NoMoreEvents(s, i, valid);
      currentBaseX := end;
    }

    /** One switch of the main loop. */
    method DecodeWord(w: Word)
      requires Valid() && firstTimeBaseSet
      modifies this
      ensures Valid() && firstTimeBaseSet
      ensures Current() == Step(old(Current()), writeTriggers, w)
    {
      hide VectorEvents, TimeOf, XOf, PolarityOf, ValidOf, ValueOf, IdOf;
      var t := TypeOf(w);
      if t == EVT_ADDR_X {
        cds := cds + [CdEvent(XOf(w), currentEvAddrY, PolarityOf(w), currentTime)];
      } else if t == VECT_12 {
        DecodeVector(12, ValidOf(w, 12));
      } else if t == VECT_8 {
        DecodeVector(8, ValidOf(w, 8));
      } else if t == EVT_ADDR_Y {
        currentEvAddrY := XOf(w);
      } else if t == VECT_BASE_X {
        currentPolarity := PolarityOf(w);
        currentBaseX := XOf(w);
      } else if t == EVT_TIME_HIGH {
        hide ToU64;
        var newTimeBase := ToU64(Scale(Evt3, TimeOf(w)) + ToU64(Loops(Evt3, nTimeHighLoop)));
        if currentTimeBase > newTimeBase && currentTimeBase - newTimeBase >= WrapDistance(Evt3) {
          newTimeBase := ToU64(newTimeBase + Loops(Evt3, 1));
          nTimeHighLoop := ToU32(nTimeHighLoop + 1);
        }
        currentTimeBase := newTimeBase;
        currentTime := currentTimeBase;
      } else if t == EVT_TIME_LOW {
        currentTimeLow := TimeOf(w);
        currentTime := ToU64(currentTimeBase + currentTimeLow);
      } else if t == EXT_TRIGGER {
        if writeTriggers {
          triggers := triggers + [TriggerEvent(ValueOf(w), IdOf(w), currentTime)];
        }
      }
    }

    method DecodeBuffer(words: seq<Word>)
      requires Valid()
      modifies this
      ensures Valid() && Current() == Run(old(Current()), writeTriggers, words)
    {
      hide Step, TimeOf;
      ghost var goal := Run(Current(), writeTriggers, words);
      var k := 0;
      while !firstTimeBaseSet && k < |words|
        invariant k <= |words| && Valid()
        invariant Run(Current(), writeTriggers, words[k..]) == goal
      {
        assert words[k..][0] == words[k] && words[k..][1..] == words[k + 1..];
        SkipOrSet(Current(), writeTriggers, words[k]);
        if TypeOf(words[k]) == EVT_TIME_HIGH {
          currentTimeBase := Scale(Evt3, TimeOf(words[k]));
          firstTimeBaseSet := true;
          break;
        }
        k := k + 1;
      }
      while k < |words|
        invariant k <= |words| && Valid() && (k < |words| ==> firstTimeBaseSet)
        invariant Run(Current(), writeTriggers, words[k..]) == goal
      {
        assert words[k..][0] == words[k] && words[k..][1..] == words[k + 1..];
        DecodeWord(words[k]);
        k := k + 1;
      }
    }
  }

  /** A whole file, read `WORDS_TO_READ` words at a time. Where the buffers end makes no difference. */
  method DecodeFile(words: seq<Word>, writeTriggers: bool) returns (cds: seq<CdEvent>, triggers: seq<TriggerEvent>)
    ensures var s := Run(INIT, writeTriggers, words); cds == s.cds && triggers == s.triggers
  {
    hide Step;
    var decoder := new Decoder(writeTriggers);
    var k := 0;
    while k < |words|
      invariant k <= |words| && decoder.Valid() && decoder.writeTriggers == writeTriggers
      invariant decoder.Current() == Run(INIT, writeTriggers, words[..k])
    {
      hide Run;
      var end := if |words| - k < WORDS_TO_READ then |words| else k + WORDS_TO_READ;
      decoder.DecodeBuffer(words[k..end]);
      assert words[..end] == words[..k] + words[k..end];
      RunConcat(INIT, writeTriggers, words[..k], words[k..end]);
      k := end;
    }
    assert words[..k] == words;
    cds, triggers := decoder.cds, decoder.triggers;
  }

  // ----- The decoder's clock -----

  /** The time-high fields of a stream. */
  function Highs(words: seq<Word>): (r: seq<nat>)
    ensures forall i :: 0 <= i < |r| ==> r[i] < Count(Evt3)
  {
    if words == [] then []
    else (if TypeOf(words[0]) == EVT_TIME_HIGH then [TimeOf(words[0])] else []) + Highs(words[1..])
  }

  /** The decoder's time base after each time-high word. */
  function BasesSeen(s: State, writeTriggers: bool, words: seq<Word>): seq<Base>
    decreases words
  {
    if words == [] then []
    else
      var s' := Step(s, writeTriggers, words[0]);
      (if TypeOf(words[0]) == EVT_TIME_HIGH then [s'.base] else []) + BasesSeen(s', writeTriggers, words[1..])
  }

  lemma StepBase(s: State, writeTriggers: bool, w: Word)
    ensures s.ready ==>
      var s' := Step(s, writeTriggers, w);
      s'.ready && s'.base == if TypeOf(w) == EVT_TIME_HIGH then Advance(Evt3, s.base, TimeOf(w)) else s.base
    ensures !s.ready && s.base.loops == 0 ==>
      var s' := Step(s, writeTriggers, w);
      if TypeOf(w) == EVT_TIME_HIGH then s'.ready && s'.base == First(Evt3, TimeOf(w)) else s' == s
  {
  }

  lemma {:induction false} BasesSeenAreAdvances(s: State, writeTriggers: bool, words: seq<Word>)
    requires s.ready
    ensures BasesSeen(s, writeTriggers, words) == Bases(Evt3, s.base, Highs(words))
    decreases words
  {
    hide Advance, Step, TimeOf, TypeOf;
    if words != [] {
      StepBase(s, writeTriggers, words[0]);
      BasesSeenAreAdvances(Step(s, writeTriggers, words[0]), writeTriggers, words[1..]);
      if TypeOf(words[0]) == EVT_TIME_HIGH {
        assert Highs(words)[0] == TimeOf(words[0]) && Highs(words)[1..] == Highs(words[1..]);
      } else {
        assert Highs(words) == Highs(words[1..]);
      }
    }
  }

  lemma {:induction false} BasesSeenFromStart(s: State, writeTriggers: bool, words: seq<Word>)
    requires !s.ready && s.base.loops == 0
    ensures BasesSeen(s, writeTriggers, words) == BasesFromFirst(Evt3, Highs(words))
    decreases words
  {
    hide Advance, First, Step, TimeOf, TypeOf;
    if words != [] {
      StepBase(s, writeTriggers, words[0]);
      var s' := Step(s, writeTriggers, words[0]);
      if TypeOf(words[0]) == EVT_TIME_HIGH {
        assert Highs(words)[0] == TimeOf(words[0]) && Highs(words)[1..] == Highs(words[1..]);
        BasesSeenAreAdvances(s', writeTriggers, words[1..]);
      } else {
        assert Highs(words) == Highs(words[1..]);
        BasesSeenFromStart(s', writeTriggers, words[1..]);
      }
    }
  }

  /**
   A stream whose time-high words are the 12-bit truncations of a true clock: whatever other words lie between
   them, the decoder's base is the true one at every time high if and only if no wrap is crossed by more than
   45056 us.
   */
  lemma ClockExactIff(writeTriggers: bool, words: seq<Word>, hs: seq<nat>)
    requires hs != [] && TrueSequence(Evt3, hs) && hs[0] < Count(Evt3)
    requires Highs(words) == Fields(Evt3, hs)
    ensures BasesSeen(INIT, writeTriggers, words) == TrueBases(Evt3, hs) <==> AllGapsRecoverable(Evt3, hs)
  {
    hide BasesSeen, BasesFromFirst, TrueBases, Fields, AllGapsRecoverable, Highs;
    BasesSeenFromStart(INIT, writeTriggers, words);
    UnwrapIsExactIff(Evt3, hs);
  }
}

/** Vector words mean what their expansion into single-pixel words means. */
module Evt3Vectors {
  import opened MachineInts
  import opened Evt3Decoder
  import opened TimeBase

  function AddrX(x: Bits11, polarity: Bit): Word { EVT_ADDR_X * 0x1000 + polarity * 0x800 + x }

  function VectBaseX(x: Bits11, polarity: Bit): Word { VECT_BASE_X * 0x1000 + polarity * 0x800 + x }

  predicate IsVector(w: Word) { TypeOf(w) == VECT_12 || TypeOf(w) == VECT_8 }

  /** An EVT_ADDR_X word for each set bit, in ascending x. The word has 11 bits for x. */
  function Singles(x: U16, polarity: Bit, width: nat, valid: nat): seq<Word>
    decreases width
  {
    if width == 0 then []
    else (if valid % 2 == 1 then [AddrX(x % 0x800, polarity)] else [])
         + Singles(ToU16(x + 1), polarity, width - 1, valid / 2)
  }

  /** A vector word as single-pixel words and a VECT_BASE_X that moves the base on. */
  function ExpandWord(s: State, w: Word): seq<Word> {
    if s.ready && IsVector(w) then
      var width := VectorWidth(w);
      Singles(s.baseX, s.polarity % 2, width, ValidOf(w, width))
      + [VectBaseX(ToU16(s.baseX + width) % 0x800, s.polarity % 2)]
    else [w]
  }

  function Expand(s: State, writeTriggers: bool, words: seq<Word>): seq<Word>
    decreases words
  {
    if words == [] then []
    else ExpandWord(s, words[0]) + Expand(Step(s, writeTriggers, words[0]), writeTriggers, words[1..])
  }

  /** Every set bit's x fits the 11-bit field of EVT_ADDR_X. */
  predicate SetBitsFit(x: U16, width: nat, valid: nat)
    decreases width
  {
    width > 0 ==> (valid % 2 == 1 ==> x < 0x800) && SetBitsFit(ToU16(x + 1), width - 1, valid / 2)
  }

  predicate WordFits(s: State, w: Word) {
    s.ready && IsVector(w) ==> SetBitsFit(s.baseX, VectorWidth(w), ValidOf(w, VectorWidth(w)))
  }

  /** No set bit of any vector word of the stream lies past column 2047. */
  predicate AllFit(s: State, writeTriggers: bool, words: seq<Word>)
    decreases words
  {
    words == [] || (WordFits(s, words[0]) && AllFit(Step(s, writeTriggers, words[0]), writeTriggers, words[1..]))
  }

  /** `e` runs through an expanded stream while `s` runs through the stream itself. */
  predicate Twins(e: State, s: State) {
    && s.polarity < 2 && |e.cds| == |s.cds|
    && e == s.(baseX := s.baseX % 0x800, cds := e.cds)
  }

  lemma StepAddrX(s: State, writeTriggers: bool, x: Bits11, polarity: Bit)
    requires s.ready
    ensures Step(s, writeTriggers, AddrX(x, polarity)) == s.(cds := s.cds + [CdEvent(x, s.y, polarity, s.time)])
  {
  }

  lemma StepVectBaseX(s: State, writeTriggers: bool, x: Bits11, polarity: Bit)
    requires s.ready
    ensures Step(s, writeTriggers, VectBaseX(x, polarity)) == s.(polarity := polarity, baseX := x)
  {
  }

  /** The single-pixel words decode to the vector's events when every set bit's x fits, and only then. */
  lemma {:induction false} RunSingles(e: State, writeTriggers: bool, s: State, x: U16, width: nat, valid: nat)
    requires e.ready && s.polarity < 2 && e.y == s.y && e.time == s.time
    ensures var r := Run(e, writeTriggers, Singles(x, s.polarity, width, valid));
            && r == e.(cds := r.cds) && |r.cds| == |e.cds| + |VectorEvents(s, x, width, valid)| && e.cds <= r.cds
            && (r.cds == e.cds + VectorEvents(s, x, width, valid) <==> SetBitsFit(x, width, valid))
    decreases width
  {
    hide Step, ToU16, AddrX;
    if width > 0 {
      var x', rest := ToU16(x + 1), Singles(ToU16(x + 1), s.polarity, width - 1, valid / 2);
      if valid % 2 == 1 {
        var w := AddrX(x % 0x800, s.polarity);
        var want, got := CdEvent(x, s.y, s.polarity, s.time), CdEvent(x % 0x800, s.y, s.polarity, s.time);
        var e' := e.(cds := e.cds + [got]);
        StepAddrX(e, writeTriggers, x % 0x800, s.polarity);
        assert ([w] + rest)[1..] == rest;
        RunSingles(e', writeTriggers, s, x', width - 1, valid / 2);
        var r := Run(e', writeTriggers, rest);
        Appended(e.cds, got, want, VectorEvents(s, x', width - 1, valid / 2), r.cds);
      } else {
        assert [] + rest == rest;
        assert [] + VectorEvents(s, x', width - 1, valid / 2) == VectorEvents(s, x', width - 1, valid / 2);
        RunSingles(e, writeTriggers, s, x', width - 1, valid / 2);
      }
    }
  }

  lemma Appended(cds: seq<CdEvent>, first: CdEvent, want: CdEvent, tail: seq<CdEvent>, r: seq<CdEvent>)
    requires cds + [first] <= r
    ensures r == cds + ([want] + tail) <==> first == want && r == (cds + [first]) + tail
  {
    assert r[|cds|] == first;
    if r == cds + ([want] + tail) {
      assert r[|cds|] == want;
      assert cds + ([want] + tail) == (cds + [want]) + tail;
    }
    if first == want && r == (cds + [first]) + tail {
      assert cds + ([want] + tail) == (cds + [want]) + tail;
    }
  }

  lemma SingleWord(s: State, writeTriggers: bool, w: Word)
    ensures Run(s, writeTriggers, [w]) == Step(s, writeTriggers, w)
  {
  }

  lemma StepVector(s: State, writeTriggers: bool, w: Word)
    requires s.ready && IsVector(w)
    ensures var width := VectorWidth(w);
            Step(s, writeTriggers, w) == s.(cds := s.cds + VectorEvents(s, s.baseX, width, ValidOf(w, width)),
                                            baseX := ToU16(s.baseX + width))
  {
  }

  /** A vector word on twins: the outputs stay equal if and only if they were and every set bit fits. */
  lemma ExpandVector(e: State, s: State, writeTriggers: bool, width: nat, valid: nat)
    requires s.ready && Twins(e, s)
    ensures var end := ToU16(s.baseX + width);
            var words := Singles(s.baseX, s.polarity, width, valid) + [VectBaseX(end % 0x800, s.polarity)];
            var r, s' := Run(e, writeTriggers, words),
                         s.(cds := s.cds + VectorEvents(s, s.baseX, width, valid), baseX := end);
            Twins(r, s') && (r.cds == s'.cds <==> e.cds == s.cds && SetBitsFit(s.baseX, width, valid))
  {
    hide Run, Step, VectorEvents, Singles, SetBitsFit, ToU16, VectBaseX;
    var end := ToU16(s.baseX + width);
    var singles, last := Singles(s.baseX, s.polarity, width, valid), VectBaseX(end % 0x800, s.polarity);
    RunConcat(e, writeTriggers, singles, [last]);
    RunSingles(e, writeTriggers, s, s.baseX, width, valid);
    var r := Run(e, writeTriggers, singles);
    SingleWord(r, writeTriggers, last);
    StepVectBaseX(r, writeTriggers, end % 0x800, s.polarity);
    SameStart(e.cds, s.cds, r.cds, VectorEvents(s, s.baseX, width, valid));
  }

  lemma SameStart(a: seq<CdEvent>, b: seq<CdEvent>, r: seq<CdEvent>, more: seq<CdEvent>)
    requires |a| == |b| && a <= r
    ensures r == b + more <==> a == b && r == a + more
  {
    if r == b + more {
      assert r[..|a|] == b;
    }
  }

  lemma TwinWord(e: State, s: State, writeTriggers: bool, w: Word)
    requires Twins(e, s) && !(s.ready && IsVector(w))
    ensures var r, s' := Step(e, writeTriggers, w), Step(s, writeTriggers, w);
            Twins(r, s') && (r.cds == s'.cds <==> e.cds == s.cds)
  {
    hide TimeOf, XOf, PolarityOf, ValidOf, VectorEvents, Advance, ValueOf, IdOf, ToU64, ToU16;
    if s.ready && TypeOf(w) == EVT_ADDR_X {
      var event := CdEvent(XOf(w), s.y, PolarityOf(w), s.time);
      SameStart(e.cds, s.cds, e.cds + [event], [event]);
    }
  }

  /**
   One word and its expansion, on twins, leave twins. The CD lists stay equal if and only if they were and every set
   bit of the word has an x that fits.
   */
  lemma ExpandWordIff(e: State, s: State, writeTriggers: bool, w: Word)
    requires Twins(e, s)
    ensures var r, s' := Run(e, writeTriggers, ExpandWord(s, w)), Step(s, writeTriggers, w);
            Twins(r, s') && (r.cds == s'.cds <==> e.cds == s.cds && WordFits(s, w))
  {
    hide Run, Step, VectorEvents, Singles, SetBitsFit, ToU16, VectBaseX, TypeOf, ValidOf;
    if s.ready && IsVector(w) {
      StepVector(s, writeTriggers, w);
      ExpandVector(e, s, writeTriggers, VectorWidth(w), ValidOf(w, VectorWidth(w)));
    } else {
      SingleWord(e, writeTriggers, w);
      TwinWord(e, s, writeTriggers, w);
    }
  }

  /** What an expanded stream decodes to, from twin states: everything but the CD list is the same in any case. */
  lemma {:induction false} ExpandIff(e: State, s: State, writeTriggers: bool, words: seq<Word>)
    requires Twins(e, s)
    ensures var r, s' := Run(e, writeTriggers, Expand(s, writeTriggers, words)), Run(s, writeTriggers, words);
            Twins(r, s') && (r.cds == s'.cds <==> e.cds == s.cds && AllFit(s, writeTriggers, words))
    decreases words
  {
    hide Step, WordFits, ExpandWord;
    if words != [] {
      var s', rest := Step(s, writeTriggers, words[0]), words[1..];
      ExpandWordIff(e, s, writeTriggers, words[0]);
      RunConcat(e, writeTriggers, ExpandWord(s, words[0]), Expand(s', writeTriggers, rest));
      ExpandIff(Run(e, writeTriggers, ExpandWord(s, words[0])), s', writeTriggers, rest);
    }
  }

  /**
   Vectors mean what their expansion means. For every file, replacing each vector word by the single-pixel words of its
   set bits and a VECT_BASE_X that moves the base on leaves the decoded triggers and times as they were, and it leaves
   the decoded CD list as it was if and only if no set bit of a vector word lies past column 2047. Where the base goes
   does not matter.
   */
  lemma ExpandPreservesDecoding(writeTriggers: bool, words: seq<Word>)
    ensures var expanded := Run(INIT, writeTriggers, Expand(INIT, writeTriggers, words));
            var direct := Run(INIT, writeTriggers, words);
            && expanded.triggers == direct.triggers && expanded.base == direct.base && expanded.time == direct.time
            && |expanded.cds| == |direct.cds|
            && (expanded.cds == direct.cds <==> AllFit(INIT, writeTriggers, words))
            && (expanded == direct <==> AllFit(INIT, writeTriggers, words) && direct.baseX < 0x800)
  {
    hide Run, Expand, AllFit;
    ExpandIff(INIT, INIT, writeTriggers, words);
  }

  /** No vector word is left in an expanded stream. */
  lemma {:induction false} ExpandRemovesVectors(s: State, writeTriggers: bool, words: seq<Word>)
    requires s.ready
    ensures forall w :: w in Expand(s, writeTriggers, words) ==> !IsVector(w)
    decreases words
  {
    hide Singles, AddrX, VectBaseX, Step, TypeOf, ValidOf, ToU16;
    if words != [] {
      var width := if IsVector(words[0]) then VectorWidth(words[0]) else 0;
      if IsVector(words[0]) {
        SinglesAreAddrX(s.baseX, s.polarity % 2, width, ValidOf(words[0], width));
        NotVector(ToU16(s.baseX + width) % 0x800, s.polarity % 2);
      }
      StaysReady(s, writeTriggers, words[0]);
      ExpandRemovesVectors(Step(s, writeTriggers, words[0]), writeTriggers, words[1..]);
    }
  }

  lemma StaysReady(s: State, writeTriggers: bool, w: Word)
    requires s.ready
    ensures Step(s, writeTriggers, w).ready
  {
  }

  lemma NotVector(x: Bits11, polarity: Bit)
    ensures !IsVector(AddrX(x, polarity)) && !IsVector(VectBaseX(x, polarity))
  {
  }

  lemma {:induction false} SinglesAreAddrX(x: U16, polarity: Bit, width: nat, valid: nat)
    ensures forall w :: w in Singles(x, polarity, width, valid) ==> !IsVector(w)
    decreases width
  {
    hide IsVector, AddrX;
    if width > 0 {
      NotVector(x % 0x800, polarity);
      SinglesAreAddrX(ToU16(x + 1), polarity, width - 1, valid / 2);
    }
  }

  /** A vector that ends before column 2048 fits, whatever its bits. */
  lemma BaseBelow2048Fits(s: State, w: Word)
    requires s.ready && IsVector(w) && s.baseX + VectorWidth(w) < 0x800
    ensures WordFits(s, w)
  {
    hide SetBitsFit, ValidOf, TypeOf, ToU16;
    SmallCounter(s.baseX + VectorWidth(w));
    SmallXFits(s.baseX, VectorWidth(w), ValidOf(w, VectorWidth(w)));
  }

  lemma SmallCounter(x: nat)
    requires x < 0x800
    ensures ToU16(x) == x
  {
  }

  lemma {:induction false} SmallXFits(x: U16, width: nat, valid: nat)
    requires x + width < 0x800
    ensures SetBitsFit(x, width, valid)
    decreases width
  {
    hide ToU16;
    if width > 0 {
      SmallCounter(x + 1);
      SmallXFits(x + 1, width - 1, valid / 2);
    }
  }

  /** The base stays below 2048 after every vector word of the stream. */
  predicate BasesBelow2048(s: State, writeTriggers: bool, words: seq<Word>)
    decreases words
  {
    words == [] || ((s.ready && IsVector(words[0]) ==> s.baseX + VectorWidth(words[0]) < 0x800)
                    && BasesBelow2048(Step(s, writeTriggers, words[0]), writeTriggers, words[1..]))
  }

  lemma {:induction false} BasesBelow2048Fit(s: State, writeTriggers: bool, words: seq<Word>)
    requires BasesBelow2048(s, writeTriggers, words)
    requires s.baseX < 0x800
    ensures AllFit(s, writeTriggers, words) && Run(s, writeTriggers, words).baseX < 0x800
    decreases words
  {
    hide Step, WordFits, VectorWidth, TypeOf;
    if words != [] {
      if s.ready && IsVector(words[0]) {
        BaseBelow2048Fits(s, words[0]);
      } else {
        OtherWordsFit(s, words[0]);
      }
      BaseAfter(s, writeTriggers, words[0]);
      BasesBelow2048Fit(Step(s, writeTriggers, words[0]), writeTriggers, words[1..]);
    }
  }

  lemma BaseAfter(s: State, writeTriggers: bool, w: Word)
    requires s.baseX < 0x800 && (s.ready && IsVector(w) ==> s.baseX + VectorWidth(w) < 0x800)
    ensures Step(s, writeTriggers, w).baseX < 0x800
  {
    hide TimeOf, PolarityOf, ValidOf, VectorEvents, Advance, ValueOf, IdOf, ToU64;
  }

  lemma OtherWordsFit(s: State, w: Word)
    requires !s.ready || !IsVector(w)
    ensures WordFits(s, w)
  {
  }

  /** In particular the expanded file decodes to the same final state while the base stays below 2048. */
  lemma ExpandedFileDecodesAlike(writeTriggers: bool, words: seq<Word>)
    requires BasesBelow2048(INIT, writeTriggers, words)
    ensures Run(INIT, writeTriggers, Expand(INIT, writeTriggers, words)) == Run(INIT, writeTriggers, words)
  {
    hide AllFit, BasesBelow2048, Run, Expand;
    BasesBelow2048Fit(INIT, writeTriggers, words);
    ExpandPreservesDecoding(writeTriggers, words);
  }

  /** A time high, a base at column 2047, and a vector whose only set bit is one column further. */
  const OVERFLOWING: seq<Word> := [0x8000, 0x37FF, 0x5002]

  lemma {:induction false} NoBitsLeft(s: State, x: U16, polarity: Bit, width: nat)
    ensures VectorEvents(s, x, width, 0) == [] && Singles(x, polarity, width, 0) == []
    decreases width
  {
    hide ToU16;
    if width > 0 { NoBitsLeft(s, ToU16(x + 1), polarity, width - 1); }
  }

  /** A vector of eight columns with only its second bit set. */
  lemma SecondBit(s: State, x: U16, polarity: Bit)
    ensures VectorEvents(s, x, 8, 2) == [CdEvent(ToU16(x + 1), s.y, s.polarity, s.time)]
    ensures Singles(x, polarity, 8, 2) == [AddrX(ToU16(x + 1) % 0x800, polarity)]
  {
    hide ToU16;
    var x': U16 := ToU16(x + 1);
    NoBitsLeft(s, ToU16(x' + 1), polarity, 6);
    assert VectorEvents(s, x', 7, 1) == [CdEvent(x', s.y, s.polarity, s.time)] + VectorEvents(s, ToU16(x' + 1), 6, 0);
    assert Singles(x', polarity, 7, 1) == [AddrX(x' % 0x800, polarity)] + Singles(ToU16(x' + 1), polarity, 6, 0);
  }

  lemma FirstWord(s: State, writeTriggers: bool, w: Word, rest: seq<Word>)
    ensures Run(s, writeTriggers, [w] + rest) == Run(Step(s, writeTriggers, w), writeTriggers, rest)
    ensures Expand(s, writeTriggers, [w] + rest)
         == ExpandWord(s, w) + Expand(Step(s, writeTriggers, w), writeTriggers, rest)
  {
    hide Step, ExpandWord;
    assert ([w] + rest)[1..] == rest;
  }

  /** After the time high and the base. */
  const BASED: State := INIT.(ready := true, baseX := 2047)

  lemma ReachesBased(rest: seq<Word>)
    ensures Run(INIT, false, [0x8000] + ([0x37FF] + rest)) == Run(BASED, false, rest)
    ensures Expand(INIT, false, [0x8000] + ([0x37FF] + rest)) == [0x8000] + ([0x37FF] + Expand(BASED, false, rest))
  {
    var started := INIT.(ready := true);
    assert TypeOf(0x8000) == EVT_TIME_HIGH && TypeOf(0x37FF) == VECT_BASE_X && VectBaseX(2047, 0) == 0x37FF;
    assert Step(INIT, false, 0x8000) == started;
    StepVectBaseX(started, false, 2047, 0);
    hide Run, Step, Expand, VectBaseX, TypeOf;
    FirstWord(INIT, false, 0x8000, [0x37FF] + rest);
    FirstWord(started, false, 0x37FF, rest);
  }

  /** A vector at column 2047 with only its second bit set. */
  predicate Overflows(s: State, w: Word) {
    s.ready && s.baseX == 2047 && s.polarity == 0 && TypeOf(w) == VECT_8 && ValidOf(w, 8) == 2
  }

  lemma DirectPixel(s: State, w: Word)
    requires Overflows(s, w)
    ensures Run(s, false, [w]).cds == s.cds + [CdEvent(2048, s.y, 0, s.time)]
  {
    assert ToU16(2048) == 2048;
    hide Run, Step, VectorEvents, Singles, ToU16, TypeOf, ValidOf;
    SingleWord(s, false, w);
    StepVector(s, false, w);
    SecondBit(s, 2047, 0);
  }

  lemma PixelExpansion(s: State, w: Word)
    requires Overflows(s, w)
    ensures ExpandWord(s, w) == [AddrX(0, 0)] + [VectBaseX(7, 0)]
  {
    assert VectorWidth(w) == 8 && ToU16(2048) == 2048 && ToU16(2055) == 2055;
    hide Singles, VectorEvents, AddrX, VectBaseX, TypeOf, ValidOf;
    SecondBit(s, 2047, 0);
    assert ExpandWord(s, w) == Singles(2047, 0, 8, 2) + [VectBaseX(ToU16(2055) % 0x800, 0)];
  }

  lemma ExpandOne(s: State, w: Word)
    ensures Expand(s, false, [w]) == ExpandWord(s, w)
  {
    hide Step, ExpandWord;
    assert [w][1..] == [];
  }

  lemma ExpandedPixel(s: State)
    requires s.ready
    ensures Run(s, false, [AddrX(0, 0)] + [VectBaseX(7, 0)]).cds == s.cds + [CdEvent(0, s.y, 0, s.time)]
  {
    hide Run, Step, AddrX, VectBaseX;
    StepAddrX(s, false, 0, 0);
    FirstWord(s, false, AddrX(0, 0), [VectBaseX(7, 0)]);
    var pixel := Step(s, false, AddrX(0, 0));
    SingleWord(pixel, false, VectBaseX(7, 0));
    StepVectBaseX(pixel, false, 7, 0);
  }

  /** The vector's pixel is decoded at column 2048; the single-pixel word can only say column 0. */
  lemma OverflowingVectorDiffers()
    ensures Run(INIT, false, OVERFLOWING).cds == [CdEvent(2048, 0, 0, 0)]
    ensures Run(INIT, false, Expand(INIT, false, OVERFLOWING)).cds == [CdEvent(0, 0, 0, 0)]
  {
    assert TypeOf(0x5002) == VECT_8 && ValidOf(0x5002, 8) == 2;
    hide Run, Step, Expand, AddrX, VectBaseX, TypeOf, ValidOf;
    assert OVERFLOWING == [0x8000] + ([0x37FF] + [0x5002]);
    ReachesBased([0x5002]);
    DirectPixel(BASED, 0x5002);
    PixelExpansion(BASED, 0x5002);
    ExpandOne(BASED, 0x5002);
    ExpandedPixel(BASED);
    ReachesBased([AddrX(0, 0)] + [VectBaseX(7, 0)]);
  }
}
