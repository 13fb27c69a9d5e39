/** The standalone EVT2 decoder: words, read in buffers, to CD and trigger lists with 64-bit times. */
module Evt2Decoder {
  import opened MachineInts
  import opened TimeBase
  import opened Evt2Words

  const WORDS_TO_READ: nat := 1000000

  /** The decoder's variables and what it has output so far. */
  datatype State = State(base: Base, ready: bool, cds: seq<CdEvent>, triggers: seq<TriggerEvent>)

  const INIT: State := State(Base(0, 0), false, [], [])

  /** One word. Everything before the first time high is skipped. */
  function Step(s: State, writeTriggers: bool, item: Item): State {
    if !s.ready then
      if item.TimeItem? then s.(base := Base(Scale(Evt2, item.high), s.base.loops), ready := true) else s
    else
      match item
      case CdItem(x, y, p, stamp) => s.(cds := s.cds + [CdEvent(x, y, p, ToU64(s.base.us + stamp))])
      case TriggerItem(value, id, stamp) =>
        if writeTriggers then s.(triggers := s.triggers + [TriggerEvent(value, id, ToU64(s.base.us + stamp))]) else s
      case TimeItem(high) => s.(base := Advance(Evt2, s.base, high))
      case OtherItem => s
  }

  function Run(s: State, writeTriggers: bool, items: seq<Item>): State
    decreases items
  {
    if items == [] then s else Run(Step(s, writeTriggers, items[0]), writeTriggers, items[1..])
  }

  lemma {:induction false} RunConcat(s: State, writeTriggers: bool, a: seq<Item>, b: seq<Item>)
    ensures Run(s, writeTriggers, a + b) == Run(Run(s, writeTriggers, a), writeTriggers, b)
    decreases a
  {
    if a == [] {
      assert a + b == b;
    } else {
      assert (a + b)[1..] == a[1..] + b;
      RunConcat(Step(s, writeTriggers, a[0]), writeTriggers, a[1..], b);
    }
  }

  /** The loop that looks for the first time high stops on it, so the main loop decodes that word again. */
  lemma FirstTimeHighTwice(s: State, writeTriggers: bool, high: Bits28)
    requires !s.ready && s.base.loops == 0
    ensures var s' := Step(s, writeTriggers, TimeItem(high)); Step(s', writeTriggers, TimeItem(high)) == s'
  {
    hide Advance;
    AdvanceRepeatsFirst(Evt2, high);
  }

  // ----- What the output depends on -----

  /** The flag decides the triggers only: without it none is output, and the CD events are the same. */
  lemma {:induction false} TriggersOptional(a: State, b: State, items: seq<Item>)
    requires a.base == b.base && a.ready == b.ready && a.cds == b.cds
    ensures Run(a, false, items).cds == Run(b, true, items).cds
    ensures Run(a, false, items).base == Run(b, true, items).base
    ensures Run(a, false, items).triggers == a.triggers
    decreases items
  {
    hide Advance;
    if items != [] {
      TriggersOptional(Step(a, false, items[0]), Step(b, true, items[0]), items[1..]);
    }
  }

  /** A file decoded without and with its triggers. */
  lemma FileWithoutTriggers(items: seq<Item>)
    ensures Run(INIT, false, items).cds == Run(INIT, true, items).cds && Run(INIT, false, items).triggers == []
  {
    TriggersOptional(INIT, INIT, items);
  }

  lemma {:induction false} SkipsUntilTimeHigh(s: State, writeTriggers: bool, items: seq<Item>)
    requires !s.ready && forall i :: 0 <= i < |items| ==> !items[i].TimeItem?
    ensures Run(s, writeTriggers, items) == s
    decreases items
  {
    if items != [] {
      SkipsUntilTimeHigh(s, writeTriggers, items[1..]);
    }
  }

  /** The words before the first time high have no effect at all. */
  lemma LeadingWordsDropped(writeTriggers: bool, before: seq<Word>, rest: seq<Word>)
    requires forall i :: 0 <= i < |before| ==> before[i] / 0x1000_0000 != 0x8
    ensures Run(INIT, writeTriggers, ItemsOf(before + rest)) == Run(INIT, writeTriggers, ItemsOf(rest))
  {
    hide Run, ItemsOf;
    ItemsOfConcat(before, rest);
    RunConcat(INIT, writeTriggers, ItemsOf(before), ItemsOf(rest));
    forall i | 0 <= i < |before| ensures !ItemsOf(before)[i].TimeItem? {
      NotTimeHigh(before[i]);
    }
    SkipsUntilTimeHigh(INIT, writeTriggers, ItemsOf(before));
  }

  lemma NotTimeHigh(w: Word)
    requires w / 0x1000_0000 != 0x8
    ensures !ItemOf(w).TimeItem?
  {
  }

  /** A word of any type but CD, time high and external trigger can be taken out of a file anywhere. */
  lemma OtherWordsIgnored(s: State, writeTriggers: bool, a: seq<Word>, w: Word, b: seq<Word>)
    requires w / 0x1000_0000 !in {0x0, 0x1, 0x8, 0xA}
    ensures Run(s, writeTriggers, ItemsOf(a + [w] + b)) == Run(s, writeTriggers, ItemsOf(a + b))
  {
    OtherWord(Run(s, writeTriggers, ItemsOf(a)), writeTriggers, w);
    hide Run, ItemsOf;
    ItemsOfConcat(a, [w]);
    ItemsOfConcat(a + [w], b);
    ItemsOfConcat(a, b);
    RunConcat(s, writeTriggers, ItemsOf(a) + ItemsOf([w]), ItemsOf(b));
    RunConcat(s, writeTriggers, ItemsOf(a), ItemsOf([w]));
    RunConcat(s, writeTriggers, ItemsOf(a), ItemsOf(b));
  }

  lemma OtherWord(s: State, writeTriggers: bool, w: Word)
    requires w / 0x1000_0000 !in {0x0, 0x1, 0x8, 0xA}
    ensures Run(s, writeTriggers, ItemsOf([w])) == s
  {
    assert ItemsOf([w]) == [ItemOf(w)] && [ItemOf(w)][1..] == [];
  }

  class Decoder {
    const writeTriggers: bool
    var currentTimeBase: U64
    var firstTimeBaseSet: bool
    var nTimeHighLoop: U32
    var cds: seq<CdEvent>
    var triggers: seq<TriggerEvent>

    constructor (writeTriggers: bool)
      ensures this.writeTriggers == writeTriggers && Current() == INIT && Valid()
    {
      this.writeTriggers := writeTriggers;
      currentTimeBase, firstTimeBaseSet, nTimeHighLoop := 0, false, 0;
      cds, triggers := [], [];
    }

    ghost function Current(): State
      reads this
    {
      State(Base(currentTimeBase, nTimeHighLoop), firstTimeBaseSet, cds, triggers)
    }

    ghost predicate Valid()
      reads this
    {
      !firstTimeBaseSet ==> nTimeHighLoop == 0
    }

    /** One switch of the main loop. */
    method DecodeWord(w: Word)
      requires Valid() && firstTimeBaseSet
      modifies this
      ensures Valid() && firstTimeBaseSet
      ensures Current() == Step(old(Current()), writeTriggers, ItemOf(w))
    {
      var t := TypeOf(w);
      hide TypeOf, TimeHighOf, StampOf, XOf, YOf, IdOf, ValueOf;
      if t == CD_OFF {
        cds := cds + [CdEvent(XOf(w), YOf(w), 0, ToU64(currentTimeBase + StampOf(w)))];
      } else if t == CD_ON {
        cds := cds + [CdEvent(XOf(w), YOf(w), 1, ToU64(currentTimeBase + StampOf(w)))];
      } else if t == EVT_TIME_HIGH {
        hide ToU64;
        var newTimeBase := ToU64(Scale(Evt2, TimeHighOf(w)) + ToU64(Loops(Evt2, nTimeHighLoop)));
        if currentTimeBase > newTimeBase && currentTimeBase - newTimeBase >= WrapDistance(Evt2) {
          newTimeBase := ToU64(newTimeBase + Loops(Evt2, 1));
          nTimeHighLoop := ToU32(nTimeHighLoop + 1);
        }
        currentTimeBase := newTimeBase;
      } else if t == EXT_TRIGGER {
        if writeTriggers {
          triggers := triggers + [TriggerEvent(ValueOf(w), IdOf(w), ToU64(currentTimeBase + StampOf(w)))];
        }
      }
    }

    /** One buffer of words: search for the first time high if there was none yet, then decode the rest. */
    method DecodeBuffer(words: seq<Word>)
      requires Valid()
      modifies this
      ensures Valid() && Current() == Run(old(Current()), writeTriggers, ItemsOf(words))
    {
      hide Step, ItemOf, TimeHighOf;
      ghost var items, goal := ItemsOf(words), Run(Current(), writeTriggers, ItemsOf(words));
      var k := 0;
      while !firstTimeBaseSet && k < |words|
        invariant k <= |words| && Valid()
        invariant Run(Current(), writeTriggers, items[k..]) == goal
      {
        ghost var before := Current();
        assert items[k..][0] == ItemOf(words[k]) && items[k..][1..] == items[k + 1..];
        SkipOrSet(before, writeTriggers, words[k]);
        if TypeOf(words[k]) == EVT_TIME_HIGH {
          currentTimeBase := Scale(Evt2, TimeHighOf(words[k]));
          firstTimeBaseSet := true;
          break;
        }
        k := k + 1;
      }
      while k < |words|
        invariant k <= |words| && Valid() && (k < |words| ==> firstTimeBaseSet)
        invariant Run(Current(), writeTriggers, items[k..]) == goal
      {
        assert items[k..][0] == ItemOf(words[k]) && items[k..][1..] == items[k + 1..];
        DecodeWord(words[k]);
        k := k + 1;
      }
    }
  }

  lemma SkipOrSet(s: State, writeTriggers: bool, w: Word)
    requires !s.ready && s.base.loops == 0
    ensures if TypeOf(w) == EVT_TIME_HIGH then
              var s' := s.(base := Base(Scale(Evt2, TimeHighOf(w)), 0), ready := true);
              Step(s, writeTriggers, ItemOf(w)) == s' && Step(s', writeTriggers, ItemOf(w)) == s'
            else Step(s, writeTriggers, ItemOf(w)) == s
  {
    hide Advance, TypeOf, TimeHighOf;
    if TypeOf(w) == EVT_TIME_HIGH {
      FirstTimeHighTwice(s, writeTriggers, TimeHighOf(w));
    }
  }

  /** A whole file, read `WORDS_TO_READ` words at a time. Where the buffers end makes no difference. */
  method DecodeFile(words: seq<Word>, writeTriggers: bool) returns (cds: seq<CdEvent>, triggers: seq<TriggerEvent>)
    ensures var s := Run(INIT, writeTriggers, ItemsOf(words)); cds == s.cds && triggers == s.triggers
  {
    hide Run, ItemsOf;
    var decoder := new Decoder(writeTriggers);
    var k := 0;
    assert words[..0] == [];
    EmptyRun(writeTriggers);
    while k < |words|
      invariant k <= |words| && decoder.Valid() && decoder.writeTriggers == writeTriggers
      invariant decoder.Current() == Run(INIT, writeTriggers, ItemsOf(words[..k]))
    {
      var end := if |words| - k < WORDS_TO_READ then |words| else k + WORDS_TO_READ;
      decoder.DecodeBuffer(words[k..end]);
      assert words[..end] == words[..k] + words[k..end];
      ItemsOfConcat(words[..k], words[k..end]);
      RunConcat(INIT, writeTriggers, ItemsOf(words[..k]), ItemsOf(words[k..end]));
      k := end;
    }
    assert words[..k] == words;
    cds, triggers := decoder.cds, decoder.triggers;
  }

  lemma EmptyRun(writeTriggers: bool)
    ensures Run(INIT, writeTriggers, ItemsOf([])) == INIT
  {
  }

  // ----- The decoder's clock -----

  /** The time-high fields of a stream, from the first one on. */
  function Highs(items: seq<Item>): (r: seq<nat>)
    ensures forall i :: 0 <= i < |r| ==> r[i] < Count(Evt2)
  {
    if items == [] then [] else (if items[0].TimeItem? then [items[0].high] else []) + Highs(items[1..])
  }

  /** The decoder's time base after each time-high word. */
  function BasesSeen(s: State, writeTriggers: bool, items: seq<Item>): seq<Base>
    decreases items
  {
    if items == [] then []
    else
      var s' := Step(s, writeTriggers, items[0]);
      (if items[0].TimeItem? then [s'.base] else []) + BasesSeen(s', writeTriggers, items[1..])
  }

  lemma {:induction false} BasesSeenAreAdvances(s: State, writeTriggers: bool, items: seq<Item>)
    requires s.ready
    ensures BasesSeen(s, writeTriggers, items) == Bases(Evt2, s.base, Highs(items))
    decreases items
  {
    hide Advance;
    if items != [] {
      BasesSeenAreAdvances(Step(s, writeTriggers, items[0]), writeTriggers, items[1..]);
      if items[0].TimeItem? {
        assert Highs(items)[0] == items[0].high && Highs(items)[1..] == Highs(items[1..]);
      } else {
        assert Highs(items) == Highs(items[1..]);
      }
    }
  }

  lemma {:induction false} BasesSeenFromStart(s: State, writeTriggers: bool, items: seq<Item>)
    requires !s.ready && s.base.loops == 0
    ensures BasesSeen(s, writeTriggers, items) == BasesFromFirst(Evt2, Highs(items))
    decreases items
  {
    hide Advance;
    if items != [] {
      var s' := Step(s, writeTriggers, items[0]);
      if items[0].TimeItem? {
        assert Highs(items)[0] == items[0].high && Highs(items)[1..] == Highs(items[1..]);
        BasesSeenAreAdvances(s', writeTriggers, items[1..]);
      } else {
        assert Highs(items) == Highs(items[1..]);
        BasesSeenFromStart(s', writeTriggers, items[1..]);
      }
    }
  }

  /**
   A stream whose time-high words are the 28-bit truncations of a true clock: whatever other words lie between
   them, the decoder's base is the true one at every time high if and only if no wrap is crossed by more than
   704 us.
   */
  lemma ClockExactIff(writeTriggers: bool, items: seq<Item>, hs: seq<nat>)
    requires hs != [] && TrueSequence(Evt2, hs) && hs[0] < Count(Evt2)
    requires Highs(items) == Fields(Evt2, hs)
    ensures BasesSeen(INIT, writeTriggers, items) == TrueBases(Evt2, hs) <==> AllGapsRecoverable(Evt2, hs)
  {
    hide BasesSeen, BasesFromFirst, TrueBases, Fields, AllGapsRecoverable, Highs;
    BasesSeenFromStart(INIT, writeTriggers, items);
    UnwrapIsExactIff(Evt2, hs);
  }
}
