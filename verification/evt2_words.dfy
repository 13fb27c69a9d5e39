/**
 The 32-bit words of EVT2. A word is the number behind the overlaid C++ bit-field structs (least significant
 field first); writing a field replaces its bits, truncates the value to the field width and keeps every
 other bit.
 */
module Evt2Words {
  import opened MachineInts

  type Word = U32

  type Bit = x: nat | x < 2
  type Bits5 = x: nat | x < 0x20
  type Bits6 = x: nat | x < 0x40
  type Bits11 = x: nat | x < 0x800
  type Bits28 = x: nat | x < 0x1000_0000

  /** Events of the encoders' inputs and the decoder's outputs; `t` is in microseconds. */
  datatype CdEvent = CdEvent(x: U16, y: U16, p: I16, t: int)
  datatype TriggerEvent = TriggerEvent(p: I16, id: I16, t: int)

  const CD_OFF: nat := 0x0
  const CD_ON: nat := 0x1
  const EVT_TIME_HIGH: nat := 0x8
  const EXT_TRIGGER: nat := 0xA

  // ----- Reading fields -----

  function TypeOf(w: Word): nat { w / 0x1000_0000 }

  function TimeHighOf(w: Word): Bits28 { w % 0x1000_0000 }

  function StampOf(w: Word): Bits6 { w / 0x40_0000 % 0x40 }

  function XOf(w: Word): Bits11 { w / 0x800 % 0x800 }

  function YOf(w: Word): Bits11 { w % 0x800 }

  function IdOf(w: Word): Bits5 { w / 0x100 % 0x20 }

  function ValueOf(w: Word): Bit { w % 2 }

  function Unused2Of(w: Word): nat { w / 2 % 0x80 }

  function Unused1Of(w: Word): nat { w / 0x2000 % 0x200 }

  // ----- Writing fields in place -----

  function SetType(w: Word, v: nat): Word { w % 0x1000_0000 + v % 0x10 * 0x1000_0000 }

  function SetTimeHigh(w: Word, v: int): Word { w - w % 0x1000_0000 + v % 0x1000_0000 }

  function SetStamp(w: Word, v: int): Word {
    w - StampOf(w) * 0x40_0000 + v % 0x40 * 0x40_0000
  }

  function SetX(w: Word, v: int): Word { w - XOf(w) * 0x800 + v % 0x800 * 0x800 }

  function SetY(w: Word, v: int): Word { w - YOf(w) + v % 0x800 }

  function SetId(w: Word, v: int): Word { w - IdOf(w) * 0x100 + v % 0x20 * 0x100 }

  function SetValue(w: Word, v: int): Word { w - ValueOf(w) + v % 2 }

  // ----- Encoding an event over whatever the buffer slot held before -----

  function CdOver(w: Word, ev: CdEvent): Word {
    SetType(SetStamp(SetY(SetX(w, ev.x), ev.y), ev.t), if ev.p != 0 then CD_ON else CD_OFF)
  }

  function TriggerOver(w: Word, ev: TriggerEvent): Word {
    SetType(SetValue(SetId(SetStamp(w, ev.t), ev.id), ev.p), EXT_TRIGGER)
  }

  function TimeHighOver(w: Word, th: nat): Word {
    SetType(SetTimeHigh(w, th / 0x40), EVT_TIME_HIGH)
  }

  function HalCd(ev: CdEvent): Word {
    SetY(SetX(SetStamp(SetType(0, if ev.p == 1 then CD_ON else CD_OFF), ev.t), ev.x), ev.y)
  }

  function HalTrigger(ev: TriggerEvent): Word {
    SetValue(SetId(SetStamp(SetType(0, EXT_TRIGGER), ev.t), ev.id), ev.p)
  }

  function HalTimeHigh(th: int): Word {
    SetTimeHigh(SetType(0, EVT_TIME_HIGH), th / 0x40)
  }

  // ----- What a word says -----

  /** A word by its used fields; whatever the unused bits of a trigger word hold is not part of its meaning. */
  datatype Item =
    | CdItem(x: Bits11, y: Bits11, p: Bit, stamp: Bits6)
    | TriggerItem(value: Bit, id: Bits5, stamp: Bits6)
    | TimeItem(high: Bits28)
    | OtherItem

  function ItemOf(w: Word): Item {
    var t := TypeOf(w);
    if t == CD_OFF then CdItem(XOf(w), YOf(w), 0, StampOf(w))
    else if t == CD_ON then CdItem(XOf(w), YOf(w), 1, StampOf(w))
    else if t == EVT_TIME_HIGH then TimeItem(TimeHighOf(w))
    else if t == EXT_TRIGGER then TriggerItem(ValueOf(w), IdOf(w), StampOf(w))
    else OtherItem
  }

  function ItemsOf(ws: seq<Word>): (items: seq<Item>)
    ensures |items| == |ws|
    ensures forall i :: 0 <= i < |ws| ==> items[i] == ItemOf(ws[i])
  {
    seq(|ws|, i requires 0 <= i < |ws| => ItemOf(ws[i]))
  }

  lemma ItemsOfConcat(a: seq<Word>, b: seq<Word>)
    ensures ItemsOf(a + b) == ItemsOf(a) + ItemsOf(b)
  {
  }

  // ----- Field writes do not disturb one another -----

  lemma SplitCd(w: Word)
    ensures w == YOf(w) + XOf(w) * 0x800 + StampOf(w) * 0x40_0000 + TypeOf(w) * 0x1000_0000
  {
    assert w / 0x800 == XOf(w) + w / 0x800 / 0x800 * 0x800;
    assert w / 0x800 / 0x800 == w / 0x40_0000;
    assert w / 0x40_0000 == StampOf(w) + w / 0x40_0000 / 0x40 * 0x40;
    assert w / 0x40_0000 / 0x40 == TypeOf(w);
  }

  lemma JoinCd(w: Word, y: nat, x: nat, stamp: nat, t: nat)
    requires y < 0x800 && x < 0x800 && stamp < 0x40 && t < 0x10
    requires w == y + x * 0x800 + stamp * 0x40_0000 + t * 0x1000_0000
    ensures YOf(w) == y && XOf(w) == x && StampOf(w) == stamp && TypeOf(w) == t
  {
  }

  lemma SplitTrigger(w: Word)
    ensures w == ValueOf(w) + Unused2Of(w) * 2 + IdOf(w) * 0x100 + Unused1Of(w) * 0x2000
                 + StampOf(w) * 0x40_0000 + TypeOf(w) * 0x1000_0000
  {
    assert w == ValueOf(w) + Unused2Of(w) * 2 + w / 0x100 * 0x100;
    assert w / 0x100 == IdOf(w) + w / 0x100 / 0x20 * 0x20;
    assert w / 0x100 / 0x20 == w / 0x2000;
    assert w / 0x2000 == Unused1Of(w) + w / 0x2000 / 0x200 * 0x200;
    assert w / 0x2000 / 0x200 == w / 0x40_0000;
    assert w / 0x40_0000 == StampOf(w) + w / 0x40_0000 / 0x40 * 0x40;
    assert w / 0x40_0000 / 0x40 == TypeOf(w);
  }

  lemma JoinTrigger(w: Word, value: nat, unused2: nat, id: nat, unused1: nat, stamp: nat, t: nat)
    requires value < 2 && unused2 < 0x80 && id < 0x20 && unused1 < 0x200 && stamp < 0x40 && t < 0x10
    requires w == value + unused2 * 2 + id * 0x100 + unused1 * 0x2000 + stamp * 0x40_0000 + t * 0x1000_0000
    ensures ValueOf(w) == value && IdOf(w) == id && StampOf(w) == stamp && TypeOf(w) == t
    ensures Unused2Of(w) == unused2 && Unused1Of(w) == unused1
  {
    var d := stamp + t * 0x40;
    var c := unused1 + d * 0x200;
    var b := id + c * 0x20;
    var a := unused2 + b * 0x80;
    assert w == value + a * 2;
    assert w / 2 == a;
    assert w / 0x100 == b by { assert w == value + unused2 * 2 + b * 0x100; }
    assert w / 0x2000 == c by { assert w == value + unused2 * 2 + id * 0x100 + c * 0x2000; }
    assert w / 0x40_0000 == d;
  }

  lemma CdFieldWrites(w: Word, v: int)
    ensures var r := SetX(w, v);
            XOf(r) == v % 0x800 && YOf(r) == YOf(w) && StampOf(r) == StampOf(w) && TypeOf(r) == TypeOf(w)
    ensures var r := SetY(w, v);
            YOf(r) == v % 0x800 && XOf(r) == XOf(w) && StampOf(r) == StampOf(w) && TypeOf(r) == TypeOf(w)
    ensures var r := SetStamp(w, v);
            StampOf(r) == v % 0x40 && XOf(r) == XOf(w) && YOf(r) == YOf(w) && TypeOf(r) == TypeOf(w)
  {
    SplitCd(w);
    JoinCd(SetX(w, v), YOf(w), v % 0x800, StampOf(w), TypeOf(w));
    JoinCd(SetY(w, v), v % 0x800, XOf(w), StampOf(w), TypeOf(w));
    JoinCd(SetStamp(w, v), YOf(w), XOf(w), v % 0x40, TypeOf(w));
  }

  /** The bits of a trigger word that no field covers. */
  predicate SameUnused(a: Word, b: Word) { Unused1Of(a) == Unused1Of(b) && Unused2Of(a) == Unused2Of(b) }

  lemma TriggerFieldWrites(w: Word, v: int)
    ensures var r := SetId(w, v);
            IdOf(r) == v % 0x20 && ValueOf(r) == ValueOf(w) && StampOf(r) == StampOf(w) && TypeOf(r) == TypeOf(w)
    ensures var r := SetValue(w, v);
            ValueOf(r) == v % 2 && IdOf(r) == IdOf(w) && StampOf(r) == StampOf(w) && TypeOf(r) == TypeOf(w)
    ensures var r := SetStamp(w, v);
            StampOf(r) == v % 0x40 && IdOf(r) == IdOf(w) && ValueOf(r) == ValueOf(w) && TypeOf(r) == TypeOf(w)
    ensures SameUnused(SetId(w, v), w) && SameUnused(SetValue(w, v), w) && SameUnused(SetStamp(w, v), w)
  {
    SplitTrigger(w);
    JoinTrigger(SetId(w, v), ValueOf(w), Unused2Of(w), v % 0x20, Unused1Of(w), StampOf(w), TypeOf(w));
    JoinTrigger(SetValue(w, v), v % 2, Unused2Of(w), IdOf(w), Unused1Of(w), StampOf(w), TypeOf(w));
    JoinTrigger(SetStamp(w, v), ValueOf(w), Unused2Of(w), IdOf(w), Unused1Of(w), v % 0x40, TypeOf(w));
  }

  lemma TypeWrites(w: Word, t: nat)
    requires t < 0x10
    ensures var r := SetType(w, t);
            && TypeOf(r) == t && StampOf(r) == StampOf(w) && TimeHighOf(r) == TimeHighOf(w)
            && XOf(r) == XOf(w) && YOf(r) == YOf(w) && IdOf(r) == IdOf(w) && ValueOf(r) == ValueOf(w)
            && SameUnused(r, w)
  {
    SplitCd(w);
    JoinCd(SetType(w, t), YOf(w), XOf(w), StampOf(w), t);
    SplitTrigger(w);
    JoinTrigger(SetType(w, t), ValueOf(w), Unused2Of(w), IdOf(w), Unused1Of(w), StampOf(w), t);
  }

  lemma TimeHighWrites(w: Word, v: int)
    ensures TimeHighOf(SetTimeHigh(w, v)) == v % 0x1000_0000 && TypeOf(SetTimeHigh(w, v)) == TypeOf(w)
  {
    assert w == TypeOf(w) * 0x1000_0000 + w % 0x1000_0000;
  }

  /** The standalone encoder's field order, over a reused slot. */
  lemma CdOverMeans(w: Word, ev: CdEvent)
    ensures ItemOf(CdOver(w, ev)) == CdItem(ev.x % 0x800, ev.y % 0x800, if ev.p != 0 then 1 else 0, ev.t % 0x40)
  {
    hide SetX, SetY, SetStamp, SetType, XOf, YOf, StampOf, TypeOf;
    CdFieldWrites(w, ev.x);
    CdFieldWrites(SetX(w, ev.x), ev.y);
    CdFieldWrites(SetY(SetX(w, ev.x), ev.y), ev.t);
    TypeWrites(SetStamp(SetY(SetX(w, ev.x), ev.y), ev.t), if ev.p != 0 then CD_ON else CD_OFF);
  }

  lemma TriggerOverMeans(w: Word, ev: TriggerEvent)
    ensures ItemOf(TriggerOver(w, ev)) == TriggerItem(ev.p % 2, ev.id % 0x20, ev.t % 0x40)
    ensures SameUnused(TriggerOver(w, ev), w)
  {
    hide SetId, SetValue, SetStamp, SetType, IdOf, ValueOf, StampOf, TypeOf;
    TriggerFieldWrites(w, ev.t);
    TriggerFieldWrites(SetStamp(w, ev.t), ev.id);
    TriggerFieldWrites(SetId(SetStamp(w, ev.t), ev.id), ev.p);
    TypeWrites(SetValue(SetId(SetStamp(w, ev.t), ev.id), ev.p), EXT_TRIGGER);
  }

  lemma TimeHighOverMeans(w: Word, th: nat)
    ensures ItemOf(TimeHighOver(w, th)) == TimeItem(th / 0x40 % 0x1000_0000)
  {
    hide SetTimeHigh, SetType, TimeHighOf, TypeOf;
    TimeHighWrites(w, th / 0x40);
    TypeWrites(SetTimeHigh(w, th / 0x40), EVT_TIME_HIGH);
  }

  /** The HAL encoder's field order, over a zeroed word. */
  lemma HalCdMeans(ev: CdEvent)
    ensures ItemOf(HalCd(ev)) == CdItem(ev.x % 0x800, ev.y % 0x800, if ev.p == 1 then 1 else 0, ev.t % 0x40)
  {
    hide SetX, SetY, SetStamp, SetType, XOf, YOf, StampOf, TypeOf;
    var w0 := SetType(0, if ev.p == 1 then CD_ON else CD_OFF);
    TypeWrites(0, if ev.p == 1 then CD_ON else CD_OFF);
    CdFieldWrites(w0, ev.t);
    CdFieldWrites(SetStamp(w0, ev.t), ev.x);
    CdFieldWrites(SetX(SetStamp(w0, ev.t), ev.x), ev.y);
  }

  lemma HalTriggerMeans(ev: TriggerEvent)
    ensures ItemOf(HalTrigger(ev)) == TriggerItem(ev.p % 2, ev.id % 0x20, ev.t % 0x40)
    ensures SameUnused(HalTrigger(ev), 0)
  {
    hide SetId, SetValue, SetStamp, SetType, IdOf, ValueOf, StampOf, TypeOf;
    var w0 := SetType(0, EXT_TRIGGER);
    TypeWrites(0, EXT_TRIGGER);
    TriggerFieldWrites(w0, ev.t);
    TriggerFieldWrites(SetStamp(w0, ev.t), ev.id);
    TriggerFieldWrites(SetId(SetStamp(w0, ev.t), ev.id), ev.p);
  }

  lemma HalTimeHighMeans(th: int)
    ensures ItemOf(HalTimeHigh(th)) == TimeItem(th / 0x40 % 0x1000_0000)
  {
    hide SetTimeHigh, SetType, TimeHighOf, TypeOf;
    TypeWrites(0, EVT_TIME_HIGH);
    TimeHighWrites(SetType(0, EVT_TIME_HIGH), th / 0x40);
  }

  // ----- The layout in numbers -----

  /** How the words of the format are laid out, least significant field first: what each number says. */
  lemma LayoutOf(x: Bits11, y: Bits11, p: Bit, stamp: Bits6, value: Bit, id: Bits5, high: Bits28, unused1: nat,
                 unused2: nat)
    requires unused1 < 0x200 && unused2 < 0x80
    ensures ItemOf(y + x * 0x800 + stamp * 0x40_0000 + p * 0x1000_0000) == CdItem(x, y, p, stamp)
    ensures ItemOf(high + 0x8000_0000) == TimeItem(high)
    ensures ItemOf(value + unused2 * 2 + id * 0x100 + unused1 * 0x2000 + stamp * 0x40_0000 + 0xA000_0000)
         == TriggerItem(value, id, stamp)
  {
    var cd := y + x * 0x800 + stamp * 0x40_0000 + p * 0x1000_0000;
    var trigger := value + unused2 * 2 + id * 0x100 + unused1 * 0x2000 + stamp * 0x40_0000 + 0xA000_0000;
    JoinCd(cd, y, x, stamp, p);
    JoinTrigger(trigger, value, unused2, id, unused1, stamp, 0xA);
    assert TypeOf(high + 0x8000_0000) == 8 && TimeHighOf(high + 0x8000_0000) == high;
    hide XOf, YOf, StampOf, TypeOf, IdOf, ValueOf, TimeHighOf;
  }

  /** The CD word of either encoder is this number, whatever the slot held before. */
  lemma CdWordIs(w: Word, ev: CdEvent)
    ensures CdOver(w, ev) == ev.y % 0x800 + ev.x % 0x800 * 0x800 + ev.t % 0x40 * 0x40_0000
                             + if ev.p != 0 then 0x1000_0000 else 0
    ensures HalCd(ev) == ev.y % 0x800 + ev.x % 0x800 * 0x800 + ev.t % 0x40 * 0x40_0000
                         + if ev.p == 1 then 0x1000_0000 else 0
  {
    CdOverMeans(w, ev);
    SplitCd(CdOver(w, ev));
    HalCdMeans(ev);
    SplitCd(HalCd(ev));
    hide CdOver, HalCd, XOf, YOf, StampOf, TypeOf, IdOf, ValueOf, TimeHighOf;
  }

  /** The trigger word. The standalone encoder leaves the unused bits of the slot as they were. */
  lemma TriggerWordIs(w: Word, ev: TriggerEvent)
    ensures HalTrigger(ev) == ev.p % 2 + ev.id % 0x20 * 0x100 + ev.t % 0x40 * 0x40_0000 + 0xA000_0000
    ensures TriggerOver(w, ev) == HalTrigger(ev) + w / 2 % 0x80 * 2 + w / 0x2000 % 0x200 * 0x2000
  {
    TriggerOverMeans(w, ev);
    HalTriggerMeans(ev);
    SplitTrigger(TriggerOver(w, ev));
    SplitTrigger(HalTrigger(ev));
    hide TriggerOver, HalTrigger, XOf, YOf, StampOf, TypeOf, IdOf, ValueOf, TimeHighOf;
  }

  /** The time-high word of either encoder: a time in steps of 64 us. */
  lemma TimeHighWordIs(w: Word, th: nat)
    ensures TimeHighOver(w, th) == HalTimeHigh(th) == th / 0x40 % 0x1000_0000 + 0x8000_0000
  {
    var v: nat := th / 0x40 % 0x1000_0000;
    assert SetTimeHigh(w, th / 0x40) % 0x1000_0000 == v;
    assert SetTimeHigh(SetType(0, EVT_TIME_HIGH), th / 0x40) == v + 0x8000_0000;
  }
}
