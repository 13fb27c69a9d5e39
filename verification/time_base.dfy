/**
 The time-high unwrapping shared by the EVT2 and EVT3 standalone decoders: a truncated time-high field is
 turned back into a 64-bit time base with a loop counter and a tolerance threshold.
 */
module TimeBase {
  import opened MachineInts

  datatype Format = Evt2 | Evt3

  /** Number of distinct values of the time-high field: 28 bits in EVT2, 12 bits in EVT3. */
  function Count(f: Format): nat {
    match f case Evt2 => 0x1000_0000 case Evt3 => 0x1000
  }

  /** A number of time-high steps in microseconds: `h << 6` or `h << 12`. */
  function Scale(f: Format, h: nat): nat {
    match f case Evt2 => h * 0x40 case Evt3 => h * 0x1000
  }

  /** `n * TimeLoop`, before reduction to 64 bits. */
  function Loops(f: Format, n: nat): nat {
    match f case Evt2 => n * 0x4_0000_0000 case Evt3 => n * 0x100_0000
  }

  const LOOP_THRESHOLD_STEPS: nat := 10

  /** `MaxTimestampBase - LoopThreshold`: how far back a new base must be to count as a wrap. */
  function WrapDistance(f: Format): nat {
    Scale(f, Count(f) - 1 - LOOP_THRESHOLD_STEPS)
  }

  datatype Base = Base(us: U64, loops: U32)

  /** What the first time-high word of a stream sets. */
  function First(f: Format, field: nat): Base
    requires field < Count(f)
  {
    Base(Scale(f, field), 0)
  }

  /** What every later time-high word does to the base. */
  function Advance(f: Format, b: Base, field: nat): Base
    requires field < Count(f)
  {
    var candidate := ToU64(Scale(f, field) + ToU64(Loops(f, b.loops)));
    if b.us > candidate && b.us - candidate >= WrapDistance(f) then
      Base(ToU64(candidate + Loops(f, 1)), ToU32(b.loops + 1))
    else
      Base(candidate, b.loops)
  }

  /** The bases after each word of a stream of time-high fields. */
  function Bases(f: Format, b: Base, fields: seq<nat>): (bs: seq<Base>)
    requires forall i :: 0 <= i < |fields| ==> fields[i] < Count(f)
    ensures |bs| == |fields|
    decreases fields
  {
    if fields == [] then [] else
      var b' := Advance(f, b, fields[0]);
      [b'] + Bases(f, b', fields[1..])
  }

  function BasesFromFirst(f: Format, fields: seq<nat>): (bs: seq<Base>)
    requires forall i :: 0 <= i < |fields| ==> fields[i] < Count(f)
    ensures |bs| == |fields|
  {
    if fields == [] then [] else [First(f, fields[0])] + Bases(f, First(f, fields[0]), fields[1..])
  }

  // ----- Exact recovery of a true time-high sequence -----

  /** True time-high values whose base fits in 64 bits and whose loop number fits in the 32-bit counter. */
  predicate Representable(f: Format, h: nat) {
    match f case Evt2 => h < 0x400_0000_0000_0000 case Evt3 => h < 0x1000_0000_0000
  }

  /** The base that stands for the true time-high value `h`. */
  function At(f: Format, h: nat): Base
    requires Representable(f, h)
  {
    match f
    case Evt2 => Base(h * 0x40, h / 0x1000_0000)
    case Evt3 => Base(h * 0x1000, h / 0x1000)
  }

  function Field(f: Format, h: nat): (r: nat)
    ensures r < Count(f)
  {
    match f case Evt2 => h % 0x1000_0000 case Evt3 => h % 0x1000
  }

  function LoopOf(f: Format, h: nat): nat {
    match f case Evt2 => h / 0x1000_0000 case Evt3 => h / 0x1000
  }

  const MAX_WRAP_GAP: nat := 11

  predicate GapRecoverable(f: Format, h: nat, next: nat) {
    LoopOf(f, h) < LoopOf(f, next) ==> next - h <= MAX_WRAP_GAP
  }

  predicate TrueSequence(f: Format, hs: seq<nat>) {
    && (forall i :: 0 <= i < |hs| ==> Representable(f, hs[i]))
    && (forall i :: 0 < i < |hs| ==> hs[i - 1] <= hs[i] < hs[i - 1] + Count(f))
  }

  /** What the encoder leaves of a true sequence: the truncated fields. */
  function Fields(f: Format, hs: seq<nat>): (r: seq<nat>)
    ensures |r| == |hs|
    ensures forall i :: 0 <= i < |r| ==> r[i] < Count(f)
  {
    if hs == [] then [] else [Field(f, hs[0])] + Fields(f, hs[1..])
  }

  function TrueBases(f: Format, hs: seq<nat>): (r: seq<Base>)
    requires forall i :: 0 <= i < |hs| ==> Representable(f, hs[i])
    ensures |r| == |hs|
  {
    if hs == [] then [] else [At(f, hs[0])] + TrueBases(f, hs[1..])
  }

  predicate AllGapsRecoverable(f: Format, hs: seq<nat>) {
    forall i :: 0 < i < |hs| ==> GapRecoverable(f, hs[i - 1], hs[i])
  }

  /** The 64-bit product `n * TimeLoop` keeps the loop number modulo 2^30 in EVT2 and all of it in EVT3. */
  lemma LoopsReduced(f: Format, n: U32)
    ensures f.Evt2? ==> ToU64(Loops(f, n)) == n % 0x4000_0000 * 0x4_0000_0000
    ensures f.Evt3? ==> ToU64(Loops(f, n)) == n * 0x100_0000
  {
  }

  /** `Advance` without the reduction of the candidate, which always fits. */
  lemma AdvanceCandidate(f: Format, b: Base, field: nat, start: nat)
    requires field < Count(f) && start == ToU64(Loops(f, b.loops))
    ensures var candidate := start + Scale(f, field);
            && candidate < TWO64
            && Advance(f, b, field) ==
               if b.us > candidate && b.us - candidate >= WrapDistance(f)
               then Base(ToU64(candidate + Loops(f, 1)), ToU32(b.loops + 1)) else Base(candidate, b.loops)
  {
  }

  lemma StartOfLoop(f: Format, q: U32)
    requires f.Evt2? ==> q < 0x4000_0000
    ensures Loops(f, q) == ToU64(Loops(f, q))
    ensures ToU32(q + 1) == q + 1 || q == TWO32 - 1
    ensures f.Evt2? && q + 1 < 0x4000_0000 ==> ToU64(Loops(f, q + 1)) == Loops(f, q + 1)
    ensures f.Evt3? && q + 1 < TWO32 ==> ToU64(Loops(f, q + 1)) == Loops(f, q + 1)
  {
  }

  lemma AdvanceExactEvt2(h: nat, next: nat)
    requires Representable(Evt2, h) && Representable(Evt2, next)
    requires h <= next < h + 0x1000_0000
    ensures var b := Advance(Evt2, At(Evt2, h), Field(Evt2, next));
            if GapRecoverable(Evt2, h, next) then b == At(Evt2, next) else b.us < At(Evt2, next).us
  {
    var q, r := h / 0x1000_0000, h % 0x1000_0000;
    var q', r' := next / 0x1000_0000, next % 0x1000_0000;
    assert h == q * 0x1000_0000 + r && next == q' * 0x1000_0000 + r';
    assert q <= q' <= q + 1 && q' < 0x4000_0000;
    hide Advance, ToU64;
    StartOfLoop(Evt2, q);
    AdvanceCandidate(Evt2, At(Evt2, h), r', q * 0x4_0000_0000);
    assert At(Evt2, h).us == q * 0x4_0000_0000 + r * 0x40;
    assert q' == q + 1 ==> next - h == 0x1000_0000 + r' - r;
  }

  lemma AdvanceExactEvt3(h: nat, next: nat)
    requires Representable(Evt3, h) && Representable(Evt3, next)
    requires h <= next < h + 0x1000
    ensures var b := Advance(Evt3, At(Evt3, h), Field(Evt3, next));
            if GapRecoverable(Evt3, h, next) then b == At(Evt3, next) else b.us < At(Evt3, next).us
  {
    var q, r := h / 0x1000, h % 0x1000;
    var q', r' := next / 0x1000, next % 0x1000;
    assert h == q * 0x1000 + r && next == q' * 0x1000 + r';
    assert q <= q' <= q + 1 && q' < 0x1_0000_0000;
    hide Advance, ToU64;
    StartOfLoop(Evt3, q);
    AdvanceCandidate(Evt3, At(Evt3, h), r', q * 0x100_0000);
    assert At(Evt3, h).us == q * 0x100_0000 + r * 0x1000;
    assert q' == q + 1 ==> next - h == 0x1000 + r' - r;
  }

  /**
   One step recovers the true base exactly when a wrap, if one was crossed, was crossed by at most eleven
   time-high steps; otherwise the decoded base lies in the past.
   */
  lemma AdvanceExact(f: Format, h: nat, next: nat)
    requires Representable(f, h) && Representable(f, next)
    requires h <= next < h + Count(f)
    ensures var b := Advance(f, At(f, h), Field(f, next));
            if GapRecoverable(f, h, next) then b == At(f, next) else b.us < At(f, next).us
  {
    match f
    case Evt2 => AdvanceExactEvt2(h, next);
    case Evt3 => AdvanceExactEvt3(h, next);
  }

  lemma GapsSplit(f: Format, hs: seq<nat>)
    requires |hs| > 1
    ensures AllGapsRecoverable(f, hs) <==> GapRecoverable(f, hs[0], hs[1]) && AllGapsRecoverable(f, hs[1..])
  {
  }

  lemma ConsEqual<T>(x: T, xs: seq<T>, y: T, ys: seq<T>)
    ensures [x] + xs == [y] + ys <==> x == y && xs == ys
  {
    if [x] + xs == [y] + ys {
      assert ([x] + xs)[0] == x && ([x] + xs)[1..] == xs;
      assert ([y] + ys)[0] == y && ([y] + ys)[1..] == ys;
    }
  }

  lemma {:induction false} BasesExact(f: Format, hs: seq<nat>)
    requires hs != [] && TrueSequence(f, hs)
    ensures Bases(f, At(f, hs[0]), Fields(f, hs[1..])) == TrueBases(f, hs[1..]) <==> AllGapsRecoverable(f, hs)
    decreases hs
  {
    if |hs| > 1 {
      var rest := hs[1..];
      assert TrueSequence(f, rest);
      var b' := Advance(f, At(f, hs[0]), Field(f, hs[1]));
      AdvanceExact(f, hs[0], hs[1]);
      GapsSplit(f, hs);
      hide Advance, At, Field, GapRecoverable, AllGapsRecoverable, TrueSequence;
      assert Bases(f, At(f, hs[0]), Fields(f, rest)) == [b'] + Bases(f, b', Fields(f, rest[1..])) by {
        assert Fields(f, rest)[0] == Field(f, hs[1]) && Fields(f, rest)[1..] == Fields(f, rest[1..]);
      }
      ConsEqual(b', Bases(f, b', Fields(f, rest[1..])), At(f, hs[1]), TrueBases(f, rest[1..]));
      BasesExact(f, rest);
    }
  }

  lemma FirstIsAt(f: Format, h: nat)
    requires h < Count(f)
    ensures First(f, Field(f, h)) == At(f, h)
  {
  }

  /**
   The tolerance bound of both formats. A decoder that sees only the truncated fields of a non-decreasing
   time-high sequence, starting inside the first loop and with no gap of a whole loop, recovers every absolute
   base if and only if no wrap is crossed by more than 11 time-high steps (704 us in EVT2, 45056 us in EVT3).
   */
  lemma UnwrapIsExactIff(f: Format, hs: seq<nat>)
    requires hs != [] && TrueSequence(f, hs) && hs[0] < Count(f)
    ensures BasesFromFirst(f, Fields(f, hs)) == TrueBases(f, hs) <==> AllGapsRecoverable(f, hs)
  {
    BasesExact(f, hs);
    FirstIsAt(f, hs[0]);
    hide Count, First, Bases, Advance, At, Field, AllGapsRecoverable, TrueSequence, GapRecoverable;
    assert Fields(f, hs)[0] == Field(f, hs[0]) && Fields(f, hs)[1..] == Fields(f, hs[1..]);
    ConsEqual(At(f, hs[0]), Bases(f, At(f, hs[0]), Fields(f, hs[1..])), At(f, hs[0]), TrueBases(f, hs[1..]));
  }

  // ----- Arbitrary words -----

  /** The base lies in the loop that the counter names. In EVT2 the 64-bit base holds 2^30 loops. */
  predicate InNamedLoop(f: Format, b: Base) {
    match f
    case Evt2 => b.us / 0x4_0000_0000 == b.loops % 0x4000_0000 && b.us % 0x40 == 0
    case Evt3 => b.us / 0x100_0000 == b.loops && b.us % 0x1000 == 0
  }

  lemma NamedLoop(f: Format, loop: nat, field: nat)
    requires field < Count(f)
    ensures f.Evt2? ==> var us := loop * 0x4_0000_0000 + field * 0x40; us / 0x4_0000_0000 == loop && us % 0x40 == 0
    ensures f.Evt3? ==> var us := loop * 0x100_0000 + field * 0x1000; us / 0x100_0000 == loop && us % 0x1000 == 0
  {
  }

  lemma AdvanceStaysInLoopEvt2(b: Base, field: nat)
    requires field < 0x1000_0000 && InNamedLoop(Evt2, b)
    ensures InNamedLoop(Evt2, Advance(Evt2, b, field))
  {
    LoopsReduced(Evt2, b.loops);
    AdvanceCandidate(Evt2, b, field, ToU64(Loops(Evt2, b.loops)));
    NextLoopEvt2(b.loops, field);
    NamedLoop(Evt2, Advance(Evt2, b, field).loops % 0x4000_0000, field);
    hide Advance, ToU64, ToU32, WrapDistance;
  }

  lemma AdvanceStaysInLoopEvt3(b: Base, field: nat)
    requires field < 0x1000 && InNamedLoop(Evt3, b) && b.loops < 0xFFFF_FFFF
    ensures InNamedLoop(Evt3, Advance(Evt3, b, field)) && Advance(Evt3, b, field).loops <= b.loops + 1
  {
    LoopsReduced(Evt3, b.loops);
    AdvanceCandidate(Evt3, b, field, ToU64(Loops(Evt3, b.loops)));
    NamedLoop(Evt3, Advance(Evt3, b, field).loops, field);
    hide Advance, WrapDistance;
  }

  lemma NextLoopEvt2(n: U32, field: nat)
    requires field < 0x1000_0000
    ensures ToU64(n % 0x4000_0000 * 0x4_0000_0000 + field * 0x40 + 0x4_0000_0000)
         == ToU32(n + 1) % 0x4000_0000 * 0x4_0000_0000 + field * 0x40
  {
  }

  /** For any words at all, corrupted or not, the base never leaves the loop the counter names. */
  lemma {:induction false} BasesStayInLoop(f: Format, b: Base, fields: seq<nat>, i: nat)
    requires forall k :: 0 <= k < |fields| ==> fields[k] < Count(f)
    requires InNamedLoop(f, b) && i < |fields|
    requires f.Evt3? ==> b.loops + |fields| <= 0xFFFF_FFFF
    ensures InNamedLoop(f, Bases(f, b, fields)[i])
    decreases fields
  {
    match f {
      case Evt2 => AdvanceStaysInLoopEvt2(b, fields[0]);
      case Evt3 => AdvanceStaysInLoopEvt3(b, fields[0]);
    }
    if i > 0 {
      BasesStayInLoop(f, Advance(f, b, fields[0]), fields[1..], i - 1);
    }
  }

  /** Repeating the time-high word that set the first base changes nothing. */
  lemma AdvanceRepeatsFirst(f: Format, field: nat)
    requires field < Count(f)
    ensures Advance(f, First(f, field), field) == First(f, field)
  {
  }

  // ----- The bound in microseconds -----

  lemma {:induction false} TrueBaseAt(f: Format, hs: seq<nat>, i: nat)
    requires i < |hs| && forall k :: 0 <= k < |hs| ==> Representable(f, hs[k])
    ensures TrueBases(f, hs)[i] == At(f, hs[i])
    decreases hs
  {
    hide At, Representable;
    if i > 0 { TrueBaseAt(f, hs[1..], i - 1); }
  }

  /** EVT2: every base comes back if and only if every gap across a turn of the 34-bit clock is at most 704 us. */
  lemma Evt2ExactIff(hs: seq<nat>)
    requires hs != [] && TrueSequence(Evt2, hs) && hs[0] < 0x1000_0000
    ensures var bases := BasesFromFirst(Evt2, Fields(Evt2, hs));
            (forall i :: 0 <= i < |hs| ==> bases[i] == Base(hs[i] * 64, hs[i] / 0x1000_0000))
            <==> (forall i :: 0 < i < |hs| && hs[i - 1] / 0x1000_0000 < hs[i] / 0x1000_0000 ==>
                   hs[i] * 64 - hs[i - 1] * 64 <= 704)
  {
    UnwrapIsExactIff(Evt2, hs);
    BasesPointwise(Evt2, hs);
    hide BasesFromFirst, Fields, TrueBases;
    assert forall i :: 0 < i < |hs| ==> (GapRecoverable(Evt2, hs[i - 1], hs[i]) <==>
      (hs[i - 1] / 0x1000_0000 < hs[i] / 0x1000_0000 ==> hs[i] * 64 - hs[i - 1] * 64 <= 704));
  }

  /** EVT3: the same for the 24-bit clock and 45056 us. */
  lemma Evt3ExactIff(hs: seq<nat>)
    requires hs != [] && TrueSequence(Evt3, hs) && hs[0] < 0x1000
    ensures var bases := BasesFromFirst(Evt3, Fields(Evt3, hs));
            (forall i :: 0 <= i < |hs| ==> bases[i] == Base(hs[i] * 4096, hs[i] / 0x1000))
            <==> (forall i :: 0 < i < |hs| && hs[i - 1] / 0x1000 < hs[i] / 0x1000 ==>
                   hs[i] * 4096 - hs[i - 1] * 4096 <= 45056)
  {
    UnwrapIsExactIff(Evt3, hs);
    BasesPointwise(Evt3, hs);
    hide BasesFromFirst, Fields, TrueBases;
    assert forall i :: 0 < i < |hs| ==> (GapRecoverable(Evt3, hs[i - 1], hs[i]) <==>
      (hs[i - 1] / 0x1000 < hs[i] / 0x1000 ==> hs[i] * 4096 - hs[i - 1] * 4096 <= 45056));
  }

  lemma BasesPointwise(f: Format, hs: seq<nat>)
    requires TrueSequence(f, hs)
    ensures BasesFromFirst(f, Fields(f, hs)) == TrueBases(f, hs)
       <==> forall i :: 0 <= i < |hs| ==> BasesFromFirst(f, Fields(f, hs))[i] == At(f, hs[i])
  {
    hide BasesFromFirst, Fields, TrueBases, At;
    forall i | 0 <= i < |hs| ensures TrueBases(f, hs)[i] == At(f, hs[i]) {
      TrueBaseAt(f, hs, i);
    }
  }
}
