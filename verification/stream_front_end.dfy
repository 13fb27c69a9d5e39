/**
 The byte front end of the HAL stream decoders: buffers of any length come in, whole raw events go on, and the
 bytes of an event cut in two wait for the next buffer.
 */
module StreamFrontEnd {
  import opened Division

  type Byte = b: nat | b < 0x100

  /** A decoder that works through its input one raw event of `size` bytes at a time. */
  function FoldEvents<S>(decodeEvent: (S, seq<Byte>) -> S, size: nat, s: S, bytes: seq<Byte>): S
    requires size > 0 && |bytes| % size == 0
    decreases |bytes|
  {
    if bytes == [] then s
    else
      WholeMinus(|bytes|, size);
      FoldEvents(decodeEvent, size, decodeEvent(s, bytes[..size]), bytes[size..])
  }

  lemma {:induction false} FoldConcat<S>(decodeEvent: (S, seq<Byte>) -> S, size: nat, s: S, a: seq<Byte>, b: seq<Byte>)
    requires size > 0 && |a| % size == 0 && |b| % size == 0
    ensures |a + b| % size == 0
    ensures FoldEvents(decodeEvent, size, s, a + b)
         == FoldEvents(decodeEvent, size, FoldEvents(decodeEvent, size, s, a), b)
    decreases |a|
  {
    WholePlus(|a|, |b|, size);
    if a == [] {
      assert a + b == b;
    } else {
      WholeMinus(|a|, size);
      FoldConcat(decodeEvent, size, decodeEvent(s, a[..size]), a[size..], b);
      assert (a + b)[..size] == a[..size] && (a + b)[size..] == a[size..] + b;
    }
  }

  /** No bytes, no call; one more whole event, one more call on it, after those before. */
  lemma OneCallPerEvent<S>(decodeEvent: (S, seq<Byte>) -> S, size: nat, s: S, bytes: seq<Byte>, event: seq<Byte>)
    requires size > 0 && |bytes| % size == 0 && |event| == size
    ensures FoldEvents(decodeEvent, size, s, []) == s
    ensures |bytes + event| % size == 0
    ensures FoldEvents(decodeEvent, size, s, bytes + event)
         == decodeEvent(FoldEvents(decodeEvent, size, s, bytes), event)
  {
    var before := FoldEvents(decodeEvent, size, s, bytes);
    MultipleIsWhole(1, size);
    FoldConcat(decodeEvent, size, s, bytes, event);
    assert event[..size] == event && event[size..] == [];
  }

  /** The longest prefix made of whole events. */
  function WholePrefix(bytes: seq<Byte>, size: nat): seq<Byte>
    requires size > 0
  {
    bytes[..|bytes| - |bytes| % size]
  }

  function Remaining(bytes: seq<Byte>, size: nat): seq<Byte>
    requires size > 0
  {
    bytes[|bytes| - |bytes| % size..]
  }

  lemma PrefixIsWhole(bytes: seq<Byte>, size: nat)
    requires size > 0
    ensures |WholePrefix(bytes, size)| % size == 0 && |Remaining(bytes, size)| < size
    ensures WholePrefix(bytes, size) + Remaining(bytes, size) == bytes
  {
    WholePart(|bytes|, size);
  }

  lemma CutIsUnique(bytes: seq<Byte>, whole: seq<Byte>, rest: seq<Byte>, size: nat)
    requires size > 0 && bytes == whole + rest && |whole| % size == 0 && |rest| < size
    ensures whole == WholePrefix(bytes, size) && rest == Remaining(bytes, size)
  {
    WholePlus(|whole|, |rest|, size);
    assert |rest| % size == |rest| by { Remainder(0, |rest|, size); }
  }

  /** There is exactly one way to cut bytes into whole events and less than one event. */
  lemma CutIff(bytes: seq<Byte>, whole: seq<Byte>, rest: seq<Byte>, size: nat)
    requires size > 0
    ensures bytes == whole + rest && |whole| % size == 0 && |rest| < size
       <==> whole == WholePrefix(bytes, size) && rest == Remaining(bytes, size)
  {
    hide WholePrefix, Remaining;
    PrefixIsWhole(bytes, size);
    if bytes == whole + rest && |whole| % size == 0 && |rest| < size {
      CutIsUnique(bytes, whole, rest, size);
    }
  }

  /** How much of `n` bytes is whole events. */
  function WholeLength(n: nat, size: nat): (r: nat)
    requires size > 0
    ensures r <= n && r % size == 0 && n - r < size
  {
    WholePart(n, size);
    size * (n / size)
  }

  class StreamDecoder<S> {
    const size: nat
    const decodeEvent: (S, seq<Byte>) -> S
    var incompleteRawData: seq<Byte>
    /** The state of the concrete decoder. */
    var state: S

    /** The state since the last reset, and every byte the concrete decoder has been given since. */
    ghost var start: S
    ghost var seen: seq<Byte>

    constructor (size: nat, decodeEvent: (S, seq<Byte>) -> S, initial: S)
      requires size > 0
      ensures this.size == size && this.decodeEvent == decodeEvent && start == initial
      ensures Valid() && Received() == []
    {
      this.size, this.decodeEvent := size, decodeEvent;
      incompleteRawData, state := [], initial;
      start, seen := initial, [];
    }

    ghost predicate Valid()
      reads this
    {
      && size > 0 && |seen| % size == 0 && |incompleteRawData| < size
      && state == FoldEvents(decodeEvent, size, start, seen)
    }

    /** Every byte that came in since the last reset. */
    ghost function Received(): seq<Byte>
      reads this
    {
      seen + incompleteRawData
    }

    method DecodeImpl(bytes: seq<Byte>)
      requires size > 0 && |bytes| % size == 0 && |seen| % size == 0
      requires state == FoldEvents(decodeEvent, size, start, seen)
      modifies `state, `seen
      ensures seen == old(seen) + bytes && |seen| % size == 0
      ensures state == FoldEvents(decodeEvent, size, start, seen)
    {
      ghost var before := state;
      var k := 0;
      while k < |bytes|
        invariant k <= |bytes| && |bytes[k..]| % size == 0 && seen == old(seen)
        invariant FoldEvents(decodeEvent, size, state, bytes[k..]) == FoldEvents(decodeEvent, size, before, bytes)
        decreases |bytes| - k
      {
        WholeMinus(|bytes[k..]|, size);
        assert bytes[k..][..size] == bytes[k..k + size] && bytes[k..][size..] == bytes[k + size..];
        state := decodeEvent(state, bytes[k..k + size]);
        k := k + size;
      }
      FoldConcat(decodeEvent, size, start, seen, bytes);
      seen := seen + bytes;
    }

    /**
     One buffer. The concrete decoder is given whole events only; the events are flushed and the time callbacks
     run except when the buffer still does not complete the pending event.
     */
    method Decode(buffer: seq<Byte>) returns (flushed: bool)
      requires Valid()
      modifies this
      ensures Valid() && start == old(start)
      ensures Received() == old(Received()) + buffer
      ensures flushed <==> old(incompleteRawData) == [] || |old(incompleteRawData)| + |buffer| >= size
    {
      hide FoldEvents, WholeLength;
      ghost var was, pending := seen, incompleteRawData;
      var cur := 0;
      if incompleteRawData != [] {
        var insertCount := size - |incompleteRawData|;
        if insertCount > |buffer| {
          incompleteRawData := incompleteRawData + buffer;
          assert was + (pending + buffer) == (was + pending) + buffer;
          return false;
        }
        incompleteRawData := incompleteRawData + buffer[..insertCount];
        MultipleIsWhole(1, size);
        DecodeImpl(incompleteRawData);
        incompleteRawData := [];
        cur := insertCount;
      }
      assert seen == was + (pending + buffer[..cur]);
      var end := cur + WholeLength(|buffer| - cur, size);
      DecodeImpl(buffer[cur..end]);
      Rejoined(was, pending, buffer, cur, end);
      if end != |buffer| {
        incompleteRawData := incompleteRawData + buffer[end..];
      }
      assert incompleteRawData == buffer[end..];
      flushed := true;
    }

    /** Drops the pending bytes; `newState` is what the concrete decoder resets itself to. */
    method ResetLastTimestamp(newState: S)
      requires Valid()
      modifies this
      ensures Valid() && Received() == [] && start == newState
    {
      incompleteRawData := [];
      state := newState;
      start, seen := newState, [];
    }
  }

  lemma Rejoined(was: seq<Byte>, pending: seq<Byte>, buffer: seq<Byte>, cur: nat, end: nat)
    requires cur <= end <= |buffer|
    ensures ((was + (pending + buffer[..cur])) + buffer[cur..end]) + buffer[end..] == (was + pending) + buffer
  {
  }

  function Flatten(buffers: seq<seq<Byte>>): seq<Byte> {
    if buffers == [] then [] else buffers[0] + Flatten(buffers[1..])
  }

  lemma {:induction false} FlattenAppend(buffers: seq<seq<Byte>>, b: seq<Byte>)
    ensures Flatten(buffers + [b]) == Flatten(buffers) + b
  {
    if buffers == [] {
      assert [b][1..] == [];
    } else {
      assert (buffers + [b])[1..] == buffers[1..] + [b];
      FlattenAppend(buffers[1..], b);
      assert buffers[0] + (Flatten(buffers[1..]) + b) == (buffers[0] + Flatten(buffers[1..])) + b;
    }
  }

  /**
   Any way of cutting a byte stream into buffers, empty ones and ones shorter than an event included, decodes
   the same: the decoder ends in the state of one pass over the longest whole-event prefix and carries exactly
   the bytes that are left over.
   */
  method DecodeStream<S>(buffers: seq<seq<Byte>>, size: nat, decodeEvent: (S, seq<Byte>) -> S, initial: S)
    returns (state: S, carried: seq<Byte>)
    requires size > 0
    ensures |WholePrefix(Flatten(buffers), size)| % size == 0
    ensures state == FoldEvents(decodeEvent, size, initial, WholePrefix(Flatten(buffers), size))
    ensures carried == Remaining(Flatten(buffers), size)
  {
    var decoder := new StreamDecoder(size, decodeEvent, initial);
    var k := 0;
    while k < |buffers|
      invariant k <= |buffers| && decoder.Valid() && decoder.start == initial
      invariant decoder.size == size && decoder.decodeEvent == decodeEvent
      invariant decoder.Received() == Flatten(buffers[..k])
    {
      var _ := decoder.Decode(buffers[k]);
      assert buffers[..k + 1] == buffers[..k] + [buffers[k]];
      FlattenAppend(buffers[..k], buffers[k]);
      k := k + 1;
    }
    assert buffers[..k] == buffers;
    CutIff(Flatten(buffers), decoder.seen, decoder.incompleteRawData, size);
    state, carried := decoder.state, decoder.incompleteRawData;
  }
}
