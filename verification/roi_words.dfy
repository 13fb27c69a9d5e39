/** The register words of a region of interest: one bit per column, then one bit per row. */
module RoiWords {
  import opened Division
  import opened Roi

  // ----- Bits of a word -----

  function BitOf(w: nat, b: nat): bool
    decreases b
  {
    if b == 0 then w % 2 == 1 else BitOf(w / 2, b - 1)
  }

  function PowerOf2(b: nat): nat { if b == 0 then 1 else 2 * PowerOf2(b - 1) }

  /** Bit `b` has the value 2^b. */
  lemma {:induction false} BitValue(w: nat, b: nat)
    ensures PowerOf2(b) > 0 && (BitOf(w, b) <==> w / PowerOf2(b) % 2 == 1)
    decreases b
  {
    if b > 0 {
      BitValue(w / 2, b - 1);
      HalfThenDivide(w, PowerOf2(b - 1));
    }
  }

  lemma HalfThenDivide(w: nat, p: nat)
    requires p > 0
    ensures w / 2 / p == w / (2 * p)
  {
    var q, r := w / 2 / p, w / 2 % p;
    assert w / 2 == p * q + r;
    assert w == (2 * p) * q + (2 * r + w % 2) by { assert (2 * p) * q == 2 * (p * q); }
    Remainder(q, 2 * r + w % 2, 2 * p);
  }

  /** `w | (1 << b)` */
  function WithBit(w: nat, b: nat): (r: nat)
    ensures r % 2 == if b == 0 then 1 else w % 2
    decreases b
  {
    if b == 0 then w - w % 2 + 1 else w % 2 + 2 * WithBit(w / 2, b - 1)
  }

  lemma {:induction false} WithBitSetsOne(w: nat, b: nat, c: nat)
    ensures BitOf(WithBit(w, b), c) <==> c == b || BitOf(w, c)
    decreases b
  {
    if b > 0 && c > 0 {
      WithBitSetsOne(w / 2, b - 1, c - 1);
    }
  }

  /** The number whose bit `i` is `bits[i]`. */
  function Pack(bits: seq<bool>): nat {
    if bits == [] then 0 else (if bits[0] then 1 else 0) + 2 * Pack(bits[1..])
  }

  lemma {:induction false} PackBit(bits: seq<bool>, i: nat)
    ensures BitOf(Pack(bits), i) <==> i < |bits| && bits[i]
    decreases i
  {
    if bits == [] {
      ZeroBits(i);
    } else if i > 0 {
      PackBit(bits[1..], i - 1);
    }
  }

  lemma {:induction false} ZeroBits(i: nat)
    ensures !BitOf(0, i)
    decreases i
  {
    if i > 0 { ZeroBits(i - 1); }
  }

  lemma {:induction false} PackSnoc(bits: seq<bool>, b: bool)
    ensures Pack(bits + [b]) == if b then WithBit(Pack(bits), |bits|) else Pack(bits)
    decreases bits
  {
    if bits != [] {
      assert (bits + [b])[1..] == bits[1..] + [b];
      PackSnoc(bits[1..], b);
    }
  }

  // ----- Packing a vector of bits -----

  function Least(a: nat, b: nat): nat { if a < b then a else b }

  /** Words of `size` bits each; the last one may be short. */
  function PackAll(bits: seq<bool>, size: nat): seq<nat>
    requires size > 0
    decreases |bits|
  {
    if bits == [] then []
    else
      var n := Least(size, |bits|);
      [Pack(bits[..n])] + PackAll(bits[n..], size)
  }

  /** Bit `k` of the vector is bit `k % size` of word `k / size`, and there are just enough words. */
  lemma {:induction false} PackAllBit(bits: seq<bool>, size: nat, k: nat)
    requires size > 0 && k < |bits|
    ensures |PackAll(bits, size)| == (|bits| + size - 1) / size
    ensures k / size < |PackAll(bits, size)|
    ensures BitOf(PackAll(bits, size)[k / size], k % size) <==> bits[k]
    decreases |bits|
  {
    hide BitOf, Pack;
    var n := Least(size, |bits|);
    if |bits| <= size {
      assert bits[n..] == [] && bits[..n] == bits;
      Remainder(1, |bits| - 1, size);
      if k < size { Remainder(0, k, size); }
      PackBit(bits, k);
    } else {
      var rest := bits[n..];
      MinusSize(|bits| + size - 1, size);
      if k < size {
        Remainder(0, k, size);
        PackBit(bits[..n], k);
        PackAllBit(rest, size, 0);
      } else {
        MinusSize(k, size);
        PackAllBit(rest, size, k - size);
      }
    }
  }

  lemma PackAllStep(bits: seq<bool>, size: nat)
    requires size > 0 && |bits| >= size
    ensures PackAll(bits, size) == [Pack(bits[..size])] + PackAll(bits[size..], size)
  {
  }

  lemma PackAllLast(bits: seq<bool>, size: nat)
    requires |bits| < size
    ensures PackAll(bits, size) == if bits == [] then [] else [Pack(bits)]
    ensures Pack([]) == 0
  {
    hide Pack;
    assert bits[..|bits|] == bits;
    PackEmpty();
  }

  lemma PackEmpty()
    ensures Pack([]) == 0
  {
  }

  method GetRoiBitword(isPixelInRoi: seq<bool>, wordSize: nat) returns (roi: seq<nat>)
    requires 0 < wordSize <= 32
    ensures roi == PackAll(isPixelInRoi, wordSize)
  {
    hide Pack, PackAll;
    roi := [];
    var p1: nat, pixelInd := 0, 0;
    ghost var done := 0;
    PackEmpty();
    Remainder(0, 0, wordSize);
    while pixelInd < |isPixelInRoi|
      invariant done <= pixelInd <= |isPixelInRoi| && pixelInd % wordSize == pixelInd - done
      invariant p1 == Pack(isPixelInRoi[done..pixelInd])
      invariant roi + PackAll(isPixelInRoi[done..], wordSize) == PackAll(isPixelInRoi, wordSize)
    {
      NextModulo(pixelInd, wordSize);
      assert isPixelInRoi[done..pixelInd + 1] == isPixelInRoi[done..pixelInd] + [isPixelInRoi[pixelInd]];
      PackSnoc(isPixelInRoi[done..pixelInd], isPixelInRoi[pixelInd]);
      if isPixelInRoi[pixelInd] {
        p1 := WithBit(p1, pixelInd % wordSize);
      }
      if (pixelInd + 1) % wordSize == 0 {
        assert pixelInd + 1 == done + wordSize;
        PackAllStep(isPixelInRoi[done..], wordSize);
        assert isPixelInRoi[done..][..wordSize] == isPixelInRoi[done..pixelInd + 1];
        assert isPixelInRoi[done..][wordSize..] == isPixelInRoi[done + wordSize..];
        roi := roi + [p1];
        p1 := 0;
        done := pixelInd + 1;
        PackEmpty();
        assert isPixelInRoi[done..done] == [];
      }
      pixelInd := pixelInd + 1;
    }
    assert isPixelInRoi[done..pixelInd] == isPixelInRoi[done..];
    PackAllLast(isPixelInRoi[done..], wordSize);
    if pixelInd % wordSize != 0 {
      roi := roi + [p1];
    }
  }

  lemma NextModulo(k: nat, size: nat)
    requires size > 0
    ensures (k + 1) % size == if k % size + 1 == size then 0 else k % size + 1
  {
    var q, r := k / size, k % size;
    assert k == size * q + r;
    if r + 1 == size {
      assert k + 1 == size * (q + 1);
      MultipleIsWhole(q + 1, size);
    } else {
      Remainder(q, r + 1, size);
    }
  }
}
