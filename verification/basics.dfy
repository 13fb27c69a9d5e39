/** Fixed-width integers of the C++ sources. Arithmetic that can leave the range is reduced explicitly. */
module MachineInts {
  const TWO32: nat := 0x1_0000_0000
  const TWO64: nat := 0x1_0000_0000_0000_0000

  type U16 = x: nat | x < 0x1_0000
  type I16 = x: int | -0x8000 <= x < 0x8000
  type U32 = x: nat | x < 0x1_0000_0000
  type U64 = x: nat | x < 0x1_0000_0000_0000_0000
  type I64 = x: int | -0x8000_0000_0000_0000 <= x < 0x8000_0000_0000_0000

  function ToU32(x: nat): U32 { x % 0x1_0000_0000 }

  function ToU64(x: nat): U64 { x % 0x1_0000_0000_0000_0000 }
}

/** Division by a size that is not a literal. */
module Division {
  lemma WholeMinus(n: nat, size: nat)
    requires size > 0 && n > 0 && n % size == 0
    ensures n >= size && (n - size) % size == 0
  {
    var q := n / size;
    assert n == size * q;
    assert q > 0;
    assert n - size == size * (q - 1) by { assert size * (q - 1) == size * q - size; }
    MultipleIsWhole(q - 1, size);
  }

  lemma MultipleIsWhole(q: nat, size: nat)
    requires size > 0
    ensures size * q % size == 0
  {
    Remainder(q, 0, size);
  }

  /** Quotient and remainder are unique. */
  lemma Remainder(q: nat, r: nat, size: nat)
    requires r < size
    ensures (size * q + r) % size == r && (size * q + r) / size == q
  {
    var n := size * q + r;
    var q', r' := n / size, n % size;
    var d := q - q';
    assert size * d == r' - r by {
      assert n == size * q' + r';
      assert size * d == size * q - size * q';
    }
    if d > 0 {
      AtLeastOnce(size, d);
    }
  }

  lemma AtLeastOnce(size: nat, d: nat)
    requires d > 0
    ensures size * d >= size
  {
  }

  lemma WholePart(n: nat, size: nat)
    requires size > 0
    ensures size * (n / size) == n - n % size && (n - n % size) % size == 0
  {
    MultipleIsWhole(n / size, size);
  }

  lemma Distribute(size: nat, q: nat, q': nat)
    ensures size * (q + q') == size * q + size * q'
  {
  }

  lemma WholePlus(a: nat, b: nat, size: nat)
    requires size > 0 && a % size == 0
    ensures (a + b) % size == b % size
  {
    var q, q', r := a / size, b / size, b % size;
    assert a == size * q && b == size * q' + r;
    Distribute(size, q, q');
    Remainder(q + q', r, size);
  }

  lemma MinusSize(n: nat, size: nat)
    requires size > 0 && n >= size
    ensures (n - size) / size == n / size - 1 && (n - size) % size == n % size
  {
    var q, r := n / size, n % size;
    assert n == size * q + r;
    assert q > 0;
    assert n - size == size * (q - 1) + r by { assert size * (q - 1) == size * q - size; }
    Remainder(q - 1, r, size);
  }
}

module Sequences {
  lemma Assoc<T>(a: seq<T>, b: seq<T>, c: seq<T>)
    ensures (a + b) + c == a + (b + c)
  {
  }
}
