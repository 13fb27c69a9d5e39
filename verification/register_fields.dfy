/** Bit-fields of 32-bit sensor registers, and the register map that reads and writes them. */
module RegisterFields {
  /** A 32-bit word, bit 0 first. */
  type Bits = b: seq<bool> | |b| == 32 witness seq(32, _ => false)

  const ZERO: Bits := seq(32, _ => false)

  /** What reading gives without a register map: `uint32_t(-1)`. */
  const ALL_ONES: Bits := seq(32, _ => true)

  const ONE: Bits := seq(32, i => i == 0)

  function And(a: Bits, b: Bits): Bits { seq(32, i requires 0 <= i < 32 => a[i] && b[i]) }

  function Or(a: Bits, b: Bits): Bits { seq(32, i requires 0 <= i < 32 => a[i] || b[i]) }

  function Not(a: Bits): Bits { seq(32, i requires 0 <= i < 32 => !a[i]) }

  function ShiftLeft(a: Bits, n: nat): Bits { seq(32, i requires 0 <= i < 32 => i >= n && a[i - n]) }

  function ShiftRight(a: Bits, n: nat): Bits { seq(32, i requires 0 <= i < 32 => i + n < 32 && a[i + n]) }

  /** The lowest `n` bits set. */
  function LowMask(n: nat): Bits { seq(32, i => i < n) }

  /** A field of `len` bits from bit `start` up. */
  datatype Field = Field(start: nat, len: nat, mask: Bits) {
    predicate Valid() {
      start < 32 && start + len <= 32 && mask == ShiftLeft(LowMask(len), start)
    }

    predicate Has(k: int) { start <= k < start + len }

    function SetBitfieldInValue(v: Bits, register: Bits): Bits {
      Or(And(register, Not(mask)), And(ShiftLeft(v, start), mask))
    }

    function GetBitfieldInValue(register: Bits): Bits {
      ShiftRight(And(register, mask), start)
    }
  }

  method MakeField(start: nat, len: nat) returns (f: Field)
    requires start < 32 && start + len <= 32
    ensures f.Valid() && f.start == start && f.len == len
  {
    var m: Bits := ZERO;
    var i := 0;
    while i < len
      invariant i <= len && m == LowMask(i)
    {
      m := Or(ShiftLeft(m, 1), ONE);
      i := i + 1;
    }
    f := Field(start, len, ShiftLeft(m, start));
  }

  // ----- One field of one word -----

  lemma MaskBits(f: Field)
    requires f.Valid()
    ensures forall k :: 0 <= k < 32 ==> (f.mask[k] <==> f.Has(k))
  {
  }

  /** The bits of the field become the low bits of the value; the others stay. */
  lemma SetBits(f: Field, v: Bits, r: Bits)
    requires f.Valid()
    ensures forall k :: 0 <= k < 32 ==>
      f.SetBitfieldInValue(v, r)[k] == if f.start <= k < f.start + f.len then v[k - f.start] else r[k]
  {
  }

  /** Reading a field gives `v` modulo 2^len exactly when its bits are the low bits of `v`. */
  lemma GetIff(f: Field, v: Bits, r: Bits)
    requires f.Valid()
    ensures f.GetBitfieldInValue(r) == And(v, LowMask(f.len))
       <==> (forall k :: 0 <= k < 32 && f.Has(k) ==> r[k] == v[k - f.start])
  {
    MaskBits(f);
    var got, low := f.GetBitfieldInValue(r), And(v, LowMask(f.len));
    if got == low {
      forall k | 0 <= k < 32 && f.Has(k) ensures r[k] == v[k - f.start] {
        assert got[k - f.start] == low[k - f.start];
      }
    }
  }

  /** A field reads back what was written to it, modulo 2^len. */
  lemma SetThenGet(f: Field, v: Bits, r: Bits)
    requires f.Valid()
    ensures f.GetBitfieldInValue(f.SetBitfieldInValue(v, r)) == And(v, LowMask(f.len))
  {
  }

  // ----- Several fields of one word -----

  type Fields = map<string, Field>

  ghost predicate ValidFields(fields: Fields) {
    forall n :: n in fields ==> fields[n].Valid()
  }

  /** No bit lies in two of the named fields. */
  ghost predicate NoOverlap(fields: Fields, names: set<string>) {
    forall m, n, k :: m in names && n in names && m in fields && n in fields && m != n && fields[m].Has(k)
      ==> !fields[n].Has(k)
  }

  /** Every known named field holds its value and every bit outside them is as before. */
  ghost predicate Written(fields: Fields, values: map<string, Bits>, before: Bits, after: Bits) {
    && (forall n, k :: n in values && n in fields && 0 <= k < 32 && fields[n].Has(k)
          ==> after[k] == values[n][k - fields[n].start])
    && (forall k :: 0 <= k < 32 && (forall n :: n in values && n in fields ==> !fields[n].Has(k))
          ==> after[k] == before[k])
  }

  /** The written word is determined, so the order of the writes cannot matter. */
  lemma WrittenIsUnique(fields: Fields, values: map<string, Bits>, before: Bits, a: Bits, b: Bits)
    requires Written(fields, values, before, a) && Written(fields, values, before, b)
    ensures a == b
  {
  }

  /** One more field on top of those already written. */
  lemma WrittenMore(fields: Fields, values: map<string, Bits>, done: set<string>, n: string, before: Bits, r: Bits)
    requires ValidFields(fields) && NoOverlap(fields, values.Keys)
    requires done <= values.Keys && n in values && n in fields && n !in done
    requires Written(fields, Restrict(values, done), before, r)
    ensures Written(fields, Restrict(values, done + {n}), before, fields[n].SetBitfieldInValue(values[n], r))
  {
    hide Field.SetBitfieldInValue;
    SetBits(fields[n], values[n], r);
  }

  function Restrict(values: map<string, Bits>, names: set<string>): map<string, Bits> {
    map n | n in names && n in values :: values[n]
  }

  /** After a write of several fields each of them reads back its own value modulo 2^len. */
  lemma WrittenReadsBack(fields: Fields, values: map<string, Bits>, before: Bits, after: Bits, n: string)
    requires ValidFields(fields) && Written(fields, values, before, after) && n in values && n in fields
    ensures fields[n].GetBitfieldInValue(after) == And(values[n], LowMask(fields[n].len))
  {
  }

  /** Two field writes commute for all values if and only if the fields share no bit. */
  lemma WritesCommuteIff(f: Field, g: Field)
    requires f.Valid() && g.Valid()
    ensures (forall v, w, r :: f.SetBitfieldInValue(v, g.SetBitfieldInValue(w, r))
                            == g.SetBitfieldInValue(w, f.SetBitfieldInValue(v, r)))
       <==> (forall k :: f.Has(k) ==> !g.Has(k))
  {
    hide Field.SetBitfieldInValue;
    if forall k :: f.Has(k) ==> !g.Has(k) {
      forall v, w, r ensures f.SetBitfieldInValue(v, g.SetBitfieldInValue(w, r))
                          == g.SetBitfieldInValue(w, f.SetBitfieldInValue(v, r)) {
        SetBits(f, v, g.SetBitfieldInValue(w, r));
        SetBits(g, w, r);
        SetBits(g, w, f.SetBitfieldInValue(v, r));
        SetBits(f, v, r);
        forall k | 0 <= k < 32
          ensures f.SetBitfieldInValue(v, g.SetBitfieldInValue(w, r))[k]
               == g.SetBitfieldInValue(w, f.SetBitfieldInValue(v, r))[k]
        {
          assert f.Has(k) ==> !g.Has(k);
        }
      }
    } else {
      var k :| f.Has(k) && g.Has(k);
      SetBits(f, ALL_ONES, g.SetBitfieldInValue(ZERO, ZERO));
      SetBits(g, ZERO, f.SetBitfieldInValue(ALL_ONES, ZERO));
      assert f.SetBitfieldInValue(ALL_ONES, g.SetBitfieldInValue(ZERO, ZERO))[k];
      assert !g.SetBitfieldInValue(ZERO, f.SetBitfieldInValue(ALL_ONES, ZERO))[k];
    }
  }
}

/** Registers by address behind a memory-like pair of read and write callbacks. */
module RegisterAccess {
  import opened RegisterFields

  class RegisterMap {
    var memory: map<nat, Bits>

    constructor ()
      ensures memory == map[]
    {
      memory := map[];
    }

    function Read(address: nat): Bits
      reads this
    {
      if address in memory then memory[address] else ZERO
    }

    method Write(address: nat, v: Bits)
      modifies this
      ensures memory == old(memory)[address := v]
    {
      memory := memory[address := v];
    }
  }

  class Register {
    const address: nat
    const fields: Fields
    /** Null until the register is added to a map. */
    const registerMap: RegisterMap?

    constructor (address: nat, fields: Fields, registerMap: RegisterMap?)
      requires ValidFields(fields)
      ensures this.address == address && this.fields == fields && this.registerMap == registerMap
    {
      this.address, this.fields, this.registerMap := address, fields, registerMap;
    }

    function Memory(): set<object>
    {
      if registerMap == null then {} else {registerMap}
    }

    function ReadValue(): Bits
      reads Memory()
    {
      if registerMap == null then ALL_ONES else registerMap.Read(address)
    }

    method WriteValue(v: Bits)
      modifies Memory()
      ensures registerMap != null ==> registerMap.memory == old(registerMap.memory)[address := v]
    {
      if registerMap != null {
        registerMap.Write(address, v);
      }
    }

    /** Unknown names are skipped. The fields are visited in any order, the key order of the source included. */
    method WriteFields(values: map<string, Bits>)
      requires ValidFields(fields)
      modifies Memory()
      ensures registerMap != null ==> registerMap.memory == old(registerMap.memory)[address := ReadValue()]
      ensures registerMap != null && NoOverlap(fields, values.Keys) ==>
        Written(fields, values, old(ReadValue()), ReadValue())
    {
      hide NoOverlap, Written, ValidFields;
      var val := ReadValue();
      ghost var before, done := val, {};
      var todo := values.Keys;
      NothingWritten(fields, values, before);
      while todo != {}
        invariant registerMap != null ==> registerMap.memory == old(registerMap.memory)
        invariant todo <= values.Keys && done == values.Keys - todo
        invariant NoOverlap(fields, values.Keys) ==> Written(fields, Restrict(values, done), before, val)
        decreases todo
      {
        var n :| n in todo;
        if n in fields {
          if NoOverlap(fields, values.Keys) {
            WrittenMore(fields, values, done, n, before, val);
          }
          val := fields[n].SetBitfieldInValue(values[n], val);
        } else {
          UnknownSkipped(fields, values, done, n, before, val);
        }
        todo := todo - {n};
        done := done + {n};
      }
      assert Restrict(values, done) == values;
      WriteValue(val);
    }

    /** A write through one field. An unknown field is only logged. */
    method WriteField(n: string, v: Bits)
      requires ValidFields(fields)
      modifies Memory()
      ensures n in fields && registerMap != null ==>
        registerMap.memory == old(registerMap.memory)[address := fields[n].SetBitfieldInValue(v, old(ReadValue()))]
      ensures n !in fields && registerMap != null ==> registerMap.memory == old(registerMap.memory)
    {
      if n in fields {
        var cur := ReadValue();
        cur := fields[n].SetBitfieldInValue(v, cur);
        WriteValue(cur);
      }
    }

    /** Bit `b` of the value is bit `start + b` of the register, as far as the field goes. An unknown field reads 0. */
    method ReadField(n: string) returns (v: Bits)
      requires ValidFields(fields)
      ensures forall b :: 0 <= b < 32 ==>
        (v[b] <==> n in fields && b < fields[n].len && ReadValue()[fields[n].start + b])
      ensures registerMap == null ==> forall b :: 0 <= b < 32 ==> (v[b] <==> n in fields && b < fields[n].len)
    {
      v := ZERO;
      if n in fields {
        MaskBits(fields[n]);
        v := fields[n].GetBitfieldInValue(ReadValue());
      }
    }

    /** A field reads back what was written through it, modulo 2^len, and no other bit or register has changed. */
    method WriteThenRead(n: string, v: Bits) returns (got: Bits)
      requires ValidFields(fields) && registerMap != null && n in fields
      modifies Memory()
      ensures forall b :: 0 <= b < 32 ==> (got[b] <==> b < fields[n].len && v[b])
      ensures forall k :: 0 <= k < 32 && !(fields[n].start <= k < fields[n].start + fields[n].len) ==>
        ReadValue()[k] == old(ReadValue())[k]
      ensures forall a :: a != address ==> registerMap.Read(a) == old(registerMap.Read(a))
    {
      hide Field.SetBitfieldInValue, Field.GetBitfieldInValue;
      SetBits(fields[n], v, ReadValue());
      WriteField(n, v);
      got := ReadField(n);
    }

    /** The same fields written one after the other, in the given order: the same register contents. */
    method WriteOneByOne(values: map<string, Bits>, order: seq<string>)
      requires ValidFields(fields) && registerMap != null && NoOverlap(fields, values.Keys)
      requires forall i, j :: 0 <= i < j < |order| ==> order[i] != order[j]
      requires forall n :: n in order <==> n in values
      modifies Memory()
      ensures Written(fields, values, old(ReadValue()), ReadValue())
      ensures forall a :: a != address ==> registerMap.Read(a) == old(registerMap.Read(a))
    {
      hide NoOverlap, Written, ValidFields;
      ghost var before, done := ReadValue(), {};
      NothingWritten(fields, values, before);
      var k := 0;
      while k < |order|
        invariant k <= |order| && done == (set i | 0 <= i < k :: order[i])
        invariant Written(fields, Restrict(values, done), before, ReadValue())
        invariant forall a :: a != address ==> registerMap.Read(a) == old(registerMap.Read(a))
      {
        var n := order[k];
        assert n !in done;
        if n in fields {
          WrittenMore(fields, values, done, n, before, ReadValue());
        } else {
          UnknownSkipped(fields, values, done, n, before, ReadValue());
        }
        WriteField(n, values[n]);
        done := done + {n};
        k := k + 1;
      }
      assert done == values.Keys by {
        forall n | n in values ensures n in done { assert n in order; }
      }
      assert Restrict(values, done) == values;
    }
  }

  lemma NothingWritten(fields: Fields, values: map<string, Bits>, before: Bits)
    ensures Written(fields, Restrict(values, {}), before, before)
  {
  }

  lemma UnknownSkipped(fields: Fields, values: map<string, Bits>, done: set<string>, n: string, before: Bits, r: Bits)
    requires n !in fields
    ensures Written(fields, Restrict(values, done), before, r)
        ==> Written(fields, Restrict(values, done + {n}), before, r)
  {
  }

  /**
   One multi-field write against one write per field: on two memories with the same contents, for fields that share no
   bit and in any order, every register ends up with the same word.
   */
  method WriteBothWays(a: Register, b: Register, values: map<string, Bits>, order: seq<string>)
    requires a.address == b.address && a.fields == b.fields && ValidFields(a.fields)
    requires a.registerMap != null && b.registerMap != null && a.registerMap != b.registerMap
    requires forall x :: a.registerMap.Read(x) == b.registerMap.Read(x)
    requires NoOverlap(a.fields, values.Keys)
    requires forall i, j :: 0 <= i < j < |order| ==> order[i] != order[j]
    requires forall n :: n in order <==> n in values
    modifies a.registerMap, b.registerMap
    ensures forall x :: a.registerMap.Read(x) == b.registerMap.Read(x)
  {
    hide NoOverlap, Written, ValidFields;
    ghost var before := a.ReadValue();
    a.WriteFields(values);
    b.WriteOneByOne(values, order);
    WrittenIsUnique(a.fields, values, before, a.ReadValue(), b.ReadValue());
  }
}
