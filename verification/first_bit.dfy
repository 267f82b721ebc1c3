/** __rt_ffs of kservice.c and its table. */
module FirstBit {
  type Bits = bv32

  /** 1L << p. */
  function Bit(p: nat): Bits
    requires p < 32
  {
    1 << p
  }

  /** The columns of a row of __lowest_bit_bitmap. The sixteen rows differ only in their first column, which goes by the high
      four bits of the index as the others go by the low ones. */
  const Columns: seq<nat> := [0, 0, 1, 0, 2, 0, 1, 0, 3, 0, 1, 0, 2, 0, 1, 0]

  function LowestBit(b: bv8): (k: nat)
    ensures k < 8
  {
    if b & 15 != 0 then Column(b & 15) else if b == 0 then 0 else 4 + Column(b >> 4)
  }

  function Column(n: bv8): (k: nat)
    requires n < 16
    ensures k < 4
  {
    Columns[n as int]
  }

  function Ffs(value: Bits): nat {
    if value == 0 then 0
    else if value & 0xff != 0 then LowestBit((value & 0xff) as bv8) + 1
    else if value & 0xff00 != 0 then LowestBit(((value & 0xff00) >> 8) as bv8) + 9
    else if value & 0xff0000 != 0 then LowestBit(((value & 0xff0000) >> 16) as bv8) + 17
    else LowestBit(((value & 0xff00_0000) >> 24) as bv8) + 25
  }

  ghost predicate LowestIn8(b: bv8, k: nat) { k < 8 && b & (1 << k) != 0 && b & ((1 << k) - 1) == 0 }

  lemma ColumnIs(n: bv8)
    requires 0 < n < 16
    ensures LowestIn8(n, Column(n))
  {
    if n == 1 || n == 3 || n == 5 || n == 7 || n == 9 || n == 11 || n == 13 || n == 15 {
      assert Column(n) == 0;
    } else if n == 2 || n == 6 || n == 10 || n == 14 {
      assert Column(n) == 1;
    } else if n == 4 || n == 12 {
      assert Column(n) == 2;
    } else {
      assert Column(n) == 3;
    }
  }

  lemma LowestBitIs(b: bv8)
    requires b != 0
    ensures LowestIn8(b, LowestBit(b))
  {
    if b & 15 != 0 {
      ColumnIs(b & 15);
    } else {
      ColumnIs(b >> 4);
    }
  }

  ghost predicate LowestIn32(v: Bits, k: nat) { k < 32 && v & (1 << k) != 0 && v & ((1 << k) - 1) == 0 }

  lemma Byte0(v: Bits, b: bv8, k: nat)
    requires b == (v & 0xff) as bv8 && LowestIn8(b, k)
    ensures LowestIn32(v, k)
  {
  }

  lemma Byte1(v: Bits, b: bv8, k: nat)
    requires v & 0xff == 0 && b == ((v & 0xff00) >> 8) as bv8 && LowestIn8(b, k)
    ensures LowestIn32(v, k + 8)
  {
  }

  lemma Byte2(v: Bits, b: bv8, k: nat)
    requires v & 0xffff == 0 && b == ((v & 0xff0000) >> 16) as bv8 && LowestIn8(b, k)
    ensures LowestIn32(v, k + 16)
  {
  }

  lemma Byte3(v: Bits, b: bv8, k: nat)
    requires v & 0xff_ffff == 0 && b == ((v & 0xff00_0000) >> 24) as bv8 && LowestIn8(b, k)
    ensures LowestIn32(v, k + 24)
  {
  }

  lemma FfsIsLowest(v: Bits)
    requires v != 0
    ensures 1 <= Ffs(v) <= 32 && LowestIn32(v, Ffs(v) - 1)
  {
    var b0, b1, b2, b3 := (v & 0xff) as bv8, ((v & 0xff00) >> 8) as bv8, ((v & 0xff0000) >> 16) as bv8,
                          ((v & 0xff00_0000) >> 24) as bv8;
    hide LowestBit, LowestIn32, LowestIn8;
    if v & 0xff != 0 {
      assert b0 != 0;
      LowestBitIs(b0);
      Byte0(v, b0, LowestBit(b0));
    } else if v & 0xff00 != 0 {
      assert b1 != 0;
      LowestBitIs(b1);
      Byte1(v, b1, LowestBit(b1));
    } else if v & 0xff0000 != 0 {
      assert b2 != 0 && v & 0xffff == 0;
      LowestBitIs(b2);
      Byte2(v, b2, LowestBit(b2));
    } else {
      assert b3 != 0 && v & 0xff_ffff == 0;
      LowestBitIs(b3);
      Byte3(v, b3, LowestBit(b3));
    }
  }

  // ---------------------------------------------------------------- sets of bits

  predicate IsSet(v: Bits, p: nat)
    requires p < 32
  {
    And(v, Bit(p)) != 0
  }

  function And(a: Bits, b: Bits): Bits { a & b }

  function Or(a: Bits, b: Bits): Bits { a | b }

  function Minus(a: Bits, b: Bits): Bits { a & !b }

  /** __rt_ffs finds the lowest bit that is set, counted from 1, and 0 only for no bits at all. */
  lemma FfsFinds(v: Bits)
    ensures v == 0 <==> Ffs(v) == 0
    ensures v != 0 ==> 1 <= Ffs(v) <= 32 && IsSet(v, Ffs(v) - 1)
    ensures forall p :: 0 <= p < 32 && IsSet(v, p) ==> Ffs(v) - 1 <= p
  {
    if v != 0 {
      FfsIsLowest(v);
      hide Ffs;
      forall p | 0 <= p < 32 && IsSet(v, p)
        ensures Ffs(v) - 1 <= p
      {
        if p < Ffs(v) - 1 {
          BelowLowest(v, Ffs(v) - 1, p);
        }
      }
    }
  }

  lemma BelowLowest(v: Bits, k: nat, p: nat)
    requires LowestIn32(v, k) && p < k
    ensures !IsSet(v, p)
  {
    BelowMask(v, k, p);
  }

  lemma BelowMask(v: Bits, k: nat, p: nat)
    requires p < k < 32 && v & ((1 << k) - 1) == 0
    ensures v & Bit(p) == 0
  {
    InMask(k, p);
    var m: Bits := (1 << k) - 1;
    Inside(v, m, Bit(p));
  }

  lemma InMask(k: nat, p: nat)
    requires p < k < 32
    ensures Bit(p) & ((1 << k) - 1) == Bit(p)
  {
  }

  lemma Inside(v: Bits, m: Bits, b: Bits)
    requires v & m == 0 && b & m == b
    ensures v & b == 0
  {
  }

  /** Setting or clearing a bit changes that bit only. */
  lemma SetBit(v: Bits, p: nat, q: nat)
    requires p < 32 && q < 32
    ensures IsSet(Or(v, Bit(p)), q) <==> p == q || IsSet(v, q)
  {
    hide Bit, And, Or, Minus;
    var a, b := Bit(p), Bit(q);
    OneBit(p);
    if p != q {
      DifferentBits(p, q);
      OtherBitsSet(v, a, b);
    } else {
      SameBit(v, a);
    }
  }

  lemma ClearBit(v: Bits, p: nat, q: nat)
    requires p < 32 && q < 32
    ensures IsSet(Minus(v, Bit(p)), q) <==> p != q && IsSet(v, q)
  {
    hide Bit, And, Or, Minus;
    var a, b := Bit(p), Bit(q);
    OneBit(p);
    if p != q {
      DifferentBits(p, q);
      OtherBitsClear(v, a, b);
    } else {
      SameBit(v, a);
    }
  }

  lemma DifferentBits(p: nat, q: nat)
    requires p < 32 && q < 32 && p != q
    ensures And(Bit(p), Bit(q)) == 0
  {
  }

  lemma OneBit(p: nat)
    requires p < 32
    ensures Bit(p) != 0
  {
  }

  lemma OtherBitsSet(v: Bits, a: Bits, b: Bits)
    requires And(a, b) == 0
    ensures And(Or(v, a), b) == And(v, b)
  {
    OrDistributes(v, a, b);
  }

  lemma OtherBitsClear(v: Bits, a: Bits, b: Bits)
    requires And(a, b) == 0
    ensures And(Minus(v, a), b) == And(v, b)
  {
    MinusDistributes(v, a, b);
  }

  lemma OrDistributes(v: Bits, a: Bits, b: Bits)
    requires a & b == 0
    ensures (v | a) & b == v & b
  {
  }

  lemma MinusDistributes(v: Bits, a: Bits, b: Bits)
    requires a & b == 0
    ensures (v & !a) & b == v & b
  {
  }

  lemma SameBit(v: Bits, a: Bits)
    ensures And(Or(v, a), a) == a && And(Minus(v, a), a) == 0
  {
  }

  lemma NoBits(p: nat)
    requires p < 32
    ensures !IsSet(0, p)
  {
  }

  /** No bits are set iff there are no bits. */
  lemma EmptySet(v: Bits)
    ensures v == 0 <==> forall p :: 0 <= p < 32 ==> !IsSet(v, p)
  {
    FfsFinds(v);
    if v == 0 {
      forall p | 0 <= p < 32
        ensures !IsSet(v, p)
      {
        NoBits(p);
      }
    }
  }
}
