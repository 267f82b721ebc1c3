/** The four-byte words of the shell's virtual machine and the C operators on them (finsh_ops.c). A C `long` is a
    32-bit word. */
module FinshWords {
  import opened Prelude

  type Byte = x: int | 0 <= x < 0x100
  type Word = x: int | 0 <= x < 0x1_0000_0000

  datatype BinOp = Add | Sub | Div | Mod | Mul | And | Or | Xor | Shl | Shr

  predicate Negative(a: Word) { a >= 0x8000_0000 }

  /** The negative of a word, in two's complement. */
  function Minus(a: Word): Word { if a == 0 then 0 else 0x1_0000_0000 - a }

  function Magnitude(a: Word): Word { if Negative(a) then Minus(a) else a }

  /** All bits flipped. */
  function Complement(a: Word): Word { 0xFFFF_FFFF - a }

  function Pow2(n: nat): (p: nat)
    ensures p >= 1
  {
    if n == 0 then 1 else 2 * Pow2(n - 1)
  }

  lemma PowersOfTwo()
    ensures Pow2(32) == 0x1_0000_0000
  {
    assert Pow2(8) == 0x100;
    assert Pow2(16) == 0x1_0000 && Pow2(24) == 0x100_0000;
  }

  datatype Gate = AndGate | OrGate | XorGate

  function Combined(g: Gate, x: bool, y: bool): bool {
    match g
    case AndGate => x && y
    case OrGate => x || y
    case XorGate => x != y
  }

  /** The lowest `n` bits of two words, combined one by one. */
  function Gated(g: Gate, a: nat, b: nat, n: nat): (r: nat)
    ensures r < Pow2(n)
  {
    if n == 0 then 0
    else 2 * Gated(g, a / 2, b / 2, n - 1) + (if Combined(g, a % 2 == 1, b % 2 == 1) then 1 else 0)
  }

  function Bitwise(g: Gate, a: Word, b: Word): Word {
    PowersOfTwo();
    Gated(g, a, b, 32)
  }

  /** The C operators on `long`: two's complement, division towards zero, an arithmetic right shift. A zero divisor
      and a shift by 32 or more have no value. */
  function Apply(op: BinOp, a: Word, b: Word): Option<Word> {
    match op
    case Add => Some((a + b) % 0x1_0000_0000)
    case Sub => Some((a - b) % 0x1_0000_0000)
    case Mul => Some((a * b) % 0x1_0000_0000)
    case And => Some(Bitwise(AndGate, a, b))
    case Or => Some(Bitwise(OrGate, a, b))
    case Xor => Some(Bitwise(XorGate, a, b))
    case Div => if b == 0 then None else Some(Quotient(a, b))
    case Mod => if b == 0 then None else Some(Remainder(a, b))
    case Shl => if b >= 32 then None else Some((a * Pow2(b)) % 0x1_0000_0000)
    case Shr => if b >= 32 then None else Some(ShiftedRight(a, b))
  }

  function Quotient(a: Word, b: Word): Word
    requires b != 0
  {
    var q := DivideWords(Magnitude(a), Magnitude(b));
    if Negative(a) == Negative(b) then q else Minus(q)
  }

  function Remainder(a: Word, b: Word): Word
    requires b != 0
  {
    var r := Magnitude(a) % Magnitude(b);
    if Negative(a) then Minus(r) else r
  }

  function DivideWords(x: Word, n: nat): (q: Word)
    requires n != 0
    ensures q <= x
  {
    DivideBound(x, n);
    x / n
  }

  lemma DivideBound(x: nat, n: nat)
    requires n != 0
    ensures 0 <= x / n <= x
  {
    Euclid(x, n);
    Product(x / n, n);
  }

  lemma Euclid(x: nat, n: nat)
    requires n != 0
    ensures x == x / n * n + x % n && 0 <= x % n < n
  {
  }

  lemma Product(q: int, n: nat)
    requires n > 0
    ensures q < 0 ==> q * n <= 0 - n
    ensures q >= 0 ==> q * n >= q
    ensures q > 0 ==> q * n >= n
  {
  }

  function ShiftedRight(a: Word, b: nat): Word {
    if Negative(a) then Complement(DivideWords(Complement(a), Pow2(b))) else DivideWords(a, Pow2(b))
  }

  // ---------------------------------------------------------------- what the operators mean

  /** The C `long` a word stands for. */
  function Signed(a: Word): int { if a >= 0x8000_0000 then a - 0x1_0000_0000 else a }

  /** Bit `p` of a word. */
  predicate Bit(a: nat, p: nat) { if p == 0 then a % 2 == 1 else Bit(a / 2, p - 1) }

  /** Equal up to a multiple of the word range. */
  predicate Congruent(x: int, y: int) { (x - y) % 0x1_0000_0000 == 0 }

  function Abs(x: int): nat { if x < 0 then -x else x }

  /** No rest, or one with the sign of `x` that is smaller than the divisor. */
  predicate RestOf(rest: int, x: int, y: int) {
    Abs(rest) < Abs(y) && (rest == 0 || (rest < 0 <==> x < 0))
  }

  /** The one quotient of two longs that is no long: -2^31 / -1. */
  predicate Overflows(x: int, y: int) { x == -0x8000_0000 && y == -1 }

  /** The result of an operator on signed values. */
  ghost predicate Means(op: BinOp, a: Word, b: Word, r: Word) {
    match op
    case Add => Congruent(Signed(r), Signed(a) + Signed(b))
    case Sub => Congruent(Signed(r), Signed(a) - Signed(b))
    case Mul => Congruent(Signed(r), Signed(a) * Signed(b))
    case And => forall p: nat :: Bit(r, p) <==> Bit(a, p) && Bit(b, p)
    case Or => forall p: nat :: Bit(r, p) <==> Bit(a, p) || Bit(b, p)
    case Xor => forall p: nat :: Bit(r, p) <==> Bit(a, p) != Bit(b, p)
    case Div =>
      if Overflows(Signed(a), Signed(b)) then r == a
      else RestOf(Signed(a) - Signed(r) * Signed(b), Signed(a), Signed(b))
    case Mod => RestOf(Signed(r), Signed(a), Signed(b)) && exists q: int {:trigger q * Signed(b)} :: Signed(a) == q * Signed(b) + Signed(r)
    case Shl => Congruent(Signed(r), Signed(a) * Pow2(b))
    case Shr => Signed(r) * Pow2(b) <= Signed(a) < (Signed(r) + 1) * Pow2(b)
  }

  lemma GatedBit(g: Gate, a: nat, b: nat, n: nat, p: nat)
    ensures Bit(Gated(g, a, b, n), p) <==> p < n && Combined(g, Bit(a, p), Bit(b, p))
  {
    if n == 0 {
      NoBits(p);
    } else if p > 0 {
      GatedBit(g, a / 2, b / 2, n - 1, p - 1);
    }
  }

  lemma NoBits(p: nat)
    ensures !Bit(0, p)
  {
  }

  lemma HighBit(a: nat, n: nat, p: nat)
    requires a < Pow2(n) && n <= p
    ensures !Bit(a, p)
  {
    if n == 0 {
      NoBits(p);
    } else {
      HighBit(a / 2, n - 1, p - 1);
    }
  }

  /** A word is determined by its 32 bits. */
  lemma {:induction false} SameBits(a: nat, b: nat, n: nat)
    requires a < Pow2(n) && b < Pow2(n)
    requires forall p: nat :: p < n ==> (Bit(a, p) <==> Bit(b, p))
    ensures a == b
  {
    if n > 0 {
      forall p: nat | p < n - 1
        ensures Bit(a / 2, p) <==> Bit(b / 2, p)
      {
        assert Bit(a, p + 1) <==> Bit(b, p + 1);
      }
      SameBits(a / 2, b / 2, n - 1);
      assert Bit(a, 0) <==> Bit(b, 0);
    }
  }

  lemma BitwiseMeans(g: Gate, a: Word, b: Word, p: nat)
    ensures Bit(Bitwise(g, a, b), p) <==> Combined(g, Bit(a, p), Bit(b, p))
  {
    GatedBit(g, a, b, 32, p);
    PowersOfTwo();
    if p >= 32 {
      HighBit(a, 32, p);
      HighBit(b, 32, p);
    }
  }

  /** A product changes by a multiple of the range when a factor does. */
  lemma ProductCongruent(a: Word, y: int)
    ensures Congruent(a * y, Signed(a) * y)
  {
    var k := if a >= 0x8000_0000 then 1 else 0;
    assert Signed(a) == a - k * 0x1_0000_0000;
    assert a * y - Signed(a) * y == (k * y) * 0x1_0000_0000;
  }

  lemma CongruentSum(x: int, y: int, z: int)
    requires Congruent(x, y) && Congruent(y, z)
    ensures Congruent(x, z)
  {
  }

  /** Reducing to a word and reading it as signed changes a number by a multiple of the range. */
  lemma WrappedIs(x: int)
    ensures Congruent(Signed(x % 0x1_0000_0000), x)
  {
  }

  lemma MulMeans(a: Word, b: Word)
    ensures Means(Mul, a, b, (a * b) % 0x1_0000_0000)
  {
    WrappedIs(a * b);
    ProductCongruent(a, b);
    ProductCongruent(b, Signed(a));
    assert b * Signed(a) == Signed(a) * b && Signed(b) * Signed(a) == Signed(a) * Signed(b);
    CongruentSum(Signed((a * b) % 0x1_0000_0000), a * b, Signed(a) * b);
    CongruentSum(Signed((a * b) % 0x1_0000_0000), Signed(a) * b, Signed(a) * Signed(b));
  }

  lemma ShlMeans(a: Word, b: Word)
    requires b < 32
    ensures Means(Shl, a, b, (a * Pow2(b)) % 0x1_0000_0000)
  {
    var r := (a * Pow2(b)) % 0x1_0000_0000;
    WrappedIs(a * Pow2(b));
    ProductCongruent(a, Pow2(b));
    CongruentSum(Signed(r), a * Pow2(b), Signed(a) * Pow2(b));
  }

  lemma ShrMeans(a: Word, b: Word)
    requires b < 32
    ensures Means(Shr, a, b, ShiftedRight(a, b))
  {
    var c, n := if Negative(a) then Complement(a) else a, Pow2(b);
    assert Signed(ShiftedRight(a, b)) == (if Negative(a) then -1 - DivideWords(c, n) else DivideWords(c, n));
    assert Signed(a) == (if Negative(a) then -1 - c else c);
    hide Pow2, ShiftedRight, Signed, Complement;
    Floor(c, n);
  }

  /** Division rounds down, of the number itself and of its complement. */
  lemma Floor(c: nat, n: nat)
    requires n > 0
    ensures c / n * n <= c < (c / n + 1) * n
    ensures (-1 - c / n) * n <= -1 - c < (-1 - c / n + 1) * n
  {
    Euclid(c, n);
    Distributed(c / n, n);
  }

  lemma Distributed(q: int, n: int)
    ensures (q + 1) * n == q * n + n && (-1 - q) * n == 0 - q * n - n && (-1 - q + 1) * n == 0 - q * n
  {
  }

  /** Quotient and rest as integers: those of the magnitudes, with the signs put back. */
  ghost function TrueQuotient(a: Word, b: Word): int
    requires b != 0
  {
    var q: int := Magnitude(a) / Magnitude(b);
    if Negative(a) == Negative(b) then q else 0 - q
  }

  ghost function TrueRest(a: Word, b: Word): int
    requires b != 0
  {
    var r: int := Magnitude(a) % Magnitude(b);
    if Negative(a) then 0 - r else r
  }

  lemma TrueDivision(a: Word, b: Word)
    requires b != 0
    ensures Signed(a) == TrueQuotient(a, b) * Signed(b) + TrueRest(a, b)
    ensures RestOf(TrueRest(a, b), Signed(a), Signed(b))
  {
    var x: int, y: int := Magnitude(a), Magnitude(b);
    Euclid(x, y);
    Negated(x / y, y);
    assert Signed(b) == y || Signed(b) == 0 - y;
  }

  lemma Negated(q: int, y: int)
    ensures q * (0 - y) == 0 - q * y && (0 - q) * y == 0 - q * y && (0 - q) * (0 - y) == q * y
  {
  }

  lemma Halved(x: nat, y: nat)
    requires y > 1
    ensures 2 * (x / y) <= x
  {
    Euclid(x, y);
    DivideBound(x, y);
    var q := x / y;
    assert q * y == q * (y - 2) + q * 2;
    if y > 2 {
      Product(q, y - 2);
    }
  }

  /** The word of a quotient stands for it unless the quotient overflows; the word of a rest always does. */
  lemma DivisionWords(a: Word, b: Word)
    requires b != 0
    ensures if Overflows(Signed(a), Signed(b)) then Quotient(a, b) == a else Signed(Quotient(a, b)) == TrueQuotient(a, b)
    ensures Signed(Remainder(a, b)) == TrueRest(a, b)
  {
    var x: int, y: int := Magnitude(a), Magnitude(b);
    DivideBound(x, y);
    Euclid(x, y);
    if y > 1 {
      Halved(x, y);
    } else {
      DividedByOne(x);
    }
  }

  lemma DividedByOne(x: int)
    ensures x / 1 == x
  {
  }

  lemma DivMeans(a: Word, b: Word)
    requires b != 0
    ensures Means(Div, a, b, Quotient(a, b))
  {
    hide Quotient, TrueQuotient, TrueRest;
    DivisionWords(a, b);
    TrueDivision(a, b);
  }

  lemma ModMeans(a: Word, b: Word)
    requires b != 0
    ensures Means(Mod, a, b, Remainder(a, b))
  {
    hide Remainder, TrueQuotient, TrueRest;
    DivisionWords(a, b);
    TrueDivision(a, b);
  }

  /** Quotient and rest belong together, also where the quotient overflows. */
  lemma QuotientAndRest(a: Word, b: Word)
    requires b != 0
    ensures Congruent(Signed(a), Signed(Quotient(a, b)) * Signed(b) + Signed(Remainder(a, b)))
  {
    DivisionWords(a, b);
    TrueDivision(a, b);
    hide Quotient, Remainder, TrueQuotient, TrueRest;
    if Overflows(Signed(a), Signed(b)) {
      assert TrueQuotient(a, b) * Signed(b) == 0 - TrueQuotient(a, b);
    }
  }

  lemma GateMeans(op: BinOp, a: Word, b: Word)
    requires op in {And, Or, Xor}
    ensures Apply(op, a, b).Some? && Means(op, a, b, Apply(op, a, b).value)
  {
    hide Bit, Bitwise;
    forall g: Gate, p: nat
      ensures Bit(Bitwise(g, a, b), p) <==> Combined(g, Bit(a, p), Bit(b, p))
    {
      BitwiseMeans(g, a, b, p);
    }
  }

  /** Every operator but a division by zero and a shift by 32 or more has a value. */
  predicate HasValue(op: BinOp, b: Word) {
    (op in {Div, Mod} ==> b != 0) && (op in {Shl, Shr} ==> b < 32)
  }

  lemma OperatorMeans(op: BinOp, a: Word, b: Word)
    ensures Apply(op, a, b).Some? <==> HasValue(op, b)
    ensures Apply(op, a, b).Some? ==> Means(op, a, b, Apply(op, a, b).value)
  {
    hide Bit, Bitwise, Quotient, Remainder, ShiftedRight, Pow2, Signed;
    match op
    case Add => SumMeans(a, b);
    case Sub => SumMeans(a, b);
    case Mul => MulMeans(a, b);
    case And => GateMeans(op, a, b);
    case Or => GateMeans(op, a, b);
    case Xor => GateMeans(op, a, b);
    case Div => if b != 0 { DivMeans(a, b); }
    case Mod => if b != 0 { ModMeans(a, b); }
    case Shl => if b < 32 { ShlMeans(a, b); }
    case Shr => if b < 32 { ShrMeans(a, b); }
  }

  /** The operators compute exactly what C says of the signed operands: one word and no other. */
  lemma OperatorIs(op: BinOp, a: Word, b: Word, r: Word)
    ensures Apply(op, a, b) == Some(r) <==> HasValue(op, b) && Means(op, a, b, r)
  {
    OperatorMeans(op, a, b);
    hide Apply, Means;
    if HasValue(op, b) && Means(op, a, b, r) {
      OneMeaning(op, a, b, r, Apply(op, a, b).value);
    }
  }

  lemma OneMeaning(op: BinOp, a: Word, b: Word, r: Word, r': Word)
    requires HasValue(op, b) && Means(op, a, b, r) && Means(op, a, b, r')
    ensures r == r'
  {
    hide Bit, Pow2, Signed;
    match op
    case Add => OneWrapped(r, r', Signed(a) + Signed(b));
    case Sub => OneWrapped(r, r', Signed(a) - Signed(b));
    case Mul => OneWrapped(r, r', Signed(a) * Signed(b));
    case And => PowersOfTwo(); SameBits(r, r', 32);
    case Or => PowersOfTwo(); SameBits(r, r', 32);
    case Xor => PowersOfTwo(); SameBits(r, r', 32);
    case Div => OneQuotient(a, b, r, r');
    case Mod => OneRemainder(a, b, r, r');
    case Shl => OneWrapped(r, r', Signed(a) * Pow2(b));
    case Shr => OneFloor(Signed(a), Pow2(b), Signed(r), Signed(r')); OneSigned(r, r');
  }

  lemma OneSigned(r: Word, r': Word)
    requires Signed(r) == Signed(r')
    ensures r == r'
  {
  }

  lemma OneWrapped(r: Word, r': Word, x: int)
    requires Congruent(Signed(r), x) && Congruent(Signed(r'), x)
    ensures r == r'
  {
  }

  lemma OneFloor(x: int, n: nat, q: int, q': int)
    requires n > 0
    requires q * n <= x < (q + 1) * n && q' * n <= x < (q' + 1) * n
    ensures q == q'
  {
    Distributed(q, n);
    Distributed(q', n);
    Product(q - q', n);
    assert (q - q') * n == q * n - q' * n;
  }

  lemma OneDivision(x: int, y: int, q: int, q': int, rest: int, rest': int)
    requires x == q * y + rest && x == q' * y + rest'
    requires RestOf(rest, x, y) && RestOf(rest', x, y)
    ensures q == q' && rest == rest'
  {
    Product(q - q', Abs(y));
    Negated(q - q', y);
    assert (q - q') * y == q * y - q' * y;
  }

  lemma OneQuotient(a: Word, b: Word, r: Word, r': Word)
    requires b != 0 && Means(Div, a, b, r) && Means(Div, a, b, r')
    ensures r == r'
  {
    var x, y := Signed(a), Signed(b);
    if !Overflows(x, y) {
      OneDivision(x, y, Signed(r), Signed(r'), x - Signed(r) * y, x - Signed(r') * y);
      OneSigned(r, r');
    }
  }

  lemma OneRemainder(a: Word, b: Word, r: Word, r': Word)
    requires b != 0 && Means(Mod, a, b, r) && Means(Mod, a, b, r')
    ensures r == r'
  {
    var x, y := Signed(a), Signed(b);
    var q: int :| x == q * y + Signed(r);
    var q': int :| x == q' * y + Signed(r');
    OneDivision(x, y, q, q', Signed(r), Signed(r'));
    OneSigned(r, r');
  }

  lemma SumMeans(a: Word, b: Word)
    ensures Means(Add, a, b, (a + b) % 0x1_0000_0000) && Means(Sub, a, b, (a - b) % 0x1_0000_0000)
  {
    hide Signed;
    WrappedIs(a + b);
    WrappedIs(a - b);
    SignedIs(a);
    SignedIs(b);
    CongruentSum(Signed((a + b) % 0x1_0000_0000), a + b, Signed(a) + Signed(b));
    CongruentSum(Signed((a - b) % 0x1_0000_0000), a - b, Signed(a) - Signed(b));
  }

  lemma SignedIs(a: Word)
    ensures Signed(a) == a || Signed(a) == a - 0x1_0000_0000
  {
  }

  lemma FlippedBit(a: nat, n: nat, p: nat)
    requires a < Pow2(n)
    ensures Bit(Pow2(n) - 1 - a, p) <==> p < n && !Bit(a, p)
  {
    if n == 0 {
      NoBits(p);
    } else if p > 0 {
      FlippedBit(a / 2, n - 1, p - 1);
    }
  }

  /** The complement flips every bit, so it is one less than the negative. */
  lemma ComplementMeans(a: Word, p: nat)
    ensures Signed(Complement(a)) == -1 - Signed(a)
    ensures Bit(Complement(a), p) <==> p < 32 && !Bit(a, p)
  {
    PowersOfTwo();
    FlippedBit(a, 32, p);
  }
}
