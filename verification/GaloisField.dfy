/** Bytes as elements of GF(2^8), the log/exp tables, and the field laws the
    erasure code relies on (crates/protocol/src/fec.rs). */
module GaloisField {
  import opened Arithmetic

  /** A u8, most significant bit first. Read as a polynomial over GF(2), `b7` is the
      coefficient of x^7. */
  datatype Byte = Byte(b7: bool, b6: bool, b5: bool, b4: bool, b3: bool, b2: bool, b1: bool, b0: bool)

  const ZERO := Byte(false, false, false, false, false, false, false, false)
  const ONE := Byte(false, false, false, false, false, false, false, true)

  /** The byte as a number. */
  function Value(b: Byte): (v: nat)
    ensures v < 256
  {
    16 * Nibble(b.b7, b.b6, b.b5, b.b4) + Nibble(b.b3, b.b2, b.b1, b.b0)
  }

  /** A number truncated to one byte, as `as u8` does. */
  function ToByte(n: nat): Byte {
    var (b7, b6, b5, b4) := Bits(n / 16 % 16);
    var (b3, b2, b1, b0) := Bits(n % 16);
    Byte(b7, b6, b5, b4, b3, b2, b1, b0)
  }

  function Nibble(b3: bool, b2: bool, b1: bool, b0: bool): (v: nat)
    ensures v < 16
  {
    (if b3 then 8 else 0) + (if b2 then 4 else 0) + (if b1 then 2 else 0) + (if b0 then 1 else 0)
  }

  function Bits(n: nat): (bits: (bool, bool, bool, bool))
    requires n < 16
    ensures Nibble(bits.0, bits.1, bits.2, bits.3) == n
  {
    var r2 := if n >= 8 then n - 8 else n;
    var r1 := if r2 >= 4 then r2 - 4 else r2;
    var r0 := if r1 >= 2 then r1 - 2 else r1;
    (n >= 8, r2 >= 4, r1 >= 2, r0 >= 1)
  }

  lemma BitsOfNibble(b3: bool, b2: bool, b1: bool, b0: bool)
    ensures Bits(Nibble(b3, b2, b1, b0)) == (b3, b2, b1, b0)
  {
  }

  lemma ValueOfToByte(n: nat)
    ensures Value(ToByte(n)) == n % 256
  {
    hide Nibble, Bits;
    NibblesOf(n);
  }

  lemma NibblesOf(n: nat)
    ensures 16 * (n / 16 % 16) + n % 16 == n % 256
  {
    var q, r := n / 256, n % 256;
    var h, l := r / 16, r % 16;
    assert n == 16 * (16 * q + h) + l;
    assert n / 16 == 16 * q + h && n % 16 == l;
  }

  lemma ToByteOfValue(b: Byte)
    ensures ToByte(Value(b)) == b
  {
    hide Nibble, Bits;
    BitsOfNibble(b.b7, b.b6, b.b5, b.b4);
    BitsOfNibble(b.b3, b.b2, b.b1, b.b0);
  }

  lemma ValueInjective(a: Byte, b: Byte)
    requires Value(a) == Value(b)
    ensures a == b
  {
    ToByteOfValue(a);
    ToByteOfValue(b);
  }

  // ---------- Addition: bytewise exclusive or ----------

  function Xor(a: Byte, b: Byte): Byte {
    Byte(a.b7 != b.b7, a.b6 != b.b6, a.b5 != b.b5, a.b4 != b.b4,
         a.b3 != b.b3, a.b2 != b.b2, a.b1 != b.b1, a.b0 != b.b0)
  }

  lemma XorAssociative(a: Byte, b: Byte, c: Byte)
    ensures Xor(Xor(a, b), c) == Xor(a, Xor(b, c))
  {
  }

  lemma XorCommutative(a: Byte, b: Byte)
    ensures Xor(a, b) == Xor(b, a)
  {
  }

  lemma XorZero(a: Byte)
    ensures Xor(a, ZERO) == a == Xor(ZERO, a)
  {
  }

  /** Every byte is its own negative. */
  lemma XorCancel(a: Byte, b: Byte)
    ensures Xor(a, b) == ZERO <==> a == b
    ensures Xor(Xor(a, b), b) == a
  {
  }

  lemma XorSwap(a: Byte, b: Byte, c: Byte, d: Byte)
    ensures Xor(Xor(a, b), Xor(c, d)) == Xor(Xor(a, c), Xor(b, d))
  {
  }

  // ---------- Multiplication by x modulo x^8 + x^4 + x^3 + x^2 + 1 ----------

  /** Shift left; the bit carried out comes back as x^4 + x^3 + x^2 + 1, the low part of 0x11d. */
  function TimesX(b: Byte): Byte {
    Byte(b.b6, b.b5, b.b4, b.b3 != b.b7, b.b2 != b.b7, b.b1 != b.b7, b.b0, b.b7)
  }

  function TimesXn(n: nat, b: Byte): Byte {
    if n == 0 then b else TimesX(TimesXn(n - 1, b))
  }

  /** x^n, the n-th power of the generator 2. */
  function Exp(n: nat): Byte {
    TimesXn(n, ONE)
  }

  lemma TimesXLinear(a: Byte, b: Byte)
    ensures TimesX(Xor(a, b)) == Xor(TimesX(a), TimesX(b))
  {
  }

  lemma TimesXInjective(a: Byte, b: Byte)
    ensures TimesX(a) == TimesX(b) <==> a == b
    ensures TimesX(a) == ZERO <==> a == ZERO
  {
  }

  lemma {:induction false} TimesXnLinear(n: nat, a: Byte, b: Byte)
    ensures TimesXn(n, Xor(a, b)) == Xor(TimesXn(n, a), TimesXn(n, b))
  {
    hide Xor, TimesX;
    if n > 0 {
      TimesXnLinear(n - 1, a, b);
      TimesXLinear(TimesXn(n - 1, a), TimesXn(n - 1, b));
    }
  }

  lemma {:induction false} TimesXnInjective(n: nat, a: Byte, b: Byte)
    ensures TimesXn(n, a) == TimesXn(n, b) <==> a == b
    ensures TimesXn(n, a) == ZERO <==> a == ZERO
  {
    hide Xor, TimesX;
    if n > 0 {
      TimesXnInjective(n - 1, a, b);
      TimesXInjective(TimesXn(n - 1, a), TimesXn(n - 1, b));
    }
  }

  lemma {:induction false} TimesXnAdd(m: nat, n: nat, b: Byte)
    ensures TimesXn(m + n, b) == TimesXn(m, TimesXn(n, b))
  {
    hide Xor, TimesX;
    if m > 0 {
      TimesXnAdd(m - 1, n, b);
    }
  }

  // ---------- x generates all 255 nonzero bytes ----------

  /** Squaring in the field; it is linear over GF(2), so it is a fixed bit matrix. */
  function Square(b: Byte): Byte {
    Byte(b.b6,
         (b.b3 != b.b5) != b.b6,
         b.b5,
         ((b.b2 != b.b4) != b.b5) != b.b7,
         b.b4 != b.b6,
         ((b.b1 != b.b4) != b.b5) != b.b6,
         b.b7,
         ((b.b0 != b.b4) != b.b6) != b.b7)
  }

  lemma SquareOfTimesX(b: Byte)
    ensures Square(TimesX(b)) == TimesX(TimesX(Square(b)))
  {
  }

  lemma {:induction false} ExpDouble(n: nat)
    ensures Exp(2 * n) == Square(Exp(n))
  {
    if n == 0 {
      assert Square(ONE) == ONE;
    } else {
      ExpDouble(n - 1);
      ExpDoubleStep(n);
      SquareOfTimesX(Exp(n - 1));
    }
  }

  lemma ExpDoubleStep(n: nat)
    requires n > 0
    ensures Exp(2 * n) == TimesX(TimesX(Exp(2 * (n - 1))))
    ensures Exp(n) == TimesX(Exp(n - 1))
  {
    hide Xor, TimesX;
    assert Exp(2 * n) == TimesX(Exp(2 * n - 1));
    assert Exp(2 * n - 1) == TimesX(Exp(2 * n - 2));
  }

  /** x^(2n) and x^(2n+1) from x^n, as literal bit patterns. */
  lemma ExpNext(n: nat, e: Byte)
    requires Exp(n) == e
    ensures Exp(2 * n) == Square(e)
    ensures Exp(2 * n + 1) == TimesX(Square(e))
  {
    ExpDouble(n);
    hide Xor, TimesX, Square;
  }

  /** The multiplicative order of x divides 255 but none of its maximal divisors. */
  lemma OrderOfX()
    ensures Exp(255) == ONE
    ensures Exp(85) != ONE && Exp(51) != ONE && Exp(15) != ONE
  {
    var e1 := TimesX(ONE);
    assert Exp(1) == e1 by { assert Exp(1) == TimesX(Exp(0)); }
    ExpNext(1, e1);
    var e3 := TimesX(Square(e1));
    ExpNext(3, e3);
    var e7 := TimesX(Square(e3));
    ExpNext(7, e7);
    var e15 := TimesX(Square(e7));
    ExpNext(15, e15);
    var e31 := TimesX(Square(e15));
    ExpNext(31, e31);
    var e63 := TimesX(Square(e31));
    ExpNext(63, e63);
    var e127 := TimesX(Square(e63));
    ExpNext(127, e127);
    var e6 := Square(e3);
    ExpNext(6, e6);
    ExpNext(12, Square(e6));
    ExpNext(25, TimesX(Square(Square(e6))));
    var e2 := Square(e1);
    ExpNext(2, e2);
    ExpNext(5, TimesX(Square(e2)));
    var e10 := Square(TimesX(Square(e2)));
    ExpNext(10, e10);
    ExpNext(21, TimesX(Square(e10)));
    var e42 := Square(TimesX(Square(e10)));
    ExpNext(42, e42);
  }

  /** Exponents may be reduced by any period. */
  lemma {:induction false} ExpPeriod(d: nat, n: nat, q: nat)
    requires Exp(d) == ONE
    ensures Exp(n + d * q) == Exp(n)
    decreases q
  {
    hide Xor, TimesX;
    if q > 0 {
      ExpPeriod(d, n, q - 1);
      TimesXnAdd(n + d * (q - 1), d, ONE);
      assert n + d * q == n + d * (q - 1) + d;
    } else {
      assert d * q == 0;
    }
  }

  /** Euclid's algorithm on periods: the greatest common divisor of two periods is one. */
  lemma {:induction false} CommonPeriod(a: nat, d: nat) returns (g: nat, s: nat, t: nat)
    requires Exp(a) == ONE && Exp(d) == ONE && 0 < d <= a
    ensures a == g * s && d == g * t && g > 0 && Exp(g) == ONE
    decreases d
  {
    hide Exp;
    var q, r := a / d, a % d;
    assert a == r + d * q;
    ExpPeriod(d, r, q);
    if r == 0 {
      g, s, t := d, q, 1;
    } else {
      g, t, s := CommonPeriod(d, r);
      assert (g * t) * q == g * (t * q);
      s := s + t * q;
    }
  }

  /** A proper divisor of 255 divides 85, 51 or 15. */
  lemma ProperDivisorOf255(g: nat, q: nat) returns (t: nat)
    requires g * q == 255 && g < 255
    ensures g * t == 85 || g * t == 51 || g * t == 15
  {
    if q <= 17 {
      assert q == 3 || q == 5 || q == 15 || q == 17 by { DivisorsUpTo17(q, g); }
      t := if q == 3 then 1 else if q == 5 then 1 else if q == 15 then 3 else 1;
    } else {
      assert g <= 14 by { if g >= 15 { MulMonotone(15, g, 18, q); } }
      DivisorsUpTo17(g, q);
      t := if g == 1 then 85 else if g == 3 then 17 else 3;
    }
  }

  lemma DivisorsUpTo17(a: nat, b: nat)
    requires a * b == 255 && a <= 17
    ensures a in {1, 3, 5, 15, 17}
  {
    EvenProduct(a / 2, b);
    assert a == 7 ==> 7 * b == 255;
    assert a == 9 ==> 9 * b == 255;
    assert a == 11 ==> 11 * b == 255;
    assert a == 13 ==> 13 * b == 255;
  }

  lemma EvenProduct(a: nat, b: nat)
    ensures (2 * a) * b == 2 * (a * b)
  {
  }

  lemma Primitive(d: nat)
    requires 0 < d < 255
    ensures Exp(d) != ONE
  {
    hide Exp;
    if Exp(d) == ONE {
      OrderOfX();
      var g, s, t := CommonPeriod(255, d);
      var m := ProperDivisorOf255(g, s);
      ExpPeriod(g, 0, m);
      ExpOfZero();
      assert false;
    }
  }

  lemma ExpOfZero()
    ensures Exp(0) == ONE
  {
  }

  lemma ExpInjective(i: nat, j: nat)
    requires i < j < 255
    ensures Exp(i) != Exp(j)
  {
    hide Xor, TimesX;
    TimesXnAdd(i, j - i, ONE);
    TimesXnInjective(i, ONE, Exp(j - i));
    Primitive(j - i);
  }

  lemma ExpNonzero(n: nat)
    ensures Exp(n) != ZERO
  {
    hide Xor, TimesX;
    TimesXnInjective(n, ONE, ONE);
  }

  /** Every nonzero byte is a power of x below 255: 255 distinct powers fill the 255 nonzero bytes. */
  lemma ExpSurjective(b: Byte) returns (n: nat)
    requires b != ZERO
    ensures n < 255 && Exp(n) == b
  {
    hide Exp, Value;
    var values := PowerValues(255);
    PowerValuesDistinct(255);
    UpToHas(255, Value(b));
    forall v | v in values ensures v in UpTo(255) {
      UpToHas(255, v);
    }
    if values < UpTo(255) {
      SubsetCardinality(values, UpTo(255));
      assert false;
    }
    ValueZero(b);
    assert Value(b) in values;
    n :| 0 <= n < 255 && Value(Exp(n)) == Value(b);
    ValueInjective(Exp(n), b);
  }

  lemma ValueZero(b: Byte)
    ensures Value(b) == 0 <==> b == ZERO
  {
  }

  ghost function PowerValues(n: nat): set<nat> {
    set i | 0 <= i < n :: Value(Exp(i))
  }

  lemma {:induction false} PowerValuesDistinct(n: nat)
    requires n <= 255
    ensures |PowerValues(n)| == n
    ensures forall v :: v in PowerValues(n) ==> 0 < v < 256
  {
    hide Exp, Value;
    if n > 0 {
      PowerValuesDistinct(n - 1);
      var v := Value(Exp(n - 1));
      if v in PowerValues(n - 1) {
        var i :| 0 <= i < n - 1 && v == Value(Exp(i));
        ValueInjective(Exp(i), Exp(n - 1));
        ExpInjective(i, n - 1);
        assert false;
      }
      assert PowerValues(n) == PowerValues(n - 1) + {v};
      ExpNonzero(n - 1);
      ValueZero(Exp(n - 1));
    }
  }

  /** The numbers 1 to n. */
  ghost function UpTo(n: nat): (s: set<nat>)
  {
    if n == 0 then {} else UpTo(n - 1) + {n}
  }

  lemma {:induction false} UpToHas(n: nat, v: nat)
    ensures v in UpTo(n) <==> 0 < v <= n
    ensures |UpTo(n)| == n
  {
    if n > 0 {
      UpToHas(n - 1, v);
      UpToHas(n - 1, n);
    }
  }

  lemma SubsetCardinality<T>(a: set<T>, b: set<T>)
    requires a < b
    ensures |a| < |b|
  {
    assert b == a + (b - a);
    assert |b| == |a| + |b - a|;
  }

  // ---------- The log and exp tables ----------

  /** Discrete logarithm of a nonzero byte, below 255. */
  function Log(b: Byte): nat {
    LogFrom(b, 0)
  }

  function LogFrom(b: Byte, n: nat): nat
    requires n < 255
    decreases 255 - n
  {
    if n == 254 || Exp(n) == b then n else LogFrom(b, n + 1)
  }

  lemma {:induction false} LogFromFinds(b: Byte, n: nat, k: nat)
    requires n <= k < 255 && Exp(k) == b
    ensures n <= LogFrom(b, n) <= k && Exp(LogFrom(b, n)) == b
    decreases k - n
  {
    hide Exp;
    if n < k && Exp(n) != b {
      LogFromFinds(b, n + 1, k);
    }
  }

  lemma ExpLog(b: Byte)
    requires b != ZERO
    ensures Log(b) < 255 && Exp(Log(b)) == b
  {
    hide Exp, LogFrom;
    var n := ExpSurjective(b);
    LogFromFinds(b, 0, n);
  }

  lemma LogExp(n: nat)
    requires n < 255
    ensures Log(Exp(n)) == n
  {
    hide Exp, LogFrom;
    LogFromFinds(Exp(n), 0, n);
    if Log(Exp(n)) < n {
      ExpInjective(Log(Exp(n)), n);
    }
  }

  datatype Tables = Tables(exp: seq<Byte>, log: seq<nat>)

  /** What the tables hold: powers of x, twice round, and discrete logarithms. */
  function PowerTables(): Tables {
    Tables(seq(510, (i: nat) => Exp(i)), seq(256, (v: nat) => if v == 0 then 0 else Log(ToByte(v))))
  }

  const TABLES := PowerTables()

  function ShiftLeft(b: Byte): Byte {
    Byte(b.b6, b.b5, b.b4, b.b3, b.b2, b.b1, b.b0, false)
  }

  /** 0x1d, the low byte of the modulus 0x11d. */
  const MODULUS_LOW := Byte(false, false, false, true, true, true, false, true)

  lemma TimesXIsShiftAndReduce(b: Byte)
    ensures TimesX(b) == if b.b7 then Xor(ShiftLeft(b), MODULUS_LOW) else ShiftLeft(b)
  {
  }

  lemma ExpRepeats(i: nat)
    ensures Exp(i + 255) == Exp(i)
  {
    OrderOfX();
    ExpPeriod(255, i, 1);
  }

  lemma PowersDiffer(i: nat)
    requires i < 255
    ensures forall j :: 0 <= j < i ==> Value(Exp(j)) != Value(Exp(i))
  {
    hide Exp, Value, Log, ToByte;
    forall j | 0 <= j < i ensures Value(Exp(j)) != Value(Exp(i)) {
      ExpInjective(j, i);
      if Value(Exp(j)) == Value(Exp(i)) {
        ValueInjective(Exp(j), Exp(i));
      }
    }
  }

  lemma FilledTables(exp: seq<Byte>, log: seq<nat>)
    requires |exp| == 510 && |log| == 256
    requires forall j :: 0 <= j < 510 ==> exp[j] == Exp(j)
    requires log[0] == 0
    requires forall j :: 0 <= j < 255 ==> log[Value(Exp(j))] == j
    ensures Tables(exp, log) == TABLES
  {
    hide Exp, Value, Log, ToByte;
    assert exp == TABLES.exp;
    forall v | 0 < v < 256 ensures log[v] == Log(ToByte(v)) {
      ValueOfToByte(v);
      ValueZero(ToByte(v));
      ExpLog(ToByte(v));
    }
    assert log == TABLES.log;
  }

  /** The loop that fills both tables while stepping through the powers of x. */
  method BuildTables() returns (tables: Tables)
    ensures tables == TABLES
  {
    hide Exp, Value, Log, ToByte, TimesX, PowerTables, Xor, ShiftLeft;
    var exp := new Byte[510](_ => ZERO);
    var log := new nat[256](_ => 0);
    var x := ONE;
    ExpOfZero();
    var i := 0;
    while i < 255
      invariant 0 <= i <= 255
      invariant x == Exp(i)
      invariant forall j :: 0 <= j < i ==> exp[j] == Exp(j)
      invariant forall j :: 255 <= j < i + 255 ==> exp[j] == Exp(j)
      invariant log[0] == 0
      invariant forall j :: 0 <= j < i ==> log[Value(Exp(j))] == j
    {
      ExpRepeats(i);
      PowersDiffer(i);
      ExpNonzero(i);
      ValueZero(Exp(i));
      ExpSucc(i);
      TimesXIsShiftAndReduce(x);
      exp[i] := x;
      exp[i + 255] := x;
      log[Value(x)] := i;
      x := if x.b7 then Xor(ShiftLeft(x), MODULUS_LOW) else ShiftLeft(x);
      i := i + 1;
    }
    FilledTables(exp[..], log[..]);
    tables := Tables(exp[..], log[..]);
  }

  lemma ExpSucc(n: nat)
    ensures Exp(n + 1) == TimesX(Exp(n))
  {
    hide TimesX;
  }

  // ---------- The field operations of the code ----------

  /** Product by table lookup. */
  function Mul(a: Byte, b: Byte): Byte {
    if a == ZERO || b == ZERO then ZERO
    else
      LogTableRange(a);
      LogTableRange(b);
      TABLES.exp[TABLES.log[Value(a)] + TABLES.log[Value(b)]]
  }

  /** Multiplicative inverse by table lookup. */
  function Inv(a: Byte): Byte
    requires a != ZERO
  {
    LogTableRange(a);
    TABLES.exp[255 - TABLES.log[Value(a)]]
  }

  lemma LogTableRange(a: Byte)
    requires a != ZERO
    ensures TABLES.log[Value(a)] == Log(a) < 255
  {
    hide Exp, Value, Log, ToByte;
    ToByteOfValue(a);
    ValueZero(a);
    ExpLog(a);
  }

  /** Multiplying by x^n is applying "times x" n times. */
  lemma MulExp(n: nat, b: Byte)
    ensures Mul(Exp(n), b) == TimesXn(n, b)
  {
    hide Exp, Mul, Log, TimesX;
    ExpNonzero(n);
    MulZero(Exp(n));
    if b == ZERO {
      TimesXnInjective(n, b, b);
    } else {
      MulLog(Exp(n), b);
      ExpLog(Exp(n));
      ExpLog(b);
      MulExpShift(Log(Exp(n)), n, Log(b));
    }
  }

  lemma MulLog(a: Byte, b: Byte)
    requires a != ZERO && b != ZERO
    ensures Mul(a, b) == Exp(Log(a) + Log(b))
  {
    hide Exp, Value, Log, ToByte;
    LogTableRange(a);
    LogTableRange(b);
  }

  lemma MulExpShift(i: nat, n: nat, j: nat)
    requires Exp(i) == Exp(n)
    ensures Exp(i + j) == TimesXn(n, Exp(j))
  {
    hide TimesX;
    TimesXnAdd(j, i, ONE);
    TimesXnAdd(j, n, ONE);
    TimesXnAdd(n, j, ONE);
    assert i + j == j + i && n + j == j + n;
  }

  lemma MulZero(a: Byte)
    ensures Mul(a, ZERO) == ZERO == Mul(ZERO, a)
  {
  }

  lemma MulOne(a: Byte)
    ensures Mul(ONE, a) == a == Mul(a, ONE)
  {
    hide Mul, TimesX;
    MulExp(0, a);
    ExpOfZero();
    MulCommutative(ONE, a);
  }

  lemma MulCommutative(a: Byte, b: Byte)
    ensures Mul(a, b) == Mul(b, a)
  {
    if a != ZERO && b != ZERO {
      MulLog(a, b);
      MulLog(b, a);
    }
  }

  lemma MulAssociative(a: Byte, b: Byte, c: Byte)
    ensures Mul(Mul(a, b), c) == Mul(a, Mul(b, c))
  {
    hide Exp, Mul, Log, TimesX;
    if a == ZERO || b == ZERO {
      MulZero(c); MulZero(Mul(b, c)); MulZero(b); MulZero(a);
    } else {
      var i, j := Log(a), Log(b);
      ExpLog(a);
      ExpLog(b);
      MulExp(i, b);
      MulExp(j, c);
      MulExp(i, Mul(b, c));
      ExpSum(i, j);
      TimesXnAdd(i, j, c);
      MulExp(i + j, c);
    }
  }

  lemma MulDistributive(a: Byte, b: Byte, c: Byte)
    ensures Mul(a, Xor(b, c)) == Xor(Mul(a, b), Mul(a, c))
  {
    hide Xor, Mul, Log, TimesX, Exp;
    if a == ZERO {
      MulZero(Xor(b, c)); MulZero(b); MulZero(c);
      XorZero(ZERO);
    } else {
      var i := Log(a);
      ExpLog(a);
      MulExp(i, b);
      MulExp(i, c);
      MulExp(i, Xor(b, c));
      TimesXnLinear(i, b, c);
    }
  }

  lemma MulInverse(a: Byte)
    requires a != ZERO
    ensures Inv(a) != ZERO
    ensures Mul(a, Inv(a)) == ONE
  {
    hide Exp, Log, Mul, TimesX;
    var i := Log(a);
    ExpLog(a);
    InvLog(a);
    ExpNonzero(255 - i);
    MulExp(i, Exp(255 - i));
    ExpSum(i, 255 - i);
    OrderOfX();
  }

  lemma InvLog(a: Byte)
    requires a != ZERO
    ensures Log(a) < 255 && Inv(a) == Exp(255 - Log(a))
  {
    hide Exp, Log;
    LogTableRange(a);
  }

  lemma ExpSum(i: nat, j: nat)
    ensures TimesXn(i, Exp(j)) == Exp(i + j)
  {
    TimesXnAdd(i, j, ONE);
    hide TimesX;
  }

  // ---------- The tables agree with polynomial multiplication ----------

  function Bit(b: Byte, i: nat): bool
    requires i < 8
  {
    if i < 4 then (if i == 0 then b.b0 else if i == 1 then b.b1 else if i == 2 then b.b2 else b.b3)
    else (if i == 4 then b.b4 else if i == 5 then b.b5 else if i == 6 then b.b6 else b.b7)
  }

  /** Schoolbook product modulo x^8 + x^4 + x^3 + x^2 + 1: the sum of x^i * a over the bits i < n set in b. */
  function PolynomialProduct(a: Byte, b: Byte, n: nat): Byte
    requires n <= 8
  {
    if n == 0 then ZERO
    else
      Xor(PolynomialProduct(a, b, n - 1), if Bit(b, n - 1) then TimesXn(n - 1, a) else ZERO)
  }

  function LowBits(b: Byte, n: nat): Byte {
    Byte(n > 7 && b.b7, n > 6 && b.b6, n > 5 && b.b5, n > 4 && b.b4,
         n > 3 && b.b3, n > 2 && b.b2, n > 1 && b.b1, n > 0 && b.b0)
  }

  function SingleBit(i: nat): Byte {
    Byte(i == 7, i == 6, i == 5, i == 4, i == 3, i == 2, i == 1, i == 0)
  }

  lemma {:induction false} ExpIsSingleBit(i: nat)
    requires i < 8
    ensures Exp(i) == SingleBit(i)
  {
    if i > 0 {
      ExpIsSingleBit(i - 1);
      ExpSucc(i - 1);
      hide Exp;
    }
  }

  lemma LowBitsStep(b: Byte, n: nat)
    requires 0 < n <= 8
    ensures LowBits(b, n) == Xor(LowBits(b, n - 1), if Bit(b, n - 1) then SingleBit(n - 1) else ZERO)
  {
  }

  lemma {:induction false} ProductOfLowBits(a: Byte, b: Byte, n: nat)
    requires n <= 8
    ensures PolynomialProduct(a, b, n) == Mul(a, LowBits(b, n))
  {
    hide Exp, Mul, Xor, TimesX, Bit, SingleBit;
    MulZero(a);
    if n > 0 {
      ProductOfLowBits(a, b, n - 1);
      LowBitsStep(b, n);
      ExpIsSingleBit(n - 1);
      MulExp(n - 1, a);
      MulCommutative(a, Exp(n - 1));
      MulDistributive(a, LowBits(b, n - 1), if Bit(b, n - 1) then SingleBit(n - 1) else ZERO);
    }
  }

  lemma MulIsPolynomialProduct(a: Byte, b: Byte)
    ensures Mul(a, b) == PolynomialProduct(a, b, 8)
  {
    ProductOfLowBits(a, b, 8);
    assert LowBits(b, 8) == b;
    hide Mul, Xor, TimesX;
  }
}
