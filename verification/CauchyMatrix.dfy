/** Every square matrix of entries 1 / (x_r + y_c), with distinct x's, distinct y's and no
    value in both, is nonsingular over GF(2^8) (crates/protocol/src/fec.rs, `coef`). */
module CauchyMatrix {
  import opened GaloisField
  import opened LinearSystems

  ghost predicate Distinct(s: seq<Byte>) {
    forall i, j :: 0 <= i < j < |s| ==> s[i] != s[j]
  }

  ghost predicate Apart(xs: seq<Byte>, ys: seq<Byte>) {
    forall i, j :: 0 <= i < |xs| && 0 <= j < |ys| ==> xs[i] != ys[j]
  }

  /** The row 1 / (x + y_c). */
  ghost function Poles(ys: seq<Byte>, x: Byte): (p: Vector)
    requires x !in ys
    ensures |p| == |ys|
  {
    seq(|ys|, c requires 0 <= c < |ys| => Inv(Denominator(x, ys[c])))
  }

  ghost function Denominator(x: Byte, y: Byte): (d: Byte)
    requires x != y
    ensures d != ZERO
  {
    XorCancel(x, y);
    Xor(x, y)
  }

  ghost function Total(v: Vector, n: nat): Byte
    requires n <= |v|
  {
    if n == 0 then ZERO else Xor(Total(v, n - 1), v[n - 1])
  }

  /** The factors y_c + y. */
  ghost function Weighted(ys: seq<Byte>, y: Byte, v: Vector): (w: Vector)
    requires |ys| == |v|
    ensures |w| == |v|
  {
    seq(|v|, c requires 0 <= c < |v| => Mul(Xor(ys[c], y), v[c]))
  }

  ghost function Times(p: Vector, v: Vector): (u: Vector)
    requires |p| == |v|
    ensures |u| == |v|
  {
    seq(|v|, c requires 0 <= c < |v| => Mul(p[c], v[c]))
  }

  /** (x + y) * p * v == v + p * ((z + y) * v) when p == 1 / (x + z). */
  lemma ClearTerm(x: Byte, y: Byte, z: Byte, v: Byte)
    requires x != z
    ensures var p := Inv(Denominator(x, z));
            Mul(Xor(x, y), Mul(p, v)) == Xor(v, Mul(p, Mul(Xor(z, y), v)))
  {
    hide Mul, Inv, Xor;
    var d := Denominator(x, z);
    var p := Inv(d);
    SplitSum(x, y, z);
    MulInverse(d);
    MulCommutative(Xor(d, Xor(z, y)), Mul(p, v));
    MulDistributive(Mul(p, v), d, Xor(z, y));
    MulCommutative(Mul(p, v), d);
    MulAssociative(d, p, v);
    MulOne(v);
    MulAssociative(p, v, Xor(z, y));
    MulCommutative(v, Xor(z, y));
  }

  lemma SplitSum(x: Byte, y: Byte, z: Byte)
    ensures Xor(x, y) == Xor(Xor(x, z), Xor(z, y))
  {
  }

  /** Multiplying by x + y turns the sum of poles into a constant plus poles with new factors. */
  lemma {:induction false} ClearPole(ys: seq<Byte>, x: Byte, y: Byte, v: Vector, n: nat)
    requires x !in ys && n <= |ys| == |v|
    ensures Mul(Xor(x, y), Dot(Poles(ys, x), v, n)) == Xor(Total(v, n), Dot(Poles(ys, x), Weighted(ys, y, v), n))
  {
    hide Mul, Inv, Xor;
    if n == 0 {
      MulZero(Xor(x, y));
      XorZero(ZERO);
    } else {
      ClearPole(ys, x, y, v, n - 1);
      var p, w := Poles(ys, x), Weighted(ys, y, v);
      ClearTerm(x, y, ys[n - 1], v[n - 1]);
      MulDistributive(Xor(x, y), Dot(p, v, n - 1), Mul(p[n - 1], v[n - 1]));
      XorSwap(Total(v, n - 1), Dot(p, w, n - 1), v[n - 1], Mul(p[n - 1], w[n - 1]));
    }
  }

  /** 1/(s + z) + 1/(x + z) == (s + x) / ((x + z) (s + z)), times v. */
  lemma DifferenceTerm(s: Byte, x: Byte, z: Byte, v: Byte)
    requires s != z && x != z
    ensures var p, q := Inv(Denominator(s, z)), Inv(Denominator(x, z));
            Xor(Mul(p, v), Mul(q, v)) == Mul(Xor(s, x), Mul(q, Mul(p, v)))
  {
    hide Mul, Inv, Xor;
    var d, e := Denominator(s, z), Denominator(x, z);
    var p, q := Inv(d), Inv(e);
    SplitSum(s, x, z);
    XorCommutative(z, x);
    var t := Mul(q, Mul(p, v));
    MulCommutative(Xor(d, e), t);
    MulDistributive(t, d, e);
    MulCommutative(t, d);
    MulCommutative(t, e);
    MulInverse(d);
    MulInverse(e);
    MulAssociative(e, q, Mul(p, v));
    MulOne(Mul(p, v));
    MulAssociative(q, p, v);
    MulCommutative(q, p);
    MulAssociative(p, q, v);
    MulAssociative(d, p, Mul(q, v));
    MulOne(Mul(q, v));
    XorCommutative(Mul(q, v), Mul(p, v));
  }

  /** The difference of two sums of poles is again a sum of poles. */
  lemma {:induction false} DifferenceOfPoles(ys: seq<Byte>, s: Byte, x: Byte, v: Vector, n: nat)
    requires s !in ys && x !in ys && n <= |ys| == |v|
    ensures Xor(Dot(Poles(ys, s), v, n), Dot(Poles(ys, x), v, n))
         == Mul(Xor(s, x), Dot(Poles(ys, x), Times(Poles(ys, s), v), n))
  {
    hide Mul, Inv, Xor;
    if n == 0 {
      MulZero(Xor(s, x));
      XorZero(ZERO);
    } else {
      DifferenceOfPoles(ys, s, x, v, n - 1);
      var p, q := Poles(ys, s), Poles(ys, x);
      DifferenceTerm(s, x, ys[n - 1], v[n - 1]);
      MulDistributive(Xor(s, x), Dot(q, Times(p, v), n - 1), Mul(q[n - 1], Times(p, v)[n - 1]));
      XorSwap(Dot(p, v, n - 1), Mul(p[n - 1], v[n - 1]), Dot(q, v, n - 1), Mul(q[n - 1], v[n - 1]));
    }
  }

  lemma NoZeroDivisors(a: Byte, b: Byte)
    ensures Mul(a, b) == ZERO <==> a == ZERO || b == ZERO
  {
    hide Mul;
    MulZero(a);
    MulZero(b);
    if a != ZERO {
      MulCancel(a, b, ZERO);
    }
  }

  lemma {:induction false} TotalZeroPrefix(v: Vector, n: nat)
    requires n < |v| && forall c :: 0 <= c < n ==> v[c] == ZERO
    ensures Total(v, n) == ZERO && Total(v, n + 1) == v[n]
  {
    hide Xor;
    if n > 0 {
      TotalZeroPrefix(v, n - 1);
    }
    XorZero(v[n]);
  }

  /** The pole y = ys[n-1] cleared: every row's remaining sum of poles equals the same constant. */
  lemma ClearedRow(ys: seq<Byte>, x: Byte, v: Vector, n: nat)
    requires x !in ys && 0 < n <= |ys| == |v|
    requires Dot(Poles(ys, x), v, n) == ZERO
    ensures Total(v, n) == Dot(Poles(ys, x), Weighted(ys, ys[n - 1], v), n - 1)
  {
    hide Mul, Inv, Xor, Poles;
    var y := ys[n - 1];
    var p, w := Poles(ys, x), Weighted(ys, y, v);
    ClearPole(ys, x, y, v, n);
    MulZero(Xor(x, y));
    XorCancel(y, y);
    MulZero(v[n - 1]);
    MulZero(p[n - 1]);
    XorZero(Dot(p, w, n - 1));
    XorCancel(Total(v, n), Dot(p, w, n));
  }

  /** Two rows agree on the constant, so their difference is a smaller Cauchy sum that vanishes. */
  lemma ReducedRow(ys: seq<Byte>, s: Byte, x: Byte, w: Vector, n: nat)
    requires s !in ys && x !in ys && s != x && n <= |ys| == |w|
    requires Dot(Poles(ys, s), w, n) == Dot(Poles(ys, x), w, n)
    ensures Dot(Poles(ys, x), Times(Poles(ys, s), w), n) == ZERO
  {
    hide Mul, Inv, Xor, Poles, Dot;
    DifferenceOfPoles(ys, s, x, w, n);
    XorCancel(Dot(Poles(ys, s), w, n), Dot(Poles(ys, x), w, n));
    XorCancel(s, x);
    NoZeroDivisors(Xor(s, x), Dot(Poles(ys, x), Times(Poles(ys, s), w), n));
  }

  /** Undo the two scalings of the reduction: their factors are nonzero. */
  lemma ScaledZero(ys: seq<Byte>, s: Byte, y: Byte, v: Vector, c: nat)
    requires s !in ys && c < |ys| == |v| && ys[c] != y
    requires Times(Poles(ys, s), Weighted(ys, y, v))[c] == ZERO
    ensures v[c] == ZERO && Weighted(ys, y, v)[c] == ZERO
  {
    hide Mul, Inv, Xor;
    var w := Weighted(ys, y, v);
    MulInverse(Denominator(s, ys[c]));
    NoZeroDivisors(Poles(ys, s)[c], w[c]);
    XorCancel(ys[c], y);
    NoZeroDivisors(Xor(ys[c], y), v[c]);
  }

  /** A vector that every one of n distinct rows sends to zero is zero. */
  lemma {:induction false} CauchyKernel(xs: seq<Byte>, ys: seq<Byte>, v: Vector, n: nat)
    requires Distinct(xs) && Distinct(ys) && Apart(xs, ys) && n <= |xs| && n <= |ys| == |v|
    requires forall r :: 0 <= r < n ==> Dot(Poles(ys, xs[r]), v, n) == ZERO
    ensures forall c :: 0 <= c < n ==> v[c] == ZERO
    decreases n
  {
    hide Mul, Inv, Xor, Poles, Dot, Times, Weighted;
    if n > 0 {
      var y := ys[n - 1];
      var w := Weighted(ys, y, v);
      var s := xs[0];
      var u := Times(Poles(ys, s), w);
      ClearedRow(ys, s, v, n);
      forall r | 0 <= r < n - 1 ensures Dot(Poles(ys, xs[1..][r]), u, n - 1) == ZERO {
        assert Dot(Poles(ys, xs[r + 1]), v, n) == ZERO;
        ClearedRow(ys, xs[r + 1], v, n);
        ReducedRow(ys, s, xs[r + 1], w, n - 1);
      }
      CauchyKernel(xs[1..], ys, u, n - 1);
      forall c | 0 <= c < n - 1 ensures v[c] == ZERO && w[c] == ZERO {
        assert u[c] == ZERO;
        ScaledZero(ys, s, y, v, c);
      }
      TotalZeroPrefix(v, n - 1);
      DotZeroTail(Poles(ys, s), w, 0, n - 1);
      DotEmpty(Poles(ys, s), w);
    }
  }

  lemma DotEmpty(u: Vector, v: Vector)
    ensures Dot(u, v, 0) == ZERO
  {
  }

  ghost function Cauchy(xs: seq<Byte>, ys: seq<Byte>): (a: Matrix)
    requires |xs| == |ys| && Apart(xs, ys)
    ensures IsSquare(a, |xs|)
  {
    seq(|xs|, r requires 0 <= r < |xs| => Poles(ys, xs[r]))
  }

  lemma CauchyNonsingular(xs: seq<Byte>, ys: seq<Byte>)
    requires |xs| == |ys| && Distinct(xs) && Distinct(ys) && Apart(xs, ys)
    ensures !Singular(Cauchy(xs, ys), |xs|)
  {
    hide Dot, Poles;
    var n := |xs|;
    forall v | |v| == n && Apply(Cauchy(xs, ys), v, n) == Zeros(n) ensures v == Zeros(n) {
      forall r | 0 <= r < n ensures Dot(Poles(ys, xs[r]), v, n) == ZERO {
        assert Apply(Cauchy(xs, ys), v, n)[r] == Zeros(n)[r];
      }
      CauchyKernel(xs, ys, v, n);
    }
  }
}
