/** Vectors and square systems over GF(2^8), and Gauss-Jordan inversion
    (crates/protocol/src/fec.rs, `invert`). */
module LinearSystems {
  import opened Wrappers
  import opened GaloisField

  type Vector = seq<Byte>
  type Matrix = seq<seq<Byte>>

  ghost predicate IsSquare(a: Matrix, n: nat) {
    |a| == n && forall r :: 0 <= r < n ==> |a[r]| == n
  }

  /** The sum of u[i] * v[i] over i < n. */
  ghost function Dot(u: Vector, v: Vector, n: nat): Byte
    requires n <= |u| && n <= |v|
  {
    if n == 0 then ZERO else Xor(Dot(u, v, n - 1), Mul(u[n - 1], v[n - 1]))
  }

  function Scaled(u: Vector, c: Byte): (w: Vector)
    ensures |w| == |u|
  {
    seq(|u|, i requires 0 <= i < |u| => Mul(u[i], c))
  }

  function PlusScaled(u: Vector, f: Byte, w: Vector): (v: Vector)
    requires |u| <= |w|
    ensures |v| == |u|
  {
    seq(|u|, i requires 0 <= i < |u| => Xor(u[i], Mul(f, w[i])))
  }

  ghost function UnitVector(n: nat, r: nat): (v: Vector)
    ensures |v| == n
  {
    seq(n, i => if i == r then ONE else ZERO)
  }

  ghost function Identity(n: nat): (m: Matrix)
    ensures IsSquare(m, n)
  {
    seq(n, r requires 0 <= r < n => UnitVector(n, r))
  }

  lemma {:induction false} DotScaled(u: Vector, c: Byte, v: Vector, n: nat)
    requires n <= |u| && n <= |v|
    ensures Dot(Scaled(u, c), v, n) == Mul(c, Dot(u, v, n))
  {
    hide Mul, Xor;
    if n == 0 {
      MulZero(c);
    } else {
      DotScaled(u, c, v, n - 1);
      MulCommutative(u[n - 1], c);
      MulAssociative(c, u[n - 1], v[n - 1]);
      MulDistributive(c, Dot(u, v, n - 1), Mul(u[n - 1], v[n - 1]));
    }
  }

  lemma {:induction false} DotPlusScaled(u: Vector, f: Byte, w: Vector, v: Vector, n: nat)
    requires n <= |u| <= |w| && n <= |v|
    ensures Dot(PlusScaled(u, f, w), v, n) == Xor(Dot(u, v, n), Mul(f, Dot(w, v, n)))
  {
    hide Mul, Xor;
    if n == 0 {
      MulZero(f);
      XorZero(ZERO);
    } else {
      DotPlusScaled(u, f, w, v, n - 1);
      var x, y := u[n - 1], w[n - 1];
      MulPlusScaled(x, f, y, v[n - 1]);
      MulDistributive(f, Dot(w, v, n - 1), Mul(y, v[n - 1]));
      XorSwap(Dot(u, v, n - 1), Mul(f, Dot(w, v, n - 1)), Mul(x, v[n - 1]), Mul(f, Mul(y, v[n - 1])));
    }
  }

  lemma MulPlusScaled(x: Byte, f: Byte, y: Byte, z: Byte)
    ensures Mul(Xor(x, Mul(f, y)), z) == Xor(Mul(x, z), Mul(f, Mul(y, z)))
  {
    hide Mul, Xor;
    MulCommutative(Xor(x, Mul(f, y)), z);
    MulDistributive(z, x, Mul(f, y));
    MulCommutative(z, x);
    MulCommutative(z, Mul(f, y));
    MulAssociative(f, y, z);
  }

  // ---------- Row operations keep the solutions ----------

  /** A * x == M * b, row by row. */
  ghost predicate Solves(a: Matrix, m: Matrix, x: Vector, b: Vector, n: nat)
    requires IsSquare(a, n) && IsSquare(m, n) && |x| == |b| == n
  {
    forall r :: 0 <= r < n ==> Dot(a[r], x, n) == Dot(m[r], b, n)
  }

  lemma SwapKeepsSolutions(a: Matrix, m: Matrix, i: nat, j: nat, x: Vector, b: Vector, n: nat)
    requires IsSquare(a, n) && IsSquare(m, n) && |x| == |b| == n && i < n && j < n
    ensures Solves(a[i := a[j]][j := a[i]], m[i := m[j]][j := m[i]], x, b, n) <==> Solves(a, m, x, b, n)
  {
    var a', m' := a[i := a[j]][j := a[i]], m[i := m[j]][j := m[i]];
    if Solves(a', m', x, b, n) {
      forall r | 0 <= r < n ensures Dot(a[r], x, n) == Dot(m[r], b, n) {
        var s := if r == i then j else if r == j then i else r;
        assert Dot(a'[s], x, n) == Dot(m'[s], b, n);
      }
    }
  }

  lemma ScaleKeepsSolutions(a: Matrix, m: Matrix, i: nat, c: Byte, x: Vector, b: Vector, n: nat)
    requires IsSquare(a, n) && IsSquare(m, n) && |x| == |b| == n && i < n && c != ZERO
    ensures Solves(a[i := Scaled(a[i], c)], m[i := Scaled(m[i], c)], x, b, n) <==> Solves(a, m, x, b, n)
  {
    hide Mul, Scaled;
    DotScaled(a[i], c, x, n);
    DotScaled(m[i], c, b, n);
    MulCancel(c, Dot(a[i], x, n), Dot(m[i], b, n));
    var a', m' := a[i := Scaled(a[i], c)], m[i := Scaled(m[i], c)];
    if Solves(a', m', x, b, n) {
      assert Dot(a'[i], x, n) == Dot(m'[i], b, n);
      forall r | 0 <= r < n && r != i ensures Dot(a[r], x, n) == Dot(m[r], b, n) {
        assert Dot(a'[r], x, n) == Dot(m'[r], b, n);
      }
    }
  }

  lemma MulCancel(c: Byte, p: Byte, q: Byte)
    requires c != ZERO
    ensures Mul(c, p) == Mul(c, q) <==> p == q
  {
    hide Mul, Inv;
    MulInverse(c);
    MulCommutative(c, Inv(c));
    MulAssociative(Inv(c), c, p);
    MulAssociative(Inv(c), c, q);
    MulOne(p);
    MulOne(q);
  }

  lemma AddKeepsSolutions(a: Matrix, m: Matrix, r: nat, c: nat, f: Byte, x: Vector, b: Vector, n: nat)
    requires IsSquare(a, n) && IsSquare(m, n) && |x| == |b| == n && r < n && c < n && r != c
    ensures Solves(a[r := PlusScaled(a[r], f, a[c])], m[r := PlusScaled(m[r], f, m[c])], x, b, n)
        <==> Solves(a, m, x, b, n)
  {
    hide Mul, Xor, PlusScaled;
    DotPlusScaled(a[r], f, a[c], x, n);
    DotPlusScaled(m[r], f, m[c], b, n);
    var a', m' := a[r := PlusScaled(a[r], f, a[c])], m[r := PlusScaled(m[r], f, m[c])];
    if Solves(a', m', x, b, n) {
      assert Dot(a'[c], x, n) == Dot(m'[c], b, n);
      assert Dot(a'[r], x, n) == Dot(m'[r], b, n);
      XorCancel(Dot(a[r], x, n), Mul(f, Dot(a[c], x, n)));
      XorCancel(Dot(m[r], b, n), Mul(f, Dot(m[c], b, n)));
      forall s | 0 <= s < n && s != r ensures Dot(a[s], x, n) == Dot(m[s], b, n) {
        assert Dot(a'[s], x, n) == Dot(m'[s], b, n);
      }
    }
  }

  // ---------- Gauss-Jordan elimination ----------

  /** The first col columns are those of the identity. */
  ghost predicate Reduced(a: Matrix, col: nat, n: nat)
    requires IsSquare(a, n) && col <= n
  {
    forall r, j :: 0 <= r < n && 0 <= j < col ==> a[r][j] == if r == j then ONE else ZERO
  }

  /** Column col has its pivot, and is cleared in the rows below r other than col. */
  ghost predicate Clearing(a: Matrix, col: nat, r: nat, n: nat)
    requires IsSquare(a, n) && col < n && r <= n
  {
    && Reduced(a, col, n)
    && a[col][col] == ONE
    && forall s :: 0 <= s < r && s != col ==> a[s][col] == ZERO
  }

  lemma SwapKeepsReduced(a: Matrix, col: nat, pivot: nat, n: nat)
    requires IsSquare(a, n) && col <= pivot < n && Reduced(a, col, n)
    ensures Reduced(a[col := a[pivot]][pivot := a[col]], col, n)
  {
  }

  lemma ScaleStartsClearing(a: Matrix, col: nat, n: nat)
    requires IsSquare(a, n) && col < n && Reduced(a, col, n) && a[col][col] != ZERO
    ensures Clearing(a[col := Scaled(a[col], Inv(a[col][col]))], col, 0, n)
  {
    hide Mul, Inv;
    var c := Inv(a[col][col]);
    MulInverse(a[col][col]);
    MulZero(c);
  }

  lemma AddClearsRow(a: Matrix, col: nat, r: nat, n: nat)
    requires IsSquare(a, n) && col < n && r < n && Clearing(a, col, r, n) && r != col
    ensures Clearing(a[r := PlusScaled(a[r], a[r][col], a[col])], col, r + 1, n)
  {
    hide Mul, Xor;
    var f := a[r][col];
    MulOne(f);
    MulZero(f);
    XorCancel(f, f);
    XorZero(ZERO);
    XorZero(ONE);
  }

  lemma ClearedIsReduced(a: Matrix, col: nat, n: nat)
    requires IsSquare(a, n) && col < n && Clearing(a, col, n, n)
    ensures Reduced(a, col + 1, n)
  {
  }

  /** A row that agrees with a unit vector picks out one entry. */
  lemma {:induction false} DotUnit(u: Vector, v: Vector, k: nat, r: nat)
    requires k <= |u| && k <= |v|
    requires forall j :: 0 <= j < k ==> u[j] == if j == r then ONE else ZERO
    ensures Dot(u, v, k) == Dot(v, u, k) == if r < k then v[r] else ZERO
  {
    hide Mul, Xor;
    if k > 0 {
      DotUnit(u, v, k - 1, r);
      MulOne(v[k - 1]);
      MulZero(v[k - 1]);
      XorZero(v[k - 1]);
      XorZero(Dot(u, v, k - 1));
    }
  }

  lemma {:induction false} DotZeroTail(u: Vector, v: Vector, k: nat, n: nat)
    requires k <= n <= |u| && n <= |v|
    requires forall j :: k <= j < n ==> v[j] == ZERO
    ensures Dot(u, v, n) == Dot(u, v, k)
  {
    hide Mul, Xor;
    if k < n {
      DotZeroTail(u, v, k, n - 1);
      MulZero(u[n - 1]);
      XorZero(Dot(u, v, n - 1));
    }
  }

  ghost function Zeros(n: nat): (v: Vector)
    ensures |v| == n
  {
    seq(n, _ => ZERO)
  }

  ghost function Apply(a: Matrix, x: Vector, n: nat): (y: Vector)
    requires IsSquare(a, n) && |x| == n
    ensures |y| == n
  {
    seq(n, r requires 0 <= r < n => Dot(a[r], x, n))
  }

  /** m undoes a: for every right-hand side b, m * b is the one solution of a * x == b. */
  ghost predicate Inverse(m: Matrix, a: Matrix, n: nat)
    requires IsSquare(m, n) && IsSquare(a, n)
  {
    forall x, b :: |x| == n && |b| == n ==> (Apply(a, x, n) == b <==> x == Apply(m, b, n))
  }

  /** Some nonzero vector is sent to zero. */
  ghost predicate Singular(a: Matrix, n: nat)
    requires IsSquare(a, n)
  {
    exists x :: |x| == n && x != Zeros(n) && Apply(a, x, n) == Zeros(n)
  }

  /** The augmented system (a | m) has the solutions of (a0 | identity). */
  ghost predicate Equivalent(a: Matrix, m: Matrix, a0: Matrix, n: nat)
    requires IsSquare(a, n) && IsSquare(m, n) && IsSquare(a0, n)
  {
    forall x, b :: |x| == n && |b| == n ==> (Solves(a, m, x, b, n) <==> Apply(a0, x, n) == b)
  }

  lemma EquivalentAtStart(a: Matrix, n: nat)
    requires IsSquare(a, n)
    ensures Equivalent(a, Identity(n), a, n)
  {
    forall x, b | |x| == n && |b| == n
      ensures Solves(a, Identity(n), x, b, n) <==> Apply(a, x, n) == b
    {
      SolvesIdentity(a, x, b, n);
    }
  }

  lemma SolvesIdentity(a: Matrix, x: Vector, b: Vector, n: nat)
    requires IsSquare(a, n) && |x| == n && |b| == n
    ensures Solves(a, Identity(n), x, b, n) <==> Apply(a, x, n) == b
  {
    hide Mul, Xor;
    forall r | 0 <= r < n ensures Dot(Identity(n)[r], b, n) == b[r] {
      DotUnit(UnitVector(n, r), b, n, r);
    }
    if Apply(a, x, n) == b {
      forall r | 0 <= r < n ensures Dot(a[r], x, n) == Dot(Identity(n)[r], b, n) {
        assert Apply(a, x, n)[r] == b[r];
      }
    }
  }

  lemma EquivalentAtEnd(a: Matrix, m: Matrix, a0: Matrix, n: nat)
    requires IsSquare(a, n) && IsSquare(m, n) && IsSquare(a0, n)
    requires Equivalent(a, m, a0, n) && Reduced(a, n, n)
    ensures Inverse(m, a0, n)
  {
    forall x, b | |x| == n && |b| == n
      ensures Apply(a0, x, n) == b <==> x == Apply(m, b, n)
    {
      SolvesReduced(a, m, x, b, n);
    }
  }

  lemma SolvesReduced(a: Matrix, m: Matrix, x: Vector, b: Vector, n: nat)
    requires IsSquare(a, n) && IsSquare(m, n) && |x| == n && |b| == n && Reduced(a, n, n)
    ensures Solves(a, m, x, b, n) <==> x == Apply(m, b, n)
  {
    hide Mul, Xor;
    forall r | 0 <= r < n ensures Dot(a[r], x, n) == x[r] {
      DotUnit(a[r], x, n, r);
    }
    if x == Apply(m, b, n) {
      forall r | 0 <= r < n ensures Dot(a[r], x, n) == Dot(m[r], b, n) {
        assert x[r] == Apply(m, b, n)[r];
      }
    }
  }

  /** When column col has no pivot, it is the combination of the earlier columns with its own entries as
      factors; this vector subtracts that combination from it. */
  ghost function KernelVector(a: Matrix, col: nat, n: nat): (x: Vector)
    requires IsSquare(a, n) && col < n
    ensures |x| == n
  {
    seq(n, j requires 0 <= j < n => if j < col then a[j][col] else if j == col then ONE else ZERO)
  }

  lemma KernelRow(a: Matrix, col: nat, r: nat, n: nat)
    requires IsSquare(a, n) && col < n && r < n && Reduced(a, col, n)
    requires forall s :: col <= s < n ==> a[s][col] == ZERO
    ensures Dot(a[r], KernelVector(a, col, n), n) == ZERO
  {
    hide Mul, Xor;
    var x := KernelVector(a, col, n);
    DotZeroTail(a[r], x, col + 1, n);
    DotUnit(a[r], x, col, r);
    MulOne(a[r][col]);
    XorCancel(a[r][col], a[r][col]);
    XorZero(ZERO);
  }

  lemma NoPivotIsSingular(a: Matrix, m: Matrix, a0: Matrix, col: nat, n: nat)
    requires IsSquare(a, n) && IsSquare(m, n) && IsSquare(a0, n) && col < n
    requires Equivalent(a, m, a0, n) && Reduced(a, col, n)
    requires forall r :: col <= r < n ==> a[r][col] == ZERO
    ensures Singular(a0, n)
  {
    hide Dot;
    var x := KernelVector(a, col, n);
    forall r | 0 <= r < n ensures Dot(a[r], x, n) == Dot(m[r], Zeros(n), n) {
      KernelRow(a, col, r, n);
      DotZeros(m[r], n);
    }
    assert Solves(a, m, x, Zeros(n), n);
    assert x[col] != Zeros(n)[col];
  }

  lemma DotZeros(u: Vector, n: nat)
    requires |u| == n
    ensures Dot(u, Zeros(n), n) == ZERO
  {
    hide Mul, Xor;
    DotZeroTail(u, Zeros(n), 0, n);
  }

  // ---------- The in-place algorithm ----------

  ghost function Rows(a: array2<Byte>): (m: Matrix)
    reads a
    ensures |m| == a.Length0 && forall r :: 0 <= r < |m| ==> |m[r]| == a.Length1
    ensures forall r, j :: 0 <= r < a.Length0 && 0 <= j < a.Length1 ==> m[r][j] == a[r, j]
  {
    seq(a.Length0, r requires 0 <= r < a.Length0 reads a =>
      seq(a.Length1, j requires 0 <= j < a.Length1 reads a => a[r, j]))
  }

  lemma RowsAre(a: array2<Byte>, m: Matrix)
    requires |m| == a.Length0 && forall r :: 0 <= r < |m| ==> |m[r]| == a.Length1
    requires forall r, j :: 0 <= r < a.Length0 && 0 <= j < a.Length1 ==> a[r, j] == m[r][j]
    ensures Rows(a) == m
  {
    forall r | 0 <= r < |m| ensures Rows(a)[r] == m[r] {
    }
  }

  method SwapRows(a: array2<Byte>, i: nat, j: nat)
    requires i < a.Length0 && j < a.Length0
    modifies a
    ensures Rows(a) == old(Rows(a)[i := Rows(a)[j]][j := Rows(a)[i]])
  {
    ghost var before := Rows(a);
    for k := 0 to a.Length1
      invariant forall r, l :: 0 <= r < a.Length0 && 0 <= l < a.Length1 ==>
        a[r, l] == if l < k && r == i then before[j][l] else if l < k && r == j then before[i][l] else before[r][l]
    {
      a[i, k], a[j, k] := a[j, k], a[i, k];
    }
    RowsAre(a, before[i := before[j]][j := before[i]]);
  }

  /** Multiply row i of both matrices by c, entry by entry. */
  method ScaleRow(a: array2<Byte>, m: array2<Byte>, i: nat, c: Byte)
    requires a != m && a.Length0 == a.Length1 == m.Length0 == m.Length1 && i < a.Length0
    modifies a, m
    ensures Rows(a) == old(Rows(a)[i := Scaled(Rows(a)[i], c)])
    ensures Rows(m) == old(Rows(m)[i := Scaled(Rows(m)[i], c)])
  {
    hide Mul;
    ghost var a0, m0 := Rows(a), Rows(m);
    for j := 0 to a.Length1
      invariant forall r, l :: 0 <= r < a.Length0 && 0 <= l < a.Length1 ==>
        a[r, l] == if r == i && l < j then Mul(a0[r][l], c) else a0[r][l]
      invariant forall r, l :: 0 <= r < a.Length0 && 0 <= l < a.Length1 ==>
        m[r, l] == if r == i && l < j then Mul(m0[r][l], c) else m0[r][l]
    {
      a[i, j] := Mul(a[i, j], c);
      m[i, j] := Mul(m[i, j], c);
    }
    RowsAre(a, a0[i := Scaled(a0[i], c)]);
    RowsAre(m, m0[i := Scaled(m0[i], c)]);
  }

  /** Add f times row c to row r of both matrices, entry by entry. */
  method AddRow(a: array2<Byte>, m: array2<Byte>, r: nat, f: Byte, c: nat)
    requires a != m && a.Length0 == a.Length1 == m.Length0 == m.Length1 && r < a.Length0 && c < a.Length0 && r != c
    modifies a, m
    ensures Rows(a) == old(Rows(a)[r := PlusScaled(Rows(a)[r], f, Rows(a)[c])])
    ensures Rows(m) == old(Rows(m)[r := PlusScaled(Rows(m)[r], f, Rows(m)[c])])
  {
    hide Mul, Xor;
    ghost var a0, m0 := Rows(a), Rows(m);
    for j := 0 to a.Length1
      invariant forall s, l :: 0 <= s < a.Length0 && 0 <= l < a.Length1 ==>
        a[s, l] == if s == r && l < j then Xor(a0[r][l], Mul(f, a0[c][l])) else a0[s][l]
      invariant forall s, l :: 0 <= s < a.Length0 && 0 <= l < a.Length1 ==>
        m[s, l] == if s == r && l < j then Xor(m0[r][l], Mul(f, m0[c][l])) else m0[s][l]
    {
      var arj, irj := Mul(f, a[c, j]), Mul(f, m[c, j]);
      a[r, j] := Xor(a[r, j], arj);
      m[r, j] := Xor(m[r, j], irj);
    }
    RowsAre(a, a0[r := PlusScaled(a0[r], f, a0[c])]);
    RowsAre(m, m0[r := PlusScaled(m0[r], f, m0[c])]);
  }

  lemma EquivalentAfter(a: Matrix, m: Matrix, a': Matrix, m': Matrix, a0: Matrix, n: nat)
    requires IsSquare(a, n) && IsSquare(m, n) && IsSquare(a', n) && IsSquare(m', n) && IsSquare(a0, n)
    requires Equivalent(a, m, a0, n)
    requires forall x, b :: |x| == n && |b| == n ==> (Solves(a', m', x, b, n) <==> Solves(a, m, x, b, n))
    ensures Equivalent(a', m', a0, n)
  {
    hide Dot, Apply;
  }

  /** Bring a nonzero entry of column col to the diagonal and scale its row to have a one there; None
      when the column has no such entry. */
  method Pivot(a: array2<Byte>, m: array2<Byte>, ghost a0: Matrix, col: nat) returns (ok: bool)
    requires a != m && a.Length0 == a.Length1 == m.Length0 == m.Length1 && col < a.Length0
    requires IsSquare(a0, a.Length0)
    requires Equivalent(Rows(a), Rows(m), a0, a.Length0) && Reduced(Rows(a), col, a.Length0)
    modifies a, m
    ensures !ok ==> Singular(a0, a.Length0)
    ensures ok ==> Equivalent(Rows(a), Rows(m), a0, a.Length0) && Clearing(Rows(a), col, 0, a.Length0)
  {
    hide Dot, Equivalent, Reduced, Clearing, Singular, Solves, Scaled, Mul, Inv;
    ghost var n := a.Length0;
    var pivot := col;
    while pivot < a.Length0 && a[pivot, col] == ZERO
      invariant col <= pivot <= a.Length0
      invariant forall r :: col <= r < pivot ==> a[r, col] == ZERO
    {
      pivot := pivot + 1;
    }
    if pivot == a.Length0 {
      NoPivotIsSingular(Rows(a), Rows(m), a0, col, n);
      return false;
    }
    ghost var a1, m1 := Rows(a), Rows(m);
    SwapKeepsReduced(a1, col, pivot, n);
    SwapRows(a, col, pivot);
    SwapRows(m, col, pivot);
    ghost var a2, m2 := Rows(a), Rows(m);
    forall x, b | |x| == n && |b| == n ensures Solves(a2, m2, x, b, n) <==> Solves(a1, m1, x, b, n) {
      SwapKeepsSolutions(a1, m1, col, pivot, x, b, n);
    }
    EquivalentAfter(a1, m1, a2, m2, a0, n);
    var pivInv := Inv(a[col, col]);
    MulInverse(a[col, col]);
    ScaleStartsClearing(a2, col, n);
    ScaleRow(a, m, col, pivInv);
    forall x, b | |x| == n && |b| == n ensures Solves(Rows(a), Rows(m), x, b, n) <==> Solves(a2, m2, x, b, n) {
      ScaleKeepsSolutions(a2, m2, col, pivInv, x, b, n);
    }
    EquivalentAfter(a2, m2, Rows(a), Rows(m), a0, n);
    ok := true;
  }

  /** Clear column col in every row but its own. */
  method ClearColumn(a: array2<Byte>, m: array2<Byte>, ghost a0: Matrix, col: nat)
    requires a != m && a.Length0 == a.Length1 == m.Length0 == m.Length1 && col < a.Length0
    requires IsSquare(a0, a.Length0)
    requires Equivalent(Rows(a), Rows(m), a0, a.Length0) && Clearing(Rows(a), col, 0, a.Length0)
    modifies a, m
    ensures Equivalent(Rows(a), Rows(m), a0, a.Length0) && Reduced(Rows(a), col + 1, a.Length0)
  {
    hide Dot, Equivalent, Solves, PlusScaled, Mul, Xor;
    ghost var n := a.Length0;
    for r := 0 to a.Length0
      invariant Equivalent(Rows(a), Rows(m), a0, n) && Clearing(Rows(a), col, r, n)
    {
      if r != col && a[r, col] != ZERO {
        ghost var a1, m1 := Rows(a), Rows(m);
        var f := a[r, col];
        AddClearsRow(a1, col, r, n);
        AddRow(a, m, r, f, col);
        forall x, b | |x| == n && |b| == n ensures Solves(Rows(a), Rows(m), x, b, n) <==> Solves(a1, m1, x, b, n) {
          AddKeepsSolutions(a1, m1, r, col, f, x, b, n);
        }
        EquivalentAfter(a1, m1, Rows(a), Rows(m), a0, n);
      }
    }
    ClearedIsReduced(Rows(a), col, n);
  }

  /** Gauss-Jordan inversion in place: the inverse, or None exactly when the matrix is singular. */
  method Invert(a: array2<Byte>) returns (r: Option<Matrix>)
    requires a.Length0 == a.Length1
    modifies a
    ensures r.Some? ==> IsSquare(r.value, a.Length0) && Inverse(r.value, old(Rows(a)), a.Length0)
    ensures r.None? <==> Singular(old(Rows(a)), a.Length0)
  {
    hide Dot, Equivalent, Reduced, Clearing, Singular, Inverse;
    var n := a.Length0;
    ghost var a0 := Rows(a);
    var m := new Byte[n, n]((i, j) => if i == j then ONE else ZERO);
    RowsAre(m, Identity(n));
    EquivalentAtStart(a0, n);
    ReducedAtStart(a0, n);
    for col := 0 to n
      invariant Equivalent(Rows(a), Rows(m), a0, n) && Reduced(Rows(a), col, n)
    {
      var ok := Pivot(a, m, a0, col);
      if !ok {
        return None;
      }
      ClearColumn(a, m, a0, col);
    }
    EquivalentAtEnd(Rows(a), Rows(m), a0, n);
    InverseIsNotSingular(Rows(m), a0, n);
    var rows := seq(n, i requires 0 <= i < n reads m => seq(n, j requires 0 <= j < n reads m => m[i, j]));
    RowsAre(m, rows);
    return Some(rows);
  }

  lemma ReducedAtStart(a: Matrix, n: nat)
    requires IsSquare(a, n)
    ensures Reduced(a, 0, n)
  {
  }

  /** An invertible matrix is not singular. */
  lemma InverseIsNotSingular(m: Matrix, a: Matrix, n: nat)
    requires IsSquare(m, n) && IsSquare(a, n) && Inverse(m, a, n)
    ensures !Singular(a, n)
  {
    hide Dot;
    ApplyZeros(a, n);
    assert Zeros(n) == Apply(m, Zeros(n), n);
  }

  lemma ApplyZeros(a: Matrix, n: nat)
    requires IsSquare(a, n)
    ensures Apply(a, Zeros(n), n) == Zeros(n)
  {
    hide Dot;
    forall r | 0 <= r < n ensures Apply(a, Zeros(n), n)[r] == ZERO {
      DotZeros(a[r], n);
    }
  }

  ghost function Column(a: Matrix, j: nat, n: nat): (c: Vector)
    requires IsSquare(a, n) && j < n
    ensures |c| == n
  {
    seq(n, i requires 0 <= i < n => a[i][j])
  }

  ghost function Product(p: Matrix, q: Matrix, n: nat): (m: Matrix)
    requires IsSquare(p, n) && IsSquare(q, n)
    ensures IsSquare(m, n)
  {
    seq(n, i requires 0 <= i < n => seq(n, j requires 0 <= j < n => Dot(p[i], Column(q, j, n), n)))
  }

  /** The inverse multiplies with the original matrix to the identity. */
  lemma InverseProduct(m: Matrix, a: Matrix, n: nat)
    requires IsSquare(m, n) && IsSquare(a, n) && Inverse(m, a, n)
    ensures Product(m, a, n) == Identity(n)
  {
    hide Mul, Xor;
    forall j | 0 <= j < n ensures Apply(m, Column(a, j, n), n) == UnitVector(n, j) {
      var e := UnitVector(n, j);
      forall r | 0 <= r < n ensures Apply(a, e, n)[r] == a[r][j] {
        DotUnit(e, a[r], n, j);
      }
      assert Apply(a, e, n) == Column(a, j, n);
    }
    forall i | 0 <= i < n ensures Product(m, a, n)[i] == UnitVector(n, i) {
      forall j | 0 <= j < n ensures Product(m, a, n)[i][j] == UnitVector(n, i)[j] {
        assert Apply(m, Column(a, j, n), n)[i] == UnitVector(n, j)[i];
      }
    }
  }

  // ---------- Solutions of a nonsingular system ----------

  lemma {:induction false} DotCommutative(u: Vector, v: Vector, n: nat)
    requires n <= |u| && n <= |v|
    ensures Dot(u, v, n) == Dot(v, u, n)
  {
    hide Mul, Xor;
    if n > 0 {
      DotCommutative(u, v, n - 1);
      MulCommutative(u[n - 1], v[n - 1]);
    }
  }

  lemma DotDifference(row: Vector, x: Vector, y: Vector, n: nat)
    requires |row| == |x| == |y| == n && Dot(row, x, n) == Dot(row, y, n)
    ensures Dot(row, PlusScaled(x, ONE, y), n) == ZERO
  {
    hide Mul, Xor, Dot, PlusScaled;
    DotCommutative(row, PlusScaled(x, ONE, y), n);
    DotPlusScaled(x, ONE, y, row, n);
    DotCommutative(row, x, n);
    DotCommutative(row, y, n);
    MulOne(Dot(y, row, n));
    XorCancel(Dot(x, row, n), Dot(y, row, n));
  }

  lemma NonsingularUnique(a: Matrix, x: Vector, y: Vector, n: nat)
    requires IsSquare(a, n) && |x| == |y| == n && !Singular(a, n)
    requires Apply(a, x, n) == Apply(a, y, n)
    ensures x == y
  {
    hide Mul, Xor, Dot;
    var d := PlusScaled(x, ONE, y);
    forall r | 0 <= r < n ensures Apply(a, d, n)[r] == ZERO {
      assert Apply(a, x, n)[r] == Apply(a, y, n)[r];
      DotDifference(a[r], x, y, n);
    }
    assert Apply(a, d, n) == Zeros(n);
    forall i | 0 <= i < n ensures x[i] == y[i] {
      assert d[i] == Zeros(n)[i];
      MulOne(y[i]);
      XorCancel(x[i], y[i]);
    }
  }
}
