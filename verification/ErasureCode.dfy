/** Systematic Reed-Solomon code over GF(2^8): parity shards and reconstruction of missing
    data shards (crates/protocol/src/fec.rs). */
module ErasureCode {
  import opened Wrappers
  import opened Arithmetic
  import opened GaloisField
  import opened LinearSystems
  import opened CauchyMatrix

  type Shard = seq<Byte>

  /** Coefficient of parity row j over data column i, 1 / ((k + j) ^ i); truncating to a byte
      commutes with the exclusive or. */
  function Coef(k: nat, j: nat, i: nat): Byte
    requires i < k && k + j < 256
  {
    IndicesDiffer(k + j, i);
    XorCancel(ToByte(k + j), ToByte(i));
    Inv(Xor(ToByte(k + j), ToByte(i)))
  }

  lemma IndicesDiffer(a: nat, b: nat)
    requires a < 256 && b < 256
    ensures ToByte(a) == ToByte(b) <==> a == b
  {
    hide ToByte, Value;
    ValueOfToByte(a);
    ValueOfToByte(b);
  }

  ghost function CoefRow(k: nat, j: nat): (row: Vector)
    requires k + j < 256
    ensures |row| == k
  {
    seq(k, i requires 0 <= i < k => Coef(k, j, i))
  }

  ghost predicate EqualLengths(data: seq<Shard>, len: nat) {
    forall i :: 0 <= i < |data| ==> |data[i]| == len
  }

  /** Byte b of every shard. */
  ghost function Slice(data: seq<Shard>, len: nat, b: nat): (v: Vector)
    requires EqualLengths(data, len) && b < len
    ensures |v| == |data|
  {
    seq(|data|, i requires 0 <= i < |data| => data[i][b])
  }

  /** Byte by byte, the combination of the first n shards with the given coefficients. */
  ghost function Combination(coefs: Vector, shards: seq<Shard>, len: nat, n: nat): (p: Shard)
    requires n <= |shards| && n <= |coefs| && EqualLengths(shards, len)
    ensures |p| == len
  {
    seq(len, b requires 0 <= b < len => Dot(coefs, Slice(shards, len, b), n))
  }

  /** Parity shard j: the data shards combined with row j of coefficients. */
  ghost function ParityShard(data: seq<Shard>, len: nat, j: nat): (p: Shard)
    requires |data| + j < 256 && EqualLengths(data, len)
    ensures |p| == len
  {
    Combination(CoefRow(|data|, j), data, len, |data|)
  }

  /** The inner loop of encoding and decoding: out ^= c * shard. */
  method AddScaled(out: array<Byte>, c: Byte, shard: Shard)
    requires |shard| == out.Length
    modifies out
    ensures out[..] == PlusScaled(old(out[..]), c, shard)
  {
    hide Mul, Xor;
    ghost var before := out[..];
    for b := 0 to out.Length
      invariant forall l :: 0 <= l < out.Length ==>
        out[l] == if l < b then Xor(before[l], Mul(c, shard[l])) else before[l]
    {
      out[b] := Xor(out[b], Mul(c, shard[b]));
    }
  }

  lemma CombinationStart(coefs: Vector, shards: seq<Shard>, len: nat, zeros: Shard)
    requires EqualLengths(shards, len)
    requires |zeros| == len && forall b :: 0 <= b < len ==> zeros[b] == ZERO
    ensures zeros == Combination(coefs, shards, len, 0)
  {
  }

  lemma CombinationStep(coefs: Vector, shards: seq<Shard>, len: nat, n: nat)
    requires n < |shards| && n < |coefs| && EqualLengths(shards, len)
    ensures Combination(coefs, shards, len, n + 1)
         == PlusScaled(Combination(coefs, shards, len, n), coefs[n], shards[n])
  {
    hide Mul, Xor;
  }

  /** The panics documented for callers are the precondition. */
  method EncodeParity(data: seq<Shard>, parity: nat) returns (out: seq<Shard>)
    requires |data| >= 1 && |data| + parity <= 255
    requires EqualLengths(data, |data[0]|)
    ensures |out| == parity
    ensures forall j :: 0 <= j < parity ==> out[j] == ParityShard(data, |data[0]|, j)
  {
    hide Coef, Combination, PlusScaled;
    var k := |data|;
    var len := |data[0]|;
    out := [];
    for j := 0 to parity
      invariant |out| == j
      invariant forall l :: 0 <= l < j ==> out[l] == ParityShard(data, len, l)
    {
      var row := new Byte[len](_ => ZERO);
      CombinationStart(CoefRow(k, j), data, len, row[..]);
      for i := 0 to k
        invariant row[..] == Combination(CoefRow(k, j), data, len, i)
      {
        CombinationStep(CoefRow(k, j), data, len, i);
        AddScaled(row, Coef(k, j, i), data[i]);
      }
      out := out + [row[..]];
    }
  }

  // ---------- Which shards are missing, and which parity rows stand in ----------

  type Slots = seq<Option<Shard>>

  /** Missing data shards below n, ascending. */
  function Missing(shards: Slots, n: nat): (m: seq<nat>)
    requires n <= |shards|
    ensures forall c :: 0 <= c < |m| ==> m[c] < n && shards[m[c]].None?
    ensures forall i :: 0 <= i < n && shards[i].None? ==> i in m
  {
    if n == 0 then [] else
      Missing(shards, n - 1) + if shards[n - 1].None? then [n - 1] else []
  }

  /** Parity rows present among slots k..n, ascending. */
  function PresentParity(shards: Slots, k: nat, n: nat): (rows: seq<nat>)
    requires k <= n <= |shards|
    ensures forall r :: 0 <= r < |rows| ==> rows[r] < n - k && shards[k + rows[r]].Some?
    ensures forall j :: 0 <= j < n - k && shards[k + j].Some? ==> j in rows
  {
    if n == k then [] else
      PresentParity(shards, k, n - 1) + if shards[n - 1].Some? then [n - 1 - k] else []
  }

  lemma {:induction false} MissingAscending(shards: Slots, n: nat)
    requires n <= |shards|
    ensures Increasing(Missing(shards, n))
  {
    if n > 0 {
      MissingAscending(shards, n - 1);
    }
  }

  lemma {:induction false} PresentParityAscending(shards: Slots, k: nat, n: nat)
    requires k <= n <= |shards|
    ensures Increasing(PresentParity(shards, k, n))
  {
    if n > k {
      PresentParityAscending(shards, k, n - 1);
    }
  }

  /** The parity rows the decoder uses: the first present ones, one per missing shard. */
  function ChosenRows(shards: Slots, k: nat): (rows: seq<nat>)
    requires k <= |shards|
    requires |Missing(shards, k)| <= |PresentParity(shards, k, |shards|)|
    ensures |rows| == |Missing(shards, k)|
    ensures forall r :: 0 <= r < |rows| ==> rows[r] < |shards| - k && shards[k + rows[r]].Some?
  {
    PresentParity(shards, k, |shards|)[..|Missing(shards, k)|]
  }

  /** Length of the first present shard, 0 when there is none. */
  function FirstLength(shards: Slots): nat {
    if |shards| == 0 then 0
    else if shards[0].Some? then |shards[0].value|
    else FirstLength(shards[1..])
  }

  predicate UniformLength(shards: Slots, len: nat) {
    forall i :: 0 <= i < |shards| && shards[i].Some? ==> |shards[i].value| == len
  }

  /** Everything the decoder checks before it solves. */
  ghost predicate Decodable(shards: Slots, k: nat) {
    && 1 <= k <= |shards| <= 255
    && (|Missing(shards, k)| == 0
        || (|Missing(shards, k)| <= |PresentParity(shards, k, |shards|)|
            && FirstLength(shards) > 0
            && UniformLength(shards, FirstLength(shards))))
  }

  /** data extends the present data shards and explains the chosen parity shards. */
  ghost predicate Explains(data: seq<Shard>, shards: Slots, k: nat, len: nat)
    requires k <= |shards| <= 255 && |Missing(shards, k)| <= |PresentParity(shards, k, |shards|)|
  {
    && |data| == k
    && EqualLengths(data, len)
    && (forall i :: 0 <= i < k && shards[i].Some? ==> shards[i].value == data[i])
    && forall r :: 0 <= r < |ChosenRows(shards, k)| ==>
         shards[k + ChosenRows(shards, k)[r]].value == ParityShard(data, len, ChosenRows(shards, k)[r])
  }

  // ---------- The linear system behind a reconstruction ----------

  ghost function Pick(v: Vector, at: seq<nat>): (w: Vector)
    requires forall c :: 0 <= c < |at| ==> at[c] < |v|
    ensures |w| == |at|
  {
    seq(|at|, c requires 0 <= c < |at| => v[at[c]])
  }

  lemma {:induction false} DotPrefix(u: Vector, v: Vector, u': Vector, v': Vector, n: nat)
    requires n <= |u| && n <= |v| && n <= |u'| && n <= |v'|
    requires forall c :: 0 <= c < n ==> u[c] == u'[c] && v[c] == v'[c]
    ensures Dot(u, v, n) == Dot(u', v', n)
  {
    hide Mul, Xor;
    if n > 0 {
      DotPrefix(u, v, u', v', n - 1);
    }
  }

  /** Byte b of parity row j with the present data shards below n taken out. */
  ghost function Residual(shards: Slots, k: nat, j: nat, n: nat, b: nat): Byte
    requires n <= k && k + j < |shards| <= 255 && shards[k + j].Some? && b < |shards[k + j].value|
    requires UniformLength(shards, |shards[k + j].value|)
  {
    if n == 0 then shards[k + j].value[b]
    else
      var before := Residual(shards, k, j, n - 1, b);
      if shards[n - 1].Some? then Xor(before, Mul(Coef(k, j, n - 1), shards[n - 1].value[b])) else before
  }

  lemma PickExtend(v: Vector, at: seq<nat>, i: nat)
    requires i < |v| && forall c :: 0 <= c < |at| ==> at[c] < |v|
    ensures Pick(v, at + [i])[|at|] == v[i]
    ensures forall c :: 0 <= c < |at| ==> Pick(v, at + [i])[c] == Pick(v, at)[c]
  {
  }

  /** The part of the sum of row j that belongs to the listed columns. */
  ghost function PickedDot(k: nat, j: nat, v: Vector, at: seq<nat>): Byte
    requires k + j < 256 && |v| == k && forall c :: 0 <= c < |at| ==> at[c] < k
  {
    Dot(Pick(CoefRow(k, j), at), Pick(v, at), |at|)
  }

  lemma PickedDotExtend(k: nat, j: nat, v: Vector, at: seq<nat>, i: nat)
    requires k + j < 256 && |v| == k && i < k && forall c :: 0 <= c < |at| ==> at[c] < k
    ensures PickedDot(k, j, v, at + [i]) == Xor(PickedDot(k, j, v, at), Mul(CoefRow(k, j)[i], v[i]))
  {
    hide Mul, Xor, Coef;
    var row := CoefRow(k, j);
    PickExtend(row, at, i);
    PickExtend(v, at, i);
    DotPrefix(Pick(row, at + [i]), Pick(v, at + [i]), Pick(row, at), Pick(v, at), |at|);
  }

  lemma MissingStep(shards: Slots, n: nat)
    requires n <= |shards|
    ensures n == 0 ==> Missing(shards, n) == []
    ensures n > 0 && shards[n - 1].Some? ==> Missing(shards, n) == Missing(shards, n - 1)
    ensures n > 0 && shards[n - 1].None? ==> Missing(shards, n) == Missing(shards, n - 1) + [n - 1]
  {
  }

  lemma PickedDotEmpty(k: nat, j: nat, v: Vector)
    requires k + j < 256 && |v| == k
    ensures PickedDot(k, j, v, []) == ZERO
  {
  }

  lemma BalanceStep(residual: Byte, picked: Byte, parity: Byte, full: Byte, t: Byte)
    requires Xor(residual, picked) == Xor(parity, full)
    ensures Xor(Xor(residual, t), picked) == Xor(parity, Xor(full, t))
    ensures Xor(residual, Xor(picked, t)) == Xor(parity, Xor(full, t))
  {
    hide Xor;
    XorAssociative(residual, picked, t);
    XorAssociative(parity, full, t);
    XorAssociative(residual, t, picked);
    XorCommutative(t, picked);
  }

  /** The residual, the sum over missing columns, the parity byte and the full sum cancel. */
  lemma {:induction false} ResidualBalance(shards: Slots, k: nat, j: nat, n: nat, b: nat, v: Vector)
    requires n <= k && k + j < |shards| <= 255 && shards[k + j].Some? && b < |shards[k + j].value|
    requires UniformLength(shards, |shards[k + j].value|)
    requires |v| == k && forall i :: 0 <= i < k && shards[i].Some? ==> v[i] == shards[i].value[b]
    ensures Xor(Residual(shards, k, j, n, b), PickedDot(k, j, v, Missing(shards, n)))
         == Xor(shards[k + j].value[b], Dot(CoefRow(k, j), v, n))
  {
    hide Mul, Xor, Coef, PickedDot, Missing;
    MissingStep(shards, n);
    if n == 0 {
      PickedDotEmpty(k, j, v);
    } else {
      ResidualBalance(shards, k, j, n - 1, b, v);
      var row, m := CoefRow(k, j), Missing(shards, n - 1);
      var t := Mul(row[n - 1], v[n - 1]);
      BalanceStep(Residual(shards, k, j, n - 1, b), PickedDot(k, j, v, m), shards[k + j].value[b],
        Dot(row, v, n - 1), t);
      if shards[n - 1].None? {
        PickedDotExtend(k, j, v, m, n - 1);
      }
    }
  }

  /** At byte b, a parity row is explained exactly when the missing bytes solve its equation. */
  lemma RowEquation(shards: Slots, k: nat, j: nat, b: nat, v: Vector)
    requires k + j < |shards| <= 255 && shards[k + j].Some? && b < |shards[k + j].value|
    requires UniformLength(shards, |shards[k + j].value|)
    requires |v| == k && forall i :: 0 <= i < k && shards[i].Some? ==> v[i] == shards[i].value[b]
    ensures shards[k + j].value[b] == Dot(CoefRow(k, j), v, k)
       <==> PickedDot(k, j, v, Missing(shards, k)) == Residual(shards, k, j, k, b)
  {
    hide Mul, Xor, Coef, Residual, Dot, CoefRow, PickedDot;
    ResidualBalance(shards, k, j, k, b, v);
    XorCancel(Residual(shards, k, j, k, b), PickedDot(k, j, v, Missing(shards, k)));
    XorCancel(shards[k + j].value[b], Dot(CoefRow(k, j), v, k));
  }

  ghost predicate Solvable(shards: Slots, k: nat, len: nat) {
    && 1 <= k <= |shards| <= 255
    && |Missing(shards, k)| <= |PresentParity(shards, k, |shards|)|
    && UniformLength(shards, len)
  }

  /** The square system: chosen parity rows by missing columns. */
  ghost function SystemMatrix(shards: Slots, k: nat): (a: Matrix)
    requires k <= |shards| <= 255 && |Missing(shards, k)| <= |PresentParity(shards, k, |shards|)|
    ensures IsSquare(a, |Missing(shards, k)|)
  {
    var rows, m := ChosenRows(shards, k), Missing(shards, k);
    seq(|m|, r requires 0 <= r < |m| => Pick(CoefRow(k, rows[r]), m))
  }

  ghost function SystemRhs(shards: Slots, k: nat, len: nat, b: nat): (v: Vector)
    requires Solvable(shards, k, len) && b < len
    ensures |v| == |Missing(shards, k)|
  {
    var rows := ChosenRows(shards, k);
    seq(|rows|, r requires 0 <= r < |rows| => Residual(shards, k, rows[r], k, b))
  }

  /** Byte images of distinct indices below 256. */
  ghost function Images(base: nat, at: seq<nat>): (s: seq<Byte>)
    ensures |s| == |at|
  {
    seq(|at|, r requires 0 <= r < |at| => ToByte(base + at[r]))
  }

  lemma ImagesDistinct(base: nat, at: seq<nat>)
    requires Increasing(at) && forall r :: 0 <= r < |at| ==> base + at[r] < 256
    ensures Distinct(Images(base, at))
  {
    hide ToByte;
    forall i, j | 0 <= i < j < |at| ensures ToByte(base + at[i]) != ToByte(base + at[j]) {
      IndicesDiffer(base + at[i], base + at[j]);
    }
  }

  lemma ImagesApart(k: nat, rows: seq<nat>, m: seq<nat>)
    requires forall r :: 0 <= r < |rows| ==> k + rows[r] < 256
    requires forall c :: 0 <= c < |m| ==> m[c] < k < 256
    ensures Apart(Images(k, rows), Images(0, m))
  {
    hide ToByte;
    forall i, j | 0 <= i < |rows| && 0 <= j < |m| ensures ToByte(k + rows[i]) != ToByte(0 + m[j]) {
      IndicesDiffer(k + rows[i], m[j]);
    }
  }

  lemma SystemIsCauchy(shards: Slots, k: nat)
    requires 1 <= k <= |shards| <= 255 && |Missing(shards, k)| <= |PresentParity(shards, k, |shards|)|
    ensures var xs, ys := Images(k, ChosenRows(shards, k)), Images(0, Missing(shards, k));
      Apart(xs, ys) && SystemMatrix(shards, k) == Cauchy(xs, ys)
  {
    hide ToByte, Inv, Missing, ChosenRows, Xor;
    var rows, m := ChosenRows(shards, k), Missing(shards, k);
    var xs, ys := Images(k, rows), Images(0, m);
    ImagesApart(k, rows, m);
    forall r | 0 <= r < |m| ensures SystemMatrix(shards, k)[r] == Cauchy(xs, ys)[r] {
      forall c | 0 <= c < |m| ensures SystemMatrix(shards, k)[r][c] == Cauchy(xs, ys)[r][c] {
        assert 0 + m[c] == m[c];
      }
    }
  }

  /** The system the decoder inverts is never singular. */
  lemma SystemNonsingular(shards: Slots, k: nat)
    requires 1 <= k <= |shards| <= 255 && |Missing(shards, k)| <= |PresentParity(shards, k, |shards|)|
    ensures !Singular(SystemMatrix(shards, k), |Missing(shards, k)|)
  {
    hide Missing, PresentParity, Images, SystemMatrix, Cauchy, Singular;
    var rows, m := ChosenRows(shards, k), Missing(shards, k);
    MissingAscending(shards, k);
    PresentParityAscending(shards, k, |shards|);
    SystemIsCauchy(shards, k);
    ImagesDistinct(k, rows);
    ImagesDistinct(0, m);
    CauchyNonsingular(Images(k, rows), Images(0, m));
  }

  ghost predicate ExtendsPresent(data: seq<Shard>, shards: Slots, k: nat, len: nat)
    requires k <= |shards|
  {
    && |data| == k
    && EqualLengths(data, len)
    && forall i :: 0 <= i < k && shards[i].Some? ==> shards[i].value == data[i]
  }

  ghost predicate SolvesBytes(data: seq<Shard>, shards: Slots, k: nat, len: nat)
    requires Solvable(shards, k, len) && |data| == k && EqualLengths(data, len)
  {
    forall b :: 0 <= b < len ==>
      Apply(SystemMatrix(shards, k), Pick(Slice(data, len, b), Missing(shards, k)), |Missing(shards, k)|)
        == SystemRhs(shards, k, len, b)
  }

  ghost predicate SolvesByte(data: seq<Shard>, shards: Slots, k: nat, len: nat, r: nat, b: nat)
    requires Solvable(shards, k, len) && |data| == k && EqualLengths(data, len)
    requires r < |Missing(shards, k)| && b < len
  {
    var m := Missing(shards, k);
    Dot(SystemMatrix(shards, k)[r], Pick(Slice(data, len, b), m), |m|) == SystemRhs(shards, k, len, b)[r]
  }

  lemma ChosenRowEquation(data: seq<Shard>, shards: Slots, k: nat, len: nat, r: nat, b: nat)
    requires Solvable(shards, k, len) && ExtendsPresent(data, shards, k, len)
    requires r < |Missing(shards, k)| && b < len
    ensures shards[k + ChosenRows(shards, k)[r]].value[b] == ParityShard(data, len, ChosenRows(shards, k)[r])[b]
       <==> SolvesByte(data, shards, k, len, r, b)
  {
    hide Dot, Coef, Residual, CoefRow, Pick, PresentParity, Missing;
    RowEquation(shards, k, ChosenRows(shards, k)[r], b, Slice(data, len, b));
  }

  lemma SolvesBytesRowwise(data: seq<Shard>, shards: Slots, k: nat, len: nat)
    requires Solvable(shards, k, len) && |data| == k && EqualLengths(data, len)
    ensures SolvesBytes(data, shards, k, len)
       <==> forall r, b :: 0 <= r < |Missing(shards, k)| && 0 <= b < len ==> SolvesByte(data, shards, k, len, r, b)
  {
    hide Dot, Residual, Pick, Missing, SystemMatrix, SystemRhs;
    var m := Missing(shards, k);
    if SolvesBytes(data, shards, k, len) {
      forall r, b | 0 <= r < |m| && 0 <= b < len ensures SolvesByte(data, shards, k, len, r, b) {
        assert Apply(SystemMatrix(shards, k), Pick(Slice(data, len, b), m), |m|)[r]
            == SystemRhs(shards, k, len, b)[r];
      }
    }
    if forall r, b :: 0 <= r < |m| && 0 <= b < len ==> SolvesByte(data, shards, k, len, r, b) {
      forall b | 0 <= b < len
        ensures Apply(SystemMatrix(shards, k), Pick(Slice(data, len, b), m), |m|) == SystemRhs(shards, k, len, b)
      {
        var v := Pick(Slice(data, len, b), m);
        forall r | 0 <= r < |m| ensures Apply(SystemMatrix(shards, k), v, |m|)[r] == SystemRhs(shards, k, len, b)[r] {
          assert SolvesByte(data, shards, k, len, r, b);
        }
      }
    }
  }

  /** A chosen parity shard is explained exactly when its equation is solved at every byte. */
  lemma ChosenRowExplained(data: seq<Shard>, shards: Slots, k: nat, len: nat, r: nat)
    requires Solvable(shards, k, len) && ExtendsPresent(data, shards, k, len)
    requires r < |Missing(shards, k)|
    ensures shards[k + ChosenRows(shards, k)[r]].value == ParityShard(data, len, ChosenRows(shards, k)[r])
       <==> forall b :: 0 <= b < len ==> SolvesByte(data, shards, k, len, r, b)
  {
    hide PresentParity, Missing, SolvesByte, ParityShard;
    var p, q := shards[k + ChosenRows(shards, k)[r]].value, ParityShard(data, len, ChosenRows(shards, k)[r]);
    forall b | 0 <= b < len ensures p[b] == q[b] <==> SolvesByte(data, shards, k, len, r, b) {
      ChosenRowEquation(data, shards, k, len, r, b);
    }
    if forall b :: 0 <= b < len ==> SolvesByte(data, shards, k, len, r, b) {
      assert p == q;
    }
  }

  /** Explaining the chosen parity shards means solving the system at every byte. */
  lemma ExplainsIsSolving(data: seq<Shard>, shards: Slots, k: nat, len: nat)
    requires Solvable(shards, k, len) && ExtendsPresent(data, shards, k, len)
    ensures Explains(data, shards, k, len) <==> SolvesBytes(data, shards, k, len)
  {
    hide PresentParity, Missing, SolvesBytes, ParityShard, SolvesByte;
    var m := Missing(shards, k);
    SolvesBytesRowwise(data, shards, k, len);
    if SolvesBytes(data, shards, k, len) {
      forall r | 0 <= r < |m|
        ensures shards[k + ChosenRows(shards, k)[r]].value == ParityShard(data, len, ChosenRows(shards, k)[r])
      {
        ChosenRowExplained(data, shards, k, len, r);
      }
    }
    if Explains(data, shards, k, len) {
      forall r, b | 0 <= r < |m| && 0 <= b < len ensures SolvesByte(data, shards, k, len, r, b) {
        ChosenRowExplained(data, shards, k, len, r);
      }
    }
  }

  /** Two extensions that explain the same shards are the same: the code's decoding is unambiguous. */
  lemma ExplanationUnique(d1: seq<Shard>, d2: seq<Shard>, shards: Slots, k: nat, len: nat)
    requires Solvable(shards, k, len)
    requires Explains(d1, shards, k, len) && Explains(d2, shards, k, len)
    ensures d1 == d2
  {
    hide Dot, Residual, Pick, PresentParity, SystemMatrix, SystemRhs, ParityShard, Apply, Singular, Explains, Slice;
    ExplainsExtends(d1, shards, k, len);
    ExplainsExtends(d2, shards, k, len);
    ExplainsIsSolving(d1, shards, k, len);
    ExplainsIsSolving(d2, shards, k, len);
    var m := Missing(shards, k);
    SystemNonsingular(shards, k);
    forall i | 0 <= i < k ensures d1[i] == d2[i] {
      if shards[i].None? {
        assert i in m;
        var c :| 0 <= c < |m| && m[c] == i;
        forall b | 0 <= b < len ensures d1[i][b] == d2[i][b] {
          var v1, v2 := Pick(Slice(d1, len, b), m), Pick(Slice(d2, len, b), m);
          NonsingularUnique(SystemMatrix(shards, k), v1, v2, |m|);
          PickSlice(d1, len, b, m, c);
          PickSlice(d2, len, b, m, c);
        }
      }
    }
  }

  lemma PickSlice(data: seq<Shard>, len: nat, b: nat, at: seq<nat>, c: nat)
    requires EqualLengths(data, len) && b < len && c < |at|
    requires forall i :: 0 <= i < |at| ==> at[i] < |data|
    ensures Pick(Slice(data, len, b), at)[c] == data[at[c]][b]
  {
  }

  lemma ExplainsExtends(data: seq<Shard>, shards: Slots, k: nat, len: nat)
    requires Solvable(shards, k, len) && Explains(data, shards, k, len)
    ensures ExtendsPresent(data, shards, k, len)
  {
  }

  // ---------- What decoding yields, as a function of the slots ----------

  /** The data shards a reconstruction leaves behind, or None when it gives up. */
  ghost function Decode(shards: Slots, k: nat): (r: Option<seq<Shard>>)
    ensures r.Some? ==> |r.value| == k
  {
    if !Decodable(shards, k) then None
    else if |Missing(shards, k)| == 0 then Some(seq(k, i requires 0 <= i < k => PresentValue(shards, k, i)))
    else if exists d :: Explains(d, shards, k, FirstLength(shards)) then
      var d :| Explains(d, shards, k, FirstLength(shards));
      Some(d)
    else None
  }

  ghost function PresentValue(shards: Slots, k: nat, i: nat): Shard
    requires i < k <= |shards| && |Missing(shards, k)| == 0
  {
    var m := Missing(shards, k);
    assert shards[i].None? ==> i in m;
    shards[i].value
  }

  lemma DecodeIs(data: seq<Shard>, shards: Slots, k: nat)
    requires Decodable(shards, k) && |Missing(shards, k)| > 0
    requires Explains(data, shards, k, FirstLength(shards))
    ensures Decode(shards, k) == Some(data)
  {
    hide Explains, Missing, PresentParity, FirstLength;
    var d :| Explains(d, shards, k, FirstLength(shards)) && Decode(shards, k) == Some(d);
    ExplanationUnique(d, data, shards, k, FirstLength(shards));
  }

  // ---------- The decoder ----------

  method BuildSystem(shards: Slots, k: nat, rows: seq<nat>, missing: seq<nat>) returns (a: array2<Byte>)
    requires 1 <= k <= |shards| <= 255 && |Missing(shards, k)| <= |PresentParity(shards, k, |shards|)|
    requires rows == ChosenRows(shards, k) && missing == Missing(shards, k)
    ensures fresh(a) && a.Length0 == a.Length1 == |missing|
    ensures Rows(a) == SystemMatrix(shards, k)
  {
    hide Coef, Missing, PresentParity, ChosenRows;
    var e := |missing|;
    a := new Byte[e, e]((_, _) => ZERO);
    for r := 0 to e
      invariant forall i, c :: 0 <= i < r && 0 <= c < e ==> a[i, c] == Coef(k, rows[i], missing[c])
    {
      for c := 0 to e
        invariant forall i, l :: 0 <= i < r && 0 <= l < e ==> a[i, l] == Coef(k, rows[i], missing[l])
        invariant forall l :: 0 <= l < c ==> a[r, l] == Coef(k, rows[r], missing[l])
      {
        a[r, c] := Coef(k, rows[r], missing[c]);
      }
    }
    RowsAre(a, SystemMatrix(shards, k));
  }

  ghost function ResidualShard(shards: Slots, k: nat, len: nat, j: nat, n: nat): (p: Shard)
    requires n <= k && k + j < |shards| <= 255 && shards[k + j].Some? && |shards[k + j].value| == len
    requires UniformLength(shards, len)
    ensures |p| == len
  {
    seq(len, b requires 0 <= b < len => Residual(shards, k, j, n, b))
  }

  lemma ResidualShardStep(shards: Slots, k: nat, len: nat, j: nat, n: nat)
    requires n < k && k + j < |shards| <= 255 && shards[k + j].Some? && |shards[k + j].value| == len
    requires UniformLength(shards, len)
    ensures ResidualShard(shards, k, len, j, n + 1)
         == if shards[n].Some? then PlusScaled(ResidualShard(shards, k, len, j, n), Coef(k, j, n), shards[n].value)
            else ResidualShard(shards, k, len, j, n)
  {
    hide Mul, Xor, Coef;
  }

  /** The chosen parity shards with the present data shards taken out. */
  method Residuals(shards: Slots, k: nat, len: nat, rows: seq<nat>) returns (rhs: seq<Shard>)
    requires k <= |shards| <= 255 && UniformLength(shards, len)
    requires forall r :: 0 <= r < |rows| ==> k + rows[r] < |shards| && shards[k + rows[r]].Some?
    ensures |rhs| == |rows|
    ensures forall r :: 0 <= r < |rows| ==> rhs[r] == ResidualShard(shards, k, len, rows[r], k)
  {
    hide Coef, PlusScaled, ResidualShard;
    rhs := [];
    for r := 0 to |rows|
      invariant |rhs| == r
      invariant forall i :: 0 <= i < r ==> rhs[i] == ResidualShard(shards, k, len, rows[i], k)
    {
      var j := rows[r];
      var parity := shards[k + j].value;
      var row := new Byte[len](b requires 0 <= b < len => parity[b]);
      ResidualShardStart(shards, k, len, j, row[..]);
      for i := 0 to k
        invariant row[..] == ResidualShard(shards, k, len, j, i)
      {
        ResidualShardStep(shards, k, len, j, i);
        if shards[i].Some? {
          AddScaled(row, Coef(k, j, i), shards[i].value);
        }
      }
      rhs := rhs + [row[..]];
    }
  }

  lemma ResidualShardStart(shards: Slots, k: nat, len: nat, j: nat, row: Shard)
    requires k + j < |shards| <= 255 && shards[k + j].Some? && |shards[k + j].value| == len == |row|
    requires UniformLength(shards, len)
    requires forall b :: 0 <= b < len ==> row[b] == shards[k + j].value[b]
    ensures row == ResidualShard(shards, k, len, j, 0)
  {
  }

  /** Row c of the inverse applied to the residuals: the missing shard number c. */
  method Recover(coefs: Vector, rhs: seq<Shard>, len: nat) returns (out: Shard)
    requires |coefs| == |rhs| && EqualLengths(rhs, len)
    ensures out == Combination(coefs, rhs, len, |rhs|)
  {
    hide Combination, PlusScaled;
    var row := new Byte[len](_ => ZERO);
    CombinationStart(coefs, rhs, len, row[..]);
    for r := 0 to |rhs|
      invariant row[..] == Combination(coefs, rhs, len, r)
    {
      CombinationStep(coefs, rhs, len, r);
      AddScaled(row, coefs[r], rhs[r]);
    }
    out := row[..];
  }

  /** The inverse of the system and its right-hand sides, as computed by the decoder. */
  ghost predicate SolvedBy(shards: Slots, k: nat, len: nat, inverse: Matrix, rhs: seq<Shard>)
    requires Solvable(shards, k, len)
  {
    && IsSquare(inverse, |Missing(shards, k)|)
    && Inverse(inverse, SystemMatrix(shards, k), |Missing(shards, k)|)
    && |rhs| == |Missing(shards, k)|
    && EqualLengths(rhs, len)
    && forall r :: 0 <= r < |rhs| ==> rhs[r] == ResidualShard(shards, k, len, ChosenRows(shards, k)[r], k)
  }

  /** Data recovered through the inverse explains the shards. */
  lemma RecoveredExplains(data: seq<Shard>, shards: Slots, k: nat, len: nat, inverse: Matrix, rhs: seq<Shard>)
    requires Solvable(shards, k, len) && ExtendsPresent(data, shards, k, len)
    requires SolvedBy(shards, k, len, inverse, rhs)
    requires forall c :: 0 <= c < |rhs| ==> data[Missing(shards, k)[c]] == Combination(inverse[c], rhs, len, |rhs|)
    ensures Explains(data, shards, k, len)
  {
    hide Dot, Residual, PresentParity, Missing, SystemMatrix, ChosenRows;
    var m := Missing(shards, k);
    forall b | 0 <= b < len
      ensures Apply(SystemMatrix(shards, k), Pick(Slice(data, len, b), m), |m|) == SystemRhs(shards, k, len, b)
    {
      assert Slice(rhs, len, b) == SystemRhs(shards, k, len, b);
      assert Pick(Slice(data, len, b), m) == Apply(inverse, SystemRhs(shards, k, len, b), |m|) by {
        forall c | 0 <= c < |m|
          ensures Pick(Slice(data, len, b), m)[c] == Apply(inverse, SystemRhs(shards, k, len, b), |m|)[c]
        {
          PickSlice(data, len, b, m, c);
        }
      }
    }
    ExplainsIsSolving(data, shards, k, len);
  }

  function AllPresent(data: seq<Shard>): (s: Slots)
    ensures |s| == |data|
  {
    seq(|data|, i requires 0 <= i < |data| => Some(data[i]))
  }

  /** The data shards once the recovered ones are filled in. */
  ghost function Filled(shards: Slots, k: nat, outs: seq<Shard>): (data: seq<Shard>)
    requires k <= |shards| && |outs| == |Missing(shards, k)|
    ensures |data| == k
  {
    seq(k, i requires 0 <= i < k => FilledAt(shards, k, outs, i))
  }

  ghost function FilledAt(shards: Slots, k: nat, outs: seq<Shard>, i: nat): Shard
    requires i < k <= |shards| && |outs| == |Missing(shards, k)|
  {
    var m := Missing(shards, k);
    if shards[i].Some? then shards[i].value
    else
      assert i in m;
      var c :| 0 <= c < |m| && m[c] == i;
      outs[c]
  }

  lemma FilledAtMissing(shards: Slots, k: nat, outs: seq<Shard>, c: nat)
    requires k <= |shards| && c < |outs| == |Missing(shards, k)|
    ensures FilledAt(shards, k, outs, Missing(shards, k)[c]) == outs[c]
  {
    hide Missing;
    MissingAscending(shards, k);
  }

  /** Writing the recovered shards into their slots leaves exactly the filled data and the old parity. */
  method Fill(shards: array<Option<Shard>>, k: nat, missing: seq<nat>, inverse: Matrix, rhs: seq<Shard>, len: nat)
      returns (ghost outs: seq<Shard>)
    requires k <= shards.Length && missing == Missing(shards[..], k)
    requires |missing| == |rhs| && IsSquare(inverse, |rhs|) && EqualLengths(rhs, len)
    modifies shards
    ensures |outs| == |missing|
    ensures forall c :: 0 <= c < |outs| ==> outs[c] == Combination(inverse[c], rhs, len, |rhs|)
    ensures shards[..] == AllPresent(Filled(old(shards[..]), k, outs)) + old(shards[k..])
  {
    hide Combination, Missing;
    ghost var s := shards[..];
    MissingAscending(s, k);
    outs := [];
    for c := 0 to |missing|
      invariant |outs| == c
      invariant forall i :: 0 <= i < c ==> outs[i] == Combination(inverse[i], rhs, len, |rhs|)
      invariant forall i :: 0 <= i < c ==> shards[missing[i]] == Some(outs[i])
      invariant forall i :: 0 <= i < shards.Length && (i !in missing || i >= k) ==> shards[i] == s[i]
      invariant forall i :: c <= i < |missing| ==> shards[missing[i]] == s[missing[i]]
    {
      var out := Recover(inverse[c], rhs, len);
      shards[missing[c]] := Some(out);
      outs := outs + [out];
    }
    forall i | 0 <= i < k ensures shards[i] == Some(FilledAt(s, k, outs, i)) {
      if s[i].None? {
        var c :| 0 <= c < |missing| && missing[c] == i;
        FilledAtMissing(s, k, outs, c);
      }
    }
    assert shards[k..] == s[k..];
    assert shards[..] == shards[..k] + shards[k..];
    assert shards[..k] == AllPresent(Filled(s, k, outs));
  }

  lemma FilledExtends(shards: Slots, k: nat, len: nat, outs: seq<Shard>)
    requires k <= |shards| && |outs| == |Missing(shards, k)| && UniformLength(shards, len)
    requires forall c :: 0 <= c < |outs| ==> |outs[c]| == len
    ensures ExtendsPresent(Filled(shards, k, outs), shards, k, len)
    ensures forall c :: 0 <= c < |outs| ==> Filled(shards, k, outs)[Missing(shards, k)[c]] == outs[c]
  {
    hide Missing;
    forall c | 0 <= c < |outs| ensures Filled(shards, k, outs)[Missing(shards, k)[c]] == outs[c] {
      FilledAtMissing(shards, k, outs, c);
    }
  }

  lemma FilledIsDecode(shards: Slots, k: nat, inverse: Matrix, rhs: seq<Shard>, outs: seq<Shard>)
    requires Decodable(shards, k) && |Missing(shards, k)| > 0
    requires SolvedBy(shards, k, FirstLength(shards), inverse, rhs)
    requires |outs| == |rhs|
    requires forall c :: 0 <= c < |outs| ==> outs[c] == Combination(inverse[c], rhs, FirstLength(shards), |rhs|)
    ensures Decode(shards, k) == Some(Filled(shards, k, outs))
  {
    hide Combination, Missing, PresentParity, ResidualShard, Decode, FirstLength, Filled, Inverse, SystemMatrix,
         Explains, UniformLength, ExtendsPresent;
    var len := FirstLength(shards);
    assert forall c :: 0 <= c < |outs| ==> |outs[c]| == len;
    FilledExtends(shards, k, len, outs);
    RecoveredExplains(Filled(shards, k, outs), shards, k, len, inverse, rhs);
    DecodeIs(Filled(shards, k, outs), shards, k);
  }

  lemma DecodeComplete(shards: Slots, k: nat)
    requires 1 <= k <= |shards| <= 255 && |Missing(shards, k)| == 0
    ensures Decode(shards, k).Some?
    ensures shards == AllPresent(Decode(shards, k).value) + shards[k..]
  {
    hide Missing, PresentParity, UniformLength, FirstLength;
    var m := Missing(shards, k);
    var d := Decode(shards, k).value;
    forall i | 0 <= i < k ensures shards[i] == AllPresent(d)[i] {
      assert shards[i].None? ==> i in m;
    }
  }

  /** Reconstruct the missing data shards in place. */
  method ReconstructData(shards: array<Option<Shard>>, k: nat) returns (ok: bool)
    modifies shards
    ensures ok <==> Decodable(old(shards[..]), k)
    ensures ok <==> Decode(old(shards[..]), k).Some?
    ensures ok ==> shards[..] == AllPresent(Decode(old(shards[..]), k).value) + old(shards[k..])
    ensures !ok ==> shards[..] == old(shards[..])
  {
    hide Combination, Missing, PresentParity, ResidualShard, FirstLength, Filled, Inverse, Singular, SystemMatrix,
         Explains;
    var s := shards[..];
    var total := shards.Length;
    if k == 0 || total < k || total > 255 {
      return false;
    }
    var missing := Missing(s, k);
    if |missing| == 0 {
      DecodeComplete(s, k);
      return true;
    }
    var present := PresentParity(s, k, total);
    if |present| < |missing| {
      return false;
    }
    var rows := present[..|missing|];
    var len := FirstLength(s);
    if len == 0 || !UniformLength(s, len) {
      return false;
    }
    var a := BuildSystem(s, k, rows, missing);
    var inverse := Invert(a);
    SystemNonsingular(s, k);
    if inverse.None? {
      // A Cauchy submatrix is never singular.
      assert false;
    }
    var rhs := Residuals(s, k, len, rows);
    ghost var outs := Fill(shards, k, missing, inverse.value, rhs, len);
    FilledIsDecode(s, k, inverse.value, rhs, outs);
    ok := true;
  }

  // ---------- Any k of the k + m shards ----------

  /** The slots hold a subset of the shards of an encoded stripe. */
  ghost predicate Erased(shards: Slots, data: seq<Shard>, len: nat)
    requires EqualLengths(data, len)
  {
    && 1 <= |data| <= |shards| <= 255
    && (forall i :: 0 <= i < |data| && shards[i].Some? ==> shards[i].value == data[i])
    && (forall j :: 0 <= j < |shards| - |data| && shards[|data| + j].Some? ==>
         shards[|data| + j].value == ParityShard(data, len, j))
  }

  lemma ErasedUniform(shards: Slots, data: seq<Shard>, len: nat)
    requires EqualLengths(data, len) && Erased(shards, data, len)
    ensures UniformLength(shards, len)
  {
    hide ParityShard;
    forall i | 0 <= i < |shards| && shards[i].Some? ensures |shards[i].value| == len {
      if i >= |data| {
        var j := i - |data|;
        assert shards[|data| + j].value == ParityShard(data, len, j);
      }
    }
  }

  lemma {:induction false} FirstLengthUniform(shards: Slots, len: nat, i: nat)
    requires UniformLength(shards, len) && i < |shards| && shards[i].Some?
    ensures FirstLength(shards) == len
  {
    if shards[0].None? {
      FirstLengthUniform(shards[1..], len, i - 1);
    }
  }

  /** After encoding and any erasure, decoding succeeds exactly when at least as many parity shards as
      missing data shards are left, and then returns every original data shard. */
  lemma AnyKOfN(shards: Slots, data: seq<Shard>, len: nat)
    requires len > 0 && EqualLengths(data, len) && Erased(shards, data, len)
    ensures Decode(shards, |data|) ==
      if |Missing(shards, |data|)| <= |PresentParity(shards, |data|, |shards|)| then Some(data) else None
  {
    hide ParityShard, FirstLength, Missing, PresentParity;
    var k := |data|;
    var m, rows := Missing(shards, k), PresentParity(shards, k, |shards|);
    ErasedUniform(shards, data, len);
    if |m| == 0 {
      assert forall i :: 0 <= i < k ==> shards[i].None? ==> i in m;
      assert Decode(shards, k).value == data;
    } else if |m| <= |rows| {
      FirstLengthUniform(shards, len, k + rows[0]);
      DecodeIs(data, shards, k);
    }
  }
}
