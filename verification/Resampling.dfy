/** The packet-by-packet linear resampler of captured audio, over exact reals
    (crates/capture-windows/src/audio.rs, `Resampler`). */
module Resampling {
  const OUT_RATE: nat := 48000
  const FULL_SCALE: real := 32767.0

  type Frame = (real, real)
  type i16 = n: int | -0x8000 <= n < 0x8000 witness 0

  function Clamp(s: real): (c: real)
    ensures -1.0 <= c <= 1.0
  {
    if s < -1.0 then -1.0 else if s > 1.0 then 1.0 else s
  }

  /** Toward zero, as a float-to-integer cast. */
  function Truncated(v: real): int {
    if v >= 0.0 then v.Floor else -(-v).Floor
  }

  function Quantised(s: real): i16 {
    Truncated(Clamp(s) * FULL_SCALE)
  }

  function Lerp(a: real, b: real, f: real): real {
    a + (b - a) * f
  }

  function Blend(a: Frame, b: Frame, f: real): (i16, i16) {
    (Quantised(Lerp(a.0, b.0, f)), Quantised(Lerp(a.1, b.1, f)))
  }

  function Interleaved(pairs: seq<(i16, i16)>): seq<i16> {
    if |pairs| == 0 then []
    else
      var last := pairs[|pairs| - 1];
      Interleaved(pairs[..|pairs| - 1]) + [last.0, last.1]
  }

  // ---------- The whole stream ----------

  /** Output j reads the stream at source position j * step. */
  function Position(step: real, j: nat): real {
    j as real * step
  }

  predicate Within(n: nat, step: real, j: nat) {
    Position(step, j) < n as real - 1.0
  }

  function OutputAt(s: seq<Frame>, step: real, j: nat): (i16, i16)
    requires step > 0.0 && Within(|s|, step, j)
  {
    PositionInside(|s|, step, j);
    var x := Position(step, j);
    var i := x.Floor;
    Blend(s[i], s[i + 1], x - i as real)
  }

  lemma PositionInside(n: nat, step: real, j: nat)
    requires step > 0.0 && Within(n, step, j)
    ensures 0.0 <= Position(step, j)
    ensures 0 <= Position(step, j).Floor && Position(step, j).Floor + 1 < n
  {
  }

  /** Output frames that n source frames yield: (n - 1) / step, rounded up. */
  function Count(n: nat, step: real): (c: nat)
    requires step > 0.0
  {
    if n <= 1 then 0
    else
      QuotientPositive(n as real - 1.0, step);
      -(-((n as real - 1.0) / step)).Floor
  }

  lemma QuotientPositive(a: real, b: real)
    requires a >= 0.0 && b > 0.0
    ensures a / b >= 0.0
  {
  }

  /** Output j exists exactly when its position lies before the last source frame. */
  lemma CountExact(n: nat, step: real, j: nat)
    requires step > 0.0
    ensures j < Count(n, step) <==> Within(n, step, j)
  {
    if n <= 1 {
      PositionGrows(step, 0, j);
    } else {
      var a := n as real - 1.0;
      var q := a / step;
      assert q * step == a;
      var c := Count(n, step);
      assert c as real - 1.0 < q <= c as real;
      if j < c {
        assert j as real <= c as real - 1.0;
        Scale(j as real, q, step);
      } else {
        ScaleUp(q, j as real, step);
      }
    }
  }

  lemma Scale(a: real, b: real, step: real)
    requires a < b && step > 0.0
    ensures a * step < b * step
  {
  }

  lemma ScaleUp(a: real, b: real, step: real)
    requires a <= b && step > 0.0
    ensures a * step <= b * step
  {
  }

  lemma PositionGrows(step: real, i: nat, j: nat)
    requires step > 0.0 && i <= j
    ensures 0.0 <= Position(step, i) <= Position(step, j)
  {
    ScaleUp(i as real, j as real, step);
  }

  lemma NextPosition(step: real, j: nat)
    ensures Position(step, j + 1) == Position(step, j) + step
  {
  }

  function Outputs(s: seq<Frame>, step: real): (r: seq<(i16, i16)>)
    requires step > 0.0
    ensures |r| == Count(|s|, step)
  {
    seq(Count(|s|, step), j requires 0 <= j < Count(|s|, step) => OutputFor(s, step, j))
  }

  function OutputFor(s: seq<Frame>, step: real, j: nat): (i16, i16)
    requires step > 0.0 && j < Count(|s|, step)
  {
    CountExact(|s|, step, j);
    OutputAt(s, step, j)
  }

  // ---------- The resampler ----------

  class Resampler {
    const step: real
    var pos: real
    var carry: Frame
    /** All frames pushed so far. */
    ghost var heard: seq<Frame>

    /** The next output's position, counted from the carried frame; the carry is the last frame pushed. */
    ghost predicate Valid()
      reads this
    {
      && step > 0.0
      && pos == 1.0 + Position(step, Count(|heard|, step)) - |heard| as real
      && (|heard| > 0 ==> carry == heard[|heard| - 1])
    }

    constructor (inRate: nat)
      requires inRate > 0
      ensures Valid() && heard == [] && step == inRate as real / OUT_RATE as real
    {
      step := inRate as real / OUT_RATE as real;
      pos := 1.0;
      carry := (0.0, 0.0);
      heard := [];
    }

    function At(input: seq<Frame>, k: nat): Frame
      requires k <= |input|
      reads this`carry
    {
      if k == 0 then carry else input[k - 1]
    }

    /** Append the outputs this packet completes: together with those before, exactly the outputs of the whole
        stream heard. */
    method Push(input: seq<Frame>, out: seq<i16>) returns (r: seq<i16>)
      requires Valid()
      modifies this`pos, this`carry, this`heard
      ensures Valid() && heard == old(heard) + input
      ensures Count(|old(heard)|, step) <= Count(|heard|, step)
      ensures r == out + Interleaved(Outputs(heard, step)[Count(|old(heard)|, step)..])
    {
      hide Position, Count, OutputFor, Quantised, Lerp, Outputs, Interleaved;
      r := out;
      var n := |input|;
      ghost var from := Count(|heard|, step);
      Emit(out, [], (0, 0));
      if n == 0 {
        assert heard + input == heard;
        assert Outputs(heard, step)[from..] == [];
        assert r == out + [];
        return;
      }
      ghost var all := heard + input;
      CountMonotone(|heard|, |all|, step);
      ghost var j := from;
      assert Outputs(all, step)[from..j] == [];
      assert r == out + [];
      while pos < n as real
        invariant from <= j <= Count(|all|, step)
        invariant pos == 1.0 + Position(step, j) - |heard| as real
        invariant carry == old(carry) && heard == old(heard)
        invariant r == out + Interleaved(Outputs(all, step)[from..j])
        decreases Count(|all|, step) - j
      {
        Locate(heard, input, step, j, pos);
        CountExact(|all|, step, j);
        SameBlend(heard, input, carry, step, j, pos);
        var i := pos.Floor;
        var frac := pos - i as real;
        var a, b := At(input, i), At(input, i + 1);
        r := r + [Quantised(Lerp(a.0, b.0, frac))];
        r := r + [Quantised(Lerp(a.1, b.1, frac))];
        OneMore(all, step, from, j);
        Emit(out, Outputs(all, step)[from..j], OutputFor(all, step, j));
        pos := pos + step;
        NextPosition(step, j);
        j := j + 1;
      }
      CountExact(|all|, step, j);
      assert Outputs(all, step)[from..j] == Outputs(all, step)[from..];
      pos := pos - n as real;
      carry := input[n - 1];
      heard := all;
    }
  }

  lemma Emit(out: seq<i16>, made: seq<(i16, i16)>, x: (i16, i16))
    ensures out + Interleaved(made) + [x.0] + [x.1] == out + Interleaved(made + [x])
    ensures Interleaved([]) == []
  {
    assert (made + [x])[..|made|] == made;
  }

  lemma OneMore(s: seq<Frame>, step: real, from: nat, j: nat)
    requires step > 0.0 && from <= j < Count(|s|, step)
    ensures Outputs(s, step)[from..j + 1] == Outputs(s, step)[from..j] + [OutputFor(s, step, j)]
  {
    hide Count, OutputFor;
  }

  lemma CountMonotone(m: nat, n: nat, step: real)
    requires step > 0.0 && m <= n
    ensures Count(m, step) <= Count(n, step)
  {
    var c := Count(m, step);
    if c > 0 {
      CountExact(m, step, c - 1);
      CountExact(n, step, c - 1);
    }
  }

  /** The local read position names the same two frames as the position in the whole stream. */
  lemma Locate(heard: seq<Frame>, input: seq<Frame>, step: real, j: nat, pos: real)
    requires step > 0.0 && Count(|heard|, step) <= j && pos == 1.0 + Position(step, j) - |heard| as real
    requires pos < |input| as real
    ensures 0.0 <= pos && Within(|heard| + |input|, step, j)
    ensures 0 <= pos.Floor < |input|
    ensures Position(step, j).Floor == pos.Floor + |heard| - 1
    ensures |heard| == 0 ==> pos.Floor >= 1
  {
    CountExact(|heard|, step, j);
    PositionGrows(step, 0, j);
  }

  /** What the local frames blend to is the stream's output. */
  lemma SameBlend(heard: seq<Frame>, input: seq<Frame>, carry: Frame, step: real, j: nat, pos: real)
    requires step > 0.0 && Count(|heard|, step) <= j < Count(|heard + input|, step)
    requires pos == 1.0 + Position(step, j) - |heard| as real && 0.0 <= pos && 0 <= pos.Floor < |input|
    requires Position(step, j).Floor == pos.Floor + |heard| - 1
    requires |heard| == 0 ==> pos.Floor >= 1
    requires |heard| > 0 ==> carry == heard[|heard| - 1]
    ensures var i := pos.Floor;
      OutputFor(heard + input, step, j)
        == Blend(if i == 0 then carry else input[i - 1], input[i], pos - i as real)
  {
    hide Position, Count, Blend;
    CountExact(|heard + input|, step, j);
  }

  // ---------- Packet boundaries do not matter ----------

  /** Later frames never change outputs already made. */
  lemma OutputsExtend(s: seq<Frame>, t: seq<Frame>, step: real)
    requires step > 0.0
    ensures Count(|s|, step) <= Count(|s + t|, step)
    ensures Outputs(s + t, step)[..Count(|s|, step)] == Outputs(s, step)
  {
    hide Count, Blend;
    CountMonotone(|s|, |s + t|, step);
    forall j | 0 <= j < Count(|s|, step) ensures OutputFor(s + t, step, j) == OutputFor(s, step, j) {
      CountExact(|s|, step, j);
      CountExact(|s + t|, step, j);
      PositionInside(|s|, step, j);
    }
  }

  /** What one packet appends after the stream s. */
  ghost function Appended(s: seq<Frame>, packet: seq<Frame>, step: real): seq<(i16, i16)>
    requires step > 0.0
  {
    CountMonotone(|s|, |s + packet|, step);
    Outputs(s + packet, step)[Count(|s|, step)..]
  }

  ghost function Stream(packets: seq<seq<Frame>>): seq<Frame> {
    if |packets| == 0 then [] else Stream(packets[..|packets| - 1]) + packets[|packets| - 1]
  }

  ghost function RunPackets(packets: seq<seq<Frame>>, step: real): seq<(i16, i16)>
    requires step > 0.0
  {
    if |packets| == 0 then []
    else
      var before := packets[..|packets| - 1];
      RunPackets(before, step) + Appended(Stream(before), packets[|packets| - 1], step)
  }

  /** However a stream is cut into packets, the output is that of the stream pushed whole. */
  lemma {:induction false} BoundaryFree(packets: seq<seq<Frame>>, step: real)
    requires step > 0.0
    ensures RunPackets(packets, step) == Outputs(Stream(packets), step)
  {
    hide Count, Outputs;
    if |packets| == 0 {
      Silent(step);
    } else {
      var before := packets[..|packets| - 1];
      BoundaryFree(before, step);
      OutputsExtend(Stream(before), packets[|packets| - 1], step);
    }
  }

  lemma Silent(step: real)
    requires step > 0.0
    ensures Outputs([], step) == []
  {
  }

  // ---------- What the output is ----------

  /** At 48 kHz the output is the input, quantised, one frame behind. */
  lemma CopyAtOutputRate(s: seq<Frame>)
    ensures |Outputs(s, 1.0)| == if |s| == 0 then 0 else |s| - 1
    ensures forall j :: 0 <= j < |Outputs(s, 1.0)| ==> Outputs(s, 1.0)[j] == (Quantised(s[j].0), Quantised(s[j].1))
  {
    hide Quantised;
    forall j | 0 <= j < Count(|s|, 1.0)
      ensures j < |s| && OutputFor(s, 1.0, j) == (Quantised(s[j].0), Quantised(s[j].1))
    {
      hide Count;
      CountExact(|s|, 1.0, j);
      assert Position(1.0, j) == j as real;
    }
    if |s| > 1 {
      var c := Count(|s|, 1.0);
      CountExact(|s|, 1.0, c);
      if c > 0 {
        CountExact(|s|, 1.0, c - 1);
      }
    }
  }

  lemma QuantisedMonotone(a: real, b: real)
    requires a <= b
    ensures Quantised(a) <= Quantised(b)
  {
    var x, y := Clamp(a), Clamp(b);
    assert x <= y;
    var v, w := x * FULL_SCALE, y * FULL_SCALE;
    assert v <= w;
  }

  lemma ScaleOrdered(d: real, f: real, g: real)
    requires d >= 0.0 && f <= g
    ensures d * f <= d * g
  {
    if d > 0.0 {
      ScaleUp(f, g, d);
    }
  }

  lemma LerpBetween(a: real, b: real, f: real)
    requires a <= b && 0.0 <= f <= 1.0
    ensures a <= Lerp(a, b, f) <= b
  {
    ScaleOrdered(b - a, 0.0, f);
    ScaleOrdered(b - a, f, 1.0);
  }

  lemma LerpMonotone(a: real, b: real, f: real, g: real)
    requires a <= b && 0.0 <= f <= g
    ensures Lerp(a, b, f) <= Lerp(a, b, g)
  {
    ScaleOrdered(b - a, f, g);
  }

  ghost predicate Rising(s: seq<Frame>) {
    forall i, j :: 0 <= i <= j < |s| ==> s[i].0 <= s[j].0 && s[i].1 <= s[j].1
  }

  /** Interpolating a rising channel at two positions in order. */
  lemma LerpRises(a: real, b: real, c: real, d: real, f: real, g: real, same: bool)
    requires a <= b && c <= d && 0.0 <= f <= 1.0 && 0.0 <= g <= 1.0
    requires if same then a == c && b == d && f <= g else b <= c
    ensures Quantised(Lerp(a, b, f)) <= Quantised(Lerp(c, d, g))
  {
    if same {
      LerpMonotone(a, b, f, g);
    } else {
      LerpBetween(a, b, f);
      LerpBetween(c, d, g);
    }
    QuantisedMonotone(Lerp(a, b, f), Lerp(c, d, g));
  }

  /** Rising input gives rising output at any rate. */
  lemma RisingStaysRising(s: seq<Frame>, step: real, j: nat, k: nat)
    requires step > 0.0 && Rising(s) && j <= k < Count(|s|, step)
    ensures OutputFor(s, step, j).0 <= OutputFor(s, step, k).0
    ensures OutputFor(s, step, j).1 <= OutputFor(s, step, k).1
  {
    hide Quantised, Lerp, Count, Position;
    CountExact(|s|, step, j);
    CountExact(|s|, step, k);
    PositionInside(|s|, step, j);
    PositionInside(|s|, step, k);
    PositionGrows(step, j, k);
    var x, y := Position(step, j), Position(step, k);
    var p, q := x.Floor, y.Floor;
    assert p <= q;
    var f, g := x - p as real, y - q as real;
    LerpRises(s[p].0, s[p + 1].0, s[q].0, s[q + 1].0, f, g, p == q);
    LerpRises(s[p].1, s[p + 1].1, s[q].1, s[q + 1].1, f, g, p == q);
  }

  /** The sample stands for the level: the whole part of its share of full scale, with its sign, and the end of the
      scale from there on. */
  ghost predicate StandsFor(sample: i16, level: real) {
    && (level >= 1.0 ==> sample == 32767)
    && (level <= -1.0 ==> sample == -32767)
    && (0.0 <= level <= 1.0 ==> sample as real <= level * 32767.0 < sample as real + 1.0)
    && (-1.0 <= level <= 0.0 ==> sample as real - 1.0 < level * 32767.0 <= sample as real)
  }

  lemma QuantisedStandsFor(s: real)
    ensures StandsFor(Quantised(s), s)
  {
    var v := Clamp(s) * FULL_SCALE;
    if s < 0.0 {
      assert v < 0.0;
    } else {
      assert v >= 0.0;
    }
  }

  function LineAt(start: real, slope: real, x: real): real {
    start + slope * x
  }

  function PointAt(start: Frame, slope: Frame, x: real): Frame {
    (LineAt(start.0, slope.0, x), LineAt(start.1, slope.1, x))
  }

  /** Frame i of the stream lies on the line, channel by channel. */
  ghost predicate OnLine(s: seq<Frame>, i: int, start: Frame, slope: Frame) {
    0 <= i < |s| && s[i] == PointAt(start, slope, i as real)
  }

  ghost predicate PairStandsFor(pair: (i16, i16), level: Frame) {
    StandsFor(pair.0, level.0) && StandsFor(pair.1, level.1)
  }

  lemma OnTheLine(start: real, slope: real, i: real, x: real)
    ensures Lerp(LineAt(start, slope, i), LineAt(start, slope, i + 1.0), x - i) == LineAt(start, slope, x)
  {
    var f := x - i;
    Spread(slope, i, 1.0);
    Spread(slope, i, f);
    assert i + f == x;
  }

  lemma Spread(slope: real, a: real, b: real)
    ensures slope * (a + b) == slope * a + slope * b
  {
  }

  lemma BlendOnLine(start: Frame, slope: Frame, i: real, x: real)
    ensures PairStandsFor(
      Blend(PointAt(start, slope, i), PointAt(start, slope, i + 1.0), x - i), PointAt(start, slope, x))
  {
    hide Quantised, Lerp, StandsFor, LineAt;
    OnTheLine(start.0, slope.0, i, x);
    OnTheLine(start.1, slope.1, i, x);
    QuantisedStandsFor(LineAt(start.0, slope.0, x));
    QuantisedStandsFor(LineAt(start.1, slope.1, x));
  }

  /** Where the two frames around an output's position lie on a line, the output stands for the line at that very
      position, at any rate and however far between the frames. */
  lemma LineFollowed(s: seq<Frame>, step: real, j: nat, start: Frame, slope: Frame)
    requires step > 0.0 && j < Count(|s|, step)
    requires var i := Position(step, j).Floor; OnLine(s, i, start, slope) && OnLine(s, i + 1, start, slope)
    ensures PairStandsFor(OutputFor(s, step, j), PointAt(start, slope, Position(step, j)))
  {
    hide Blend, Count, Position, PairStandsFor, PointAt;
    CountExact(|s|, step, j);
    var x := Position(step, j);
    var i := x.Floor;
    assert (i + 1) as real == i as real + 1.0;
    BlendOnLine(start, slope, i as real, x);
  }

  /** A straight ramp comes out as the ramp sampled at the output positions. */
  lemma RampStaysRamp(s: seq<Frame>, step: real, start: Frame, slope: Frame)
    requires step > 0.0 && forall i :: 0 <= i < |s| ==> OnLine(s, i, start, slope)
    ensures forall j :: 0 <= j < |Outputs(s, step)| ==>
      PairStandsFor(Outputs(s, step)[j], PointAt(start, slope, Position(step, j)))
  {
    hide OutputFor, Count, Position, PairStandsFor, OnLine;
    forall j | 0 <= j < |Outputs(s, step)|
      ensures PairStandsFor(Outputs(s, step)[j], PointAt(start, slope, Position(step, j))) {
      CountExact(|s|, step, j);
      PositionInside(|s|, step, j);
      LineFollowed(s, step, j, start, slope);
    }
  }
}
