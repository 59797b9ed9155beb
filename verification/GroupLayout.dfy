/** Which data and parity shards form one erasure-coding group
    (crates/protocol/src/fec.rs, `group_layout`). */
module GroupLayout {
  import opened Arithmetic

  const MAX_GROUP_DATA: nat := 32

  datatype FecGroup = FecGroup(dataStart: nat, dataLen: nat, parityStart: nat, parityLen: nat)

  function GroupCount(k: nat): (n: nat)
    ensures n >= 1
  {
    Max(DivCeil(k, MAX_GROUP_DATA), 1)
  }

  /** Start of part g when n items are split evenly into the given number of parts, larger parts first. */
  function PartStart(n: nat, parts: nat, g: nat): nat
    requires parts >= 1
  {
    g * (n / parts) + if g < n % parts then g else n % parts
  }

  function PartLen(n: nat, parts: nat, g: nat): nat
    requires parts >= 1
  {
    n / parts + if g < n % parts then 1 else 0
  }

  function GroupAt(k: nat, m: nat, g: nat): FecGroup {
    var groups := GroupCount(k);
    FecGroup(PartStart(k, groups, g), PartLen(k, groups, g), k + PartStart(m, groups, g), PartLen(m, groups, g))
  }

  /** The iterator that advances both starting points group by group. */
  method Layout(k: nat, m: nat) returns (layout: seq<FecGroup>)
    ensures |layout| == GroupCount(k)
    ensures k > 0 ==> MAX_GROUP_DATA * (|layout| - 1) < k <= MAX_GROUP_DATA * |layout|
    ensures forall g :: 0 <= g < |layout| ==> layout[g] == GroupAt(k, m, g)
  {
    hide PartStart, GroupCount;
    if k > 0 {
      FewestGroups(k, GroupCount(k));
    }
    var groups := GroupCount(k);
    var dataBase, dataRem := k / groups, k % groups;
    var parityBase, parityRem := m / groups, m % groups;
    var dataStart, parityStart := 0, k;
    PartStartZero(k, groups);
    PartStartZero(m, groups);
    layout := [];
    for g := 0 to groups
      invariant |layout| == g
      invariant dataStart == PartStart(k, groups, g)
      invariant parityStart == k + PartStart(m, groups, g)
      invariant forall i :: 0 <= i < g ==> layout[i] == GroupAt(k, m, i)
    {
      PartStartNext(k, groups, g);
      PartStartNext(m, groups, g);
      var group := FecGroup(dataStart, dataBase + if g < dataRem then 1 else 0,
                            parityStart, parityBase + if g < parityRem then 1 else 0);
      layout := layout + [group];
      dataStart := dataStart + group.dataLen;
      parityStart := parityStart + group.parityLen;
    }
  }

  // ---------- Even splits tile ----------

  lemma PartStartZero(n: nat, parts: nat)
    requires parts >= 1
    ensures PartStart(n, parts, 0) == 0
  {
  }

  /** Parts are contiguous. */
  lemma PartStartNext(n: nat, parts: nat, g: nat)
    requires parts >= 1
    ensures PartStart(n, parts, g + 1) == PartStart(n, parts, g) + PartLen(n, parts, g)
  {
    var base := n / parts;
    assert (g + 1) * base == g * base + base;
  }

  /** The parts end at n. */
  lemma PartStartEnd(n: nat, parts: nat)
    requires parts >= 1
    ensures PartStart(n, parts, parts) == n
  {
    assert n == parts * (n / parts) + n % parts;
  }

  lemma {:induction false} PartStartMonotone(n: nat, parts: nat, g: nat, h: nat)
    requires parts >= 1 && g <= h
    ensures PartStart(n, parts, g) <= PartStart(n, parts, h)
    decreases h - g
  {
    hide PartStart, PartLen;
    if g < h {
      PartStartNext(n, parts, h - 1);
      PartStartMonotone(n, parts, g, h - 1);
    }
  }

  /** A part lies inside 0..n. */
  lemma PartInRange(n: nat, parts: nat, g: nat)
    requires parts >= 1 && g < parts
    ensures PartStart(n, parts, g) + PartLen(n, parts, g) <= n
  {
    hide PartStart, PartLen;
    PartStartNext(n, parts, g);
    PartStartMonotone(n, parts, g + 1, parts);
    PartStartEnd(n, parts);
  }

  /** Every index belongs to a part. */
  lemma {:induction false} PartOf(n: nat, parts: nat, i: nat, upto: nat) returns (g: nat)
    requires parts >= 1 && upto <= parts && i < PartStart(n, parts, upto)
    ensures g < upto && PartStart(n, parts, g) <= i < PartStart(n, parts, g) + PartLen(n, parts, g)
    decreases upto
  {
    hide PartStart, PartLen;
    PartStartZero(n, parts);
    PartStartNext(n, parts, upto - 1);
    if i >= PartStart(n, parts, upto - 1) {
      g := upto - 1;
    } else {
      g := PartOf(n, parts, i, upto - 1);
    }
  }

  // ---------- The layout's promises ----------

  /** The groups tile the data shards 0..k and the parity shards k..k+m contiguously. */
  lemma LayoutTiles(k: nat, m: nat, g: nat)
    requires g < GroupCount(k)
    ensures GroupAt(k, m, 0).dataStart == 0 && GroupAt(k, m, 0).parityStart == k
    ensures GroupAt(k, m, g + 1).dataStart == GroupAt(k, m, g).dataStart + GroupAt(k, m, g).dataLen
    ensures GroupAt(k, m, g + 1).parityStart == GroupAt(k, m, g).parityStart + GroupAt(k, m, g).parityLen
    ensures GroupAt(k, m, GroupCount(k)).dataStart == k && GroupAt(k, m, GroupCount(k)).parityStart == k + m
    ensures GroupAt(k, m, g).dataStart + GroupAt(k, m, g).dataLen <= k
    ensures k <= GroupAt(k, m, g).parityStart
    ensures GroupAt(k, m, g).parityStart + GroupAt(k, m, g).parityLen <= k + m
  {
    hide PartStart, PartLen, GroupCount;
    var groups := GroupCount(k);
    PartStartZero(k, groups);
    PartStartZero(m, groups);
    PartStartNext(k, groups, g);
    PartStartNext(m, groups, g);
    PartStartEnd(k, groups);
    PartStartEnd(m, groups);
    PartInRange(k, groups, g);
    PartInRange(m, groups, g);
  }

  /** The split is even, larger groups first. */
  lemma LayoutEven(k: nat, m: nat, g: nat, h: nat)
    requires g <= h < GroupCount(k)
    ensures 0 <= GroupAt(k, m, g).dataLen - GroupAt(k, m, h).dataLen <= 1
    ensures 0 <= GroupAt(k, m, g).parityLen - GroupAt(k, m, h).parityLen <= 1
  {
  }

  lemma GroupCountBounds(k: nat)
    requires k >= 1
    ensures GroupCount(k) <= k <= MAX_GROUP_DATA * GroupCount(k)
    ensures k <= MAX_GROUP_DATA <==> GroupCount(k) == 1
  {
  }

  /** The groups are as few as groups of at most MAX_GROUP_DATA data shards can be. */
  lemma FewestGroups(k: nat, n: nat)
    requires k >= 1
    ensures MAX_GROUP_DATA * (GroupCount(k) - 1) < k <= MAX_GROUP_DATA * GroupCount(k)
    ensures n < GroupCount(k) <==> MAX_GROUP_DATA * n < k
  {
  }

  /** Every group has 1 to MAX_GROUP_DATA data shards. */
  lemma GroupDataBounds(k: nat, m: nat, g: nat)
    requires k >= 1 && g < GroupCount(k)
    ensures 1 <= GroupAt(k, m, g).dataLen <= MAX_GROUP_DATA
  {
    hide GroupCount;
    GroupCountBounds(k);
    SplitBounds(k, GroupCount(k), MAX_GROUP_DATA);
  }

  lemma SplitBounds(n: nat, parts: nat, cap: nat)
    requires 1 <= parts <= n <= cap * parts
    ensures 1 <= n / parts
    ensures n / parts + (if n % parts > 0 then 1 else 0) <= cap
  {
    var q, r := n / parts, n % parts;
    assert n == parts * q + r;
    if q >= cap {
      MulMonotone(parts, parts, cap, q);
    }
  }

  /** A small frame is one group spanning it whole. */
  lemma SmallFrameIsOneGroup(k: nat, m: nat)
    requires 1 <= k <= MAX_GROUP_DATA
    ensures GroupCount(k) == 1 && GroupAt(k, m, 0) == FecGroup(0, k, k, m)
  {
  }

  /** Parity shards per group when there are several groups. */
  lemma ParityPerGroup(k: nat, m: nat, g: nat)
    requires k > MAX_GROUP_DATA && m <= 255 && g < GroupCount(k)
    ensures GroupAt(k, m, g).parityLen <= 128
  {
    var groups := GroupCount(k);
    var q := m / groups;
    assert m == groups * q + m % groups;
    if q >= 128 {
      MulMonotone(groups, groups, 128, q);
    }
  }
}
