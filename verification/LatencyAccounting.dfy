/** Clock-offset estimation, frame latency and received goodput
    (crates/client-core/src/stats.rs, `ClockSync`, `LatencyStats::on_frame_complete`; crates/core/src/time.rs). */
module LatencyAccounting {
  import opened Wrappers
  import opened Arithmetic
  import opened Datagram

  const LATENCY_LIMIT_US: nat := 10_000_000
  const BITRATE_WINDOW_US: nat := 1_000_000

  function WireTs(us: nat): u32 {
    us % U32_RANGE
  }

  /** Wrapping difference of two wire timestamps. */
  function WireDelta(later: u32, earlier: u32): u32 {
    (later + U32_RANGE - earlier) % U32_RANGE
  }

  // ---------- Offset ----------

  /** A ping: client send and receive times, and the agent's stamp. */
  datatype Ping = Ping(sent: nat, received: nat, agent: nat)

  function Rtt(p: Ping): nat {
    Elapsed(p.received, p.sent)
  }

  function OffsetOf(p: Ping): int {
    p.agent - (p.sent + Rtt(p) / 2)
  }

  function Better(best: Option<(nat, int)>, p: Ping): Option<(nat, int)> {
    if best.None? || Rtt(p) < best.value.0 then Some((Rtt(p), OffsetOf(p))) else best
  }

  function Latency(best: Option<(nat, int)>, clientNow: nat, capture: u32): Option<u32> {
    if best.None? || clientNow + best.value.1 < 0 then None
    else
      var latency := WireDelta(WireTs(clientNow + best.value.1), capture);
      if latency < LATENCY_LIMIT_US then Some(latency) else None
  }

  class ClockSync {
    var best: Option<(nat, int)>

    constructor ()
      ensures best == None
    {
      best := None;
    }

    method Record(sentUs: nat, receivedUs: nat, agentTsUs: nat)
      modifies this
      ensures best == Better(old(best), Ping(sentUs, receivedUs, agentTsUs))
    {
      var rtt := Elapsed(receivedUs, sentUs);
      var midpoint := sentUs + rtt / 2;
      var offset := agentTsUs - midpoint;
      if best.None? || rtt < best.value.0 {
        best := Some((rtt, offset));
      }
    }

    function OffsetUs(): (o: Option<int>)
      reads this
    {
      if best.None? then None else Some(best.value.1)
    }

    method FrameLatencyUs(clientNowUs: nat, captureTsWire: u32) returns (latency: Option<u32>)
      ensures latency == Latency(best, clientNowUs, captureTsWire)
    {
      var offset := OffsetUs();
      if offset.None? {
        return None;
      }
      var agentNow := clientNowUs + offset.value;
      if agentNow < 0 {
        return None;
      }
      var delta := WireDelta(WireTs(agentNow), captureTsWire);
      latency := if delta < LATENCY_LIMIT_US then Some(delta) else None;
    }
  }

  ghost function RunSync(pings: seq<Ping>): Option<(nat, int)> {
    if |pings| == 0 then None else Better(RunSync(pings[..|pings| - 1]), pings[|pings| - 1])
  }

  /** The agent's clock is ahead by the true offset, and it stamped between send and receive. */
  ghost predicate Honest(p: Ping, trueOffset: int) {
    p.sent <= p.agent - trueOffset <= p.received
  }

  /** The kept sample: the first of those with the least round trip. */
  ghost predicate KeptIs(pings: seq<Ping>, k: nat) {
    && k < |pings|
    && (forall i :: 0 <= i < |pings| ==> Rtt(pings[k]) <= Rtt(pings[i]))
    && (forall i :: 0 <= i < k ==> Rtt(pings[k]) < Rtt(pings[i]))
  }

  lemma {:induction false} RunKeepsLeast(pings: seq<Ping>) returns (k: nat)
    requires |pings| > 0
    ensures KeptIs(pings, k) && RunSync(pings) == Some((Rtt(pings[k]), OffsetOf(pings[k])))
  {
    hide Rtt, OffsetOf;
    var n := |pings| - 1;
    if n == 0 {
      k := 0;
    } else {
      k := RunKeepsLeast(pings[..n]);
      if Rtt(pings[n]) < Rtt(pings[k]) {
        k := n;
      }
    }
  }

  /** The midpoint is off by at most half the round trip, rounded up. */
  lemma MidpointError(p: Ping, trueOffset: int)
    requires Honest(p, trueOffset)
    ensures -(Rtt(p) / 2) <= OffsetOf(p) - trueOffset <= (Rtt(p) + 1) / 2
  {
  }

  /** The kept offset is within half the least round trip of the true one. */
  lemma OffsetBound(pings: seq<Ping>, trueOffset: int)
    requires |pings| > 0 && forall i :: 0 <= i < |pings| ==> Honest(pings[i], trueOffset)
    ensures RunSync(pings).Some?
    ensures forall i :: 0 <= i < |pings| ==> var error := RunSync(pings).value.1 - trueOffset;
      -(Rtt(pings[i]) / 2) <= error <= (Rtt(pings[i]) + 1) / 2
  {
    var k := RunKeepsLeast(pings);
    MidpointError(pings[k], trueOffset);
  }

  /** Wrapping difference of truncated times, however far apart. */
  lemma DeltaIs(now: nat, captured: nat)
    ensures WireDelta(WireTs(now), WireTs(captured)) == (now - captured) % U32_RANGE
  {
    var p, q := now / U32_RANGE, captured / U32_RANGE;
    assert now == U32_RANGE * p + now % U32_RANGE && captured == U32_RANGE * q + captured % U32_RANGE;
    var d := now % U32_RANGE - captured % U32_RANGE;
    assert now - captured == d + U32_RANGE * (p - q);
    ModAdds(d, p - q);
    ModAdds(d, 1);
  }

  lemma ModAdds(d: int, n: int)
    ensures (d + U32_RANGE * n) % U32_RANGE == d % U32_RANGE
  {
    var r, k := d % U32_RANGE, d / U32_RANGE;
    assert d + U32_RANGE * n == U32_RANGE * (k + n) + r;
  }

  /** For any clocks and any capture time: a latency is reported exactly when the estimated agent time is not before
      zero and its distance past the capture, modulo 2^32, is below 10 s; it is the true latency plus the offset's
      error exactly when that sum itself lies in 0 to 10 s. */
  lemma LatencyExactlyWhen(pings: seq<Ping>, trueOffset: int, clientNow: nat, captured: nat)
    requires RunSync(pings).Some?
    ensures var latency := Latency(RunSync(pings), clientNow, WireTs(captured));
      var error := RunSync(pings).value.1 - trueOffset;
      var truth := clientNow + trueOffset - captured;
      && (latency.Some? <==> truth + error + captured >= 0 && (truth + error) % U32_RANGE < LATENCY_LIMIT_US)
      && (latency.Some? ==> latency.value == (truth + error) % U32_RANGE)
      && (latency.Some? && latency.value == truth + error <==> 0 <= truth + error < LATENCY_LIMIT_US)
  {
    hide RunSync;
    var now := clientNow + RunSync(pings).value.1;
    if now >= 0 {
      DeltaIs(now, captured);
    }
  }

  /** A latency reported for a capture within one wrap is the true latency to within half of every round trip seen. */
  lemma LatencyBound(pings: seq<Ping>, trueOffset: int, clientNow: nat, captured: nat, i: nat)
    requires i < |pings| && forall i :: 0 <= i < |pings| ==> Honest(pings[i], trueOffset)
    requires RunSync(pings).Some?
    requires var shown := clientNow + RunSync(pings).value.1 - captured;
      LATENCY_LIMIT_US - U32_RANGE <= shown < U32_RANGE
    ensures var latency := Latency(RunSync(pings), clientNow, WireTs(captured));
      latency.Some? ==>
        -(Rtt(pings[i]) / 2) <= latency.value - (clientNow + trueOffset - captured) <= (Rtt(pings[i]) + 1) / 2
  {
    hide RunSync, Latency, Rtt, Honest;
    OffsetBound(pings, trueOffset);
    LatencyExactlyWhen(pings, trueOffset, clientNow, captured);
  }

  // ---------- Received goodput ----------

  datatype Completion = Completion(at: nat, bytes: nat)

  function TotalBytes(w: seq<Completion>): nat {
    if |w| == 0 then 0 else TotalBytes(w[..|w| - 1]) + w[|w| - 1].bytes
  }

  /** Completions at the front that are out of the window. */
  function StaleCount(w: seq<Completion>, now: nat): (n: nat)
    ensures n <= |w|
  {
    if |w| == 0 || Elapsed(now, w[0].at) <= BITRATE_WINDOW_US then 0 else 1 + StaleCount(w[1..], now)
  }

  function WindowAfter(w: seq<Completion>, c: Completion): seq<Completion> {
    var more := w + [c];
    more[StaleCount(more, c.at)..]
  }

  class LatencyStats {
    var framesComplete: nat
    var recvWindow: seq<Completion>
    var recvBytes: nat

    ghost predicate Valid()
      reads this
    {
      recvBytes == TotalBytes(recvWindow)
    }

    constructor ()
      ensures Valid() && framesComplete == 0 && recvWindow == []
    {
      framesComplete, recvWindow, recvBytes := 0, [], 0;
    }

    method OnFrameComplete(bytes: nat, nowUs: nat)
      requires Valid()
      modifies this
      ensures Valid()
      ensures framesComplete == old(framesComplete) + 1
      ensures recvWindow == WindowAfter(old(recvWindow), Completion(nowUs, bytes))
    {
      framesComplete := framesComplete + 1;
      ghost var more := recvWindow + [Completion(nowUs, bytes)];
      assert more[..|more| - 1] == recvWindow;
      recvWindow := recvWindow + [Completion(nowUs, bytes)];
      recvBytes := recvBytes + bytes;
      while |recvWindow| > 0 && Elapsed(nowUs, recvWindow[0].at) > BITRATE_WINDOW_US
        invariant Valid()
        invariant framesComplete == old(framesComplete) + 1
        invariant |recvWindow| <= |more| && recvWindow == more[|more| - |recvWindow|..]
        invariant |more| - |recvWindow| + StaleCount(recvWindow, nowUs) == StaleCount(more, nowUs)
        decreases |recvWindow|
      {
        var front := recvWindow[0];
        TotalFront(recvWindow);
        recvBytes := recvBytes - front.bytes;
        recvWindow := recvWindow[1..];
      }
    }
  }

  lemma {:induction false} TotalFront(w: seq<Completion>)
    requires |w| > 0
    ensures TotalBytes(w) == w[0].bytes + TotalBytes(w[1..])
  {
    if |w| > 1 {
      TotalFront(w[..|w| - 1]);
      assert w[1..][..|w| - 2] == w[..|w| - 1][1..];
    }
  }

  /** The total is that of the parts, whatever the cut. */
  lemma {:induction false} TotalSplits(v: seq<Completion>, c: Completion, w: seq<Completion>)
    ensures TotalBytes(v + [c] + w) == TotalBytes(v) + c.bytes + TotalBytes(w)
    ensures TotalBytes([]) == 0
  {
    var all := v + [c] + w;
    if |w| == 0 {
      assert all[..|all| - 1] == v;
    } else {
      TotalSplits(v, c, w[..|w| - 1]);
      assert all[..|all| - 1] == v + [c] + w[..|w| - 1];
    }
  }

  ghost function RunWindow(all: seq<Completion>): seq<Completion> {
    if |all| == 0 then [] else WindowAfter(RunWindow(all[..|all| - 1]), all[|all| - 1])
  }

  ghost predicate InOrder(all: seq<Completion>) {
    forall i, j :: 0 <= i < j < |all| ==> all[i].at <= all[j].at
  }

  /** The completions of the last second, out of all. */
  ghost predicate LastSecond(w: seq<Completion>, all: seq<Completion>) {
    && |w| <= |all| && w == all[|all| - |w|..]
    && (forall i :: 0 <= i < |all| ==>
          (i >= |all| - |w| <==> Elapsed(all[|all| - 1].at, all[i].at) <= BITRATE_WINDOW_US))
  }

  lemma {:induction false} StaleExact(w: seq<Completion>, now: nat)
    ensures var n := StaleCount(w, now);
      && (forall i :: 0 <= i < n ==> Elapsed(now, w[i].at) > BITRATE_WINDOW_US)
      && (n < |w| ==> Elapsed(now, w[n].at) <= BITRATE_WINDOW_US)
  {
    if |w| > 0 && Elapsed(now, w[0].at) > BITRATE_WINDOW_US {
      StaleExact(w[1..], now);
    }
  }

  /** With a monotone clock the window holds exactly the completions of the last second. */
  lemma {:induction false} WindowIsLastSecond(all: seq<Completion>)
    requires InOrder(all)
    ensures LastSecond(RunWindow(all), all)
  {
    if |all| > 0 {
      var n := |all| - 1;
      WindowIsLastSecond(all[..n]);
      WindowStep(RunWindow(all[..n]), all);
    }
  }

  lemma ElapsedOrdered(a: nat, b: nat, at: nat, later: nat)
    requires a <= b && at <= later
    ensures Elapsed(a, at) <= Elapsed(b, at)
    ensures Elapsed(b, later) <= Elapsed(b, at)
  {
  }

  lemma WindowStep(w: seq<Completion>, all: seq<Completion>)
    requires |all| > 0 && InOrder(all) && LastSecond(w, all[..|all| - 1])
    ensures LastSecond(WindowAfter(w, all[|all| - 1]), all)
  {
    hide StaleCount, Elapsed;
    var n := |all| - 1;
    var now := all[n].at;
    var more := w + [all[n]];
    var from := n - |w|;
    assert more == all[from..];
    StaleExact(more, now);
    Fresh(now);
    var k := StaleCount(more, now);
    assert more[k..] == all[from + k..];
    forall i | 0 <= i < |all| ensures i >= from + k <==> Elapsed(now, all[i].at) <= BITRATE_WINDOW_US {
      if i < from {
        assert all[..n][i] == all[i] && all[..n][n - 1] == all[n - 1];
        ElapsedOrdered(all[n - 1].at, now, all[i].at, all[i].at);
      } else if i < from + k {
        assert more[i - from] == all[i];
      } else {
        assert more[k] == all[from + k];
        ElapsedOrdered(now, now, all[from + k].at, all[i].at);
      }
    }
  }

  lemma Fresh(now: nat)
    ensures Elapsed(now, now) <= BITRATE_WINDOW_US
  {
  }
}
