/** Which reassembled frames reach the decoder, and when a healing frame is requested
    (crates/client-core/src/lib.rs, `gate`, `recv_frame`, `request_keyframe_throttled`, the stored recovery point). */
module DecoderGate {
  import opened Wrappers
  import opened Arithmetic
  import opened ByteStrings
  import opened Datagram
  import opened ReassemblyModel
  import opened ReassemblyBounds
  import opened ReassemblyOrder

  const MIN_INTERVAL_US: nat := 250_000

  datatype Request = RequestRecovery(lastGood: u32) | RequestKeyframe

  /** recoveryPoint: the first safe id announced, plus one; 0 when none was. */
  datatype GateState = GateState(
    awaitingIdr: bool,
    decodeError: bool,
    recoveryPoint: nat,
    lastFrameId: Option<u32>,
    lastDeliveredId: Option<u32>,
    lastRequestUs: nat,
    requests: seq<(nat, Request)>)

  /** What happens at the gate: a released frame arrives, with the clock at its two possible requests; the agent
      announces a recovery point; the embedder reports a decode error through the shared flag; or the in-process
      decoder rejects a delivered frame. */
  datatype Event =
    | Arrives(frame: CompletedFrame, nowFirst: nat, nowSecond: nat)
    | Announces(firstSafe: u32)
    | Reports
    | Rejects(now: nat)

  function GateStart(): GateState {
    GateState(true, false, 0, None, None, 0, [])
  }

  function Requested(s: GateState, now: nat): GateState {
    if Elapsed(now, s.lastRequestUs) < MIN_INTERVAL_US then s
    else
      var msg := if s.lastDeliveredId.Some? then RequestRecovery(s.lastDeliveredId.value) else RequestKeyframe;
      s.(lastRequestUs := now, requests := s.requests + [(now, msg)])
  }

  /** The frame is at or after the announced first safe frame. */
  predicate AtRecoveryPoint(recoveryPoint: nat, id: u32) {
    recoveryPoint > 0 && Age((recoveryPoint - 1) % U32_RANGE, id) < HALF_RANGE
  }

  /** In frame numbers less than half the id space apart: the point covers the first safe frame and those after it. */
  lemma CoversFromFirstSafe(firstSafe: nat, frame: nat)
    requires frame < firstSafe + HALF_RANGE && firstSafe <= frame + HALF_RANGE
    ensures AtRecoveryPoint(firstSafe % U32_RANGE + 1, frame % U32_RANGE) <==> frame >= firstSafe
  {
    var p, q := firstSafe / U32_RANGE, frame / U32_RANGE;
    assert firstSafe == U32_RANGE * p + firstSafe % U32_RANGE && frame == U32_RANGE * q + frame % U32_RANGE;
    AgeBelow(firstSafe % U32_RANGE, frame % U32_RANGE);
  }

  /** The chain broke: hold the picture and ask for help. */
  function Frozen(s: GateState, now: nat): GateState {
    Requested(s.(awaitingIdr := true), now)
  }

  /** The frame does not directly follow the last one, though it is newer. */
  predicate Gap(s: GateState, id: u32) {
    s.lastFrameId.Some? && 1 < Age(s.lastFrameId.value, id) <= HALF_RANGE
  }

  /** State before the frozen check: error flag taken, keyframe and gap handled. */
  function Examined(s: GateState, e: Event): GateState
    requires e.Arrives?
  {
    var taken := s.(decodeError := false);
    var afterError := if s.decodeError && !s.awaitingIdr then Frozen(taken, e.nowFirst) else taken;
    var afterIdr := if e.frame.kind == Idr then afterError.(awaitingIdr := false) else afterError;
    if Gap(afterIdr, e.frame.frameId) && e.frame.kind != Idr && !afterIdr.awaitingIdr
    then Frozen(afterIdr, e.nowFirst) else afterIdr
  }

  /** One event: the new state and whether a frame is handed to the decoder. */
  function Gated(s: GateState, e: Event): (GateState, bool) {
    match e
    case Announces(firstSafe) => (s.(recoveryPoint := firstSafe + 1), false)
    case Reports => (s.(decodeError := true), false)
    case Rejects(now) => (Frozen(s, now), false)
    case Arrives(f, _, nowSecond) =>
      var x := Examined(s, e);
      if x.awaitingIdr && f.kind != Idr && !AtRecoveryPoint(x.recoveryPoint, f.frameId) then
        (Requested(x.(lastFrameId := Some(f.frameId)), nowSecond), false)
      else
        (x.(awaitingIdr := false, lastFrameId := Some(f.frameId), lastDeliveredId := Some(f.frameId)), true)
  }

  // ---------- The client's gate ----------

  class Gate {
    var awaitingIdr: bool
    var decodeError: bool
    var recoveryPoint: nat
    var lastFrameId: Option<u32>
    var lastDeliveredId: Option<u32>
    var lastKeyframeRequestUs: nat
    /** Messages handed to the control channel, with their send times. */
    var requests: seq<(nat, Request)>

    ghost function Abstract(): GateState
      reads this
    {
      GateState(awaitingIdr, decodeError, recoveryPoint, lastFrameId, lastDeliveredId, lastKeyframeRequestUs, requests)
    }

    constructor ()
      ensures Abstract() == GateStart()
    {
      awaitingIdr, decodeError, recoveryPoint := true, false, 0;
      lastFrameId, lastDeliveredId, lastKeyframeRequestUs, requests := None, None, 0, [];
    }

    method RequestKeyframeThrottled(now: nat)
      modifies this`lastKeyframeRequestUs, this`requests
      ensures Abstract() == Requested(old(Abstract()), now)
    {
      if Elapsed(now, lastKeyframeRequestUs) < MIN_INTERVAL_US {
        return;
      }
      lastKeyframeRequestUs := now;
      var msg := if lastDeliveredId.Some? then RequestRecovery(lastDeliveredId.value) else RequestKeyframe;
      requests := requests + [(now, msg)];
    }

    /** The control reader stores the point the agent announced. */
    method Announce(firstSafe: u32)
      modifies this`recoveryPoint
      ensures (Abstract(), false) == Gated(old(Abstract()), Announces(firstSafe))
    {
      recoveryPoint := firstSafe + 1;
    }

    /** The embedder's decoder failed. */
    method ReportDecodeError()
      modifies this`decodeError
      ensures (Abstract(), false) == Gated(old(Abstract()), Reports)
    {
      decodeError := true;
    }

    /** The breaks one frame can reveal: a reported error, a gap. */
    method Examine(f: CompletedFrame, nowFirst: nat, nowSecond: nat)
      modifies this
      ensures Abstract() == Examined(old(Abstract()), Arrives(f, nowFirst, nowSecond))
    {
      hide Requested, Age;
      var reported := decodeError;
      decodeError := false;
      if reported && !awaitingIdr {
        awaitingIdr := true;
        RequestKeyframeThrottled(nowFirst);
      }
      var isIdr := f.kind == Idr;
      if isIdr {
        awaitingIdr := false;
      }
      if lastFrameId.Some? {
        var delta := Age(lastFrameId.value, f.frameId);
        if delta == 0 || delta > HALF_RANGE {
          // Out of order upstream: logged only.
        } else if delta != 1 && !isIdr && !awaitingIdr {
          awaitingIdr := true;
          RequestKeyframeThrottled(nowFirst);
        }
      }
    }

    /** One released frame. */
    method Admit(f: CompletedFrame, nowFirst: nat, nowSecond: nat) returns (delivered: bool)
      modifies this
      ensures (Abstract(), delivered) == Gated(old(Abstract()), Arrives(f, nowFirst, nowSecond))
    {
      hide Requested, Age, Examined;
      Examine(f, nowFirst, nowSecond);
      if awaitingIdr && f.kind != Idr {
        var safe := recoveryPoint > 0 && Age((recoveryPoint - 1) % U32_RANGE, f.frameId) < HALF_RANGE;
        if safe {
          awaitingIdr := false;
        } else {
          lastFrameId := Some(f.frameId);
          RequestKeyframeThrottled(nowSecond);
          return false;
        }
      }
      IdrUnfreezes(old(Abstract()), f, nowFirst, nowSecond);
      lastFrameId := Some(f.frameId);
      lastDeliveredId := Some(f.frameId);
      delivered := true;
    }

    /** The decoder could not decode a delivered frame. */
    method OnDecodeError(now: nat)
      modifies this
      ensures (Abstract(), false) == Gated(old(Abstract()), Rejects(now))
    {
      awaitingIdr := true;
      RequestKeyframeThrottled(now);
    }
  }

  lemma IdrUnfreezes(s: GateState, f: CompletedFrame, nowFirst: nat, nowSecond: nat)
    ensures f.kind == Idr ==> !Examined(s, Arrives(f, nowFirst, nowSecond)).awaitingIdr
  {
  }

  // ---------- Runs: the reference chain beside the gate ----------

  /** A frame handed to the decoder. whole: it found the reference chain whole; tainted: since the chain was last
      healed, up to and with this frame, a stale recovery point let a frame through; renewed: the stored point was
      announced after the last break. */
  datatype Delivery = Delivery(id: u32, kind: FrameKind, whole: bool, tainted: bool, renewed: bool, recoveryPoint: nat)

  /** alarmed: the gate's view, a break seen since the last delivery. whole and tainted follow the chain itself.
      cited[i]: deliveries made before request i. */
  datatype GateRun = GateRun(
    state: GateState,
    deliveries: seq<Delivery>,
    alarmed: bool,
    whole: bool,
    tainted: bool,
    renewed: bool,
    frames: seq<CompletedFrame>,
    cited: seq<nat>)

  ghost function GateRunStart(): GateRun {
    GateRun(GateStart(), [], true, false, false, false, [], [])
  }

  /** Frames were lost right before this one. */
  ghost predicate Loses(r: GateRun, f: CompletedFrame) {
    |r.frames| > 0 && f.frameId != (r.frames[|r.frames| - 1].frameId + 1) % U32_RANGE
  }

  /** A break was seen since the last delivery. */
  ghost predicate AlarmedOn(r: GateRun, f: CompletedFrame) {
    r.alarmed || Loses(r, f)
  }

  /** The frame finds every frame it may refer to decoded. */
  ghost predicate WholeOn(r: GateRun, f: CompletedFrame) {
    r.whole && !Loses(r, f)
  }

  /** The stored point was announced after the last break; a loss is noticed when the next frame arrives. */
  ghost predicate RenewedOn(r: GateRun, f: CompletedFrame) {
    r.renewed && !Loses(r, f)
  }

  /** The frame refers to nothing that is missing: a keyframe, or at or after a point newer than the last break. */
  ghost predicate Heals(r: GateRun, f: CompletedFrame) {
    f.kind == Idr || (RenewedOn(r, f) && AtRecoveryPoint(r.state.recoveryPoint, f.frameId))
  }

  /** A point older than the last break covers a frame that needs a whole chain and finds none. */
  ghost predicate StaleCovers(r: GateRun, e: Event) {
    && e.Arrives? && e.frame.kind != Idr
    && !WholeOn(r, e.frame) && !RenewedOn(r, e.frame)
    && AtRecoveryPoint(r.state.recoveryPoint, e.frame.frameId)
  }

  ghost predicate TaintedOn(r: GateRun, e: Event)
    requires e.Arrives?
  {
    !Heals(r, e.frame) && (r.tainted || StaleCovers(r, e))
  }

  ghost function RunGate(events: seq<Event>): GateRun {
    if |events| == 0 then GateRunStart()
    else
      Advanced(RunGate(events[..|events| - 1]), events[|events| - 1])
  }

  ghost function Advanced(r: GateRun, e: Event): GateRun {
    var (s, delivered) := Gated(r.state, e);
    var next := r.(state := s, cited := r.cited + Citing(|s.requests| - |r.state.requests|, |r.deliveries|));
    match e
    case Announces(_) => next.(renewed := true)
    case Reports => next.(alarmed := true, whole := false, renewed := false)
    case Rejects(_) => next.(alarmed := true, whole := false, renewed := false)
    case Arrives(f, _, _) =>
      var d := Delivery(f.frameId, f.kind, WholeOn(r, f), TaintedOn(r, e), RenewedOn(r, f), r.state.recoveryPoint);
      next.(alarmed := AlarmedOn(r, f) && !delivered,
            whole := Heals(r, f) || (WholeOn(r, f) && delivered),
            tainted := TaintedOn(r, e),
            renewed := RenewedOn(r, f),
            frames := r.frames + [f],
            deliveries := if delivered then r.deliveries + [d] else r.deliveries)
  }

  ghost function Citing(n: int, deliveries: nat): seq<nat> {
    if n <= 0 then [] else seq(n, _ => deliveries)
  }

  ghost predicate DirectlyFollows(before: Delivery, d: Delivery) {
    d.id == (before.id + 1) % U32_RANGE
  }

  /** Decodable: a keyframe, a frame at or after a recovery point announced since the chain last broke, or the
      direct successor of the one delivered before it on a whole chain. */
  ghost predicate Decodable(deliveries: seq<Delivery>, i: nat)
    requires i < |deliveries|
  {
    var d := deliveries[i];
    || d.kind == Idr
    || (d.renewed && AtRecoveryPoint(d.recoveryPoint, d.id))
    || (i > 0 && DirectlyFollows(deliveries[i - 1], d) && d.whole)
  }

  /** What the gate does ensure: the point may be older than the break, and a direct successor may follow a frame
      that such a point let through. */
  ghost predicate Explained(deliveries: seq<Delivery>, i: nat)
    requires i < |deliveries|
  {
    var d := deliveries[i];
    || d.kind == Idr
    || AtRecoveryPoint(d.recoveryPoint, d.id)
    || (i > 0 && DirectlyFollows(deliveries[i - 1], d) && (d.whole || d.tainted))
  }

  ghost predicate AllDecodable(deliveries: seq<Delivery>) {
    forall i :: 0 <= i < |deliveries| ==> Decodable(deliveries, i)
  }

  ghost predicate AllExplained(deliveries: seq<Delivery>) {
    forall i :: 0 <= i < |deliveries| ==> Explained(deliveries, i)
  }

  /** A delivery is decodable exactly when no stale point let a frame through since the chain was last healed. */
  ghost predicate VerdictsRight(deliveries: seq<Delivery>) {
    forall i :: 0 <= i < |deliveries| ==> (Decodable(deliveries, i) <==> !deliveries[i].tainted)
  }

  /** The gate is frozen, or about to be, exactly while it is alarmed; otherwise the last frame seen is the last one
      delivered. */
  ghost predicate InStep(r: GateRun) {
    && (r.state.lastFrameId == if |r.frames| == 0 then None else Some(r.frames[|r.frames| - 1].frameId))
    && (r.state.lastDeliveredId == if |r.deliveries| == 0 then None else Some(r.deliveries[|r.deliveries| - 1].id))
    && (r.alarmed <==> r.state.awaitingIdr || r.state.decodeError)
    && (!r.alarmed ==> r.state.lastFrameId.Some? && r.state.lastFrameId == r.state.lastDeliveredId)
  }

  /** The chain is whole exactly when the gate is not alarmed and no stale point let a frame through since it was
      last healed; and such a frame shows among the deliveries. */
  ghost predicate ChainKnown(r: GateRun) {
    && (r.whole <==> !r.alarmed && !r.tainted)
    && (r.tainted ==> exists i :: 0 <= i < |r.deliveries| && r.deliveries[i].tainted)
  }

  /** The frame is newer than those before it. */
  ghost predicate InOrder(r: GateRun, e: Event) {
    e.Arrives? && |r.frames| > 0 ==> Older(r.frames[|r.frames| - 1].frameId, e.frame.frameId)
  }

  lemma AgeOne(a: u32, b: u32)
    ensures Age(a, b) == 1 <==> b == (a + 1) % U32_RANGE
  {
    AgeBelow(a, b);
  }

  /** The gate's own gap test sees every loss. */
  lemma GapIsLoss(r: GateRun, s: GateState, e: Event)
    requires e.Arrives? && InOrder(r, e)
    requires s.lastFrameId == if |r.frames| == 0 then None else Some(r.frames[|r.frames| - 1].frameId)
    ensures Gap(s, e.frame.frameId) <==> Loses(r, e.frame)
  {
    hide Age;
    if |r.frames| > 0 {
      AgeOne(r.frames[|r.frames| - 1].frameId, e.frame.frameId);
    }
  }

  lemma GapDepends(t: GateState, id: u32)
    ensures forall s: GateState :: s.lastFrameId == t.lastFrameId ==> Gap(s, id) == Gap(t, id)
  {
  }

  /** In terms of the gate's own view. */
  lemma PassesOnArrival(r: GateRun, e: Event)
    requires InStep(r) && e.Arrives? && InOrder(r, e)
    ensures Gated(r.state, e).1 <==>
      e.frame.kind == Idr || !AlarmedOn(r, e.frame) || AtRecoveryPoint(r.state.recoveryPoint, e.frame.frameId)
  {
    hide Loses, Gap, AtRecoveryPoint, Elapsed;
    GapIsLoss(r, r.state, e);
    GapDepends(r.state, e.frame.frameId);
  }

  /** The gate's state after an arrival: seen, and delivered or held. */
  lemma ArrivalSeen(s: GateState, e: Event)
    requires e.Arrives?
    ensures var (t, delivered) := Gated(s, e);
      && t.lastFrameId == Some(e.frame.frameId) && !t.decodeError
      && t.lastDeliveredId == (if delivered then Some(e.frame.frameId) else s.lastDeliveredId)
      && t.awaitingIdr == !delivered
  {
    hide AtRecoveryPoint, Elapsed, Gap, Age;
  }

  lemma AdvancedInStep(r: GateRun, e: Event)
    requires InStep(r) && InOrder(r, e)
    ensures InStep(Advanced(r, e))
  {
    hide AtRecoveryPoint, Citing, Older, Heals, StaleCovers, TaintedOn, Loses, Elapsed, Examined;
    if e.Arrives? {
      hide Gated;
      ArrivalSeen(r.state, e);
      PassesOnArrival(r, e);
    }
  }

  /** What one arrival does to the chain. */
  lemma ArrivalOnChain(r: GateRun, e: Event)
    requires InStep(r) && ChainKnown(r) && e.Arrives? && InOrder(r, e)
    ensures var delivered := Gated(r.state, e).1;
      var whole := Heals(r, e.frame) || (WholeOn(r, e.frame) && delivered);
      && (whole <==> !(AlarmedOn(r, e.frame) && !delivered) && !TaintedOn(r, e))
      && (TaintedOn(r, e) ==> delivered || r.tainted)
      && (delivered ==> (TaintedOn(r, e) <==> !Heals(r, e.frame) && !WholeOn(r, e.frame)))
      && (Heals(r, e.frame) || WholeOn(r, e.frame) ==> delivered)
  {
    hide AtRecoveryPoint, Gated, Older, Loses;
    PassesOnArrival(r, e);
  }

  lemma AdvancedChain(r: GateRun, e: Event)
    requires InStep(r) && ChainKnown(r) && InOrder(r, e)
    ensures ChainKnown(Advanced(r, e))
  {
    hide AtRecoveryPoint, Gated, Older, Loses, Heals, StaleCovers, TaintedOn, WholeOn, AlarmedOn, Citing, InStep;
    var q := Advanced(r, e);
    if e.Arrives? {
      ArrivalOnChain(r, e);
      if q.tainted {
        if Gated(r.state, e).1 {
          assert q.deliveries[|r.deliveries|].tainted;
        } else {
          assert q.deliveries == r.deliveries;
        }
      }
    } else {
      assert q.deliveries == r.deliveries;
    }
  }

  /** One event: the deliveries so far keep their verdict, and a new one gets the right one. */
  lemma AdvancedVerdict(r: GateRun, e: Event)
    requires InStep(r) && ChainKnown(r) && InOrder(r, e)
    ensures AllExplained(r.deliveries) ==> AllExplained(Advanced(r, e).deliveries)
    ensures VerdictsRight(r.deliveries) ==> VerdictsRight(Advanced(r, e).deliveries)
  {
    hide AtRecoveryPoint, Gated, Older, Loses, Citing, Heals, StaleCovers, TaintedOn, WholeOn, AlarmedOn, InStep;
    var before, after := r.deliveries, Advanced(r, e).deliveries;
    if e.Arrives? && Gated(r.state, e).1 {
      NewDelivery(r, e);
    }
    forall i | 0 <= i < |before|
      ensures Decodable(after, i) <==> Decodable(before, i)
      ensures Explained(after, i) <==> Explained(before, i)
      ensures after[i].tainted <==> before[i].tainted
    {
    }
  }

  lemma NewDelivery(r: GateRun, e: Event)
    requires InStep(r) && ChainKnown(r) && e.Arrives? && InOrder(r, e) && Gated(r.state, e).1
    ensures var after := Advanced(r, e).deliveries;
      var i := |r.deliveries|;
      && |after| == i + 1
      && Explained(after, i)
      && (Decodable(after, i) <==> !after[i].tainted)
  {
    hide AtRecoveryPoint, Gated, Older, Citing, StaleCovers, TaintedOn;
    PassesOnArrival(r, e);
    ArrivalOnChain(r, e);
    TaintStays(r, e);
  }

  lemma TaintStays(r: GateRun, e: Event)
    requires e.Arrives?
    ensures r.tainted && !Heals(r, e.frame) ==> TaintedOn(r, e)
    ensures TaintedOn(r, e) ==> !Heals(r, e.frame)
  {
  }

  // ---------- Whole runs ----------

  lemma EachNewerPrefix(frames: seq<CompletedFrame>, n: nat)
    requires EachNewer(frames) && n <= |frames|
    ensures EachNewer(frames[..n])
  {
    hide Older;
  }

  lemma AdvancedFrames(r: GateRun, e: Event)
    ensures Advanced(r, e).frames == if e.Arrives? then r.frames + [e.frame] else r.frames
  {
  }

  /** Frames in order up to the last event. */
  lemma LastInOrder(events: seq<Event>)
    requires |events| > 0 && EachNewer(RunGate(events).frames)
    ensures EachNewer(RunGate(events[..|events| - 1]).frames)
    ensures InOrder(RunGate(events[..|events| - 1]), events[|events| - 1])
  {
    hide Advanced, Older, Gated;
    var n := |events| - 1;
    var r, e := RunGate(events[..n]), events[n];
    var frames := RunGate(events).frames;
    AdvancedFrames(r, e);
    assert r.frames == frames[..|r.frames|];
    EachNewerPrefix(frames, |r.frames|);
    if e.Arrives? && |r.frames| > 0 {
      assert Older(frames[|r.frames| - 1].frameId, frames[|r.frames|].frameId);
    }
  }

  /** All that is known after a run of frames in order. */
  ghost predicate Settled(r: GateRun) {
    InStep(r) && ChainKnown(r) && AllExplained(r.deliveries) && VerdictsRight(r.deliveries)
  }

  lemma StartSettled()
    ensures Settled(RunGate([]))
  {
  }

  lemma AdvancedSettled(r: GateRun, e: Event)
    requires Settled(r) && InOrder(r, e)
    ensures Settled(Advanced(r, e))
  {
    hide InStep, ChainKnown, AllExplained, VerdictsRight, InOrder, Advanced;
    AdvancedInStep(r, e);
    AdvancedChain(r, e);
    AdvancedVerdict(r, e);
  }

  /** Over every run of frames in order: the chain is whole exactly when the gate is not alarmed and no stale point
      let a frame through since it was last healed; each delivery is a keyframe, at or after the stored point, or a
      direct successor, on a whole chain or after such a frame; and it is decodable exactly when there is no such
      frame. */
  lemma {:induction false} DeliveriesExplained(events: seq<Event>)
    requires EachNewer(RunGate(events).frames)
    ensures Settled(RunGate(events))
  {
    hide Advanced, EachNewer, Settled, InOrder;
    if |events| == 0 {
      StartSettled();
    } else {
      LastInOrder(events);
      DeliveriesExplained(events[..|events| - 1]);
      AdvancedSettled(RunGate(events[..|events| - 1]), events[|events| - 1]);
    }
  }

  /** The frame directly follows one that a stale point let through, with no break seen since. */
  ghost predicate FollowsTainted(r: GateRun, f: CompletedFrame) {
    r.tainted && !AlarmedOn(r, f)
  }

  /** After any run, a frame is delivered exactly when it is a keyframe, is covered by the stored point, finds the
      chain whole, or directly follows a frame that a stale point let through. */
  lemma HeldExactlyWhen(events: seq<Event>, e: Event)
    requires EachNewer(RunGate(events).frames) && e.Arrives? && InOrder(RunGate(events), e)
    ensures var r := RunGate(events);
      Gated(r.state, e).1 <==>
        || e.frame.kind == Idr
        || AtRecoveryPoint(r.state.recoveryPoint, e.frame.frameId)
        || WholeOn(r, e.frame)
        || FollowsTainted(r, e.frame)
  {
    hide RunGate, Older, AtRecoveryPoint, Gated, Loses, EachNewer, AllExplained, VerdictsRight;
    DeliveriesExplained(events);
    PassesOnArrival(RunGate(events), e);
  }

  /** No arrival that finds the chain not whole is covered by a point announced before the last break. */
  ghost predicate NoneStale(events: seq<Event>) {
    forall n :: 0 <= n < |events| ==> !StaleCovers(RunGate(events[..n]), events[n])
  }

  lemma NoneStaleGrows(events: seq<Event>)
    requires |events| > 0
    ensures var n := |events| - 1;
      NoneStale(events) <==> NoneStale(events[..n]) && !StaleCovers(RunGate(events[..n]), events[n])
  {
    hide StaleCovers, RunGate;
    var n := |events| - 1;
    var before := events[..n];
    assert forall k :: 0 <= k < n ==> before[..k] == events[..k] && before[k] == events[k];
    if NoneStale(events) {
      forall k | 0 <= k < n ensures !StaleCovers(RunGate(before[..k]), before[k]) {
        assert !StaleCovers(RunGate(events[..k]), events[k]);
      }
    }
    if NoneStale(before) && !StaleCovers(RunGate(events[..n]), events[n]) {
      forall k | 0 <= k < |events| ensures !StaleCovers(RunGate(events[..k]), events[k]) {
        if k < n {
          assert !StaleCovers(RunGate(before[..k]), before[k]);
        }
      }
    }
  }

  /** Taint begins with a stale point and shows in a delivery. */
  lemma AdvancedStale(r: GateRun, e: Event)
    requires Settled(r) && InOrder(r, e)
    ensures AllDecodable(Advanced(r, e).deliveries) <==> AllDecodable(r.deliveries) && !StaleCovers(r, e)
  {
    hide AtRecoveryPoint, Gated, Older, Loses, Citing, WholeOn, AlarmedOn, InStep, AllExplained, Decodable, RenewedOn;
    AdvancedSettled(r, e);
    var before, after := r.deliveries, Advanced(r, e).deliveries;
    forall i | 0 <= i < |before| ensures after[i] == before[i] {
    }
    if e.Arrives? {
      ArrivalOnChain(r, e);
      StaleIsTaint(r, e);
      if StaleCovers(r, e) {
        assert after[|before|].tainted;
      }
    }
  }

  lemma StaleIsTaint(r: GateRun, e: Event)
    requires e.Arrives?
    ensures StaleCovers(r, e) ==> !Heals(r, e.frame) && TaintedOn(r, e) && Gated(r.state, e).1
  {
    hide Loses, AtRecoveryPoint;
    PassesExactlyWhen(r.state, e);
  }

  /** The documented hold, skipping frames after a break until a keyframe or a recovery point resyncs, is kept over
      a run exactly when no frame that finds the chain not whole is covered by a point announced before the last
      break. */
  lemma {:induction false} HoldKeptExactlyWhen(events: seq<Event>)
    requires EachNewer(RunGate(events).frames)
    ensures AllDecodable(RunGate(events).deliveries) <==> NoneStale(events)
  {
    hide Advanced, EachNewer, Settled, AllDecodable, InOrder, NoneStale, StaleCovers;
    if |events| == 0 {
      NoneStaleAtStart();
    } else {
      var n := |events| - 1;
      LastInOrder(events);
      HoldKeptExactlyWhen(events[..n]);
      DeliveriesExplained(events[..n]);
      AdvancedStale(RunGate(events[..n]), events[n]);
      NoneStaleGrows(events);
    }
  }

  lemma NoneStaleAtStart()
    ensures NoneStale([]) && AllDecodable(RunGate([]).deliveries)
  {
  }

  // ---------- When the stored point counts as new ----------

  /** The chain breaks here: an error is reported, a frame is rejected, or a frame arrives after a loss. */
  ghost predicate Breaks(events: seq<Event>, b: nat)
    requires b < |events|
  {
    match events[b]
    case Announces(_) => false
    case Arrives(f, _, _) => Loses(RunGate(events[..b]), f)
    case Reports => true
    case Rejects(_) => true
  }

  ghost predicate AnnouncedLast(events: seq<Event>, a: nat)
    requires a < |events|
  {
    events[a].Announces? && forall b: nat :: a < b < |events| ==> !Breaks(events, b)
  }

  lemma BreaksInPrefix(events: seq<Event>, b: nat)
    requires b < |events| - 1
    ensures Breaks(events[..|events| - 1], b) <==> Breaks(events, b)
  {
    hide RunGate, Loses;
    assert events[..|events| - 1][..b] == events[..b];
  }

  lemma RenewedStep(events: seq<Event>)
    requires |events| > 0
    ensures var n := |events| - 1;
      RunGate(events).renewed <==> events[n].Announces? || (RunGate(events[..n]).renewed && !Breaks(events, n))
  {
    hide Gated, Loses, Citing;
  }

  /** Some announcement came after every break. */
  ghost predicate AnnouncedSinceBreak(events: seq<Event>) {
    exists a: nat :: a < |events| && AnnouncedLast(events, a)
  }

  lemma AnnouncedLastGrows(events: seq<Event>, a: nat)
    requires a < |events| - 1
    ensures var n := |events| - 1;
      AnnouncedLast(events, a) <==> AnnouncedLast(events[..n], a) && !Breaks(events, n)
  {
    hide Breaks, RunGate;
    var n := |events| - 1;
    forall b: nat | b < n ensures Breaks(events[..n], b) <==> Breaks(events, b) {
      BreaksInPrefix(events, b);
    }
  }

  lemma AnnouncedSinceBreakGrows(events: seq<Event>)
    requires |events| > 0
    ensures var n := |events| - 1;
      AnnouncedSinceBreak(events) <==> events[n].Announces? || (AnnouncedSinceBreak(events[..n]) && !Breaks(events, n))
  {
    hide Breaks, RunGate;
    var n := |events| - 1;
    forall a: nat | a < n ensures AnnouncedLast(events, a) <==> AnnouncedLast(events[..n], a) && !Breaks(events, n) {
      AnnouncedLastGrows(events, a);
    }
    if events[n].Announces? {
      assert AnnouncedLast(events, n);
    }
    hide AnnouncedLast;
    if AnnouncedSinceBreak(events[..n]) && !Breaks(events, n) {
      var a: nat :| a < n && AnnouncedLast(events[..n], a);
      assert AnnouncedLast(events, a);
    }
  }

  /** The flag of the run says just that. */
  lemma {:induction false} RenewedMeans(events: seq<Event>)
    ensures RunGate(events).renewed <==> AnnouncedSinceBreak(events)
  {
    if |events| > 0 {
      hide Breaks, RunGate, AnnouncedSinceBreak;
      RenewedMeans(events[..|events| - 1]);
      RenewedStep(events);
      AnnouncedSinceBreakGrows(events);
    }
  }

  /** The frame at h heals the chain and no break came after. */
  ghost predicate HealedLast(events: seq<Event>, h: nat)
    requires h < |events|
  {
    && events[h].Arrives? && Heals(RunGate(events[..h]), events[h].frame)
    && forall b: nat :: h < b < |events| ==> !Breaks(events, b)
  }

  /** Some healing frame came after every break. */
  ghost predicate HealedSinceBreak(events: seq<Event>) {
    exists h: nat :: h < |events| && HealedLast(events, h)
  }

  lemma HealedLastGrows(events: seq<Event>, h: nat)
    requires h < |events| - 1
    ensures var n := |events| - 1;
      HealedLast(events, h) <==> HealedLast(events[..n], h) && !Breaks(events, n)
  {
    hide Breaks, RunGate, Heals;
    var n := |events| - 1;
    assert events[..n][..h] == events[..h];
    forall b: nat | b < n ensures Breaks(events[..n], b) <==> Breaks(events, b) {
      BreaksInPrefix(events, b);
    }
  }

  lemma HealedSinceBreakGrows(events: seq<Event>)
    requires |events| > 0
    ensures var n := |events| - 1;
      HealedSinceBreak(events) <==>
        || (events[n].Arrives? && Heals(RunGate(events[..n]), events[n].frame))
        || (HealedSinceBreak(events[..n]) && !Breaks(events, n))
  {
    hide Breaks, RunGate, Heals;
    var n := |events| - 1;
    forall h: nat | h < n ensures HealedLast(events, h) <==> HealedLast(events[..n], h) && !Breaks(events, n) {
      HealedLastGrows(events, h);
    }
    if events[n].Arrives? && Heals(RunGate(events[..n]), events[n].frame) {
      assert HealedLast(events, n);
    }
    if HealedSinceBreak(events[..n]) && !Breaks(events, n) {
      var h: nat :| h < n && HealedLast(events[..n], h);
      assert HealedLast(events, h);
    }
  }

  lemma WholeStep(events: seq<Event>)
    requires |events| > 0 && Settled(RunGate(events[..|events| - 1]))
    requires InOrder(RunGate(events[..|events| - 1]), events[|events| - 1])
    ensures var n := |events| - 1; var r := RunGate(events[..n]);
      RunGate(events).whole <==>
        (events[n].Arrives? && Heals(r, events[n].frame)) || (r.whole && !Breaks(events, n))
  {
    hide Gated, Loses, Citing, Heals, AtRecoveryPoint, AllExplained, VerdictsRight, StaleCovers, TaintedOn, Older;
    var n := |events| - 1;
    if events[n].Arrives? {
      ArrivalOnChain(RunGate(events[..n]), events[n]);
    }
  }

  /** The chain is whole exactly when a keyframe, or a frame at a point newer than the last break, came after every
      reported error, rejected frame and loss: the gate's own decisions play no part in it. */
  lemma {:induction false} WholeMeans(events: seq<Event>)
    requires EachNewer(RunGate(events).frames)
    ensures RunGate(events).whole <==> HealedSinceBreak(events)
  {
    if |events| > 0 {
      hide Breaks, RunGate, HealedSinceBreak, EachNewer, Settled, InOrder, Heals;
      LastInOrder(events);
      DeliveriesExplained(events[..|events| - 1]);
      WholeMeans(events[..|events| - 1]);
      WholeStep(events);
      HealedSinceBreakGrows(events);
    }
  }

  // ---------- The stored point outlives the break ----------

  /** A point announced for a healed loss, then two frames lost and an error reported. */
  ghost function StalePointRun(data: Bytes): seq<Event> {
    [Arrives(CompletedFrame(5, Idr, 0, data), 0, 0), Announces(6), Arrives(CompletedFrame(6, P, 0, data), 0, 0),
     Reports, Arrives(CompletedFrame(9, P, 0, data), 0, 0)]
  }

  lemma RunGateOne(events: seq<Event>, e: Event)
    ensures RunGate(events + [e]) == Advanced(RunGate(events), e)
  {
    assert (events + [e])[..|events|] == events;
  }

  /** Then a new point far ahead, and the successor of the last delivery. */
  ghost function TaintRun(data: Bytes): seq<Event> {
    StalePointRun(data) + [Announces(100)] + [Arrives(CompletedFrame(10, P, 0, data), 0, 0)]
  }

  lemma StalePointSteps(data: Bytes)
    ensures var e := StalePointRun(data);
      RunGate(e) == Advanced(Advanced(Advanced(Advanced(Advanced(RunGate([]), e[0]), e[1]), e[2]), e[3]), e[4])
  {
    hide Advanced;
    var e := StalePointRun(data);
    assert e == [] + [e[0]] + [e[1]] + [e[2]] + [e[3]] + [e[4]];
    RunGateOne([], e[0]);
    RunGateOne([] + [e[0]], e[1]);
    RunGateOne([] + [e[0]] + [e[1]], e[2]);
    RunGateOne([] + [e[0]] + [e[1]] + [e[2]], e[3]);
    RunGateOne([] + [e[0]] + [e[1]] + [e[2]] + [e[3]], e[4]);
  }

  /** After the first three events: two frames delivered on a whole chain. */
  lemma HealthyStart(data: Bytes) returns (r: GateRun)
    ensures var e := StalePointRun(data);
      r == Advanced(Advanced(Advanced(RunGate([]), e[0]), e[1]), e[2])
    ensures |r.deliveries| == 2 && r.whole && !r.alarmed && !r.tainted && r.renewed
    ensures r.state.recoveryPoint == 7 && r.state.lastFrameId == Some(6) && !r.state.awaitingIdr && !r.state.decodeError
    ensures |r.frames| == 2 && r.frames[1].frameId == 6
  {
    hide Elapsed, Citing;
    var e := StalePointRun(data);
    assert Age(6, 6) == 0 && Age(5, 6) == 1;
    var r1 := Advanced(RunGate([]), e[0]);
    assert |r1.deliveries| == 1 && r1.whole && !r1.alarmed && !r1.tainted && r1.state.lastFrameId == Some(5);
    r := Advanced(Advanced(r1, e[1]), e[2]);
  }

  /** Frame 9 is delivered though the chain is not whole: frames 7 and 8 are lost, an error was reported, and the
      only point was announced before either. */
  lemma StalePointDelivers(data: Bytes)
    ensures var r := RunGate(StalePointRun(data));
      && |r.deliveries| == 3 && r.deliveries[2] == Delivery(9, P, false, true, false, 7)
      && !AllDecodable(r.deliveries)
      && !r.whole && r.tainted && !r.alarmed && r.state.lastFrameId == Some(9)
      && !r.state.awaitingIdr && !r.state.decodeError && |r.frames| == 3 && r.frames[2].frameId == 9
  {
    hide Elapsed, Citing;
    StalePointSteps(data);
    assert Age(6, 9) == 3;
    var r := HealthyStart(data);
    assert !Decodable(RunGate(StalePointRun(data)).deliveries, 2);
  }

  /** The gate then delivers frame 10, which refers to frame 9 and which no point covers. */
  lemma TaintSpreads(data: Bytes)
    ensures var r := RunGate(TaintRun(data));
      && |r.deliveries| == 4 && r.deliveries[3] == Delivery(10, P, false, true, true, 101)
      && !AtRecoveryPoint(101, 10) && !Decodable(r.deliveries, 3)
  {
    hide Elapsed, Citing;
    var e := StalePointRun(data);
    RunGateOne(e, Announces(100));
    RunGateOne(e + [Announces(100)], Arrives(CompletedFrame(10, P, 0, data), 0, 0));
    StalePointDelivers(data);
    assert Age(9, 10) == 1 && Age(100, 10) == 0x1_0000_0000 - 90;
  }

  /** The stored point covers every frame that arrives. */
  ghost predicate AlwaysCovered(events: seq<Event>) {
    forall n :: 0 <= n < |events| && events[n].Arrives? ==>
      AtRecoveryPoint(RunGate(events[..n]).state.recoveryPoint, events[n].frame.frameId)
  }

  lemma CoveredPrefix(events: seq<Event>)
    requires |events| > 0 && AlwaysCovered(events)
    ensures var n := |events| - 1;
      AlwaysCovered(events[..n])
      && (events[n].Arrives? ==> AtRecoveryPoint(RunGate(events[..n]).state.recoveryPoint, events[n].frame.frameId))
  {
    hide RunGate, AtRecoveryPoint;
    var n := |events| - 1;
    var before := events[..n];
    forall k | 0 <= k < n && before[k].Arrives?
      ensures AtRecoveryPoint(RunGate(before[..k]).state.recoveryPoint, before[k].frame.frameId) {
      assert before[..k] == events[..k] && before[k] == events[k];
    }
  }

  lemma CoveredStep(r: GateRun, e: Event)
    requires e.Arrives? ==> AtRecoveryPoint(r.state.recoveryPoint, e.frame.frameId)
    ensures |Advanced(r, e).deliveries| - |r.deliveries| == |Advanced(r, e).frames| - |r.frames|
  {
    hide AtRecoveryPoint, Loses, Gated, Citing;
    if e.Arrives? {
      PassesExactlyWhen(r.state, e);
    }
  }

  /** Once a point covers what arrives the gate holds nothing, whatever breaks. */
  lemma {:induction false} CoveredIsNeverHeld(events: seq<Event>)
    requires AlwaysCovered(events)
    ensures |RunGate(events).deliveries| == |RunGate(events).frames|
  {
    if |events| > 0 {
      hide Advanced, AlwaysCovered, AtRecoveryPoint;
      CoveredPrefix(events);
      CoveredIsNeverHeld(events[..|events| - 1]);
      CoveredStep(RunGate(events[..|events| - 1]), events[|events| - 1]);
    }
  }

  /** With no recovery point ever announced the decoder sees only runs that start at a keyframe and have
      consecutive ids, also after every reported decode error. */
  lemma KeyframeRuns(events: seq<Event>, i: nat)
    requires EachNewer(RunGate(events).frames)
    requires forall e :: e in events ==> !e.Announces?
    requires i < |RunGate(events).deliveries| && RunGate(events).deliveries[i].kind != Idr
    ensures i > 0 && DirectlyFollows(RunGate(events).deliveries[i - 1], RunGate(events).deliveries[i])
    ensures RunGate(events).deliveries[i].whole
  {
    hide Age, Older, RunGate, EachNewer, InStep, ChainKnown;
    DeliveriesExplained(events);
    NoRecoveryPoint(events);
    assert Explained(RunGate(events).deliveries, i);
  }

  lemma {:induction false} NoRecoveryPoint(events: seq<Event>)
    requires forall e :: e in events ==> !e.Announces?
    ensures RunGate(events).state.recoveryPoint == 0
    ensures !RunGate(events).tainted
    ensures forall i :: 0 <= i < |RunGate(events).deliveries| ==>
      RunGate(events).deliveries[i].recoveryPoint == 0 && !RunGate(events).deliveries[i].tainted
  {
    if |events| > 0 {
      hide Gated, Loses, Citing;
      NoRecoveryPoint(events[..|events| - 1]);
      StillNoPoint(RunGate(events[..|events| - 1]).state, events[|events| - 1]);
    }
  }

  lemma StillNoPoint(s: GateState, e: Event)
    ensures !e.Announces? ==> Gated(s, e).0.recoveryPoint == s.recoveryPoint
  {
    hide AtRecoveryPoint, Age, Elapsed;
  }

  /** Reassembler and gate together: for frames released over a run whose live frame numbers stay close together,
      every delivery is explained and decodable exactly when no stale point let a frame through since the last
      healing, and all are decodable exactly when no point is stale. */
  lemma ReassembledDeliveries(arrivals: seq<Arrival>, bases: seq<nat>, events: seq<Event>)
    requires ValidArrivals(arrivals) && Tracks(arrivals, bases)
    requires RunGate(events).frames <= Run(arrivals).1
    ensures AllExplained(RunGate(events).deliveries) && VerdictsRight(RunGate(events).deliveries)
    ensures AllDecodable(RunGate(events).deliveries) <==> NoneStale(events)
  {
    hide Older, Age, RunGate, Run, Tracks, AllDecodable, AllExplained, VerdictsRight, NoneStale, Ordered, InStep,
         ChainKnown;
    var base := if |bases| == 0 then 0 else bases[|bases| - 1];
    RunOrdered(arrivals, bases, base);
    var frames := RunGate(events).frames;
    EachNewerPrefix(Run(arrivals).1, |frames|);
    DeliveriesExplained(events);
    HoldKeptExactlyWhen(events);
  }

  // ---------- The gate alone: exactly when a frame passes ----------

  /** Whether a frame passes, for any state and any ids. A non-keyframe passes an unfrozen gate if it
      follows directly or is out of order (not newer within half the id space): without the
      reassembler's order the gate does not keep the chain whole. */
  lemma PassesExactlyWhen(s: GateState, e: Event)
    requires e.Arrives?
    ensures Gated(s, e).1 <==>
      || e.frame.kind == Idr
      || AtRecoveryPoint(s.recoveryPoint, e.frame.frameId)
      || (!s.awaitingIdr && !s.decodeError && !Gap(s, e.frame.frameId))
  {
    hide Age;
  }

  /** After frame 7 was delivered, a late non-keyframe 3 passes an unfrozen gate. */
  lemma OutOfOrderPasses(data: Bytes)
    ensures Gated(GateState(false, false, 0, Some(7), Some(7), 0, []), Arrives(CompletedFrame(3, P, 0, data), 0, 0)).1
  {
    assert Age(7, 3) == 0xffff_fffc;
  }

  // ---------- Requests ----------

  /** Requests are at least the interval apart. */
  ghost predicate Spaced(requests: seq<(nat, Request)>, last: nat) {
    && (forall i :: 0 < i < |requests| ==> requests[i].0 >= requests[i - 1].0 + MIN_INTERVAL_US)
    && (|requests| > 0 ==> requests[|requests| - 1].0 == last && requests[0].0 >= MIN_INTERVAL_US)
    && (|requests| == 0 ==> last == 0)
  }

  lemma RequestedSpaced(s: GateState, now: nat)
    requires Spaced(s.requests, s.lastRequestUs)
    ensures Spaced(Requested(s, now).requests, Requested(s, now).lastRequestUs)
  {
  }

  /** Over every run, whatever the clock does, requests stay at least 250 ms apart. */
  lemma {:induction false} RequestsSpaced(events: seq<Event>)
    ensures Spaced(RunGate(events).state.requests, RunGate(events).state.lastRequestUs)
  {
    hide Spaced, Requested, Age, Older;
    if |events| == 0 {
      NoRequests();
    } else {
      var n := |events| - 1;
      RequestsSpaced(events[..n]);
      var r, e := RunGate(events[..n]), events[n];
      GatedSpaced(r.state, e);
      AdvancedState(r, e);
    }
  }

  lemma AdvancedState(r: GateRun, e: Event)
    ensures Advanced(r, e).state == Gated(r.state, e).0
  {
    hide Gated;
  }

  lemma NoRequests()
    ensures Spaced([], 0)
  {
  }

  lemma ExaminedSpaced(s: GateState, e: Event)
    requires e.Arrives? && Spaced(s.requests, s.lastRequestUs)
    ensures Spaced(Examined(s, e).requests, Examined(s, e).lastRequestUs)
  {
    hide Spaced, Age, Requested, Gap;
    var taken := s.(decodeError := false);
    RequestedSpaced(taken.(awaitingIdr := true), e.nowFirst);
    var afterError := if s.decodeError && !s.awaitingIdr then Frozen(taken, e.nowFirst) else taken;
    var afterIdr := if e.frame.kind == Idr then afterError.(awaitingIdr := false) else afterError;
    RequestedSpaced(afterIdr.(awaitingIdr := true), e.nowFirst);
  }

  lemma GatedSpaced(s: GateState, e: Event)
    requires Spaced(s.requests, s.lastRequestUs)
    ensures Spaced(Gated(s, e).0.requests, Gated(s, e).0.lastRequestUs)
  {
    hide Spaced, Requested, Age;
    match e
    case Announces(_) =>
    case Reports =>
    case Rejects(now) =>
      RequestedSpaced(s.(awaitingIdr := true), now);
    case Arrives(f, nowFirst, nowSecond) =>
      ExaminedSpaced(s, e);
      RequestedSpaced(Examined(s, e).(lastFrameId := Some(f.frameId)), nowSecond);
  }

  /** The arrival reveals a break while the gate is open: a reported decode error, or a gap before a non-keyframe. */
  ghost predicate RevealsBreak(s: GateState, e: Event)
    requires e.Arrives?
  {
    !s.awaitingIdr && (s.decodeError || (Gap(s, e.frame.frameId) && e.frame.kind != Idr))
  }

  /** The event calls for help at this reading of the clock: the decoder rejects a frame, the arrival reveals a break,
      or the frame is held. */
  ghost predicate HelpDue(s: GateState, e: Event, now: nat) {
    match e
    case Rejects(t) => now == t
    case Arrives(_, nowFirst, nowSecond) =>
      (RevealsBreak(s, e) && now == nowFirst) || (!Gated(s, e).1 && now == nowSecond)
    case _ => false
  }

  /** The throttle lets a request through at this reading of the clock. */
  ghost predicate Rested(s: GateState, now: nat) {
    now >= s.lastRequestUs + MIN_INTERVAL_US
  }

  lemma RequestedWhenRested(s: GateState, now: nat)
    ensures var t := Requested(s, now);
      && |t.requests| == |s.requests| + (if Rested(s, now) then 1 else 0)
      && t.lastRequestUs == (if Rested(s, now) then now else s.lastRequestUs)
  {
  }

  lemma ExaminedAsks(s: GateState, e: Event)
    requires e.Arrives?
    ensures var x := Examined(s, e);
      var asks := RevealsBreak(s, e) && Rested(s, e.nowFirst);
      && |x.requests| == |s.requests| + (if asks then 1 else 0)
      && x.lastRequestUs == (if asks then e.nowFirst else s.lastRequestUs)
  {
    hide Requested, Age;
    GapDepends(s, e.frame.frameId);
    var taken := s.(decodeError := false);
    RequestedWhenRested(taken.(awaitingIdr := true), e.nowFirst);
    if s.decodeError && !s.awaitingIdr {
      assert Frozen(taken, e.nowFirst).awaitingIdr by { KeepsFrozen(taken.(awaitingIdr := true), e.nowFirst); }
    } else {
      var afterIdr := if e.frame.kind == Idr then taken.(awaitingIdr := false) else taken;
      RequestedWhenRested(afterIdr.(awaitingIdr := true), e.nowFirst);
    }
  }

  lemma KeepsFrozen(s: GateState, now: nat)
    ensures Requested(s, now).awaitingIdr == s.awaitingIdr
  {
  }

  /** One event adds a request exactly when it calls for help at a time the throttle has run out; and afterwards no
      call of the event is 250 ms or more past the last request. */
  lemma AsksExactlyWhen(s: GateState, e: Event)
    ensures |Gated(s, e).0.requests| > |s.requests| <==> exists now :: HelpDue(s, e, now) && Rested(s, now)
    ensures forall now :: HelpDue(s, e, now) ==> !Rested(Gated(s, e).0, now)
  {
    hide Requested, Age, Examined, RevealsBreak, AtRecoveryPoint;
    match e
    case Rejects(now) =>
      RequestedWhenRested(s.(awaitingIdr := true), now);
      assert HelpDue(s, e, now);
    case Arrives(f, nowFirst, nowSecond) =>
      ExaminedAsks(s, e);
      RequestedWhenRested(Examined(s, e).(lastFrameId := Some(f.frameId)), nowSecond);
      assert RevealsBreak(s, e) ==> HelpDue(s, e, nowFirst);
      assert !Gated(s, e).1 ==> HelpDue(s, e, nowSecond);
    case _ =>
  }

  /** A request less than 250 ms before this reading of the clock, or the clock is still in its first 250 ms. */
  ghost predicate AskedWithin(requests: seq<(nat, Request)>, now: nat) {
    now < MIN_INTERVAL_US || exists i :: 0 <= i < |requests| && now < requests[i].0 + MIN_INTERVAL_US
  }

  lemma NotRestedAsked(s: GateState, now: nat)
    requires Spaced(s.requests, s.lastRequestUs) && !Rested(s, now)
    ensures AskedWithin(s.requests, now)
  {
    if |s.requests| > 0 {
      assert now < s.requests[|s.requests| - 1].0 + MIN_INTERVAL_US;
    }
  }

  /** Over every run, each time a frame is held, a break is revealed or the decoder rejects a frame, a request was made
      less than 250 ms before or is made now. */
  lemma HelpIsAsked(events: seq<Event>, now: nat)
    requires |events| > 0
    requires HelpDue(RunGate(events[..|events| - 1]).state, events[|events| - 1], now)
    ensures AskedWithin(RunGate(events).state.requests, now)
  {
    hide Gated, HelpDue, Rested, Spaced, AskedWithin, Citing;
    var r, e := RunGate(events[..|events| - 1]), events[|events| - 1];
    RequestsSpaced(events);
    AsksExactlyWhen(r.state, e);
    AdvancedState(r, e);
    NotRestedAsked(RunGate(events).state, now);
  }

  /** In particular, over frames in order: losing frames before a non-keyframe while the gate is open is answered by a
      request, whether or not the frame is then held. */
  lemma LossIsAsked(events: seq<Event>)
    requires |events| > 0 && EachNewer(RunGate(events).frames)
    requires events[|events| - 1].Arrives? && events[|events| - 1].frame.kind != Idr
    requires var r := RunGate(events[..|events| - 1]);
      !r.state.awaitingIdr && Loses(r, events[|events| - 1].frame)
    ensures AskedWithin(RunGate(events).state.requests, events[|events| - 1].nowFirst)
  {
    hide RunGate, AskedWithin, EachNewer, Gated, Gap, Loses, InOrder, ChainKnown, AllExplained, VerdictsRight;
    var before, e := events[..|events| - 1], events[|events| - 1];
    LastInOrder(events);
    DeliveriesExplained(before);
    GapIsLoss(RunGate(before), RunGate(before).state, e);
    HelpIsAsked(events, e.nowFirst);
  }

  /** What a request says when so many frames have been delivered. */
  ghost function Citation(deliveries: seq<Delivery>, n: nat): Request
    requires n <= |deliveries|
  {
    if n == 0 then RequestKeyframe else RequestRecovery(deliveries[n - 1].id)
  }

  /** Each request cites the last frame delivered before it, and asks for a keyframe when there is none. */
  ghost predicate Cites(r: GateRun) {
    && |r.cited| == |r.state.requests|
    && (forall i :: 0 <= i < |r.cited| ==>
          r.cited[i] <= |r.deliveries| && r.state.requests[i].1 == Citation(r.deliveries, r.cited[i]))
  }

  /** The state's own record of the last delivery. */
  ghost predicate KnowsLast(r: GateRun) {
    r.state.lastDeliveredId == if |r.deliveries| == 0 then None else Some(r.deliveries[|r.deliveries| - 1].id)
  }

  /** Requests only grow, by requests that cite the last delivery. */
  ghost predicate Extends(s: GateState, t: GateState) {
    && |s.requests| <= |t.requests| && t.requests[..|s.requests|] == s.requests
    && t.lastDeliveredId == s.lastDeliveredId
    && (forall i :: |s.requests| <= i < |t.requests| ==>
          t.requests[i].1 ==
            if s.lastDeliveredId.Some? then RequestRecovery(s.lastDeliveredId.value) else RequestKeyframe)
  }

  lemma RequestedExtends(s: GateState, t: GateState, now: nat)
    requires Extends(s, t)
    ensures Extends(s, Requested(t, now))
  {
    hide Elapsed;
  }

  lemma SameRequests(s: GateState, t: GateState, u: GateState)
    requires Extends(s, t) && u.requests == t.requests && u.lastDeliveredId == t.lastDeliveredId
    ensures Extends(s, u)
  {
  }

  lemma ExaminedExtends(s: GateState, e: Event)
    requires e.Arrives?
    ensures Extends(s, Examined(s, e))
  {
    var taken := s.(decodeError := false);
    assert Extends(s, taken.(awaitingIdr := true)) && Extends(s, taken);
    hide Extends, Requested, Age, Gap;
    RequestedExtends(s, taken.(awaitingIdr := true), e.nowFirst);
    var afterError := if s.decodeError && !s.awaitingIdr then Frozen(taken, e.nowFirst) else taken;
    SameRequests(s, afterError, afterError.(awaitingIdr := false));
    var afterIdr := if e.frame.kind == Idr then afterError.(awaitingIdr := false) else afterError;
    SameRequests(s, afterIdr, afterIdr.(awaitingIdr := true));
    RequestedExtends(s, afterIdr.(awaitingIdr := true), e.nowFirst);
  }

  lemma GatedExtends(s: GateState, e: Event)
    ensures var t := Gated(s, e).0;
      Extends(s, t.(lastDeliveredId := s.lastDeliveredId))
  {
    hide Extends, Requested, Age, Gap, AtRecoveryPoint, Examined;
    StartsExtending(s);
    match e
    case Announces(firstSafe) => SameRequests(s, s, s.(recoveryPoint := firstSafe + 1));
    case Reports => SameRequests(s, s, s.(decodeError := true));
    case Rejects(now) =>
      SameRequests(s, s, s.(awaitingIdr := true));
      RequestedExtends(s, s.(awaitingIdr := true), now);
      KeepsLast(s.(awaitingIdr := true), now);
      SameRequests(s, Requested(s.(awaitingIdr := true), now), Gated(s, e).0.(lastDeliveredId := s.lastDeliveredId));
    case Arrives(f, nowFirst, nowSecond) =>
      ExaminedExtends(s, e);
      var x := Examined(s, e);
      ExtendsLast(s, x);
      var y := x.(lastFrameId := Some(f.frameId));
      SameRequests(s, x, y);
      RequestedExtends(s, y, nowSecond);
      KeepsLast(y, nowSecond);
      SameRequests(s, if Gated(s, e).1 then x else Requested(y, nowSecond),
        Gated(s, e).0.(lastDeliveredId := s.lastDeliveredId));
  }

  lemma StartsExtending(s: GateState)
    ensures Extends(s, s)
  {
  }

  lemma ExtendsLast(s: GateState, t: GateState)
    requires Extends(s, t)
    ensures t.lastDeliveredId == s.lastDeliveredId
  {
  }

  lemma KeepsLast(s: GateState, now: nat)
    ensures Requested(s, now).lastDeliveredId == s.lastDeliveredId
  {
  }

  lemma LastKept(s: GateState, e: Event)
    ensures Gated(s, e).0.lastDeliveredId ==
      if Gated(s, e).1 && e.Arrives? then Some(e.frame.frameId) else s.lastDeliveredId
  {
    hide Age, Elapsed, Gap, AtRecoveryPoint;
  }

  lemma CitesStep(r: GateRun, e: Event)
    requires Cites(r) && KnowsLast(r)
    ensures Cites(Advanced(r, e)) && KnowsLast(Advanced(r, e))
  {
    hide Gated, Loses;
    GatedExtends(r.state, e);
    LastKept(r.state, e);
    var q := Advanced(r, e);
    var t := Gated(r.state, e).0;
    assert q.state == t;
    forall i | 0 <= i < |q.cited|
      ensures q.cited[i] <= |q.deliveries| && q.state.requests[i].1 == Citation(q.deliveries, q.cited[i]) {
      if i < |r.state.requests| {
        assert t.requests[..|r.state.requests|][i] == r.state.requests[i];
      }
    }
  }

  /** Over every run each request cites the frame delivered last before it. */
  lemma {:induction false} RequestsCite(events: seq<Event>)
    ensures Cites(RunGate(events)) && KnowsLast(RunGate(events))
  {
    if |events| > 0 {
      hide Advanced, Cites, KnowsLast;
      RequestsCite(events[..|events| - 1]);
      CitesStep(RunGate(events[..|events| - 1]), events[|events| - 1]);
    }
  }
}
