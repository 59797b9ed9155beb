/** Live bitrate and parity share of a connection (crates/session/src/service.rs, `resolve_bitrates`, tick,
    `StartSession`, `SetBitrate`, `SetAbr`). */
module RateControl {
  import opened Wrappers
  import opened Arithmetic
  import opened Datagram

  const BITRATE_MIN_BPS: nat := 200_000
  const BITRATE_MAX_BPS: nat := 150_000_000
  const ABR_START_BPS: nat := 8_000_000
  const FEC_FLOOR_PERMILLE: nat := 60
  const FEC_CAP_PERMILLE: nat := 250

  /** Clamping, which panics when the bounds are crossed. */
  function Clamp(x: nat, low: nat, high: nat): (r: nat)
    requires low <= high
    ensures low <= r <= high
  {
    Max(low, Min(x, high))
  }

  /** Opening bitrate and ceiling. */
  function ResolveBitrates(requested: Option<u32>, abr: bool, hostCap: Option<u32>): (r: (u32, u32))
  {
    var host := if hostCap.Some? then Clamp(hostCap.value, BITRATE_MIN_BPS, BITRATE_MAX_BPS) else BITRATE_MAX_BPS;
    var wanted := if requested.Some? then Some(Clamp(requested.value, BITRATE_MIN_BPS, BITRATE_MAX_BPS)) else None;
    if abr then
      var ceiling := if wanted.Some? then Min(wanted.value, host) else host;
      (Min(ABR_START_BPS, ceiling), ceiling)
    else
      var rate := if wanted.Some? then wanted.value else host;
      (rate, rate)
  }

  datatype Rates = Rates(active: bool, live: u32, ceiling: u32, estimate: u32, abr: bool, fec: u32, liveFec: u32)

  datatype Event =
    | Starts(requested: Option<u32>, abr: bool, hostCap: Option<u32>, begun: bool)
    | Stops
    | Ticks(sent: nat, lost: nat, estimate: Option<nat>)
    | SetBitrate(bps: u32)
    | SetAbr(enabled: bool)

  function LossPermille(sent: nat, lost: nat): u32 {
    if sent == 0 then 0 else Min(lost * 1000 / sent, U32_RANGE - 1)
  }

  function NextFec(fec: u32, loss: u32): u32 {
    Clamp(Max(fec * 9 / 10, Min(4 * loss, U32_RANGE - 1)), FEC_FLOOR_PERMILLE, FEC_CAP_PERMILLE)
  }

  /** Nine tenths of the estimate, in thousandths. */
  function Budget(estimate: nat): nat {
    estimate * 90 / 100 * 1000
  }

  function Share(budget: nat, fec: nat): nat {
    budget / (1000 + fec)
  }

  /** What the encoder may use of the estimate once parity is added. */
  function Target(estimate: u32, fec: u32): u32 {
    TargetFits(estimate, fec);
    Share(Budget(estimate), fec)
  }

  lemma TargetFits(estimate: nat, fec: nat)
    ensures Share(Budget(estimate), fec) <= estimate
  {
    ShareFits(Budget(estimate), fec);
    MulMonotone(Share(Budget(estimate), fec), Share(Budget(estimate), fec), 1000, 1000 + fec);
  }

  lemma ShareFits(budget: nat, fec: nat)
    ensures Share(budget, fec) * (1000 + fec) <= budget
  {
    QuotientFits(budget, 1000 + fec);
  }

  lemma QuotientFits(a: nat, b: nat)
    requires b > 0
    ensures a / b * b <= a
  {
  }

  function Start(): Rates {
    Rates(false, 0, BITRATE_MAX_BPS, 0, false, FEC_FLOOR_PERMILLE, FEC_FLOOR_PERMILLE)
  }

  /** While a session runs, MIN <= live bitrate <= ceiling <= MAX, and parity stays in its band. */
  predicate InBounds(r: Rates) {
    && BITRATE_MIN_BPS <= r.ceiling <= BITRATE_MAX_BPS
    && (r.active ==> BITRATE_MIN_BPS <= r.live <= r.ceiling)
    && FEC_FLOOR_PERMILLE <= r.fec <= FEC_CAP_PERMILLE
    && (r.active ==> FEC_FLOOR_PERMILLE <= r.liveFec <= FEC_CAP_PERMILLE)
  }

  function Ticked(r: Rates, e: Event): Rates
    requires e.Ticks? && InBounds(r)
  {
    if !r.active then r
    else
      var estimate := if e.estimate.Some? then Min(e.estimate.value, U32_RANGE - 1) else r.estimate;
      var fec := NextFec(r.fec, LossPermille(e.sent, e.lost));
      var live :=
        if r.abr && estimate > 0 then Clamp(Target(estimate, fec), BITRATE_MIN_BPS, r.ceiling) else r.live;
      r.(estimate := estimate, fec := fec, liveFec := fec, live := live)
  }

  function Stepped(r: Rates, e: Event): Rates
    requires InBounds(r)
  {
    match e
    case Starts(requested, abr, hostCap, begun) =>
      if r.active || !begun then r
      else
        var (rate, ceiling) := ResolveBitrates(requested, abr, hostCap);
        r.(active := true, live := rate, ceiling := ceiling, abr := abr, liveFec := FEC_FLOOR_PERMILLE)
    case Stops => r.(active := false)
    case Ticks(_, _, _) => Ticked(r, e)
    case SetBitrate(bps) =>
      if !r.active then r
      else
        var clamped := Clamp(bps, BITRATE_MIN_BPS, BITRATE_MAX_BPS);
        r.(live := clamped, ceiling := clamped)
    case SetAbr(enabled) =>
      if enabled || !r.active then r.(abr := enabled)
      else
        var pinned := if r.estimate > 0 then Clamp(r.estimate * 90 / 100, BITRATE_MIN_BPS, r.ceiling) else r.ceiling;
        r.(abr := enabled, live := pinned)
  }

  class Connection {
    var active: bool
    var bitrate: u32
    var sessionCeiling: u32
    var lastEstimateBps: u32
    var abrEnabled: bool
    var fecPermille: u32
    var pipelineFec: u32

    function Abstract(): Rates
      reads this
    {
      Rates(active, bitrate, sessionCeiling, lastEstimateBps, abrEnabled, fecPermille, pipelineFec)
    }

    constructor ()
      ensures Abstract() == Start() && InBounds(Abstract())
    {
      active, bitrate, sessionCeiling, lastEstimateBps := false, 0, BITRATE_MAX_BPS, 0;
      abrEnabled, fecPermille, pipelineFec := false, FEC_FLOOR_PERMILLE, FEC_FLOOR_PERMILLE;
    }

    method StartSession(requested: Option<u32>, abr: bool, hostCap: Option<u32>, begun: bool)
      requires InBounds(Abstract())
      modifies this
      ensures Abstract() == Stepped(old(Abstract()), Starts(requested, abr, hostCap, begun)) && InBounds(Abstract())
    {
      if active || !begun {
        return;
      }
      StartInBounds(requested, abr, hostCap);
      var (rate, ceiling) := ResolveBitrates(requested, abr, hostCap);
      bitrate, pipelineFec := rate, FEC_FLOOR_PERMILLE;
      sessionCeiling := ceiling;
      abrEnabled := abr;
      active := true;
    }

    method StopSession()
      requires InBounds(Abstract())
      modifies this`active
      ensures Abstract() == Stepped(old(Abstract()), Stops) && InBounds(Abstract())
    {
      active := false;
    }

    method Tick(sent: nat, lost: nat, estimate: Option<nat>)
      requires InBounds(Abstract())
      modifies this
      ensures Abstract() == Stepped(old(Abstract()), Ticks(sent, lost, estimate)) && InBounds(Abstract())
    {
      hide LossPermille, Target;
      if active {
        if estimate.Some? {
          lastEstimateBps := Min(estimate.value, U32_RANGE - 1);
        }
        fecPermille := NextFec(fecPermille, LossPermille(sent, lost));
        pipelineFec := fecPermille;
        if abrEnabled && lastEstimateBps > 0 {
          bitrate := Clamp(Target(lastEstimateBps, fecPermille), BITRATE_MIN_BPS, sessionCeiling);
        }
      }
    }

    method ChangeBitrate(bps: u32)
      requires InBounds(Abstract())
      modifies this`bitrate, this`sessionCeiling
      ensures Abstract() == Stepped(old(Abstract()), SetBitrate(bps)) && InBounds(Abstract())
    {
      if active {
        var clamped := Clamp(bps, BITRATE_MIN_BPS, BITRATE_MAX_BPS);
        bitrate := clamped;
        sessionCeiling := clamped;
      }
    }

    method ChangeAbr(enabled: bool)
      requires InBounds(Abstract())
      modifies this`abrEnabled, this`bitrate
      ensures Abstract() == Stepped(old(Abstract()), SetAbr(enabled)) && InBounds(Abstract())
    {
      abrEnabled := enabled;
      if active && !enabled {
        bitrate :=
          if lastEstimateBps > 0 then Clamp(lastEstimateBps * 90 / 100, BITRATE_MIN_BPS, sessionCeiling)
          else sessionCeiling;
      }
    }
  }

  /** A session opens within the band, and under ABR never above the host's cap. */
  lemma StartInBounds(requested: Option<u32>, abr: bool, hostCap: Option<u32>)
    ensures var (rate, ceiling) := ResolveBitrates(requested, abr, hostCap);
      && BITRATE_MIN_BPS <= rate <= ceiling <= BITRATE_MAX_BPS
      && (!abr ==> rate == ceiling)
      && (abr && hostCap.Some? ==> ceiling <= Max(hostCap.value, BITRATE_MIN_BPS))
      && (abr && requested.Some? ==> ceiling <= Max(requested.value, BITRATE_MIN_BPS))
  {
  }

  /** Not above a given limit, which counts for at least the least bitrate. */
  ghost predicate Under(bps: nat, limit: Option<u32>) {
    limit.Some? ==> bps <= Max(limit.value, BITRATE_MIN_BPS)
  }

  /** Which bitrates an opening session may use: under ABR those within request and host cap, starting at 8 Mb/s or
      the largest of them; otherwise the request alone, and the host's cap when there is none, and it opens at the
      largest. */
  lemma StartExactly(requested: Option<u32>, abr: bool, hostCap: Option<u32>, bps: nat)
    requires BITRATE_MIN_BPS <= bps <= BITRATE_MAX_BPS
    ensures var (rate, ceiling) := ResolveBitrates(requested, abr, hostCap);
      && (abr ==> (bps <= ceiling <==> Under(bps, requested) && Under(bps, hostCap)))
      && (!abr ==> (bps <= ceiling <==> if requested.Some? then Under(bps, requested) else Under(bps, hostCap)))
      && (abr ==> (bps <= rate <==> bps <= 8_000_000 && bps <= ceiling))
      && (!abr ==> rate == ceiling)
  {
  }

  /** Turning ABR off in a session pins the largest bitrate up to the ceiling within nine tenths of the estimate, or
      the ceiling when nothing was estimated. */
  lemma PinnedExactly(r: Rates, bps: nat)
    requires InBounds(r) && r.active && BITRATE_MIN_BPS < bps <= r.ceiling
    ensures var t := Stepped(r, SetAbr(false));
      !t.abr && t.live <= r.ceiling == t.ceiling
      && (bps <= t.live <==> r.estimate == 0 || 10 * bps <= 9 * r.estimate)
  {
  }

  lemma StepInBounds(r: Rates, e: Event)
    requires InBounds(r)
    ensures InBounds(Stepped(r, e))
  {
    hide ResolveBitrates, Target, LossPermille;
    if e.Starts? {
      StartInBounds(e.requested, e.abr, e.hostCap);
    }
  }

  /** The bounds hold after every sequence of control messages and ticks; no clamp on the way has crossed bounds. */
  ghost function RunRates(events: seq<Event>): (r: Rates)
    ensures InBounds(r)
  {
    if |events| == 0 then Start()
    else
      var r := RunRates(events[..|events| - 1]);
      StepInBounds(r, events[|events| - 1]);
      Stepped(r, events[|events| - 1])
  }

  // ---------- Sessions and switches over a run ----------

  /** Event i began the streaming and nothing stopped it since. */
  ghost predicate StreamsSince(events: seq<Event>, i: nat) {
    i < |events| && events[i].Starts? && events[i].begun && forall j :: i < j < |events| ==> !events[j].Stops?
  }

  /** A session runs exactly when one was begun and none was stopped since. */
  lemma {:induction false} RunsSinceStart(events: seq<Event>)
    ensures RunRates(events).active <==> exists i: nat :: StreamsSince(events, i)
  {
    if |events| > 0 {
      hide InBounds, Ticked, ResolveBitrates;
      var n := |events| - 1;
      var before := events[..n];
      RunsSinceStart(before);
      StreamsOn(events);
    }
  }

  lemma StreamsOn(events: seq<Event>)
    requires |events| > 0
    ensures var n := |events| - 1;
      (exists i: nat :: StreamsSince(events, i)) <==>
        (events[n].Starts? && events[n].begun) || (!events[n].Stops? && exists i: nat :: StreamsSince(events[..n], i))
  {
    var n := |events| - 1;
    var before := events[..n];
    if i: nat :| StreamsSince(before, i) && !events[n].Stops? {
      assert StreamsSince(events, i);
    }
    if i: nat :| StreamsSince(events, i) {
      assert i < n ==> StreamsSince(before, i);
    }
    if events[n].Starts? && events[n].begun {
      assert StreamsSince(events, n);
    }
  }

  /** What the other events leave alone: the ABR switch is the last one set, by message or by the opening of a session;
      a session opens with floor parity on the wire; estimate and parity share change on ticks only. */
  lemma SwitchesFollow(r: Rates, e: Event)
    requires InBounds(r)
    ensures var t := Stepped(r, e);
      var opens := e.Starts? && e.begun && !r.active;
      && t.abr == (if e.SetAbr? then e.enabled else if opens then e.abr else r.abr)
      && (opens ==> t.liveFec == FEC_FLOOR_PERMILLE)
      && (!e.Ticks? ==> t.estimate == r.estimate && t.fec == r.fec && (!opens ==> t.liveFec == r.liveFec))
      && (e.Ticks? ==> t.ceiling == r.ceiling && (!r.active || !r.abr ==> t.live == r.live))
  {
    hide NextFec, Target, ResolveBitrates, LossPermille;
  }

  // ---------- The host's cap ----------

  /** The cap as it bounds an automatic session. */
  function HostLimit(hostCap: Option<u32>): u32 {
    if hostCap.Some? then Clamp(hostCap.value, BITRATE_MIN_BPS, BITRATE_MAX_BPS) else BITRATE_MAX_BPS
  }

  /** How the running session was opened, and the last manual bitrate since. */
  datatype Session = Session(hostCap: Option<u32>, byAbr: bool, manual: Option<u32>)

  ghost function SessionAfter(s: Session, r: Rates, e: Event): Session {
    match e
    case Starts(_, abr, hostCap, begun) => if r.active || !begun then s else Session(hostCap, abr, None)
    case SetBitrate(bps) => if r.active then s.(manual := Some(bps)) else s
    case _ => s
  }

  ghost function RunSession(events: seq<Event>): Session {
    if |events| == 0 then Session(None, false, None)
    else
      var n := |events| - 1;
      SessionAfter(RunSession(events[..n]), RunRates(events[..n]), events[n])
  }

  ghost predicate ManualWithin(s: Session) {
    s.manual.None? || Clamp(s.manual.value, BITRATE_MIN_BPS, BITRATE_MAX_BPS) <= HostLimit(s.hostCap)
  }

  ghost predicate CapKnown(r: Rates, s: Session) {
    r.active && s.byAbr ==>
      && (r.ceiling <= HostLimit(s.hostCap) <==> ManualWithin(s))
      && (s.manual.Some? ==> r.ceiling == Clamp(s.manual.value, BITRATE_MIN_BPS, BITRATE_MAX_BPS))
  }

  lemma CapStep(r: Rates, s: Session, e: Event)
    requires InBounds(r) && CapKnown(r, s)
    ensures CapKnown(Stepped(r, e), SessionAfter(s, r, e))
  {
    hide Target, NextFec, LossPermille;
  }

  /** Over every run: an automatic session's ceiling is within the host's cap exactly when no manual bitrate was set
      since it was opened, or the last one is within the cap. */
  lemma {:induction false} CeilingWithinCapExactlyWhen(events: seq<Event>)
    ensures CapKnown(RunRates(events), RunSession(events))
  {
    if |events| > 0 {
      hide CapKnown, Stepped, SessionAfter;
      CeilingWithinCapExactlyWhen(events[..|events| - 1]);
      CapStep(RunRates(events[..|events| - 1]), RunSession(events[..|events| - 1]), events[|events| - 1]);
    }
  }

  /** A host cap of 1 Mb/s, and a manual 5 Mb/s that replaces it. */
  lemma ManualExceedsCap()
    ensures var events := [Starts(None, true, Some(1_000_000), true), SetBitrate(5_000_000)];
      && RunSession(events) == Session(Some(1_000_000), true, Some(5_000_000))
      && RunRates(events).active && RunRates(events).ceiling == 5_000_000 && RunRates(events).live == 5_000_000
  {
    var first := Starts(None, true, Some(1_000_000), true);
    var events := [first, SetBitrate(5_000_000)];
    assert events[..1] == [first] && [first][..0] == [];
    assert RunRates([first]) == Stepped(RunRates([]), first);
    assert RunSession([first]) == SessionAfter(RunSession([]), RunRates([]), first);
  }

  /** After an automatic adjustment, encoder and parity together fit in nine tenths of the estimate, or the bitrate
      is already the least allowed. */
  lemma AdjustedFits(r: Rates, e: Event)
    requires InBounds(r) && e.Ticks?
    ensures var t := Ticked(r, e);
      r.active && r.abr && t.estimate > 0 ==>
        t.live == BITRATE_MIN_BPS || t.live * (1000 + t.liveFec) <= Budget(t.estimate)
  {
    hide LossPermille, NextFec, Share, Budget;
    var t := Ticked(r, e);
    ShareFits(Budget(t.estimate), t.fec);
    if r.active && r.abr && t.estimate > 0 && t.live != BITRATE_MIN_BPS {
      MulMonotone(t.live, Share(Budget(t.estimate), t.fec), 1000 + t.fec, 1000 + t.fec);
    }
  }

  /** A bitrate whose encoder output and parity fit in nine tenths of the estimate, cut to a whole number. */
  ghost predicate Fits(bps: nat, fec: nat, estimate: nat) {
    exists whole: nat :: NineTenths(whole, estimate) && bps * (1000 + fec) <= 1000 * whole
  }

  ghost predicate NineTenths(whole: nat, estimate: nat) {
    10 * whole <= 9 * estimate < 10 * (whole + 1)
  }

  lemma FitsBudget(bps: nat, fec: nat, estimate: nat)
    ensures Fits(bps, fec, estimate) <==> bps * (1000 + fec) <= Budget(estimate)
    ensures Budget(estimate) % 1000 == 0
  {
    assert NineTenths(estimate * 90 / 100, estimate);
  }

  /** And it is the largest such bitrate up to the ceiling. */
  lemma AdjustedIsLargest(r: Rates, e: Event, bps: nat)
    requires InBounds(r) && e.Ticks?
    requires BITRATE_MIN_BPS <= bps <= r.ceiling
    ensures var t := Ticked(r, e);
      r.active && r.abr && t.estimate > 0 ==>
        && BITRATE_MIN_BPS <= t.live <= r.ceiling
        && (bps > BITRATE_MIN_BPS ==> (bps <= t.live <==> Fits(bps, t.liveFec, t.estimate)))
  {
    hide LossPermille, NextFec, Share, Budget, Fits;
    var t := Ticked(r, e);
    FitsBudget(bps, t.fec, t.estimate);
    ShareLargest(Budget(t.estimate), t.fec, bps);
  }

  lemma ShareLargest(budget: nat, fec: nat, bps: nat)
    ensures bps <= Share(budget, fec) <==> bps * (1000 + fec) <= budget
  {
    var d, q := 1000 + fec, budget / (1000 + fec);
    assert budget == d * q + budget % d;
    if bps <= q {
      MulMonotone(bps, q, d, d);
    } else {
      MulMonotone(q + 1, bps, d, d);
    }
  }

  /** The estimate followed: the latest one reported, as far as 32 bits go. */
  lemma EstimateFollows(r: Rates, e: Event)
    requires InBounds(r) && e.Ticks? && r.active
    ensures e.estimate.None? ==> Ticked(r, e).estimate == r.estimate
    ensures e.estimate.Some? ==>
      (Ticked(r, e).estimate == e.estimate.value || Ticked(r, e).estimate == 0xffff_ffff < e.estimate.value)
  {
    hide LossPermille, NextFec, Target;
  }

  lemma LossMeasured(sent: nat, lost: nat)
    ensures var loss := LossPermille(sent, lost);
      if sent == 0 then loss == 0
      else loss * sent <= 1000 * lost && (1000 * lost < (loss + 1) * sent || loss == 0xffff_ffff)
  {
    if sent > 0 {
      var q := lost * 1000 / sent;
      assert lost * 1000 == sent * q + lost * 1000 % sent;
      if q > 0xffff_ffff {
        MulMonotone(0xffff_ffff, q, sent, sent);
      }
    }
  }

  /** Parity after a tick, from the packets sent and lost: at the cap, or above four times the permille lost less its
      rounding; never below nine tenths of the parity before; and not above the floor unless one of the two asks. */
  lemma ParityAnswersLoss(r: Rates, e: Event)
    requires InBounds(r) && e.Ticks? && r.active
    ensures var t := Ticked(r, e);
      && t.liveFec == t.fec && FEC_FLOOR_PERMILLE <= t.fec <= FEC_CAP_PERMILLE
      && (t.fec == FEC_CAP_PERMILLE || e.sent == 0 || 4000 * e.lost < (t.fec + 4) * e.sent)
      && 9 * r.fec <= 10 * t.fec + 9
      && (t.fec == FEC_FLOOR_PERMILLE || 10 * t.fec <= 9 * r.fec || (e.sent > 0 && t.fec * e.sent <= 4000 * e.lost))
  {
    hide LossPermille, Target, NextFec;
    LossMeasured(e.sent, e.lost);
    FecBetween(r.fec, LossPermille(e.sent, e.lost));
    if e.sent > 0 {
      InPackets(Ticked(r, e).fec, LossPermille(e.sent, e.lost), e.sent, e.lost);
    }
  }

  lemma FecBetween(fec: u32, loss: u32)
    requires FEC_FLOOR_PERMILLE <= fec <= FEC_CAP_PERMILLE
    ensures var next := NextFec(fec, loss);
      && FEC_FLOOR_PERMILLE <= next <= FEC_CAP_PERMILLE && 9 * fec <= 10 * next + 9
      && (next == FEC_CAP_PERMILLE || 4 * (loss as int) <= next)
      && (next == FEC_FLOOR_PERMILLE || 10 * next <= 9 * fec || next <= 4 * (loss as int))
  {
  }

  /** From permille lost to packets lost. */
  lemma InPackets(fec: nat, loss: nat, sent: nat, lost: nat)
    requires sent > 0 && loss * sent <= 1000 * lost
    ensures fec <= 4 * loss ==> fec * sent <= 4000 * lost
    ensures 1000 * lost < (loss + 1) * sent && 4 * loss <= fec ==> 4000 * lost < (fec + 4) * sent
  {
    if fec <= 4 * loss {
      MulMonotone(fec, 4 * loss, sent, sent);
      Quadruple(loss, sent);
    }
    if 4 * loss <= fec {
      MulMonotone(4 * (loss + 1), fec + 4, sent, sent);
      Quadruple(loss + 1, sent);
    }
  }

  lemma Quadruple(a: nat, b: nat)
    ensures 4 * a * b == 4 * (a * b)
  {
  }

  /** Parity covers four times the loss just seen, up to the cap. */
  lemma ParityCoversLoss(fec: u32, loss: u32)
    requires FEC_FLOOR_PERMILLE <= fec <= FEC_CAP_PERMILLE
    ensures NextFec(fec, loss) >= Min(4 * loss, FEC_CAP_PERMILLE)
  {
  }

  ghost function Decayed(fec: u32, ticks: nat): u32
    decreases ticks
  {
    if ticks == 0 then fec else NextFec(Decayed(fec, ticks - 1), 0)
  }

  /** Without loss parity never rises, and falls at least as fast as from the cap. */
  lemma {:induction false} DecaysToFloor(fec: u32, ticks: nat)
    requires FEC_FLOOR_PERMILLE <= fec <= FEC_CAP_PERMILLE
    ensures FEC_FLOOR_PERMILLE <= Decayed(fec, ticks) <= FEC_CAP_PERMILLE
    ensures ticks > 0 ==> Decayed(fec, ticks) <= Decayed(fec, ticks - 1)
    ensures Decayed(fec, ticks) <= Bound(ticks)
  {
    if ticks > 0 {
      DecaysToFloor(fec, ticks - 1);
      BoundDecays(ticks - 1);
    }
  }

  /** The cap after so many lossless ticks. */
  ghost function Bound(ticks: nat): nat {
    if ticks == 0 then FEC_CAP_PERMILLE else Max(Bound(ticks - 1) * 9 / 10, FEC_FLOOR_PERMILLE)
  }

  lemma BoundStart()
    ensures Bound(0) == FEC_CAP_PERMILLE
  {
  }

  lemma BoundDecays(ticks: nat)
    ensures Bound(ticks + 1) == Max(Bound(ticks) * 9 / 10, FEC_FLOOR_PERMILLE)
  {
  }

  /** Thirteen lossless ticks bring parity back to the floor from anywhere. */
  lemma AtFloor(fec: u32)
    requires FEC_FLOOR_PERMILLE <= fec <= FEC_CAP_PERMILLE
    ensures Decayed(fec, 13) == FEC_FLOOR_PERMILLE
  {
    hide Decayed, Bound;
    DecaysToFloor(fec, 13);
    var bounds := [250, 225, 202, 181, 162, 145, 130, 117, 105, 94, 84, 75, 67, 60];
    BoundStart();
    for k := 0 to 13
      invariant Bound(k) == bounds[k]
    {
      BoundDecays(k);
    }
  }
}
