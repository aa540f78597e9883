/**
 Tick() and ReportBootComplete() of the image confirmation as interleaved steps: every load, store,
 exchange and call to the bootloader, the probes or the watchdog is a step of its own. The two come from
 different threads, each of which makes one call at a time.
 A client may confirm the image, and time may pass, between any two steps.
 */
module ConfirmationSteps {
  import opened DfuStates

  /**
   The next step of Tick(). `checked` says that this tick judged the probes, `allRan` what it found.
   */
  datatype TickPc =
    | TIdle
    | TLoaded(seen: DfuState)
    | TClock(seen: DfuState)
    | TExchange
    | TLoadForProbes
    | TProbes
    | TStoreFailed
    | TLoadArmed(checked: bool, allRan: bool)
    | TFeed(checked: bool, allRan: bool)
    | TLoadForConfirm(checked: bool, allRan: bool)
    | TDelay(checked: bool, allRan: bool)
    | TConfirm(checked: bool, allRan: bool)
    | TStandDown
    | TDisableLoad
    | TDisableFeed
    | TDisableCall
    | TDisableStore

  datatype ReportPc = RIdle | RClock | RExchangeFailed | RStoreConfirmAt(now: nat) | RExchangeConfirming(now: nat)

  datatype Config = Config(selfConfirm: bool, deadline: nat, confirmDelay: nat)

  datatype FailedBy = Nobody | ByTick | ByReport

  /** Who stored FAILED, whether a Tick() was in flight then, and the feeds of Tick() since. */
  datatype Failure = Failure(actor: FailedBy, tickInFlight: bool, feeds: nat)

  datatype Machine = Machine(
    config: Config,
    state: DfuState,
    armed: bool,
    confirmAt: nat,
    bootConfirmed: bool,
    clock: nat,
    tick: TickPc,
    tickNow: nat,
    report: ReportPc,
    // History: the failure, when ReportBootComplete() read the clock and when it published CONFIRMING.
    failure: Failure,
    reportedAt: nat,
    publishedAt: nat)

  /** A step; `ok` and `allRan` are the outcomes of the call the step makes, if it makes one. */
  datatype Action =
    | TickActs(ok: bool, allRan: bool)
    | ReportActs
    | ClientConfirms
    | TimePasses(ms: nat)

  /** The step of Tick() that stores FAILED: its exchange succeeds, or the probes were not healthy. */
  predicate TickFails(m: Machine)
  {
    (m.tick.TExchange? && m.state == VERIFYING) || m.tick.TStoreFailed?
  }

  function NextPc(m: Machine, ok: bool, allRan: bool): TickPc
  {
    match m.tick
    case TIdle => if m.state == CONFIRMED then TDisableLoad else TLoaded(m.state)
    case TLoaded(seen) => if m.bootConfirmed then TStandDown else if seen == FAILED then TIdle else TClock(seen)
    case TClock(seen) => if seen == VERIFYING && m.config.deadline <= m.clock then TExchange else TLoadForProbes
    case TExchange => if m.state == VERIFYING || m.state == FAILED then TIdle else TLoadForProbes
    case TLoadForProbes => if m.state == CONFIRMING then TProbes else TLoadArmed(false, true)
    case TProbes => if ok then TLoadArmed(true, allRan) else TStoreFailed
    case TStoreFailed => TIdle
    case TLoadArmed(c, a) => if m.armed then TFeed(c, a) else TLoadForConfirm(c, a)
    case TFeed(c, a) => TLoadForConfirm(c, a)
    case TLoadForConfirm(c, a) => if m.config.selfConfirm && m.state == CONFIRMING then TDelay(c, a) else TIdle
    case TDelay(c, a) => if m.confirmAt <= m.tickNow && a then TConfirm(c, a) else TIdle
    case TConfirm(_, _) => if ok then TStandDown else TIdle
    case TStandDown => TDisableLoad
    case TDisableLoad => if m.armed then TDisableFeed else TIdle
    case TDisableFeed => TDisableCall
    case TDisableCall => if ok then TDisableStore else TIdle
    case TDisableStore => TIdle
  }

  function TickStep(m: Machine, ok: bool, allRan: bool): Machine
  {
    m.(tick := NextPc(m, ok, allRan),
       tickNow := if m.tick.TClock? then m.clock else m.tickNow,
       state := if TickFails(m) then FAILED else if m.tick.TStandDown? then CONFIRMED else m.state,
       armed := m.armed && !m.tick.TDisableStore?,
       bootConfirmed := m.bootConfirmed || (m.tick.TConfirm? && ok),
       failure := if TickFails(m) then Failure(ByTick, true, 0)
                  else if m.tick.TFeed? && m.state == FAILED then m.failure.(feeds := m.failure.feeds + 1)
                  else m.failure)
  }

  predicate ReportFails(m: Machine)
  {
    m.report.RExchangeFailed? && m.state == VERIFYING
  }

  /** The step of ReportBootComplete() that publishes CONFIRMING. */
  predicate ReportPublishes(m: Machine)
  {
    m.report.RExchangeConfirming? && m.state == VERIFYING
  }

  function NextReportPc(m: Machine): ReportPc
  {
    match m.report
    case RIdle => if m.state == VERIFYING then RClock else RIdle
    case RClock => if m.config.deadline <= m.clock then RExchangeFailed else RStoreConfirmAt(m.clock)
    case RExchangeFailed => RIdle
    case RStoreConfirmAt(now) => RExchangeConfirming(now)
    case RExchangeConfirming(_) => RIdle
  }

  function ReportStep(m: Machine): Machine
  {
    m.(report := NextReportPc(m),
       confirmAt := if m.report.RStoreConfirmAt? then m.report.now + m.config.confirmDelay else m.confirmAt,
       state := if ReportFails(m) then FAILED else if ReportPublishes(m) then CONFIRMING else m.state,
       failure := if ReportFails(m) then Failure(ByReport, !m.tick.TIdle?, 0) else m.failure,
       reportedAt := if ReportPublishes(m) then m.report.now else m.reportedAt,
       publishedAt := if ReportPublishes(m) then m.clock else m.publishedAt)
  }

  function Step(m: Machine, a: Action): Machine
  {
    match a
    case TickActs(ok, allRan) => TickStep(m, ok, allRan)
    case ReportActs => ReportStep(m)
    case ClientConfirms => m.(bootConfirmed := true)
    case TimePasses(ms) => m.(clock := m.clock + ms)
  }

  /** The machine after Initialize(). */
  predicate IsInitial(m: Machine)
  {
    && m.tick == TIdle && m.report == RIdle && m.failure.actor == Nobody && m.failure.feeds == 0
    && (if m.bootConfirmed then m.state == CONFIRMED && !m.armed else m.state == VERIFYING)
  }

  function Run(m: Machine, actions: seq<Action>): Machine
    decreases |actions|
  {
    if actions == [] then m else Run(Step(m, actions[0]), actions[1..])
  }

  // ---- What every step keeps --------------------------------------------------------------------

  predicate IsDisabling(pc: TickPc)
  {
    pc.TDisableLoad? || pc.TDisableFeed? || pc.TDisableCall? || pc.TDisableStore?
  }

  /** Tick() is past its checks for a decided state, so it may still feed. */
  predicate MayFeed(pc: TickPc)
  {
    pc.TExchange? || pc.TLoadForProbes? || pc.TLoadArmed? || pc.TFeed? || (pc.TClock? && pc.seen == VERIFYING)
    || (pc.TLoaded? && pc.seen == VERIFYING)
  }

  /** Tick() has fed or will not feed any more. */
  predicate IsPastFeed(pc: TickPc)
  {
    pc.TIdle? || pc.TLoadForConfirm? || pc.TStandDown? || (pc.TLoaded? && pc.seen == FAILED)
  }

  predicate TickIsCoherent(m: Machine)
  {
    && (m.state == CONFIRMED ==> m.bootConfirmed && (m.tick == TIdle || IsDisabling(m.tick)))
    && (IsDisabling(m.tick) ==> m.state == CONFIRMED)
    && (m.tick.TStandDown? ==> m.bootConfirmed)
    && (m.tick.TLoaded? ==> m.tick.seen != CONFIRMED && (m.tick.seen != VERIFYING ==> m.state == m.tick.seen))
    && (m.tick.TClock? ==> m.tick.seen == VERIFYING || (m.tick.seen == CONFIRMING && m.state == CONFIRMING))
    && (m.tick.TProbes? || m.tick.TStoreFailed? || m.tick.TDelay? || m.tick.TConfirm? ==> m.state == CONFIRMING)
    && (m.tick.TDelay? || m.tick.TConfirm? ==> m.config.selfConfirm)
    && (m.tick.TConfirm? ==> m.tick.allRan)
  }

  predicate FailedIsCoherent(m: Machine)
  {
    m.state == FAILED ==>
      && m.failure.actor != Nobody
      && (m.failure.actor == ByTick ==> m.failure.feeds == 0 && (m.tick.TIdle? || m.tick == TLoaded(FAILED) || m.tick.TStandDown?))
      && (m.failure.actor == ByReport ==>
            if MayFeed(m.tick) then m.failure.feeds == 0 && m.failure.tickInFlight
            else IsPastFeed(m.tick) && m.failure.feeds <= (if m.failure.tickInFlight then 1 else 0))
  }

  /** This tick did not judge the probes, and what it knows is older than a CONFIRMING published since. */
  predicate SkippedProbes(pc: TickPc)
  {
    (pc.TLoadArmed? || pc.TFeed? || pc.TLoadForConfirm? || pc.TDelay? || pc.TConfirm?) && !pc.checked
  }

  /** CONFIRMING was published by a report in time, with the end of the delay stored before. */
  predicate ReportIsCoherent(m: Machine)
  {
    && (m.report.RStoreConfirmAt? ==> m.report.now < m.config.deadline && m.report.now <= m.clock)
    && (m.report.RExchangeConfirming? ==>
          m.report.now < m.config.deadline && m.report.now <= m.clock
          && m.confirmAt == m.report.now + m.config.confirmDelay)
    && (m.state == CONFIRMING ==>
          m.report.RIdle? && m.reportedAt < m.config.deadline
          && m.confirmAt == m.reportedAt + m.config.confirmDelay && m.reportedAt <= m.publishedAt <= m.clock)
  }

  predicate DelayIsCoherent(m: Machine)
  {
    && m.tickNow <= m.clock
    && (m.state == CONFIRMING && SkippedProbes(m.tick) ==> m.tickNow <= m.publishedAt)
    && (m.tick.TConfirm? ==> m.confirmAt <= m.tickNow)
  }

  predicate Invariant(m: Machine)
  {
    TickIsCoherent(m) && FailedIsCoherent(m) && ReportIsCoherent(m) && DelayIsCoherent(m)
  }

  lemma TickKeepsTick(m: Machine, ok: bool, allRan: bool)
    requires TickIsCoherent(m)
    ensures TickIsCoherent(TickStep(m, ok, allRan))
  {
  }

  lemma TickKeepsFailed(m: Machine, ok: bool, allRan: bool)
    requires TickIsCoherent(m) && FailedIsCoherent(m)
    ensures FailedIsCoherent(TickStep(m, ok, allRan))
  {
  }

  /** What a step of Tick() leaves alone. */
  lemma TickFrame(m: Machine, ok: bool, allRan: bool)
    ensures var n := TickStep(m, ok, allRan);
      && n.config == m.config && n.report == m.report && n.confirmAt == m.confirmAt && n.clock == m.clock
      && n.reportedAt == m.reportedAt && n.publishedAt == m.publishedAt
      && (n.state == m.state || n.state == FAILED || n.state == CONFIRMED)
      && (m.bootConfirmed ==> n.bootConfirmed)
  {
  }

  lemma TickKeepsReport(m: Machine, ok: bool, allRan: bool)
    requires ReportIsCoherent(m)
    ensures ReportIsCoherent(TickStep(m, ok, allRan))
  {
    hide TickStep;
    TickFrame(m, ok, allRan);
  }

  lemma TickKeepsDelay(m: Machine, ok: bool, allRan: bool)
    requires DelayIsCoherent(m) && (m.state == CONFIRMING ==> m.publishedAt <= m.clock)
    ensures DelayIsCoherent(TickStep(m, ok, allRan))
  {
    TickFrame(m, ok, allRan);
  }

  lemma ReportKeepsTick(m: Machine)
    requires TickIsCoherent(m)
    ensures TickIsCoherent(ReportStep(m))
  {
  }

  lemma ReportKeepsFailed(m: Machine)
    requires TickIsCoherent(m) && FailedIsCoherent(m)
    ensures FailedIsCoherent(ReportStep(m))
  {
  }

  lemma ReportKeepsReport(m: Machine)
    requires ReportIsCoherent(m)
    ensures ReportIsCoherent(ReportStep(m))
  {
  }

  lemma ReportKeepsDelay(m: Machine)
    requires DelayIsCoherent(m) && ReportIsCoherent(m) && (m.tick.TConfirm? ==> m.state == CONFIRMING)
    ensures DelayIsCoherent(ReportStep(m))
  {
  }

  lemma StepKeepsInvariant(m: Machine, a: Action)
    requires Invariant(m)
    ensures Invariant(Step(m, a))
  {
    hide TickStep, ReportStep;
    match a
    case TickActs(ok, allRan) =>
      TickKeepsTick(m, ok, allRan);
      TickKeepsFailed(m, ok, allRan);
      TickKeepsReport(m, ok, allRan);
      TickKeepsDelay(m, ok, allRan);
    case ReportActs =>
      ReportKeepsTick(m);
      ReportKeepsFailed(m);
      ReportKeepsReport(m);
      ReportKeepsDelay(m);
    case ClientConfirms =>
    case TimePasses(_) =>
  }

  lemma {:induction false} RunKeepsInvariant(m: Machine, actions: seq<Action>)
    requires Invariant(m)
    ensures Invariant(Run(m, actions))
    decreases |actions|
  {
    hide Invariant, Step;
    if actions != [] {
      StepKeepsInvariant(m, actions[0]);
      RunKeepsInvariant(Step(m, actions[0]), actions[1..]);
    }
  }

  // ---- What holds in every run ------------------------------------------------------------------

  predicate Starts(m: Machine)
  {
    IsInitial(m) && m.tickNow <= m.clock
  }

  lemma {:induction false} RunAppend(m: Machine, before: seq<Action>, after: seq<Action>)
    ensures Run(m, before + after) == Run(Run(m, before), after)
    decreases |before|
  {
    if before == [] {
      assert before + after == after;
    } else {
      assert (before + after)[1..] == before[1..] + after;
      RunAppend(Step(m, before[0]), before[1..], after);
    }
  }

  /** Under every interleaving CONFIRMED is final, and the bootloader reports the image confirmed. */
  lemma ConfirmedIsFinal(m: Machine, before: seq<Action>, after: seq<Action>)
    requires Starts(m) && Run(m, before).state == CONFIRMED
    ensures Run(m, before + after).state == CONFIRMED && Run(m, before + after).bootConfirmed
  {
    RunAppend(m, before, after);
    RunKeepsInvariant(m, before);
    ConfirmedStays(Run(m, before), after);
    RunKeepsInvariant(m, before + after);
  }

  lemma {:induction false} ConfirmedStays(m: Machine, actions: seq<Action>)
    requires Invariant(m) && m.state == CONFIRMED
    ensures Run(m, actions).state == CONFIRMED
    decreases |actions|
  {
    if actions != [] {
      StepKeepsInvariant(m, actions[0]);
      ConfirmedStays(Step(m, actions[0]), actions[1..]);
    }
  }

  /** FAILED is left for CONFIRMED only, by a tick that found the image confirmed meanwhile. */
  lemma FailedIsLeftWhenConfirmed(m: Machine, actions: seq<Action>, a: Action)
    requires Starts(m)
    ensures var before := Run(m, actions);
      before.state == FAILED && Step(before, a).state != FAILED ==>
        Step(before, a).state == CONFIRMED && before.bootConfirmed && before.tick.TStandDown?
  {
    RunKeepsInvariant(m, actions);
  }

  /**
   After Tick() stored FAILED it never feeds again; after ReportBootComplete() stored it, the one Tick()
   in flight at that moment may still feed once.
   */
  lemma FeedsAfterFailed(m: Machine, actions: seq<Action>)
    requires Starts(m)
    ensures var now := Run(m, actions);
      now.state == FAILED ==>
        now.failure.feeds <= (if now.failure.actor == ByReport && now.failure.tickInFlight then 1 else 0)
  {
    RunKeepsInvariant(m, actions);
  }

  /**
   The image confirms itself only when it may, after a report before the deadline and once the delay
   has passed, on a tick that judged the probes and found that each ran since its latest post. The last
   holds unless ReportBootComplete() took the whole delay from reading the clock to publishing CONFIRMING.
   */
  lemma ConfirmIsGated(m: Machine, actions: seq<Action>)
    requires Starts(m)
    ensures var now := Run(m, actions);
      now.tick.TConfirm? ==>
        && now.config.selfConfirm && now.state == CONFIRMING
        && now.reportedAt < now.config.deadline
        && now.reportedAt + now.config.confirmDelay <= now.clock
        && (now.publishedAt < now.reportedAt + now.config.confirmDelay ==> now.tick.checked && now.tick.allRan)
  {
    RunKeepsInvariant(m, actions);
  }

  // ---- When the probes can be skipped -----------------------------------------------------------

  /** Every reading of the clock is from `start` on, and a tick that skipped the probes read it before the deadline. */
  predicate IsSince(m: Machine, start: nat)
  {
    && start <= m.clock
    && (m.report.RStoreConfirmAt? || m.report.RExchangeConfirming? ==> start <= m.report.now)
    && (m.state == CONFIRMING ==> start <= m.reportedAt)
    && (m.tick.TLoadForProbes? && m.state == VERIFYING ==> m.tickNow < m.config.deadline)
    && (SkippedProbes(m.tick) && (m.state == VERIFYING || m.state == CONFIRMING) ==> m.tickNow < m.config.deadline)
  }

  lemma TickKeepsSince(m: Machine, start: nat, ok: bool, allRan: bool)
    requires TickIsCoherent(m) && IsSince(m, start)
    ensures IsSince(TickStep(m, ok, allRan), start)
  {
  }

  lemma ReportKeepsSince(m: Machine, start: nat)
    requires TickIsCoherent(m) && IsSince(m, start)
    ensures IsSince(ReportStep(m), start)
  {
  }

  lemma {:induction false} RunKeepsSince(m: Machine, actions: seq<Action>, start: nat)
    requires Invariant(m) && IsSince(m, start)
    ensures Invariant(Run(m, actions)) && IsSince(Run(m, actions), start) && Run(m, actions).config == m.config
    decreases |actions|
  {
    hide TickStep, ReportStep, TickIsCoherent, FailedIsCoherent, ReportIsCoherent, DelayIsCoherent;
    if actions != [] {
      var next := Step(m, actions[0]);
      StepKeepsInvariant(m, actions[0]);
      StepKeepsConfig(m, actions[0]);
      match actions[0] {
        case TickActs(ok, allRan) => TickKeepsSince(m, start, ok, allRan);
        case ReportActs => ReportKeepsSince(m, start);
        case ClientConfirms =>
        case TimePasses(_) =>
      }
      RunKeepsSince(next, actions[1..], start);
    }
  }

  lemma StepKeepsConfig(m: Machine, a: Action)
    ensures Step(m, a).config == m.config
  {
  }

  /** An image confirmed at the start never confirms itself. */
  lemma ConfirmedStartStays(m: Machine, actions: seq<Action>)
    requires Starts(m) && m.bootConfirmed
    ensures !Run(m, actions).tick.TConfirm?
  {
    assert Run(m, []) == m && [] + actions == actions;
    ConfirmedIsFinal(m, [], actions);
    RunKeepsInvariant(m, actions);
  }

  lemma UncheckedConfirmNeedsRoom(m: Machine, actions: seq<Action>)
    requires Starts(m) && Run(m, actions).tick.TConfirm? && !Run(m, actions).tick.checked
    ensures m.config.selfConfirm && !m.bootConfirmed && m.clock + m.config.confirmDelay < m.config.deadline
  {
    RunKeepsSince(m, actions, m.clock);
    if m.bootConfirmed {
      ConfirmedStartStays(m, actions);
    }
  }

  /** A report held up between its clock reading and its exchange, over a tick that loaded VERIFYING. */
  function HeldUpReport(m: Machine): seq<Action>
  {
    var tick := TickActs(true, true);
    [ReportActs, ReportActs, ReportActs, TimePasses(m.config.confirmDelay), tick, tick, tick]
    + ([tick, ReportActs, tick, tick, tick] + (if m.armed then [tick] else []))
  }

  /**
   On a clock that does not wrap, the code can confirm the image on a tick that judged no probe exactly when the
   image may confirm itself, is not confirmed already, and its confirm delay ends before the boot deadline.
   */
  lemma UncheckedConfirmIff(m: Machine)
    requires Starts(m)
    ensures (exists actions :: Run(m, actions).tick == TConfirm(false, true)) <==>
      m.config.selfConfirm && !m.bootConfirmed && m.clock + m.config.confirmDelay < m.config.deadline
  {
    hide Run, Starts;
    forall actions | Run(m, actions).tick == TConfirm(false, true)
      ensures m.config.selfConfirm && !m.bootConfirmed && m.clock + m.config.confirmDelay < m.config.deadline
    {
      UncheckedConfirmNeedsRoom(m, actions);
    }
    if m.config.selfConfirm && !m.bootConfirmed && m.clock + m.config.confirmDelay < m.config.deadline {
      HeldUpReportSkipsProbes(m);
    }
  }

  /** With a delay that does not end before the deadline, every confirmation judged the probes and found they all ran. */
  lemma LongDelayJudgesProbes(m: Machine, actions: seq<Action>)
    requires Starts(m) && m.config.deadline <= m.clock + m.config.confirmDelay
    ensures var now := Run(m, actions); now.tick.TConfirm? ==> now.tick.checked && now.tick.allRan
  {
    hide Run, Starts;
    ConfirmsWhenAllRan(m, actions);
    if Run(m, actions).tick.TConfirm? && !Run(m, actions).tick.checked {
      UncheckedConfirmNeedsRoom(m, actions);
    }
  }

  lemma ConfirmsWhenAllRan(m: Machine, actions: seq<Action>)
    requires Starts(m)
    ensures Run(m, actions).tick.TConfirm? ==> Run(m, actions).tick.allRan
  {
    RunKeepsInvariant(m, actions);
  }

  /** A run in which that happens, from any start. */
  lemma HeldUpReportSkipsProbes(m: Machine)
    requires Starts(m) && !m.bootConfirmed && m.config.selfConfirm
    requires m.clock + m.config.confirmDelay < m.config.deadline
    ensures Run(m, HeldUpReport(m)).tick == TConfirm(false, true)
  {
    var tick := TickActs(true, true);
    var first := [ReportActs, ReportActs, ReportActs, TimePasses(m.config.confirmDelay), tick, tick, tick];
    var second := [tick, ReportActs, tick, tick, tick] + (if m.armed then [tick] else []);
    RunAppend(m, first, second);
    ReportIsHeldUp(m);
    TickConfirmsUnchecked(Run(m, first), second);
  }

  lemma ReportIsHeldUp(m: Machine)
    requires m.tick == TIdle && m.report == RIdle && m.state == VERIFYING && !m.bootConfirmed
    requires m.clock + m.config.confirmDelay < m.config.deadline
    ensures var tick := TickActs(true, true);
      var delay, end := m.config.confirmDelay, m.clock + m.config.confirmDelay;
      Run(m, [ReportActs, ReportActs, ReportActs, TimePasses(delay), tick, tick, tick])
      == m.(report := RExchangeConfirming(m.clock), confirmAt := end, clock := end, tickNow := end, tick := TLoadForProbes)
  {
    hide Run;
    var tick := TickActs(true, true);
    var delay, end := m.config.confirmDelay, m.clock + m.config.confirmDelay;
    var held := m.(report := RExchangeConfirming(m.clock), confirmAt := end, clock := end);
    var upToDelay := [ReportActs, ReportActs, ReportActs, TimePasses(delay)];
    ReportWaitsForDelay(m);
    assert upToDelay + [tick, tick, tick] == [ReportActs, ReportActs, ReportActs, TimePasses(delay), tick, tick, tick];
    RunAppend(m, upToDelay, [tick, tick, tick]);
    assert Step(Step(Step(held, tick), tick), tick) == held.(tickNow := end, tick := TLoadForProbes);
    ThreeSteps(held, tick);
  }

  lemma ReportWaitsForDelay(m: Machine)
    requires m.tick == TIdle && m.report == RIdle && m.state == VERIFYING && !m.bootConfirmed
    requires m.clock + m.config.confirmDelay < m.config.deadline
    ensures var delay, end := m.config.confirmDelay, m.clock + m.config.confirmDelay;
      Run(m, [ReportActs, ReportActs, ReportActs, TimePasses(delay)])
      == m.(report := RExchangeConfirming(m.clock), confirmAt := end, clock := end)
  {
    hide Run;
    var delay := TimePasses(m.config.confirmDelay);
    var stored := m.(report := RExchangeConfirming(m.clock), confirmAt := m.clock + m.config.confirmDelay);
    assert Step(Step(Step(m, ReportActs), ReportActs), ReportActs) == stored;
    assert [ReportActs, ReportActs, ReportActs] + [delay] == [ReportActs, ReportActs, ReportActs, delay];
    RunAppend(m, [ReportActs, ReportActs, ReportActs], [delay]);
    ThreeSteps(m, ReportActs);
    OneStep(stored, delay);
  }

  /** From there the tick goes on to Confirm(), with a feed on the way when the watchdog is armed. */
  lemma TickConfirmsUnchecked(m: Machine, actions: seq<Action>)
    requires m.tick == TLoadForProbes && m.report.RExchangeConfirming? && m.state == VERIFYING
    requires m.config.selfConfirm && m.confirmAt <= m.tickNow
    requires var tick := TickActs(true, true);
      actions == [tick, ReportActs, tick, tick, tick] + (if m.armed then [tick] else [])
    ensures Run(m, actions).tick == TConfirm(false, true)
  {
    hide Run;
    var tick := TickActs(true, true);
    var m2 := Step(Step(m, tick), ReportActs);
    assert m2.tick == TLoadArmed(false, true) && m2.state == CONFIRMING;
    var fed := if m.armed then Step(m2, tick) else m2;
    var m4 := Step(fed, tick);
    assert m4.tick == TLoadForConfirm(false, true) && m4.state == CONFIRMING;
    var last := Step(Step(m4, tick), tick);
    assert last.tick == TConfirm(false, true);
    RunsOf(m, tick, actions[1..]);
    RunsOf(Step(m, tick), ReportActs, actions[2..]);
    assert actions == [tick] + actions[1..] && actions[1..] == [ReportActs] + actions[2..];
    assert actions[2..] == (if m.armed then [tick] else []) + [tick, tick, tick];
    if m.armed {
      RunsOf(m2, tick, [tick, tick, tick]);
    }
    ThreeSteps(fed, tick);
  }

  lemma ThreeSteps(m: Machine, a: Action)
    ensures Run(m, [a, a, a]) == Step(Step(Step(m, a), a), a)
    ensures [] + [a, a, a] == [a, a, a]
  {
    RunsOf(m, a, [a, a]);
    RunsOf(Step(m, a), a, [a]);
    RunsOf(Step(Step(m, a), a), a, []);
  }

  lemma OneStep(m: Machine, a: Action)
    ensures Run(m, [a]) == Step(m, a)
  {
  }

  lemma RunsOf(m: Machine, a: Action, rest: seq<Action>)
    ensures Run(m, [a] + rest) == Run(Step(m, a), rest)
  {
    assert ([a] + rest)[1..] == rest;
  }

  /** The count of feeds since FAILED was stored goes up by one with each, and only with those. */
  lemma FeedsAreCounted(m: Machine, a: Action)
    requires m.state == FAILED
    ensures var fed := a.TickActs? && m.tick.TFeed?;
      !(a.TickActs? && TickFails(m)) ==> Step(m, a).failure == m.failure.(feeds := m.failure.feeds + if fed then 1 else 0)
  {
  }

  // ---- Calls that nothing interrupts ------------------------------------------------------------

  /** What the probes, the bootloader and the watchdog answer during one Tick(). */
  datatype Answers = Answers(isHealthy: bool, allRan: bool, confirms: bool, disables: bool)

  /** The machine after a Tick(), and what it called: Feed() before the confirmation, Confirm(), Feed() before the disable. */
  datatype Done = Done(m: Machine, fed: bool, confirmCalled: bool, standDownFed: bool)

  function AnswerTo(pc: TickPc, a: Answers): bool
  {
    if pc.TProbes? then a.isHealthy else if pc.TConfirm? then a.confirms else a.disables
  }

  function StepsLeft(pc: TickPc): nat
  {
    match pc
    case TIdle => 0 case TDisableStore => 1 case TStoreFailed => 1 case TDisableCall => 2 case TDisableFeed => 3
    case TDisableLoad => 4 case TStandDown => 5 case TConfirm(_, _) => 6 case TDelay(_, _) => 7
    case TLoadForConfirm(_, _) => 8 case TFeed(_, _) => 9 case TLoadArmed(_, _) => 10 case TProbes => 11
    case TLoadForProbes => 12 case TExchange => 13 case TClock(_) => 14 case TLoaded(_) => 15
  }

  /** The rest of a Tick() with no other step in between. */
  function Finish(m: Machine, a: Answers): Done
    decreases StepsLeft(m.tick)
  {
    if m.tick == TIdle then Done(m, false, false, false)
    else
      var rest := Finish(TickStep(m, AnswerTo(m.tick, a), a.allRan), a);
      Done(rest.m, rest.fed || m.tick.TFeed?, rest.confirmCalled || m.tick.TConfirm?, rest.standDownFed || m.tick.TDisableFeed?)
  }

  /** Starts a Tick() and carries it through. */
  function WholeTick(m: Machine, a: Answers): Done
    requires m.tick == TIdle
  {
    Finish(TickStep(m, true, true), a)
  }

  /** Tick() goes as far as feeding the watchdog. */
  predicate ReachesFeed(m: Machine, a: Answers)
  {
    !m.bootConfirmed && ((m.state == VERIFYING && m.clock < m.config.deadline) || (m.state == CONFIRMING && a.isHealthy))
  }

  predicate CallsConfirm(m: Machine, a: Answers)
  {
    ReachesFeed(m, a) && m.state == CONFIRMING && m.config.selfConfirm && m.confirmAt <= m.clock && a.allRan
  }

  lemma FinishOne(m: Machine, a: Answers)
    requires m.tick != TIdle
    ensures var rest := Finish(TickStep(m, AnswerTo(m.tick, a), a.allRan), a);
      Finish(m, a) == Done(rest.m, rest.fed || m.tick.TFeed?, rest.confirmCalled || m.tick.TConfirm?,
                           rest.standDownFed || m.tick.TDisableFeed?)
  {
    hide TickStep;
  }

  lemma FinishNone(m: Machine, a: Answers)
    requires m.tick == TIdle
    ensures Finish(m, a) == Done(m, false, false, false)
  {
    hide TickStep;
  }

  lemma DisableIsFinished(m: Machine, a: Answers)
    requires m.tick == TDisableCall
    ensures Finish(m, a) == Done(m.(tick := TIdle, armed := m.armed && !a.disables), false, false, false)
  {
    hide Finish;
    var next := TickStep(m, a.disables, a.allRan);
    var last := m.(tick := TIdle, armed := m.armed && !a.disables);
    FinishOne(m, a);
    if a.disables {
      FinishOne(next, a);
      assert TickStep(next, true, a.allRan) == last;
    }
    FinishNone(last, a);
  }

  lemma DisableIsLoaded(m: Machine, a: Answers)
    requires m.tick == TDisableLoad && m.state == CONFIRMED
    ensures Finish(m, a) == Done(m.(tick := TIdle, armed := m.armed && !a.disables), false, false, m.armed)
  {
    hide Finish;
    FinishOne(m, a);
    if m.armed {
      var feed := TickStep(m, a.disables, a.allRan);
      FinishOne(feed, a);
      DisableIsFinished(TickStep(feed, a.disables, a.allRan), a);
    } else {
      FinishNone(m.(tick := TIdle), a);
    }
  }

  lemma StandDownIsFinished(m: Machine, a: Answers)
    requires m.tick == TStandDown
    ensures Finish(m, a) == Done(m.(tick := TIdle, state := CONFIRMED, armed := m.armed && !a.disables), false, false, m.armed)
  {
    hide Finish;
    FinishOne(m, a);
    DisableIsLoaded(TickStep(m, a.disables, a.allRan), a);
  }

  /** What is left of a Tick() at the guards of Confirm() comes to. */
  function Confirmed(m: Machine, a: Answers, calls: bool): Done
  {
    var confirmed := calls && a.confirms;
    Done(m.(tick := TIdle, bootConfirmed := m.bootConfirmed || confirmed, state := if confirmed then CONFIRMED else m.state,
            armed := m.armed && !(confirmed && a.disables)), false, calls, m.armed && confirmed)
  }

  lemma ConfirmIsFinished(m: Machine, a: Answers)
    requires m.tick.TConfirm?
    ensures Finish(m, a) == Confirmed(m, a, true)
  {
    hide Finish;
    FinishOne(m, a);
    var next := TickStep(m, a.confirms, a.allRan);
    if a.confirms {
      StandDownIsFinished(next, a);
    } else {
      FinishNone(next, a);
    }
  }

  lemma GuardsAreFinished(m: Machine, a: Answers)
    requires m.tick.TLoadForConfirm?
    ensures Finish(m, a) ==
      Confirmed(m, a, m.config.selfConfirm && m.state == CONFIRMING && m.confirmAt <= m.tickNow && m.tick.allRan)
  {
    hide Finish;
    FinishOne(m, a);
    var delay := TickStep(m, a.disables, a.allRan);
    if delay.tick == TIdle {
      FinishNone(delay, a);
    } else {
      FinishOne(delay, a);
      var confirm := TickStep(delay, a.disables, a.allRan);
      if confirm.tick == TIdle { FinishNone(confirm, a); } else { ConfirmIsFinished(confirm, a); }
    }
  }

  lemma FeedIsFinished(m: Machine, a: Answers)
    requires m.tick.TLoadArmed? && m.state != FAILED
    ensures Finish(m, a) ==
      Confirmed(m, a, m.config.selfConfirm && m.state == CONFIRMING && m.confirmAt <= m.tickNow && m.tick.allRan).(fed := m.armed)
  {
    hide Finish;
    FinishOne(m, a);
    var next := TickStep(m, a.disables, a.allRan);
    if m.armed {
      FinishOne(next, a);
      GuardsAreFinished(TickStep(next, a.disables, a.allRan), a);
    } else {
      GuardsAreFinished(next, a);
    }
  }

  lemma ProbesAreFinished(m: Machine, a: Answers)
    requires m.tick == TLoadForProbes && (m.state == VERIFYING || m.state == CONFIRMING)
    ensures Finish(m, a) ==
      if m.state == CONFIRMING && !a.isHealthy then
        Done(m.(tick := TIdle, state := FAILED, failure := Failure(ByTick, true, 0)), false, false, false)
      else
        Confirmed(m, a, m.config.selfConfirm && m.state == CONFIRMING && m.confirmAt <= m.tickNow && a.allRan).(fed := m.armed)
  {
    hide Finish;
    FinishOne(m, a);
    var next := TickStep(m, a.disables, a.allRan);
    if m.state == CONFIRMING {
      FinishOne(next, a);
      var judged := TickStep(next, a.isHealthy, a.allRan);
      if a.isHealthy {
        FeedIsFinished(judged, a);
      } else {
        FinishOne(judged, a);
        FinishNone(TickStep(judged, a.disables, a.allRan), a);
      }
    } else {
      FeedIsFinished(next, a);
    }
  }

  /** What a whole Tick() did, by what it found. */
  predicate IsWholeTick(m: Machine, a: Answers, d: Done)
  {
    && (d.fed <==> m.armed && ReachesFeed(m, a)) && (d.confirmCalled <==> CallsConfirm(m, a))
    && d.m.tick == TIdle && d.m.state == StateAfter(m, a)
    && d.m.bootConfirmed == (m.bootConfirmed || (CallsConfirm(m, a) && a.confirms))
    && d.m.armed == (m.armed && !(d.m.state == CONFIRMED && a.disables)) && d.standDownFed == (m.armed && d.m.state == CONFIRMED)
  }

  lemma ClockIsFinished(m: Machine, a: Answers)
    requires m.tick == TClock(m.state) && m.state != CONFIRMED && m.state != FAILED && !m.bootConfirmed
    ensures IsWholeTick(m, a, Finish(m, a))
  {
    hide Finish;
    FinishOne(m, a);
    var clocked := TickStep(m, a.disables, a.allRan);
    if clocked.tick == TExchange {
      FinishOne(clocked, a);
      FinishNone(TickStep(clocked, a.disables, a.allRan), a);
    } else {
      ProbesAreFinished(clocked, a);
    }
  }

  lemma LoadedIsFinished(m: Machine, a: Answers)
    requires m.tick == TLoaded(m.state) && m.state != CONFIRMED
    ensures IsWholeTick(m, a, Finish(m, a))
  {
    hide Finish;
    FinishOne(m, a);
    var next := TickStep(m, a.disables, a.allRan);
    if m.bootConfirmed {
      StandDownIsFinished(next, a);
    } else if m.state == FAILED {
      FinishNone(next, a);
    } else {
      ClockIsFinished(next, a);
    }
  }

  function StateAfter(m: Machine, a: Answers): DfuState
  {
    if m.bootConfirmed || (CallsConfirm(m, a) && a.confirms) then CONFIRMED
    else if ReachesFeed(m, a) then m.state else FAILED
  }

  /**
   A Tick() that nothing interrupts does step by step what one call of it does: it feeds exactly when it gets that
   far, calls Confirm() exactly under its guards, and leaves that state.
   */
  lemma UndisturbedTick(m: Machine, a: Answers)
    requires m.tick == TIdle && (m.state == CONFIRMED ==> m.bootConfirmed)
    ensures var d := WholeTick(m, a);
      var inTime := m.state == VERIFYING && m.clock < m.config.deadline;
      var healthy := m.state == CONFIRMING && a.isHealthy;
      && d.m.tick == TIdle
      && (d.fed <==> m.armed && !m.bootConfirmed && (inTime || healthy))
      && (d.confirmCalled <==> !m.bootConfirmed && healthy && m.config.selfConfirm && m.confirmAt <= m.clock && a.allRan)
      && (d.m.state == CONFIRMED <==> m.bootConfirmed || (d.confirmCalled && a.confirms))
      && (d.m.state == FAILED <==> !m.bootConfirmed && !inTime && !healthy)
      && (d.m.state == m.state || d.m.state in {CONFIRMED, FAILED})
      && d.m.bootConfirmed == (m.bootConfirmed || (d.confirmCalled && a.confirms))
      && d.m.armed == (m.armed && !(d.m.state == CONFIRMED && a.disables))
      && d.standDownFed == (m.armed && d.m.state == CONFIRMED)
  {
    hide Finish;
    var next := TickStep(m, true, true);
    if m.state == CONFIRMED {
      DisableIsLoaded(next, a);
    } else {
      LoadedIsFinished(next, a);
    }
  }

  /** ReportBootComplete() without other steps in between: FAILED from the deadline on, CONFIRMING with the end of the delay before. */
  lemma UndisturbedReport(m: Machine)
    requires m.report == RIdle && m.state == VERIFYING
    ensures m.config.deadline <= m.clock ==>
      var d := Run(m, [ReportActs, ReportActs, ReportActs]); d.report == RIdle && d.state == FAILED
    ensures m.clock < m.config.deadline ==>
      var d := Run(m, [ReportActs, ReportActs, ReportActs, ReportActs]);
      d.report == RIdle && d.state == CONFIRMING && d.confirmAt == m.clock + m.config.confirmDelay && d.reportedAt == m.clock
  {
    hide Run;
    ThreeSteps(m, ReportActs);
    var third := Run(m, [ReportActs, ReportActs, ReportActs]);
    assert [ReportActs, ReportActs, ReportActs] + [ReportActs] == [ReportActs, ReportActs, ReportActs, ReportActs];
    RunAppend(m, [ReportActs, ReportActs, ReportActs], [ReportActs]);
    OneStep(third, ReportActs);
  }

  /** In any other state the report does nothing. */
  lemma LateReportDoesNothing(m: Machine)
    requires m.report == RIdle && m.state != VERIFYING
    ensures Step(m, ReportActs) == m
  {
  }
}
