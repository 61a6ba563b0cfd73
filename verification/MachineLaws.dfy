/** What every run of the machine keeps: it never spins, it always settles
    dark, its power effects tell the whole truth, and the published track is
    always a whole bundle. */
module MachineLaws {
  import opened Bytes
  import opened MachineModel

  /** Everything that can happen to a machine. */
  datatype Op =
    | Take(input: Input, now: nat)
    | Reload(cfg: Config, now: nat)
    | ForceAmp(on: bool, now: nat)
    | ForceDisplay(value: DisplayPower, now: nat)
    | Stored(image: Image)

  function Step(m: Model, op: Op): (Model, seq<Effect>) {
    match op
    case Take(input, now) => Apply(m, input, now)
    case Reload(cfg, now) => SetConfig(m, cfg, now)
    case ForceAmp(on, now) => OverrideAmp(m, on, now)
    case ForceDisplay(value, now) => OverrideDisplay(m, value, now)
    case Stored(image) => (SetArtwork(m, image), [])
  }

  /** Only validated configurations are ever adopted. */
  predicate Proper(ops: seq<Op>) {
    forall k :: 0 <= k < |ops| && ops[k].Reload? ==> Validated(ops[k].cfg)
  }

  /** A whole run: where the machine ends up, and every effect it asked for. */
  function Run(cfg: Config, t0: nat, ops: seq<Op>): (Model, seq<Effect>) {
    if ops == [] then (Boot(cfg, t0), [])
    else
      var (m, effects) := Run(cfg, t0, ops[..|ops| - 1]);
      var (m', more) := Step(m, ops[|ops| - 1]);
      (m', effects + more)
  }

  // --- the invariant -------------------------------------------------------------

  ghost predicate Inv(m: Model) {
    && Validated(m.cfg)
    && (m.state.session.active <==> m.InSession())
    && (m.InSession() ==>
          m.ampOffAt.None? && m.ambientAt.None? && m.blankAt.None? && m.idleSince.None?)
    && (!m.InSession() ==> m.idleSince.Some?)
    && (m.ambientAt.Some? ==> m.blankAt.Some? && m.ambientAt.value < m.blankAt.value)
    && (!m.InSession() && m.blankAt.None? ==> m.state.power.display == Off && m.displayOverride.None?)
    && (!m.InSession() && m.ampOffAt.None? ==> m.state.power.amp == (m.ampOverride == Some(true)))
  }

  /** What every input, reload and override leaves for the power step to finish. */
  ghost predicate PrePower(m: Model) {
    && Validated(m.cfg)
    && (m.state.session.active <==> m.InSession())
    && (m.InSession() ==>
          m.ampOffAt.None? && m.ambientAt.None? && m.blankAt.None? && m.idleSince.None?)
    && (!m.InSession() ==> m.idleSince.Some?)
    && (m.ambientAt.Some? ==> m.blankAt.Some? && m.ambientAt.value < m.blankAt.value)
    && (!m.InSession() && m.blankAt.None? ==> m.state.power.display == Off && m.displayOverride.None?)
  }

  lemma PowerRestores(m: Model, now: nat)
    requires PrePower(m)
    ensures Inv(ApplyPower(m, now).0)
  {
  }

  lemma EnterActiveKeeps(m: Model, now: nat)
    requires PrePower(m)
    ensures PrePower(EnterActive(m, now))
  {
  }

  lemma EnterIdleKeeps(m: Model, now: nat)
    requires PrePower(m)
    ensures PrePower(EnterIdle(m, now))
  {
  }

  lemma OnMetaKeeps(m: Model, ev: MetaEvent, now: nat)
    requires PrePower(m)
    ensures PrePower(OnMeta(m, ev, now))
  {
    hide EnterActive, EnterIdle, TrackFrom;
    EnterActiveKeeps(m, now);
    EnterIdleKeeps(m, now);
    ActiveIsSession(m, now);
  }

  lemma ActiveIsSession(m: Model, now: nat)
    ensures EnterActive(m, now).InSession()
  {
  }

  lemma TakeInKeeps(m: Model, input: Input, now: nat)
    requires PrePower(m)
    ensures PrePower(EvaluateTimers(TakeIn(m, input, now), now))
  {
    hide EnterIdle, OnMeta;
    EnterIdleKeeps(m, now);
    if input.Meta? {
      OnMetaKeeps(m.(lastActivity := now), input.event, now);
    }
    EnterIdleKeeps(TakeIn(m, input, now), now);
  }

  /** Every operation keeps the invariant. */
  lemma StepKeeps(m: Model, op: Op)
    requires Inv(m) && (op.Reload? ==> Validated(op.cfg))
    ensures Inv(Step(m, op).0)
  {
    hide ApplyPower, TakeIn, EvaluateTimers;
    match op
    case Take(input, now) =>
      TakeInKeeps(m, input, now);
      PowerRestores(EvaluateTimers(TakeIn(m, input, now), now), now);
    case Reload(cfg, now) =>
      var adopted := m.(cfg := cfg);
      if m.InSession() {
        PowerRestores(adopted, now);
      } else {
        var since := m.idleSince.value;
        PowerRestores(adopted.(ampOffAt := if m.ampOffAt.Some? then Some(since + cfg.offDelay) else None,
                               ambientAt := After(cfg.ambientAfter, since),
                               blankAt := Some(since + cfg.blankAfter)), now);
      }
    case ForceAmp(on, now) =>
      PowerRestores(m.(ampOverride := Some(on)), now);
    case ForceDisplay(value, now) =>
      var forced := m.(displayOverride := Some(value));
      if m.InSession() {
        PowerRestores(forced, now);
      } else {
        PowerRestores(forced.(ambientAt := After(m.cfg.ambientAfter, now),
                              blankAt := Some(now + m.cfg.blankAfter)), now);
      }
    case Stored(image) =>
  }

  lemma {:induction false} RunKeeps(cfg: Config, t0: nat, ops: seq<Op>)
    requires Validated(cfg) && Proper(ops)
    ensures Inv(Run(cfg, t0, ops).0)
    decreases |ops|
  {
    hide Step;
    if ops != [] {
      RunKeeps(cfg, t0, ops[..|ops| - 1]);
      StepKeeps(Run(cfg, t0, ops[..|ops| - 1]).0, ops[|ops| - 1]);
    }
  }

  // --- no busy spin -----------------------------------------------------------------

  /** After an input at now, every pending deadline is strictly later than now,
      whatever the state before. */
  lemma NoDeadlineInThePast(m: Model, input: Input, now: nat)
    ensures var d := NextDeadline(Apply(m, input, now).0); d.Some? ==> now < d.value
  {
    hide TakeIn, PolicyAmp, PolicyDisplay, EnterIdle;
    var taken := TakeIn(m, input, now);
    var timed := EvaluateTimers(taken, now);
    TimersLeaveNoStaleSession(taken, now);
    PowerKeepsPlayback(timed, now);
    var after := ApplyPower(timed, now).0;
    assert after.ampOffAt.Some? ==> now < after.ampOffAt.value;
    assert after.ambientAt.Some? ==> now < after.ambientAt.value;
    assert after.blankAt.Some? ==> now < after.blankAt.value;
  }

  /** The session, or the stall of what is playing, is over and not yet acted on. */
  predicate Overdue(m: Model, now: nat) {
    || (m.InSession() && m.lastActivity + m.cfg.session <= now)
    || (m.state.playback == Playing && m.lastActivity + m.cfg.stall <= now)
  }

  /** Bringing the outputs up to date retires every power timer that is due, so what
      it can leave in the past is only a timeout nobody has evaluated. */
  lemma PowerLeavesOverdue(m: Model, now: nat)
    ensures var d := NextDeadline(ApplyPower(m, now).0);
      (d.Some? && d.value <= now) <==> Overdue(m, now)
  {
    PowerKeepsPlayback(m, now);
    hide PolicyAmp, PolicyDisplay;
    var after := ApplyPower(m, now).0;
    assert after.ampOffAt.Some? ==> now < after.ampOffAt.value;
    assert after.ambientAt.Some? ==> now < after.ambientAt.value;
    assert after.blankAt.Some? ==> now < after.blankAt.value;
  }

  /** A reload evaluates no timeouts, so it can leave a deadline in the past:
      exactly when the session, or the stall of what is playing, is already
      over by the new timeouts. The tick that follows clears it. */
  lemma ReloadDeadlineInThePast(m: Model, cfg: Config, now: nat)
    ensures var d := NextDeadline(SetConfig(m, cfg, now).0);
      (d.Some? && d.value <= now) <==> Overdue(m.(cfg := cfg), now)
  {
    hide ApplyPower, NextDeadline;
    var since := Else(m.idleSince, now);
    var adopted := m.(cfg := cfg);
    PowerLeavesOverdue(adopted, now);
    PowerLeavesOverdue(adopted.(ampOffAt := if m.ampOffAt.Some? then Some(since + cfg.offDelay) else None,
                                ambientAt := After(cfg.ambientAfter, since),
                                blankAt := Some(since + cfg.blankAfter)), now);
  }

  /** Nor do the manual overrides: they leave a deadline in the past exactly when a
      timeout was overdue before them. */
  lemma OverrideDeadlineInThePast(m: Model, on: bool, value: DisplayPower, now: nat)
    ensures var d := NextDeadline(OverrideAmp(m, on, now).0);
      (d.Some? && d.value <= now) <==> Overdue(m, now)
    ensures var d := NextDeadline(OverrideDisplay(m, value, now).0);
      (d.Some? && d.value <= now) <==> Overdue(m, now)
  {
    hide ApplyPower, NextDeadline;
    var forced := m.(displayOverride := Some(value));
    PowerLeavesOverdue(m.(ampOverride := Some(on)), now);
    PowerLeavesOverdue(forced, now);
    PowerLeavesOverdue(forced.(ambientAt := After(m.cfg.ambientAfter, now),
                               blankAt := Some(now + m.cfg.blankAfter)), now);
  }

  const HOUR: nat := 3_600_000
  const MINUTE: nat := 60_000

  function Delays(blankAfter: nat, session: nat): Config {
    Config(true, SessionBegin, 0, None, blankAfter, MINUTE / 4, session)
  }

  lemma RunOne(cfg: Config, t0: nat, a: Op)
    ensures Run(cfg, t0, [a]).0 == Step(Boot(cfg, t0), a).0
  {
    hide Step, Boot;
    assert [a][..0] == [];
    assert Run(cfg, t0, []).0 == Boot(cfg, t0);
  }

  lemma RunTwo(cfg: Config, t0: nat, a: Op, b: Op)
    ensures Run(cfg, t0, [a, b]).0 == Step(Step(Boot(cfg, t0), a).0, b).0
  {
    hide Step, Boot;
    RunOne(cfg, t0, a);
    assert [a, b][..1] == [a];
  }

  /** Such a run: playing begins, two minutes later the session timeout, an hour until
      then, becomes one minute, and the deadline the reload leaves has long passed. */
  lemma LateReload()
    ensures var cfg, shorter, now := Delays(HOUR, HOUR), Delays(HOUR, MINUTE), 2 * MINUTE;
      var m := Run(cfg, 0, [Take(Meta(ActiveBegin), 0), Reload(shorter, now)]).0;
      && Validated(cfg) && Validated(shorter)
      && NextDeadline(m).Some? && NextDeadline(m).value <= now
  {
    var cfg, shorter, now := Delays(HOUR, HOUR), Delays(HOUR, MINUTE), 2 * MINUTE;
    RunTwo(cfg, 0, Take(Meta(ActiveBegin), 0), Reload(shorter, now));
    var playing := Step(Boot(cfg, 0), Take(Meta(ActiveBegin), 0)).0;
    assert playing.InSession() && playing.lastActivity == 0;
    ReloadDeadlineInThePast(playing, shorter, now);
  }

  /** And runs that end in either override: playing begins, and two hours later, when
      the hour's session timeout has long passed and nothing has evaluated it, an
      output is switched by hand. */
  lemma LateOverride(on: bool, value: DisplayPower)
    ensures var cfg, now, begin := Delays(HOUR, HOUR), 2 * HOUR, Take(Meta(ActiveBegin), 0);
      var a, d := Run(cfg, 0, [begin, ForceAmp(on, now)]).0, Run(cfg, 0, [begin, ForceDisplay(value, now)]).0;
      && Validated(cfg)
      && NextDeadline(a).Some? && NextDeadline(a).value <= now
      && NextDeadline(d).Some? && NextDeadline(d).value <= now
  {
    var cfg, now, begin := Delays(HOUR, HOUR), 2 * HOUR, Take(Meta(ActiveBegin), 0);
    RunTwo(cfg, 0, begin, ForceAmp(on, now));
    RunTwo(cfg, 0, begin, ForceDisplay(value, now));
    var playing := Step(Boot(cfg, 0), begin).0;
    assert playing.InSession() && playing.lastActivity == 0 && playing.cfg == cfg;
    OverrideDeadlineInThePast(playing, on, value, now);
  }

  /** When idle, a reload counts the new blanking delay from when the machine went
      idle: it is due at once if that time has passed, and a full delay lies ahead
      only if the machine went idle at that very moment. */
  lemma ReloadCountsFromIdle(m: Model, cfg: Config, now: nat)
    requires Inv(m) && !m.InSession() && m.idleSince.value <= now
    ensures var m', due := SetConfig(m, cfg, now).0, m.idleSince.value + cfg.blankAfter;
      && m'.blankAt == (if due <= now then None else Some(due))
      && (due <= now && m.displayOverride.None? ==> m'.state.power.display == Off)
      && (m'.blankAt == Some(now + cfg.blankAfter) <==> m.idleSince.value == now && cfg.blankAfter > 0)
  {
  }

  /** The comment's own example: after half an hour idle the blanking delay, an hour
      until then, becomes one minute, and the display goes off there and then. */
  lemma ShorterBlankingIsImmediate()
    ensures var cfg, shorter, now := Delays(HOUR, HOUR), Delays(MINUTE, HOUR), HOUR / 2;
      var played := [Take(Meta(ActiveBegin), 0), Take(Meta(ActiveEnd), 0)];
      && Validated(cfg) && Validated(shorter)
      && Run(cfg, 0, played).0.state.power.display == On
      && Run(cfg, 0, played + [Reload(shorter, now)]).0.state.power.display == Off
  {
    var cfg, shorter, now := Delays(HOUR, HOUR), Delays(MINUTE, HOUR), HOUR / 2;
    var played := [Take(Meta(ActiveBegin), 0), Take(Meta(ActiveEnd), 0)];
    RunTwo(cfg, 0, played[0], played[1]);
    var all := played + [Reload(shorter, now)];
    assert all[..2] == played;
    var begun := Step(Boot(cfg, 0), played[0]).0;
    assert begun.state.playback == Active && begun.cfg == cfg && begun.state.power.display == On;
  }

  lemma TimersLeaveNoStaleSession(m: Model, now: nat)
    ensures var t := EvaluateTimers(m, now);
            && (t.InSession() ==> now < t.lastActivity + t.cfg.session)
            && (t.state.playback == Playing ==> now < t.lastActivity + t.cfg.stall)
  {
  }

  lemma PowerKeepsPlayback(m: Model, now: nat)
    ensures var after := ApplyPower(m, now).0;
            && after.state.playback == m.state.playback && after.lastActivity == m.lastActivity
            && after.cfg == m.cfg && after.state.session == m.state.session
            && after.state.track == m.state.track && after.pending == m.pending && after.sessions == m.sessions
  {
  }

  /** How many more deadlines can fire: one or two in a session, then one per armed timer. */
  function Rank(m: Model): (r: nat)
    ensures r <= 5
  {
    if m.state.playback == Playing then 5
    else if m.InSession() then 4
    else (if m.ampOffAt.Some? then 1 else 0) + (if m.ambientAt.Some? then 1 else 0) + (if m.blankAt.Some? then 1 else 0)
  }

  /** A tick at or after a pending deadline uses up at least one of them. */
  lemma PromptTickLowersRank(m: Model, now: nat)
    requires Inv(m) && NextDeadline(m).Some? && NextDeadline(m).value <= now
    ensures Rank(Apply(m, Tick, now).0) < Rank(m)
    ensures Inv(Apply(m, Tick, now).0)
  {
    StepKeeps(m, Take(Tick, now));
    hide PolicyAmp, PolicyDisplay, ApplyPower;
    var timed := EvaluateTimers(m, now);
    PowerRetires(timed, now);
  }

  lemma PowerRetires(m: Model, now: nat)
    ensures var after := ApplyPower(m, now).0;
            && after.state.playback == m.state.playback
            && after.ampOffAt == Retired(m.ampOffAt, now)
            && after.ambientAt == Retired(m.ambientAt, now)
            && after.blankAt == Retired(m.blankAt, now)
  {
  }

  /** Nothing pending means idle and dark, and quiet unless a manual override holds the amplifier on. */
  lemma NoDeadlineMeansDark(m: Model)
    requires Inv(m) && NextDeadline(m).None?
    ensures m.state.playback == Idle && m.state.power.display == Off
    ensures m.state.power.amp == (m.ampOverride == Some(true))
  {
  }

  /** Left alone, with a tick at each deadline in turn (or at the clock's time, if that is already later). */
  function Settle(m: Model, clock: nat): (r: (Model, nat))
    requires Inv(m)
    decreases Rank(m)
  {
    match NextDeadline(m)
    case None => (m, 0)
    case Some(d) =>
      var now := if clock <= d then d else clock;
      PromptTickLowersRank(m, now);
      var (end, ticks) := Settle(Apply(m, Tick, now).0, now);
      (end, ticks + 1)
  }

  lemma {:induction false} SettleEnds(m: Model, clock: nat)
    requires Inv(m)
    ensures var (end, ticks) := Settle(m, clock);
            Inv(end) && NextDeadline(end).None? && ticks <= Rank(m)
    decreases Rank(m)
  {
    hide Apply, NextDeadline, Rank;
    if NextDeadline(m).Some? {
      var d := NextDeadline(m).value;
      var now := if clock <= d then d else clock;
      PromptTickLowersRank(m, now);
      SettleEnds(Apply(m, Tick, now).0, now);
    }
  }

  /** From anywhere a run can reach, at most five ticks lead to a machine that
      waits for nothing, idle and dark, with the amplifier off unless forced on. */
  lemma SettlesDark(cfg: Config, t0: nat, ops: seq<Op>, clock: nat)
    requires Validated(cfg) && Proper(ops)
    ensures Inv(Run(cfg, t0, ops).0)
    ensures var (end, ticks) := Settle(Run(cfg, t0, ops).0, clock);
            && ticks <= 5
            && NextDeadline(end).None?
            && end.state.playback == Idle
            && end.state.power.display == Off
            && end.state.power.amp == (end.ampOverride == Some(true))
  {
    hide Inv, Run, Settle, NextDeadline;
    RunKeeps(cfg, t0, ops);
    var m := Run(cfg, t0, ops).0;
    SettleEnds(m, clock);
    NoDeadlineMeansDark(Settle(m, clock).0);
  }

  // --- power effects tell the whole truth ------------------------------------------------

  function Obeyed(p: Power, e: Effect): Power {
    match e
    case SetAmp(on) => p.(amp := on)
    case SetDisplay(value) => p.(display := value)
    case _ => p
  }

  /** The outputs after carrying out effects in order. */
  function Replay(p: Power, effects: seq<Effect>): Power {
    if effects == [] then p else Obeyed(Replay(p, effects[..|effects| - 1]), effects[|effects| - 1])
  }

  lemma {:induction false} ReplayConcat(p: Power, a: seq<Effect>, b: seq<Effect>)
    ensures Replay(p, a + b) == Replay(Replay(p, a), b)
    decreases |b|
  {
    if b == [] {
      assert a + b == a;
    } else {
      assert (a + b)[..|a + b| - 1] == a + b[..|b| - 1];
      ReplayConcat(p, a, b[..|b| - 1]);
    }
  }

  /** The amplifier switchings, in order. */
  function AmpMoves(effects: seq<Effect>): seq<bool> {
    if effects == [] then []
    else AmpMoves(effects[..|effects| - 1])
         + (if effects[|effects| - 1].SetAmp? then [effects[|effects| - 1].on] else [])
  }

  lemma {:induction false} AmpMovesConcat(a: seq<Effect>, b: seq<Effect>)
    ensures AmpMoves(a + b) == AmpMoves(a) + AmpMoves(b)
    decreases |b|
  {
    if b == [] {
      assert a + b == a;
    } else {
      assert (a + b)[..|a + b| - 1] == a + b[..|b| - 1];
      AmpMovesConcat(a, b[..|b| - 1]);
    }
  }

  /** On, off, on, off. */
  ghost predicate Alternating(moves: seq<bool>) {
    forall k :: 0 <= k < |moves| ==> (moves[k] <==> k % 2 == 0)
  }

  /** One operation: its effects carry the old outputs to the new, and the amplifier moves only to change. */
  lemma StepEffects(m: Model, op: Op)
    ensures var (m', effects) := Step(m, op);
            && m'.state.power == Replay(m.state.power, effects)
            && AmpMoves(effects) == if m'.state.power.amp == m.state.power.amp then [] else [m'.state.power.amp]
  {
    hide PolicyAmp, PolicyDisplay, ApplyPower, Apply, Replay, AmpMoves;
    match op
    case Take(input, now) =>
      TakeEffects(m, input, now);
    case Reload(cfg, now) =>
      var since := Else(m.idleSince, now);
      PowerStep(m.(cfg := cfg), now);
      PowerStep(m.(cfg := cfg, ampOffAt := if m.ampOffAt.Some? then Some(since + cfg.offDelay) else None,
                   ambientAt := After(cfg.ambientAfter, since), blankAt := Some(since + cfg.blankAfter)), now);
    case ForceAmp(on, now) =>
      PowerStep(m.(ampOverride := Some(on)), now);
    case ForceDisplay(value, now) =>
      var forced := m.(displayOverride := Some(value));
      PowerStep(forced, now);
      PowerStep(forced.(ambientAt := After(m.cfg.ambientAfter, now), blankAt := Some(now + m.cfg.blankAfter)), now);
    case Stored(image) =>
      NoEffects(m.state.power);
  }

  lemma NoEffects(p: Power)
    ensures Replay(p, []) == p && AmpMoves([]) == []
  {
  }

  lemma TakeEffects(m: Model, input: Input, now: nat)
    ensures var (m', effects) := Apply(m, input, now);
            && m'.state.power == Replay(m.state.power, effects)
            && AmpMoves(effects) == if m'.state.power.amp == m.state.power.amp then [] else [m'.state.power.amp]
  {
    hide PolicyAmp, PolicyDisplay, TakeIn, EvaluateTimers, ApplyPower, InputEffects, Replay, AmpMoves;
    var timed := EvaluateTimers(TakeIn(m, input, now), now);
    TakeInKeepsPower(m, input, now);
    PowerStep(timed, now);
    MetaEffectsLeavePower(m, input);
    ReplayConcat(m.state.power, InputEffects(m, input), ApplyPower(timed, now).1);
    AmpMovesConcat(InputEffects(m, input), ApplyPower(timed, now).1);
  }

  lemma PowerStep(m: Model, now: nat)
    ensures var (m', effects) := ApplyPower(m, now);
            && m'.state.power == Replay(m.state.power, effects)
            && AmpMoves(effects) == if m'.state.power.amp == m.state.power.amp then [] else [m'.state.power.amp]
  {
    hide PolicyAmp, PolicyDisplay;
    var (m', effects) := ApplyPower(m, now);
    EffectsObeyed(m.state.power, m'.state.power);
  }

  lemma EffectsObeyed(from: Power, to: Power)
    ensures Replay(from, PowerEffects(from, to)) == to
    ensures AmpMoves(PowerEffects(from, to)) == if from.amp == to.amp then [] else [to.amp]
  {
    var a := if from.amp != to.amp then [SetAmp(to.amp)] else [];
    var d := if from.display != to.display then [SetDisplay(to.display)] else [];
    ReplayConcat(from, a, d);
    AmpMovesConcat(a, d);
    assert a != [] ==> a[..0] == [] && a[0] == SetAmp(to.amp);
    assert d != [] ==> d[..0] == [] && d[0] == SetDisplay(to.display);
  }

  lemma TakeInKeepsPower(m: Model, input: Input, now: nat)
    ensures EvaluateTimers(TakeIn(m, input, now), now).state.power == m.state.power
  {
    hide TrackFrom;
  }

  lemma MetaEffectsLeavePower(m: Model, input: Input)
    ensures Replay(m.state.power, InputEffects(m, input)) == m.state.power
    ensures AmpMoves(InputEffects(m, input)) == []
  {
    var e := InputEffects(m, input);
    assert e != [] ==> e[..0] == [] && e == [e[0]];
  }

  /** After every prefix of every run, carrying out all the effects so far from
      boot gives exactly the published power state, and the amplifier was
      switched on, off, on, off. */
  lemma {:induction false} PowerIsReplay(cfg: Config, t0: nat, ops: seq<Op>)
    ensures var (m, effects) := Run(cfg, t0, ops);
            && m.state.power == Replay(BOOT_STATE.power, effects)
            && Alternating(AmpMoves(effects))
            && (m.state.power.amp <==> |AmpMoves(effects)| % 2 == 1)
    decreases |ops|
  {
    hide Step;
    if ops != [] {
      var init := ops[..|ops| - 1];
      PowerIsReplay(cfg, t0, init);
      var (m, effects) := Run(cfg, t0, init);
      var (m', more) := Step(m, ops[|ops| - 1]);
      StepEffects(m, ops[|ops| - 1]);
      ReplayConcat(BOOT_STATE.power, effects, more);
      AmpMovesConcat(effects, more);
    }
  }

  // --- one switch-on per session -------------------------------------------------------------

  /** A run that is driven by inputs alone. */
  predicate Unforced(ops: seq<Op>) {
    forall k :: 0 <= k < |ops| ==> ops[k].Take? || ops[k].Stored?
  }

  function SwitchOns(moves: seq<bool>): nat {
    if moves == [] then 0
    else SwitchOns(moves[..|moves| - 1]) + (if moves[|moves| - 1] then 1 else 0)
  }

  /** Sessions that have not yet used their switch-on: the current one, while the amplifier is off. */
  function Unused(m: Model): nat {
    if m.InSession() && !m.state.power.amp then 1 else 0
  }

  lemma TakeInCounts(m: Model, input: Input, now: nat)
    requires m.ampOverride.None?
    ensures var t := EvaluateTimers(TakeIn(m, input, now), now);
            && t.ampOverride.None? && t.cfg == m.cfg && t.state.power == m.state.power
            && m.sessions <= t.sessions
            && (t.InSession() && !m.InSession() ==> m.sessions < t.sessions)
  {
    hide TrackFrom;
  }

  /** Without an override, the amplifier comes on only in a session, and in a session it stays on. */
  lemma PowerCounts(m: Model, now: nat)
    requires m.ampOverride.None? && (m.state.power.amp ==> m.cfg.ampEnabled)
    ensures var m' := ApplyPower(m, now).0;
            && m'.ampOverride.None? && m'.sessions == m.sessions && m'.InSession() == m.InSession()
            && m'.cfg == m.cfg
            && (m'.state.power.amp ==> m'.cfg.ampEnabled)
            && (m'.state.power.amp && !m.state.power.amp ==> m.InSession())
            && (m.InSession() && m.state.power.amp ==> m'.state.power.amp)
  {
  }

  lemma StepCounts(m: Model, op: Op)
    requires op.Take? || op.Stored?
    requires m.ampOverride.None? && (m.state.power.amp ==> m.cfg.ampEnabled)
    ensures var m' := Step(m, op).0;
            && m'.ampOverride.None? && (m'.state.power.amp ==> m'.cfg.ampEnabled)
            && Unused(m') + (if m'.state.power.amp && !m.state.power.amp then 1 else 0) + m.sessions
               <= m'.sessions + Unused(m)
  {
    hide TakeIn, EvaluateTimers, ApplyPower;
    if op.Take? {
      TakeInCounts(m, op.input, op.now);
      PowerCounts(EvaluateTimers(TakeIn(m, op.input, op.now), op.now), op.now);
    }
  }

  /** On runs without overrides or reloads, the amplifier is switched on at most
      once per session, whichever event triggers it. */
  lemma {:induction false} OneSwitchOnPerSession(cfg: Config, t0: nat, ops: seq<Op>)
    requires Unforced(ops)
    ensures var (m, effects) := Run(cfg, t0, ops);
            && m.ampOverride.None? && (m.state.power.amp ==> m.cfg.ampEnabled)
            && SwitchOns(AmpMoves(effects)) + Unused(m) <= m.sessions
    decreases |ops|
  {
    hide Step;
    if ops != [] {
      var init, op := ops[..|ops| - 1], ops[|ops| - 1];
      OneSwitchOnPerSession(cfg, t0, init);
      var (m, effects) := Run(cfg, t0, init);
      var (m', more) := Step(m, op);
      StepCounts(m, op);
      StepEffects(m, op);
      AmpMovesConcat(effects, more);
      var moves := AmpMoves(effects);
      assert (moves + [m'.state.power.amp])[..|moves|] == moves;
      assert moves + [] == moves;
    }
  }
}
