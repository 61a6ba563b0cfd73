/** When the amplifier and the display are on: what the outputs are after any
    evaluation, over any run, and at any time after a session has ended. */
module MachinePower {
  import opened Bytes
  import opened MachineModel
  import opened MachineLaws

  // --- one evaluation ---------------------------------------------------------------

  /** A manual override holds the amplifier. Otherwise a disabled one is off, a session
      that switches it on at its beginning has it on, one that waits for playing has it
      on from then, and an idle one keeps it as it was until the off delay is over. */
  lemma AmpAfterPower(m: Model, now: nat)
    ensures var amp := ApplyPower(m, now).0.state.power.amp;
      && (m.ampOverride.Some? ==> amp == m.ampOverride.value)
      && (m.ampOverride.None? && !m.cfg.ampEnabled ==> !amp)
      && (m.ampOverride.None? && m.cfg.ampEnabled && m.state.playback != Idle && m.cfg.onEvent == SessionBegin ==> amp)
      && (m.ampOverride.None? && m.cfg.ampEnabled && m.cfg.onEvent == PlayBegin && m.state.playback in {Starting, Playing} ==>
            amp)
      && (m.ampOverride.None? && m.cfg.ampEnabled && m.cfg.onEvent == PlayBegin && m.state.playback in {Active, Paused} ==>
            amp == m.state.power.amp)
      && (m.ampOverride.None? && m.cfg.ampEnabled && m.state.playback == Idle ==>
            amp == (m.state.power.amp && m.ampOffAt.Some? && now < m.ampOffAt.value))
  {
  }

  /** A manual override the idle timers have not overtaken holds the display. Otherwise a
      session has it on, blanking beats dimming, and until either is due it stays. */
  lemma DisplayAfterPower(m: Model, now: nat)
    ensures var m' := ApplyPower(m, now).0;
      var blank := m.blankAt.Some? && m.blankAt.value <= now;
      var dim := m.ambientAt.Some? && m.ambientAt.value <= now;
      var display := m'.state.power.display;
      && m'.displayOverride == (if blank || dim then None else m.displayOverride)
      && (!blank && !dim && m.displayOverride.Some? ==> display == m.displayOverride.value)
      && (m'.displayOverride.None? && m.state.playback != Idle ==> display == On)
      && (m.state.playback == Idle && blank ==> display == Off)
      && (m.state.playback == Idle && !blank && dim ==> display == Ambient)
      && (m.state.playback == Idle && !blank && !dim && m.displayOverride.None? ==> display == m.state.power.display)
  {
  }

  /** What an evaluation asks for is exactly what it changed, the amplifier first. */
  lemma AsksForChanges(m: Model, now: nat)
    ensures var (m', effects) := ApplyPower(m, now);
      && (m.state.power.amp == m'.state.power.amp && m.state.power.display == m'.state.power.display ==> effects == [])
      && (m.state.power.amp != m'.state.power.amp && m.state.power.display == m'.state.power.display ==>
            effects == [SetAmp(m'.state.power.amp)])
      && (m.state.power.amp == m'.state.power.amp && m.state.power.display != m'.state.power.display ==>
            effects == [SetDisplay(m'.state.power.display)])
      && (m.state.power.amp != m'.state.power.amp && m.state.power.display != m'.state.power.display ==>
            effects == [SetAmp(m'.state.power.amp), SetDisplay(m'.state.power.display)])
  {
  }

  // --- every run -------------------------------------------------------------------------

  /** The outputs agree with the session, the settings and the overrides. */
  ghost predicate Lit(m: Model) {
    && (m.ampOverride.Some? ==> m.state.power.amp == m.ampOverride.value)
    && (m.displayOverride.Some? ==> m.state.power.display == m.displayOverride.value)
    && (m.ampOverride.None? && !m.cfg.ampEnabled ==> !m.state.power.amp)
    && (m.ampOverride.None? && m.cfg.ampEnabled && m.InSession() && m.cfg.onEvent == SessionBegin ==> m.state.power.amp)
    && (m.ampOverride.None? && m.cfg.ampEnabled && m.state.playback in {Starting, Playing} ==> m.state.power.amp)
    && (m.displayOverride.None? && m.InSession() ==> m.state.power.display == On)
  }

  lemma PowerLights(m: Model, now: nat)
    ensures Lit(ApplyPower(m, now).0)
  {
  }

  lemma StepLights(m: Model, op: Op)
    requires Lit(m)
    ensures Lit(Step(m, op).0)
  {
    hide ApplyPower, TakeIn, EvaluateTimers;
    match op {
      case Take(input, now) => PowerLights(EvaluateTimers(TakeIn(m, input, now), now), now);
      case Reload(cfg, now) =>
        var since := Else(m.idleSince, now);
        var adopted := m.(cfg := cfg);
        PowerLights(adopted, now);
        PowerLights(adopted.(ampOffAt := if m.ampOffAt.Some? then Some(since + cfg.offDelay) else None,
                             ambientAt := After(cfg.ambientAfter, since),
                             blankAt := Some(since + cfg.blankAfter)), now);
      case ForceAmp(on, now) => PowerLights(m.(ampOverride := Some(on)), now);
      case ForceDisplay(value, now) =>
        var forced := m.(displayOverride := Some(value));
        PowerLights(forced, now);
        PowerLights(forced.(ambientAt := After(m.cfg.ambientAfter, now), blankAt := Some(now + m.cfg.blankAfter)), now);
      case Stored(image) =>
    }
  }

  /** At every point of every run, reloads and overrides included: an override still
      held is obeyed; without one, no music plays into a dead amplifier, a disabled
      amplifier is off, and in a session the display is on. */
  lemma {:induction false} RunLights(cfg: Config, t0: nat, ops: seq<Op>)
    ensures Lit(Run(cfg, t0, ops).0)
    decreases |ops|
  {
    hide Step;
    if ops != [] {
      RunLights(cfg, t0, ops[..|ops| - 1]);
      StepLights(Run(cfg, t0, ops[..|ops| - 1]).0, ops[|ops| - 1]);
    }
  }

  /** On runs driven by inputs alone nothing is ever held by hand. */
  lemma {:induction false} UnforcedHoldsNothing(cfg: Config, t0: nat, ops: seq<Op>)
    requires Unforced(ops)
    ensures var m := Run(cfg, t0, ops).0;
      m.ampOverride.None? && m.displayOverride.None? && m.cfg == cfg
    decreases |ops|
  {
    hide Step;
    if ops != [] {
      var init := ops[..|ops| - 1];
      UnforcedHoldsNothing(cfg, t0, init);
      StaysUnheld(Run(cfg, t0, init).0, ops[|ops| - 1]);
    }
  }

  lemma StaysUnheld(m: Model, op: Op)
    requires m.ampOverride.None? && m.displayOverride.None? && (op.Take? || op.Stored?)
    ensures var m' := Step(m, op).0; m'.ampOverride.None? && m'.displayOverride.None? && m'.cfg == m.cfg
  {
    hide ApplyPower, TakeIn, EvaluateTimers;
    if op.Take? {
      var timed := EvaluateTimers(TakeIn(m, op.input, op.now), op.now);
      TakeInUnheld(m, op.input, op.now);
      DisplayAfterPower(timed, op.now);
      PowerHolds(timed, op.now);
      PowerKeepsPlayback(timed, op.now);
    }
  }

  lemma TakeInUnheld(m: Model, input: Input, now: nat)
    requires m.ampOverride.None? && m.displayOverride.None?
    ensures var t := EvaluateTimers(TakeIn(m, input, now), now);
      t.ampOverride.None? && t.displayOverride.None? && t.cfg == m.cfg
  {
    hide TrackFrom;
  }

  /** So on such runs the amplifier is on through every session, or from when playing
      starts, as the settings say, and the display is on. */
  lemma SessionIsLit(cfg: Config, t0: nat, ops: seq<Op>)
    requires Unforced(ops)
    ensures var m := Run(cfg, t0, ops).0;
      && (m.InSession() ==> m.state.power.display == On)
      && (m.InSession() && cfg.ampEnabled && cfg.onEvent == SessionBegin ==> m.state.power.amp)
      && (m.state.playback in {Starting, Playing} && cfg.ampEnabled ==> m.state.power.amp)
      && (!cfg.ampEnabled ==> !m.state.power.amp)
  {
    hide Run;
    RunLights(cfg, t0, ops);
    UnforcedHoldsNothing(cfg, t0, ops);
  }

  /** An override lasts until a session begins or ends, and the display's also only
      until an idle timer is due. */
  lemma OverridesLast(m: Model, input: Input, now: nat)
    requires Inv(m)
    ensures var m' := Apply(m, input, now).0;
      && (m'.InSession() != m.InSession() ==> m'.ampOverride.None? && m'.displayOverride.None?)
      && (m'.InSession() == m.InSession() ==> m'.ampOverride == m.ampOverride)
      && (m'.InSession() == m.InSession() ==>
            m'.displayOverride == if Due(m.blankAt, now) || Due(m.ambientAt, now) then None else m.displayOverride)
  {
    hide ApplyPower, TakeIn, EvaluateTimers;
    var timed := EvaluateTimers(TakeIn(m, input, now), now);
    TakeInHolds(m, input, now);
    DisplayAfterPower(timed, now);
    PowerHolds(timed, now);
  }

  lemma PowerHolds(m: Model, now: nat)
    ensures var m' := ApplyPower(m, now).0; m'.ampOverride == m.ampOverride && m'.InSession() == m.InSession()
  {
  }

  /** The overrides and timers of t are those of m, or a session has begun or ended. */
  predicate Holds(m: Model, t: Model) {
    && t.cfg == m.cfg
    && (t.InSession() != m.InSession() ==> t.ampOverride.None? && t.displayOverride.None?)
    && (t.InSession() == m.InSession() ==> t.ampOverride == m.ampOverride && t.displayOverride == m.displayOverride)
    && (t.InSession() == m.InSession() ==> t.blankAt == m.blankAt && t.ambientAt == m.ambientAt)
  }

  lemma OnMetaHolds(m: Model, ev: MetaEvent, now: nat)
    requires m.lastActivity == now
    ensures Holds(m, OnMeta(m, ev, now)) && OnMeta(m, ev, now).lastActivity == now
  {
    hide TrackFrom;
  }

  lemma TimersHold(m: Model, now: nat)
    ensures Holds(m, EvaluateTimers(m, now))
    ensures m.lastActivity == now && 0 < m.cfg.session ==> EvaluateTimers(m, now).InSession() == m.InSession()
    ensures !m.InSession() ==> EvaluateTimers(m, now) == m
  {
  }

  lemma TakeInHolds(m: Model, input: Input, now: nat)
    requires Inv(m)
    ensures Holds(m, EvaluateTimers(TakeIn(m, input, now), now))
  {
    hide OnMeta, EvaluateTimers;
    TimersHold(TakeIn(m, input, now), now);
    if input.Meta? {
      OnMetaHolds(m.(lastActivity := now), input.event, now);
    }
  }

  // --- time -------------------------------------------------------------------------------

  /** A tick before the next deadline changes nothing at all, so sleeping until then
      misses nothing. */
  lemma QuietBeforeDeadline(m: Model, now: nat)
    requires Inv(m) && Lit(m) && m.lastActivity <= now
    requires NextDeadline(m).Some? ==> now < NextDeadline(m).value
    ensures Apply(m, Tick, now) == (m, [])
  {
    BeforeEach(m, now);
    hide NextDeadline, Earlier;
    assert EvaluateTimers(m, now) == m;
    assert ApplyPower(m, now).0.state.power == m.state.power;
  }

  lemma BeforeEach(m: Model, now: nat)
    requires NextDeadline(m).Some? ==> now < NextDeadline(m).value
    ensures !Due(m.ampOffAt, now) && !Due(m.ambientAt, now) && !Due(m.blankAt, now)
    ensures m.state.playback == Playing ==> now < m.lastActivity + m.cfg.stall
    ensures m.InSession() ==> now < m.lastActivity + m.cfg.session
  {
  }

  /** An idle machine looked at again and again. */
  function Watched(m: Model, times: seq<nat>): Model {
    if times == [] then m else ApplyPower(Watched(m, times[..|times| - 1]), times[|times| - 1]).0
  }

  predicate InOrder(times: seq<nat>) {
    forall i, j :: 0 <= i < j < |times| ==> times[i] <= times[j]
  }

  /** What an idle machine with these timers shows at a time, however often it is looked at before. */
  ghost predicate ShowsAt(m: Model, m': Model, now: nat) {
    && m'.state == m.state.(power := m'.state.power) && m'.cfg == m.cfg && m'.ampOverride == m.ampOverride
    && m'.ampOffAt == Retired(m.ampOffAt, now) && m'.ambientAt == Retired(m.ambientAt, now)
    && m'.blankAt == Retired(m.blankAt, now)
    && m'.displayOverride == (if Due(m.blankAt, now) || Due(m.ambientAt, now) then None else m.displayOverride)
    && m'.state.power.amp == (if m.ampOverride.Some? then m.ampOverride.value
                              else m.cfg.ampEnabled && m.state.power.amp && m.ampOffAt.Some? && now < m.ampOffAt.value)
    && m'.state.power.display == (if Due(m.blankAt, now) then Off
                                  else if Due(m.ambientAt, now) then Ambient
                                  else Else(m.displayOverride, m.state.power.display))
  }

  lemma {:induction false} IdleShows(m: Model, times: seq<nat>)
    requires m.state.playback == Idle && times != [] && InOrder(times)
    requires m.ambientAt.Some? ==> m.blankAt.Some? && m.ambientAt.value < m.blankAt.value
    ensures ShowsAt(m, Watched(m, times), times[|times| - 1])
    decreases |times|
  {
    var n := |times| - 1;
    if n == 0 {
      WatchedOnce(m, times);
      ShowsFirst(m, times[0]);
    } else {
      hide ApplyPower, ShowsAt;
      IdleShows(m, times[..n]);
      ShowsNext(m, Watched(m, times[..n]), times[n - 1], times[n]);
    }
  }

  lemma WatchedOnce(m: Model, times: seq<nat>)
    requires |times| == 1
    ensures Watched(m, times) == ApplyPower(m, times[0]).0
  {
    assert times[..0] == [];
  }

  lemma ShowsFirst(m: Model, now: nat)
    requires m.state.playback == Idle
    requires m.ambientAt.Some? ==> m.blankAt.Some? && m.ambientAt.value < m.blankAt.value
    ensures ShowsAt(m, ApplyPower(m, now).0, now)
  {
    hide PowerEffects;
  }

  lemma ShowsNext(m: Model, m': Model, before: nat, now: nat)
    requires m.state.playback == Idle && before <= now && ShowsAt(m, m', before)
    requires m.ambientAt.Some? ==> m.blankAt.Some? && m.ambientAt.value < m.blankAt.value
    ensures ShowsAt(m, ApplyPower(m', now).0, now)
  {
    hide PowerEffects;
  }

  /** An idle machine's tick is one more look at it. */
  lemma TickLooks(m: Model, now: nat)
    requires m.state.playback == Idle
    ensures Apply(m, Tick, now).0 == ApplyPower(m, now).0
  {
  }

  /** When a session has ended at t, then at any time afterwards, wherever ticks have
      fallen in between, the amplifier is as the session left it until the off delay is
      over and off from then on, and the display is as it was, then dimmed, then off. */
  lemma AfterSessionEnds(m: Model, t: nat, times: seq<nat>)
    requires Inv(m) && m.InSession() && times != [] && InOrder(times)
    ensures var m', now, cfg := Watched(EnterIdle(m, t), times), times[|times| - 1], m.cfg;
      && m'.state.power.amp == (cfg.ampEnabled && m.state.power.amp && now < t + cfg.offDelay)
      && m'.state.power.display ==
           (if t + cfg.blankAfter <= now then Off
            else if cfg.ambientAfter.Some? && t + cfg.ambientAfter.value <= now then Ambient
            else m.state.power.display)
  {
    hide ApplyPower, Watched;
    IdleShows(EnterIdle(m, t), times);
  }

  /** An input that ends the session leaves that machine, looked at once. */
  lemma SessionEnds(m: Model, input: Input, t: nat)
    requires Inv(m) && m.InSession() && !Apply(m, input, t).0.InSession()
    ensures Apply(m, input, t).0 == ApplyPower(EnterIdle(m.(lastActivity := if input.Meta? then t else m.lastActivity), t), t).0
  {
    hide TrackFrom, PolicyAmp, PolicyDisplay, PowerEffects;
  }

  /** A session begins with the idle timers cancelled, is counted, and ends with the pipe,
      with the sender's word, or when nothing has been heard for the session timeout. */
  lemma SessionEndsIff(m: Model, input: Input, now: nat)
    requires Inv(m) && m.InSession()
    ensures !Apply(m, input, now).0.InSession() <==>
      || input == PipeEof || input == Meta(ActiveEnd)
      || (!input.Meta? && m.lastActivity + m.cfg.session <= now)
  {
    hide TrackFrom, PolicyAmp, PolicyDisplay, PowerEffects;
  }

  lemma SessionBeginsIff(m: Model, input: Input, now: nat)
    requires Inv(m) && !m.InSession()
    ensures Apply(m, input, now).0.InSession() <==> input == Meta(ActiveBegin) || input == Meta(PlayBegins)
    ensures Apply(m, input, now).0.sessions == m.sessions + if Apply(m, input, now).0.InSession() then 1 else 0
  {
    hide TrackFrom, PolicyAmp, PolicyDisplay, PowerEffects;
  }

  /** An idle display switched by hand at t stays so, and dims and blanks as if the
      machine had just gone idle. */
  lemma SwitchedByHand(m: Model, value: DisplayPower, t: nat, times: seq<nat>)
    requires Inv(m) && !m.InSession() && InOrder([t] + times)
    ensures var m', now := Watched(OverrideDisplay(m, value, t).0, times), ([t] + times)[|times|];
      m'.state.power.display ==
        (if t + m.cfg.blankAfter <= now then Off
         else if m.cfg.ambientAfter.Some? && t + m.cfg.ambientAfter.value <= now then Ambient
         else value)
  {
    hide ApplyPower, Watched, ShowsAt;
    var armed := Rearmed(m, value, t);
    IdleShows(armed, [t] + times);
    WatchedFirst(armed, t, times);
    HandShows(m, value, t, Watched(armed, [t] + times), ([t] + times)[|times|]);
  }

  function Rearmed(m: Model, value: DisplayPower, t: nat): Model {
    m.(displayOverride := Some(value), ambientAt := After(m.cfg.ambientAfter, t), blankAt := Some(t + m.cfg.blankAfter))
  }

  lemma HandShows(m: Model, value: DisplayPower, t: nat, m': Model, now: nat)
    requires ShowsAt(Rearmed(m, value, t), m', now)
    ensures m'.state.power.display ==
        (if t + m.cfg.blankAfter <= now then Off
         else if m.cfg.ambientAfter.Some? && t + m.cfg.ambientAfter.value <= now then Ambient
         else value)
  {
  }

  lemma {:induction false} WatchedFirst(m: Model, t: nat, times: seq<nat>)
    ensures Watched(m, [t] + times) == Watched(ApplyPower(m, t).0, times)
    decreases |times|
  {
    hide ApplyPower;
    var n := |times| - 1;
    if times == [] {
      assert [t] + times == [t];
      WatchedOnce(m, [t]);
    } else {
      assert ([t] + times)[..|times|] == [t] + times[..n];
      WatchedFirst(m, t, times[..n]);
    }
  }

  /** A reload while idle acts as if its settings had been those the session ended under. */
  lemma ReloadIsRetroactive(m: Model, t: nat, cfg: Config, now: nat)
    requires m.InSession()
    ensures SetConfig(EnterIdle(m, t), cfg, now) == ApplyPower(EnterIdle(m.(cfg := cfg), t), now)
  {
    hide ApplyPower;
  }

  /** In a session a reload only adopts the settings and brings the outputs up to date. */
  lemma ReloadInSession(m: Model, cfg: Config, now: nat)
    requires m.InSession()
    ensures SetConfig(m, cfg, now).0 == ApplyPower(m.(cfg := cfg), now).0
    ensures SetConfig(m, cfg, now).0.cfg == cfg
  {
  }
}
