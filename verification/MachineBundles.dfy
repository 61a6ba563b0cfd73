/** Bundle atomicity: at every point of every run the published track is a
    function of one whole bundle, the last one committed, and of nothing else. */
module MachineBundles {
  import opened Bytes
  import opened MachineModel
  import opened MachineLaws

  /** What a run looks like to the track: bundle framing, fields, and sessions ending. */
  datatype Token = Opened | Arrived(field: CoreField) | Closed | SessionEnded

  /** The tokens of one operation on a machine. */
  function TokensOf(m: Model, op: Op): seq<Token> {
    if !op.Take? then []
    else Framing(op.input) + (if EndsSession(m, op.input, op.now) then [SessionEnded] else [])
  }

  /** The framing tokens of an input. */
  function Framing(input: Input): seq<Token> {
    match input
    case Meta(BundleStart) => [Opened]
    case Meta(BundleEnd) => [Closed]
    case Meta(Core(f)) => [Arrived(f)]
    case _ => []
  }

  /** A session is left while the input is taken in or when the timeouts are looked at. */
  predicate EndsSession(m: Model, input: Input, now: nat) {
    var taken := TakeIn(m, input, now);
    (m.InSession() || taken.InSession()) && !EvaluateTimers(taken, now).InSession()
  }

  function History(cfg: Config, t0: nat, ops: seq<Op>): seq<Token> {
    if ops == [] then []
    else
      var init := ops[..|ops| - 1];
      History(cfg, t0, init) + TokensOf(Run(cfg, t0, init).0, ops[|ops| - 1])
  }

  // --- the last bundle of a history, said outright ---------------------------------

  /** Token i opens a bundle, token j closes it, and nothing but fields, at least one, lies between. */
  ghost predicate Bundle(h: seq<Token>, i: int, j: int) {
    && 0 <= i && i + 1 < j < |h|
    && h[i].Opened? && h[j].Closed?
    && forall k :: i < k < j ==> h[k].Arrived?
  }

  /** The fields of a run of arrivals, the last under each key winning. */
  function FieldsOf(h: seq<Token>): Fields {
    if h == [] then map[]
    else
      var before := FieldsOf(h[..|h| - 1]);
      var t := h[|h| - 1];
      if t.Arrived? then before[CoreKey(t.field) := t.field] else before
  }

  // --- following a history token by token ---------------------------------------------

  /** The fields gathered since the last opening, if nothing has closed or cleared it. */
  function Gathering(h: seq<Token>): Option<Fields> {
    if h == [] then None
    else
      var before := Gathering(h[..|h| - 1]);
      match h[|h| - 1]
      case Opened => Some(map[])
      case Arrived(f) => if before.Some? then Some(before.value[CoreKey(f) := f]) else None
      case Closed => None
      case SessionEnded => None
  }

  /** The fields of the last bundle committed. */
  function Committed(h: seq<Token>): Option<Fields> {
    if h == [] then None
    else
      var init := h[..|h| - 1];
      if h[|h| - 1].Closed? && Gathering(init).Some? && Gathering(init).value != map[] then Gathering(init)
      else Committed(init)
  }

  /** The machine's track and pending fields follow its history. */
  ghost predicate Follows(m: Model, h: seq<Token>) {
    && m.pending == Gathering(h)
    && m.state.track == (if Committed(h).Some? then Some(TrackFrom(Committed(h).value)) else None)
  }

  lemma FollowToken(h: seq<Token>, t: Token)
    ensures Gathering(h + [t]) ==
            match t
            case Opened => Some(map[])
            case Arrived(f) =>
              if Gathering(h).Some? then Some(Gathering(h).value[CoreKey(f) := f]) else None
            case Closed => None
            case SessionEnded => None
    ensures Committed(h + [t]) ==
            if t.Closed? && Gathering(h).Some? && Gathering(h).value != map[] then Gathering(h) else Committed(h)
  {
    assert (h + [t])[..|h|] == h;
  }

  /** What a session's end does to the track and the pending bundle: nothing, and everything. */
  lemma IdleFollows(m: Model, h: seq<Token>, now: nat)
    requires Follows(m, h)
    ensures Follows(EnterIdle(m, now), if m.InSession() then h + [SessionEnded] else h)
  {
    hide Gathering, Committed, TrackFrom;
    FollowToken(h, SessionEnded);
  }

  /** Taking an input in follows its framing, and the session's end if it brings one. */
  lemma TakeInFollows(m: Model, h: seq<Token>, input: Input, now: nat)
    requires Follows(m, h)
    ensures var taken := TakeIn(m, input, now);
            Follows(taken, h + Framing(input) + if m.InSession() && !taken.InSession() then [SessionEnded] else [])
  {
    hide Gathering, Committed, TrackFrom;
    assert h + [] == h;
    assert h + Framing(input) + [] == h + Framing(input);
    IdleFollows(m, h, now);
    if input.Meta? {
      IdleFollows(m.(lastActivity := now), h, now);
      match input.event
      case BundleStart => FollowToken(h, Opened);
      case BundleEnd => FollowToken(h, Closed);
      case Core(f) => FollowToken(h, Arrived(f));
      case _ =>
    }
  }

  lemma TimersFollow(m: Model, h: seq<Token>, now: nat)
    requires Follows(m, h)
    ensures var timed := EvaluateTimers(m, now);
            Follows(timed, h + if m.InSession() && !timed.InSession() then [SessionEnded] else [])
  {
    hide Gathering, Committed, TrackFrom;
    assert h + [] == h;
    IdleFollows(m, h, now);
  }

  lemma StepFollows(m: Model, h: seq<Token>, op: Op)
    requires Follows(m, h)
    ensures Follows(Step(m, op).0, h + TokensOf(m, op))
  {
    hide Gathering, Committed, TrackFrom, TakeIn, EvaluateTimers, ApplyPower;
    assert h + [] == h;
    match op
    case Take(input, now) =>
      var taken := TakeIn(m, input, now);
      var timed := EvaluateTimers(taken, now);
      var ended := if m.InSession() && !taken.InSession() then [SessionEnded] else [];
      var timedOut := if taken.InSession() && !timed.InSession() then [SessionEnded] else [];
      TakeInFollows(m, h, input, now);
      TimersFollow(taken, h + Framing(input) + ended, now);
      PowerKeepsPlayback(timed, now);
      IdleStaysIdle(taken, now);
      assert TokensOf(m, op) == Framing(input) + ended + timedOut;
      assert h + Framing(input) + ended + timedOut == h + TokensOf(m, op);
    case Reload(cfg, now) =>
      var adopted := m.(cfg := cfg);
      var since := Else(m.idleSince, now);
      PowerKeepsPlayback(adopted, now);
      PowerKeepsPlayback(adopted.(ampOffAt := if m.ampOffAt.Some? then Some(since + cfg.offDelay) else None,
                                  ambientAt := After(cfg.ambientAfter, since),
                                  blankAt := Some(since + cfg.blankAfter)), now);
    case ForceAmp(on, now) =>
      PowerKeepsPlayback(m.(ampOverride := Some(on)), now);
    case ForceDisplay(value, now) =>
      var forced := m.(displayOverride := Some(value));
      PowerKeepsPlayback(forced, now);
      PowerKeepsPlayback(forced.(ambientAt := After(m.cfg.ambientAfter, now),
                                 blankAt := Some(now + m.cfg.blankAfter)), now);
    case Stored(image) =>
  }

  lemma IdleStaysIdle(m: Model, now: nat)
    ensures !m.InSession() ==> !EvaluateTimers(m, now).InSession()
  {
  }

  lemma {:induction false} RunFollows(cfg: Config, t0: nat, ops: seq<Op>)
    ensures Follows(Run(cfg, t0, ops).0, History(cfg, t0, ops))
    decreases |ops|
  {
    hide Step, TokensOf;
    if ops != [] {
      RunFollows(cfg, t0, ops[..|ops| - 1]);
      StepFollows(Run(cfg, t0, ops[..|ops| - 1]).0, History(cfg, t0, ops[..|ops| - 1]), ops[|ops| - 1]);
    }
  }

  // --- the follower finds the last bundle ------------------------------------------------

  /** Fields are being gathered exactly from the last opening, when only arrivals follow it. */
  lemma {:induction false} GatheringSince(h: seq<Token>, i: nat)
    requires i < |h| && h[i].Opened? && forall k :: i < k < |h| ==> h[k].Arrived?
    ensures Gathering(h) == Some(FieldsOf(h[i + 1..]))
    ensures i + 1 < |h| <==> FieldsOf(h[i + 1..]) != map[]
    decreases |h|
  {
    if i + 1 < |h| {
      var init := h[..|h| - 1];
      GatheringSince(init, i);
      assert h[i + 1..][..|h| - i - 2] == init[i + 1..];
      var f := h[|h| - 1].field;
      assert CoreKey(f) in FieldsOf(h[i + 1..]);
    } else {
      assert h[i + 1..] == [];
    }
  }

  /** When fields are being gathered, there is such an opening. */
  lemma {:induction false} GatheringFrom(h: seq<Token>) returns (i: nat)
    requires Gathering(h).Some?
    ensures i < |h| && h[i].Opened? && forall k :: i < k < |h| ==> h[k].Arrived?
    decreases |h|
  {
    if h[|h| - 1].Opened? {
      i := |h| - 1;
    } else {
      i := GatheringFrom(h[..|h| - 1]);
    }
  }

  /** The committed fields are those of the bundle that closes last. */
  lemma {:induction false} CommittedIsLastBundle(h: seq<Token>, i: nat, j: nat)
    requires Bundle(h, i, j)
    requires forall a, b :: Bundle(h, a, b) ==> b <= j
    ensures Committed(h) == Some(FieldsOf(h[i + 1..j]))
    decreases |h|
  {
    hide FieldsOf;
    var init := h[..|h| - 1];
    if j == |h| - 1 {
      GatheringSince(init, i);
      assert init[i + 1..] == h[i + 1..j];
    } else {
      assert Bundle(init, i, j);
      forall a, b | Bundle(init, a, b) ensures b <= j {
        assert Bundle(h, a, b);
      }
      CommittedIsLastBundle(init, i, j);
      assert init[i + 1..j] == h[i + 1..j];
      if h[|h| - 1].Closed? && Gathering(init).Some? && Gathering(init).value != map[] {
        var a := ClosingMakesBundle(h);
      }
    }
  }

  /** A close with something gathered makes a bundle. */
  lemma ClosingMakesBundle(h: seq<Token>) returns (a: nat)
    requires h != [] && h[|h| - 1].Closed?
    requires var g := Gathering(h[..|h| - 1]); g.Some? && g.value != map[]
    ensures Bundle(h, a, |h| - 1)
  {
    var init := h[..|h| - 1];
    a := GatheringFrom(init);
    GatheringSince(init, a);
  }

  ghost predicate NoBundle(h: seq<Token>) {
    forall a, b :: !Bundle(h, a, b)
  }

  lemma NoBundleBefore(h: seq<Token>)
    requires h != [] && NoBundle(h)
    ensures NoBundle(h[..|h| - 1])
  {
    var init := h[..|h| - 1];
    forall a, b | true ensures !Bundle(init, a, b) {
      assert Bundle(init, a, b) ==> Bundle(h, a, b);
    }
  }

  lemma {:induction false} NothingCommittedWithoutBundle(h: seq<Token>)
    requires NoBundle(h)
    ensures Committed(h).None?
    decreases |h|
  {
    if h != [] {
      var init := h[..|h| - 1];
      NoBundleBefore(h);
      NothingCommittedWithoutBundle(init);
      if h[|h| - 1].Closed? && Gathering(init).Some? && Gathering(init).value != map[] {
        var a := ClosingMakesBundle(h);
      }
    }
  }

  /** At every point of every run: if a whole bundle ever closed, the track is
      the one described by the fields of the last such bundle, last one wins. */
  lemma TrackIsLastBundle(cfg: Config, t0: nat, ops: seq<Op>, i: nat, j: nat)
    requires Bundle(History(cfg, t0, ops), i, j)
    requires forall a, b :: Bundle(History(cfg, t0, ops), a, b) ==> b <= j
    ensures Run(cfg, t0, ops).0.state.track == Some(TrackFrom(FieldsOf(History(cfg, t0, ops)[i + 1..j])))
  {
    hide TrackFrom, FieldsOf, Run, History, Gathering, Committed;
    RunFollows(cfg, t0, ops);
    CommittedIsLastBundle(History(cfg, t0, ops), i, j);
  }

  /** ... and until one does, there is no track. */
  lemma NoBundleNoTrack(cfg: Config, t0: nat, ops: seq<Op>)
    requires NoBundle(History(cfg, t0, ops))
    ensures Run(cfg, t0, ops).0.state.track == None
  {
    hide Run, History, Gathering, Committed;
    RunFollows(cfg, t0, ops);
    NothingCommittedWithoutBundle(History(cfg, t0, ops));
  }
}
