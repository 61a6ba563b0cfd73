/** What the published state says about everything that has happened: what is
    playing, who is playing it, which track, and which picture. */
module MachineHistory {
  import opened Bytes
  import opened MachineModel
  import opened MachineLaws
  import opened MachineBundles
  import Numerals
  import NumeralLaws

  // --- what is playing ---------------------------------------------------------------

  /** The playback an event moves to, whatever else the machine holds. */
  function Heard(p: Playback, ev: MetaEvent): Playback {
    match ev
    case ActiveBegin => Active
    case PlayBegins => Starting
    case ActiveEnd => Idle
    case PlayEnd => if p == Idle then Idle else Active
    case FirstFrame => if p == Idle then Idle else Playing
    case PlayResume => if p == Idle then Idle else Playing
    case PlayFlush => if p == Playing then Paused else p
    case Stall => if p == Playing then Paused else p
    case ProgressAt(_) => if p == Paused then Playing else p
    case _ => p
  }

  /** The playback once the time since the last event has been looked at. */
  function Waited(p: Playback, quiet: nat, cfg: Config): Playback {
    if p != Idle && cfg.session <= quiet then Idle
    else if p == Playing && cfg.stall <= quiet then Paused
    else p
  }

  /** Playback and the time of the last event make a machine of their own: nothing else
      the machine holds, overrides and pictures and tracks, ever decides them. */
  lemma PlaybackStandsAlone(m: Model, input: Input, now: nat)
    requires m.lastActivity <= now
    ensures var m' := Apply(m, input, now).0;
      && m'.state.playback == (match input {
           case Meta(ev) => Waited(Heard(m.state.playback, ev), 0, m.cfg)
           case PipeEof => Idle
           case _ => Waited(m.state.playback, now - m.lastActivity, m.cfg)
         })
      && m'.lastActivity == (if input.Meta? then now else m.lastActivity)
  {
    hide ApplyPower, OnMeta, EnterIdle, EvaluateTimers;
    var taken := TakeIn(m, input, now);
    if input.Meta? {
      OnMetaHeard(m.(lastActivity := now), input.event, now);
    }
    IdlePlayback(m, now);
    TimersWaited(taken, now);
    PowerKeepsPlayback(EvaluateTimers(taken, now), now);
  }

  lemma OnMetaHeard(m: Model, ev: MetaEvent, now: nat)
    requires m.lastActivity == now
    ensures var m' := OnMeta(m, ev, now);
      m'.state.playback == Heard(m.state.playback, ev) && m'.lastActivity == now && m'.cfg == m.cfg
  {
    hide TrackFrom;
  }

  lemma IdlePlayback(m: Model, now: nat)
    ensures var m' := EnterIdle(m, now);
      m'.state.playback == Idle && m'.lastActivity == m.lastActivity && m'.cfg == m.cfg
  {
  }

  lemma TimersWaited(m: Model, now: nat)
    requires m.lastActivity <= now
    ensures var m' := EvaluateTimers(m, now);
      m'.state.playback == Waited(m.state.playback, now - m.lastActivity, m.cfg) && m'.lastActivity == m.lastActivity
  {
  }

  /** The position shown is the last one reported, unless play or the session ended since. */
  lemma ProgressShown(m: Model, input: Input, now: nat)
    requires Inv(m)
    ensures var m' := Apply(m, input, now).0;
      m'.state.progress ==
        if input.Meta? && input.event.ProgressAt? then Some(input.event.progress)
        else if m.InSession() && (!m'.InSession() || input == Meta(PlayEnd)) then None
        else m.state.progress
  {
    hide ApplyPower, OnMeta, EvaluateTimers;
    var taken := TakeIn(m, input, now);
    if input.Meta? {
      OnMetaProgress(m.(lastActivity := now), input.event, now);
    }
    TimersProgress(taken, now);
    PowerKeepsProgress(EvaluateTimers(taken, now), now);
  }

  lemma OnMetaProgress(m: Model, ev: MetaEvent, now: nat)
    requires m.lastActivity == now
    ensures var m' := OnMeta(m, ev, now);
      && m'.lastActivity == now && m'.cfg == m.cfg
      && (m.InSession() && !m'.InSession() <==> m.InSession() && ev == ActiveEnd)
      && m'.state.progress ==
           (if ev.ProgressAt? then Some(ev.progress)
            else if m.InSession() && (ev == ActiveEnd || ev == PlayEnd) then None
            else m.state.progress)
  {
    hide TrackFrom;
  }

  lemma TimersProgress(m: Model, now: nat)
    ensures var m' := EvaluateTimers(m, now);
      && m'.state.progress == (if m.InSession() && !m'.InSession() then None else m.state.progress)
      && (m'.InSession() ==> m.InSession())
      && (m.lastActivity == now && 0 < m.cfg.session ==> m'.InSession() == m.InSession())
  {
  }

  lemma PowerKeepsProgress(m: Model, now: nat)
    ensures var m' := ApplyPower(m, now).0;
      m'.state == m.state.(power := m'.state.power)
  {
  }

  /** A picture is on its way from its start to its end or the session's. */
  lemma PictureIsOpen(m: Model, input: Input, now: nat)
    requires Inv(m)
    ensures var m' := Apply(m, input, now).0;
      m'.pictureOpen <==>
        input == Meta(PictureStart)
        || (m.pictureOpen && input != Meta(PictureEnd) && !(m.InSession() && !m'.InSession()))
  {
    hide ApplyPower, OnMeta, EvaluateTimers;
    var taken := TakeIn(m, input, now);
    if input.Meta? {
      OnMetaPicture(m.(lastActivity := now), input.event, now);
    }
    TimersPicture(taken, now);
    PowerKeepsPicture(EvaluateTimers(taken, now), now);
  }

  lemma OnMetaPicture(m: Model, ev: MetaEvent, now: nat)
    requires m.lastActivity == now
    ensures var m' := OnMeta(m, ev, now);
      && m'.lastActivity == now && m'.cfg == m.cfg
      && (m.InSession() && !m'.InSession() <==> m.InSession() && ev == ActiveEnd)
      && (m'.pictureOpen <==>
            ev == PictureStart
            || (m.pictureOpen && ev != PictureEnd && !(m.InSession() && ev == ActiveEnd)))
  {
    hide TrackFrom;
  }

  lemma TimersPicture(m: Model, now: nat)
    ensures var m' := EvaluateTimers(m, now);
      && (m'.pictureOpen <==> m.pictureOpen && !(m.InSession() && !m'.InSession()))
      && (m'.InSession() ==> m.InSession())
      && (m.lastActivity == now && 0 < m.cfg.session ==> m'.InSession() == m.InSession())
  {
  }

  lemma PowerKeepsPicture(m: Model, now: nat)
    ensures var m' := ApplyPower(m, now).0; m'.pictureOpen == m.pictureOpen && m'.InSession() == m.InSession()
  {
  }

  // --- how many sessions -----------------------------------------------------------------

  /** The sender begins a session, or begins to play, while there is none. */
  function Begun(cfg: Config, t0: nat, ops: seq<Op>): nat {
    if ops == [] then 0
    else
      var n := |ops| - 1;
      var begins := (EventOf(ops[n]) == ActiveBegin || EventOf(ops[n]) == PlayBegins)
                    && Run(cfg, t0, ops[..n]).0.state.playback == Idle;
      Begun(cfg, t0, ops[..n]) + if begins then 1 else 0
  }

  /** Every session is counted once. */
  lemma {:induction false} SessionsAreCounted(cfg: Config, t0: nat, ops: seq<Op>)
    ensures Run(cfg, t0, ops).0.sessions == Begun(cfg, t0, ops)
    decreases |ops|
  {
    hide Step;
    if ops != [] {
      var n := |ops| - 1;
      SessionsAreCounted(cfg, t0, ops[..n]);
      StepCountsSession(Run(cfg, t0, ops[..n]).0, ops[n]);
    }
  }

  lemma StepCountsSession(m: Model, op: Op)
    ensures Step(m, op).0.sessions == m.sessions +
      if (EventOf(op) == ActiveBegin || EventOf(op) == PlayBegins) && m.state.playback == Idle then 1 else 0
  {
    hide ApplyPower, TakeIn, EvaluateTimers;
    match op {
      case Take(input, now) =>
        var taken := TakeIn(m, input, now);
        TakeInCountsSession(m, input, now);
        TimersCount(taken, now);
        PowerKeepsPlayback(EvaluateTimers(taken, now), now);
      case Reload(cfg, now) =>
        var since := Else(m.idleSince, now);
        var adopted := m.(cfg := cfg);
        PowerKeepsPlayback(adopted, now);
        PowerKeepsPlayback(adopted.(ampOffAt := if m.ampOffAt.Some? then Some(since + cfg.offDelay) else None,
                                    ambientAt := After(cfg.ambientAfter, since),
                                    blankAt := Some(since + cfg.blankAfter)), now);
      case ForceAmp(on, now) =>
        PowerKeepsPlayback(m.(ampOverride := Some(on)), now);
      case ForceDisplay(value, now) =>
        var forced := m.(displayOverride := Some(value));
        PowerKeepsPlayback(forced, now);
        PowerKeepsPlayback(forced.(ambientAt := After(m.cfg.ambientAfter, now),
                                   blankAt := Some(now + m.cfg.blankAfter)), now);
      case Stored(image) =>
    }
  }

  lemma TakeInCountsSession(m: Model, input: Input, now: nat)
    ensures TakeIn(m, input, now).sessions == m.sessions +
      if (input == Meta(ActiveBegin) || input == Meta(PlayBegins)) && m.state.playback == Idle then 1 else 0
  {
    hide TrackFrom;
  }

  lemma TimersCount(m: Model, now: nat)
    ensures EvaluateTimers(m, now).sessions == m.sessions
  {
  }

  // --- who, how loud, and which picture ------------------------------------------------

  /** The published state apart from what sessions and bundles decide. */
  datatype Told = Told(
    volume: Option<Volume>, clientName: Option<string>, userAgent: Option<string>, clientIp: Option<string>,
    artwork: Option<Artwork>)

  function ToldBy(s: State): Told {
    Told(s.volume, s.session.clientName, s.session.userAgent, s.session.clientIp, s.artwork)
  }

  function EventOf(op: Op): MetaEvent {
    if op.Take? && op.input.Meta? then op.input.event else Unhandled
  }

  function LastVolume(ops: seq<Op>): Option<Volume> {
    if ops == [] then None
    else
      match EventOf(ops[|ops| - 1])
      case VolumeAt(v) => Some(v)
      case _ => LastVolume(ops[..|ops| - 1])
  }

  function LastName(ops: seq<Op>): Option<string> {
    if ops == [] then None
    else
      match EventOf(ops[|ops| - 1])
      case ClientName(s) => Some(s)
      case _ => LastName(ops[..|ops| - 1])
  }

  function LastAgent(ops: seq<Op>): Option<string> {
    if ops == [] then None
    else
      match EventOf(ops[|ops| - 1])
      case UserAgent(s) => Some(s)
      case _ => LastAgent(ops[..|ops| - 1])
  }

  /** A connection reported without an address tells nothing. */
  function LastAddress(ops: seq<Op>): Option<string> {
    if ops == [] then None
    else
      match EventOf(ops[|ops| - 1])
      case ClientIp(s) => Some(s)
      case ClientConnected(s) => if s == "" then LastAddress(ops[..|ops| - 1]) else Some(s)
      case _ => LastAddress(ops[..|ops| - 1])
  }

  /** The images stored since a sender last cleared its picture. */
  function StoredSince(ops: seq<Op>): seq<Image> {
    if ops == [] then []
    else if ops[|ops| - 1].Stored? then StoredSince(ops[..|ops| - 1]) + [ops[|ops| - 1].image]
    else if EventOf(ops[|ops| - 1]) == PictureCleared then []
    else StoredSince(ops[..|ops| - 1])
  }

  /** How often the stored image was another than the one before it. */
  function Changes(images: seq<Image>): nat {
    if images == [] then 0
    else
      var n := |images| - 1;
      Changes(images[..n]) + if n > 0 && images[n - 1].sha256 == images[n].sha256 then 0 else 1
  }

  /** The artwork shows the image stored last, as it was stored first, under the number
      of changes so far. */
  ghost predicate Shows(artwork: Option<Artwork>, images: seq<Image>) {
    && (artwork.None? <==> images == [])
    && (artwork.Some? ==>
          && artwork.value.revision == Changes(images)
          && exists i: nat :: FirstOfLast(images, i) && artwork.value.image == images[i])
  }

  /** From i on the images are the same, and the one before was another. */
  ghost predicate FirstOfLast(images: seq<Image>, i: nat) {
    && i < |images|
    && (i > 0 ==> images[i - 1].sha256 != images[i].sha256)
    && forall k :: i <= k < |images| ==> images[k].sha256 == images[i].sha256
  }

  ghost predicate TellsAll(s: State, ops: seq<Op>) {
    && s.volume == LastVolume(ops)
    && s.session.clientName == LastName(ops)
    && s.session.userAgent == LastAgent(ops)
    && s.session.clientIp == LastAddress(ops)
    && Shows(s.artwork, StoredSince(ops))
  }

  /** At every point of every run: the volume, the client's name, agent and address are
      the last ones reported, and the artwork is the last image stored since the sender
      last cleared it, its revision counting changes of image and not repeats. */
  lemma {:induction false} RunTellsAll(cfg: Config, t0: nat, ops: seq<Op>)
    ensures TellsAll(Run(cfg, t0, ops).0.state, ops)
    decreases |ops|
  {
    hide Step, LastVolume, LastName, LastAgent, LastAddress, StoredSince, Shows;
    NothingTold();
    if ops != [] {
      var n := |ops| - 1;
      RunTellsAll(cfg, t0, ops[..n]);
      var m := Run(cfg, t0, ops[..n]).0;
      TellsNext(m, ops);
    }
  }

  lemma NothingTold()
    ensures TellsAll(BOOT_STATE, [])
  {
  }

  lemma TellsNext(m: Model, ops: seq<Op>)
    requires ops != [] && TellsAll(m.state, ops[..|ops| - 1])
    ensures TellsAll(Step(m, ops[|ops| - 1]).0.state, ops)
  {
    hide Step, Shows, StoredSince;
    var op := ops[|ops| - 1];
    StepTells(m, op);
    if op.Stored? {
      ShowsStored(m, StoredSince(ops[..|ops| - 1]), op.image);
      StoredOne(ops);
    } else {
      StoredNone(ops);
      ShowsNothing();
    }
  }

  lemma StoredOne(ops: seq<Op>)
    requires ops != [] && ops[|ops| - 1].Stored?
    ensures StoredSince(ops) == StoredSince(ops[..|ops| - 1]) + [ops[|ops| - 1].image]
  {
  }

  lemma StoredNone(ops: seq<Op>)
    requires ops != [] && !ops[|ops| - 1].Stored?
    ensures StoredSince(ops) == if EventOf(ops[|ops| - 1]) == PictureCleared then [] else StoredSince(ops[..|ops| - 1])
  {
  }

  lemma ShowsNothing()
    ensures Shows(None, [])
  {
  }

  lemma ShowsStored(m: Model, images: seq<Image>, image: Image)
    requires Shows(m.state.artwork, images)
    ensures Shows(SetArtwork(m, image).state.artwork, images + [image])
  {
    var artwork := m.state.artwork;
    var all, n := images + [image], |images|;
    assert all[..n] == images;
    if artwork.Some? {
      var i: nat :| FirstOfLast(images, i) && artwork.value.image == images[i];
      assert images[n - 1].sha256 == images[i].sha256 == artwork.value.image.sha256;
      assert all[n - 1] == images[n - 1] && all[i] == images[i];
      if images[i].sha256 == image.sha256 {
        assert SetArtwork(m, image).state.artwork == artwork;
        assert forall k :: i <= k < |all| ==> all[k].sha256 == all[i].sha256;
        assert i > 0 ==> all[i - 1] == images[i - 1];
        assert FirstOfLast(all, i);
      } else {
        assert FirstOfLast(all, n) && all[n] == image;
      }
    } else {
      assert FirstOfLast(all, 0) && all[0] == image;
    }
  }

  /** What one operation tells. */
  lemma StepTells(m: Model, op: Op)
    ensures var s, s', ev := m.state, Step(m, op).0.state, EventOf(op);
      && s'.volume == (if ev.VolumeAt? then Some(ev.volume) else s.volume)
      && s'.session.clientName == (if ev.ClientName? then Some(ev.name) else s.session.clientName)
      && s'.session.userAgent == (if ev.UserAgent? then Some(ev.name) else s.session.userAgent)
      && s'.session.clientIp ==
           (if ev.ClientIp? || (ev.ClientConnected? && ev.name != "") then Some(ev.name) else s.session.clientIp)
      && s'.artwork ==
           (if op.Stored? then SetArtwork(m, op.image).state.artwork
            else if ev == PictureCleared then None else s.artwork)
  {
    hide ApplyPower, TakeIn, EvaluateTimers;
    match op {
      case Take(input, now) =>
        var taken := TakeIn(m, input, now);
        TakeInTells(m, input, now);
        TimersTell(taken, now);
        PowerKeepsProgress(EvaluateTimers(taken, now), now);
      case Reload(cfg, now) =>
        var since := Else(m.idleSince, now);
        var adopted := m.(cfg := cfg);
        PowerKeepsProgress(adopted, now);
        PowerKeepsProgress(adopted.(ampOffAt := if m.ampOffAt.Some? then Some(since + cfg.offDelay) else None,
                                    ambientAt := After(cfg.ambientAfter, since),
                                    blankAt := Some(since + cfg.blankAfter)), now);
      case ForceAmp(on, now) =>
        PowerKeepsProgress(m.(ampOverride := Some(on)), now);
      case ForceDisplay(value, now) =>
        var forced := m.(displayOverride := Some(value));
        PowerKeepsProgress(forced, now);
        PowerKeepsProgress(forced.(ambientAt := After(m.cfg.ambientAfter, now),
                                   blankAt := Some(now + m.cfg.blankAfter)), now);
      case Stored(image) =>
    }
  }

  lemma TakeInTells(m: Model, input: Input, now: nat)
    ensures var s, s', ev := m.state, TakeIn(m, input, now).state, if input.Meta? then input.event else Unhandled;
      && s'.volume == (if ev.VolumeAt? then Some(ev.volume) else s.volume)
      && s'.session.clientName == (if ev.ClientName? then Some(ev.name) else s.session.clientName)
      && s'.session.userAgent == (if ev.UserAgent? then Some(ev.name) else s.session.userAgent)
      && s'.session.clientIp ==
           (if ev.ClientIp? || (ev.ClientConnected? && ev.name != "") then Some(ev.name) else s.session.clientIp)
      && s'.artwork == (if ev == PictureCleared then None else s.artwork)
  {
    hide EnterActive, EnterIdle, TrackFrom;
    TransitionsTell(m, now);
    TransitionsTell(m.(lastActivity := now), now);
  }

  lemma TransitionsTell(m: Model, now: nat)
    ensures ToldBy(EnterActive(m, now).state) == ToldBy(m.state)
    ensures ToldBy(EnterIdle(m, now).state) == ToldBy(m.state)
  {
  }

  lemma TimersTell(m: Model, now: nat)
    ensures ToldBy(EvaluateTimers(m, now).state) == ToldBy(m.state)
  {
  }

  // --- pictures on their way ---------------------------------------------------------------

  /** The images handed on to be stored. */
  function HandedOn(effects: seq<Effect>): seq<bytes> {
    if effects == [] then []
    else
      var n := |effects| - 1;
      HandedOn(effects[..n]) + if effects[n].StoreArtwork? then [effects[n].image] else []
  }

  function Pictures(ops: seq<Op>): seq<bytes> {
    if ops == [] then []
    else
      var n := |ops| - 1;
      Pictures(ops[..n]) + if EventOf(ops[n]).Picture? then [EventOf(ops[n]).image] else []
  }

  /** Every picture received is handed on once, in order, and nothing else is. */
  lemma {:induction false} PicturesPassOn(cfg: Config, t0: nat, ops: seq<Op>)
    ensures HandedOn(Run(cfg, t0, ops).1) == Pictures(ops)
    decreases |ops|
  {
    hide Step;
    if ops != [] {
      var n := |ops| - 1;
      PicturesPassOn(cfg, t0, ops[..n]);
      var (m, effects) := Run(cfg, t0, ops[..n]);
      StepHandsOn(m, ops[n]);
      HandedConcat(effects, Step(m, ops[n]).1);
    }
  }

  lemma {:induction false} HandedConcat(a: seq<Effect>, b: seq<Effect>)
    ensures HandedOn(a + b) == HandedOn(a) + HandedOn(b)
    decreases |b|
  {
    if b == [] {
      assert a + b == a;
    } else {
      assert (a + b)[..|a + b| - 1] == a + b[..|b| - 1];
      HandedConcat(a, b[..|b| - 1]);
    }
  }

  lemma StepHandsOn(m: Model, op: Op)
    ensures HandedOn(Step(m, op).1) == if EventOf(op).Picture? then [EventOf(op).image] else []
  {
    hide ApplyPower, TakeIn, EvaluateTimers, HandedOn;
    match op {
      case Take(input, now) =>
        var timed := EvaluateTimers(TakeIn(m, input, now), now);
        HandedConcat(InputEffects(m, input), ApplyPower(timed, now).1);
        PowerHandsNothing(timed, now);
        InputHandsOn(m, input);
      case Reload(cfg, now) =>
        var since := Else(m.idleSince, now);
        var adopted := m.(cfg := cfg);
        PowerHandsNothing(adopted, now);
        PowerHandsNothing(adopted.(ampOffAt := if m.ampOffAt.Some? then Some(since + cfg.offDelay) else None,
                                   ambientAt := After(cfg.ambientAfter, since),
                                   blankAt := Some(since + cfg.blankAfter)), now);
      case ForceAmp(on, now) =>
        PowerHandsNothing(m.(ampOverride := Some(on)), now);
      case ForceDisplay(value, now) =>
        var forced := m.(displayOverride := Some(value));
        PowerHandsNothing(forced, now);
        PowerHandsNothing(forced.(ambientAt := After(m.cfg.ambientAfter, now),
                                  blankAt := Some(now + m.cfg.blankAfter)), now);
      case Stored(image) => NothingHanded();
    }
  }

  lemma NothingHanded()
    ensures HandedOn([]) == []
  {
  }

  lemma OneHanded(e: Effect)
    ensures HandedOn([e]) == if e.StoreArtwork? then [e.image] else []
  {
    assert [e][..0] == [];
  }

  lemma InputHandsOn(m: Model, input: Input)
    ensures HandedOn(InputEffects(m, input)) == if input.Meta? && input.event.Picture? then [input.event.image] else []
  {
    hide HandedOn;
    NothingHanded();
    if input.Meta? && input.event.Picture? {
      OneHanded(StoreArtwork(input.event.image));
    }
    OneHanded(ClearArtwork);
  }

  lemma PowerHandsNothing(m: Model, now: nat)
    ensures HandedOn(ApplyPower(m, now).1) == []
  {
    hide HandedOn;
    NothingHanded();
    var power := ApplyPower(m, now).0.state.power;
    OneHanded(SetAmp(power.amp));
    OneHanded(SetDisplay(power.display));
    HandedConcat([SetAmp(power.amp)], [SetDisplay(power.display)]);
    assert [SetAmp(power.amp)] + [] == [SetAmp(power.amp)];
    assert [] + [SetDisplay(power.display)] == [SetDisplay(power.display)];
  }

  /** An image is asked to be taken down exactly when a sender clears one that is shown. */
  lemma TakenDownIff(m: Model, input: Input)
    ensures ClearArtwork in InputEffects(m, input) <==> input == Meta(PictureCleared) && m.state.artwork.Some?
  {
  }

  // --- what the track says --------------------------------------------------------------------

  /** A field of the kind that belongs under the key. */
  predicate IsOf(f: CoreField, k: Key) {
    match k
    case KAlbum => f.Album?
    case KAlbumArtist => f.AlbumArtist?
    case KArtist => f.Artist?
    case KComment => f.Comment?
    case KComposer => f.Composer?
    case KDescription => f.Description?
    case KDurationMs => f.DurationMs?
    case KGenre => f.Genre?
    case KOther => f.Other?
    case KPersistentId => f.PersistentId?
    case KSortName => f.SortName?
    case KTitle => f.Title?
    case KTrackNumber => f.TrackNumber?
    case KUrl => f.Url?
  }

  /** Every field is filed under the key of its kind. */
  lemma FiledByKind(f: CoreField, k: Key)
    ensures CoreKey(f) == k <==> IsOf(f, k)
  {
  }

  /** The last arrival of a kind. */
  function LastOf(h: seq<Token>, k: Key): Option<CoreField> {
    if h == [] then None
    else
      var t := h[|h| - 1];
      if t.Arrived? && IsOf(t.field, k) then Some(t.field) else LastOf(h[..|h| - 1], k)
  }

  /** Without its surrounding white space, the text is what is shown, if anything is left of it. */
  ghost predicate ShowsText(f: Option<CoreField>, text: string, shown: Option<string>) {
    && (f.None? ==> shown.None?)
    && (f.Some? && (forall c :: c in text ==> Numerals.IsWhite(c as int)) ==> shown.None?)
    && (f.Some? && (exists c :: c in text && !Numerals.IsWhite(c as int)) ==>
          shown.Some? && exists a: nat, b: nat :: CutOut(text, a, b, shown.value))
  }

  ghost predicate CutOut(text: string, a: nat, b: nat, shown: string) {
    && a < b <= |text| && shown == text[a..b]
    && !Numerals.IsWhite(text[a] as int) && !Numerals.IsWhite(text[b - 1] as int)
    && forall k :: 0 <= k < |text| && !(a <= k < b) ==> Numerals.IsWhite(text[k] as int)
  }

  lemma TrimsTo(s: Numerals.scalars) returns (a: nat, b: nat)
    ensures a <= b <= |s| && |s| - |Numerals.TrimStart(s)| == a && |Numerals.TrimEnd(Numerals.TrimStart(s))| == b - a
    ensures forall k :: 0 <= k < |s| && !(a <= k < b) ==> Numerals.IsWhite(s[k])
    ensures a < b ==> !Numerals.IsWhite(s[a]) && !Numerals.IsWhite(s[b - 1])
  {
    a := NumeralLaws.StartCuts(s);
    var front := s[a..];
    var n := NumeralLaws.EndCuts(front);
    hide Numerals.IsWhite;
    b := a + n;
    forall k | b <= k < |s| ensures Numerals.IsWhite(s[k]) {
      assert front[k - a] == s[k];
    }
    if a < b {
      assert front[0] == s[a] && front[n - 1] == s[b - 1];
    }
  }

  lemma NonEmptyCuts(text: string) returns (a: nat, b: nat)
    ensures a <= b <= |text| && NonEmpty(text) == (if a == b then None else Some(text[a..b]))
    ensures forall k :: 0 <= k < |text| && !(a <= k < b) ==> Numerals.IsWhite(text[k] as int)
    ensures a < b ==> !Numerals.IsWhite(text[a] as int) && !Numerals.IsWhite(text[b - 1] as int)
  {
    hide Numerals.IsWhite, NonEmpty, Numerals.TrimStart, Numerals.TrimEnd;
    NonEmptyIs(text);
    a, b := TrimsTo(ScalarsOf(text));
    forall k | 0 <= k < |text| ensures text[k] as int == ScalarsOf(text)[k] {
    }
  }

  lemma NonEmptyIs(text: string)
    ensures var front := Numerals.TrimStart(ScalarsOf(text));
      var a, n := |text| - |front|, |Numerals.TrimEnd(front)|;
      0 <= a && a + n <= |text| && NonEmpty(text) == if n == 0 then None else Some(text[a..a + n])
  {
    hide Numerals.TrimStart, Numerals.TrimEnd, Numerals.IsWhite;
    var a, b := TrimsTo(ScalarsOf(text));
  }

  lemma NonEmptyShows(f: CoreField, text: string)
    ensures ShowsText(Some(f), text, NonEmpty(text))
  {
    var a, b := NonEmptyCuts(text);
    hide NonEmpty, Numerals.IsWhite;
    if a < b {
      assert text[a] in text && CutOut(text, a, b, text[a..b]);
    }
  }

  function TextIn(f: Option<CoreField>): string {
    if f.Some? && !f.value.DurationMs? && !f.value.TrackNumber? && !f.value.PersistentId? && !f.value.Other? then f.value.s
    else ""
  }

  function NumberIn(f: Option<CoreField>): Option<nat> {
    if f.Some? && (f.value.DurationMs? || f.value.TrackNumber? || f.value.PersistentId?) then Some(f.value.v) else None
  }

  /** The fields under a key are the last arrival of its kind. */
  lemma {:induction false} FieldIsLast(h: seq<Token>, k: Key)
    ensures LastOf(h, k).Some? <==> k in FieldsOf(h)
    ensures LastOf(h, k).Some? ==> FieldsOf(h)[k] == LastOf(h, k).value && IsOf(FieldsOf(h)[k], k)
  {
    hide CoreKey, IsOf;
    if h != [] {
      FieldIsLast(h[..|h| - 1], k);
      if h[|h| - 1].Arrived? {
        FiledByKind(h[|h| - 1].field, k);
      }
    }
  }

  ghost predicate Says(t: Track, h: seq<Token>) {
    && ShowsText(LastOf(h, KTitle), TextIn(LastOf(h, KTitle)), t.title)
    && ShowsText(LastOf(h, KArtist), TextIn(LastOf(h, KArtist)), t.artist)
    && ShowsText(LastOf(h, KAlbum), TextIn(LastOf(h, KAlbum)), t.album)
    && ShowsText(LastOf(h, KAlbumArtist), TextIn(LastOf(h, KAlbumArtist)), t.albumArtist)
    && ShowsText(LastOf(h, KGenre), TextIn(LastOf(h, KGenre)), t.genre)
    && ShowsText(LastOf(h, KComposer), TextIn(LastOf(h, KComposer)), t.composer)
    && t.durationMs == NumberIn(LastOf(h, KDurationMs))
    && t.trackNumber == NumberIn(LastOf(h, KTrackNumber))
    && t.id == (match NumberIn(LastOf(h, KPersistentId)) {
         case Some(id) => if id == 0 then TextOf(t.artist, t.album, t.title) else Persistent(id)
         case None => TextOf(t.artist, t.album, t.title)
       })
  }

  lemma TextUnder(fields: Fields, k: Key, f: Option<CoreField>)
    requires f.Some? <==> k in fields
    requires f.Some? ==> fields[k] == f.value && IsOf(f.value, k)
    requires k in {KTitle, KArtist, KAlbum, KAlbumArtist, KGenre, KComposer}
    ensures ShowsText(f, TextIn(f), TextAt(fields, k))
  {
    hide NonEmpty, ShowsText;
    NoText();
    if f.Some? {
      NonEmptyShows(f.value, TextIn(f));
    }
  }

  lemma NoText()
    ensures ShowsText(None, "", None)
  {
  }

  /** The track a bundle's arrivals describe says of each attribute what the last
      arrival of that kind said. */
  lemma TrackSays(h: seq<Token>)
    ensures Says(TrackFrom(FieldsOf(h)), h)
  {
    hide NonEmpty, ShowsText, FieldsOf, LastOf, TextAt, TextIn;
    FieldIsLast(h, KTitle);
    TextUnder(FieldsOf(h), KTitle, LastOf(h, KTitle));
    FieldIsLast(h, KArtist);
    TextUnder(FieldsOf(h), KArtist, LastOf(h, KArtist));
    FieldIsLast(h, KAlbum);
    TextUnder(FieldsOf(h), KAlbum, LastOf(h, KAlbum));
    FieldIsLast(h, KAlbumArtist);
    TextUnder(FieldsOf(h), KAlbumArtist, LastOf(h, KAlbumArtist));
    FieldIsLast(h, KGenre);
    TextUnder(FieldsOf(h), KGenre, LastOf(h, KGenre));
    FieldIsLast(h, KComposer);
    TextUnder(FieldsOf(h), KComposer, LastOf(h, KComposer));
    FieldIsLast(h, KDurationMs);
    FieldIsLast(h, KTrackNumber);
    FieldIsLast(h, KPersistentId);
  }

  /** At every point of every run: the track says, attribute by attribute, what the last
      whole bundle said last, white space aside, and nothing any other bundle said. */
  lemma TrackSaysLastBundle(cfg: Config, t0: nat, ops: seq<Op>, i: nat, j: nat)
    requires Bundle(History(cfg, t0, ops), i, j)
    requires forall a, b :: Bundle(History(cfg, t0, ops), a, b) ==> b <= j
    ensures var track := Run(cfg, t0, ops).0.state.track;
      track.Some? && Says(track.value, History(cfg, t0, ops)[i + 1..j])
  {
    hide TrackFrom, FieldsOf, Run, History, Says;
    TrackIsLastBundle(cfg, t0, ops, i, j);
    TrackSays(History(cfg, t0, ops)[i + 1..j]);
  }
}
