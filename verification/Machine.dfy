/** The state machine as the daemon runs it: fields updated in place, each
    operation proved against the machine-as-a-value. */
module Machine {
  import opened Bytes
  import opened MachineModel

  class Machine {
    var cfg: Config
    var state: State
    var sessions: nat
    var pending: Option<Fields>
    var pictureOpen: bool
    var lastActivity: nat
    var idleSince: Option<nat>
    var ampOffAt: Option<nat>
    var ambientAt: Option<nat>
    var blankAt: Option<nat>
    var ampOverride: Option<bool>
    var displayOverride: Option<DisplayPower>

    /** The machine as a value. */
    ghost function Value(): Model
      reads this
    {
      Model(cfg, state, sessions, pending, pictureOpen, lastActivity, idleSince,
            ampOffAt, ambientAt, blankAt, ampOverride, displayOverride)
    }

    /** Every pending field is filed under its own key. */
    ghost predicate Valid()
      reads this
    {
      pending.Some? ==> Keyed(pending.value)
    }

    constructor (cfg: Config, now: nat)
      ensures Valid() && Value() == Boot(cfg, now)
    {
      this.cfg := cfg;
      state := BOOT_STATE;
      sessions := 0;
      pending := None;
      pictureOpen := false;
      lastActivity := now;
      idleSince := Some(now);
      ampOffAt, ambientAt, blankAt := None, None, None;
      ampOverride, displayOverride := None, None;
    }

    // --- operations ---------------------------------------------------------------

    method Apply(input: Input, now: nat) returns (changed: bool, effects: seq<Effect>)
      requires Valid()
      modifies this
      ensures Valid() && (Value(), effects) == MachineModel.Apply(old(Value()), input, now)
      ensures changed <==> state != old(state)
    {
      var before := state;
      effects := [];
      if input.Meta? {
        lastActivity := now;
      }
      match input {
        case Meta(ev) =>
          effects := OnMeta(ev, now);
        case PipeEof =>
          EnterIdle(now);
        case ParseError =>
        case Tick =>
      }
      EvaluateTimers(now);
      var power := ApplyPower(now);
      effects := effects + power;
      changed := state != before;
    }

    method SetConfig(cfg: Config, now: nat) returns (changed: bool, effects: seq<Effect>)
      requires Valid()
      modifies this
      ensures Valid() && (Value(), effects) == MachineModel.SetConfig(old(Value()), cfg, now)
      ensures changed <==> state != old(state)
    {
      this.cfg := cfg;
      if !state.playback.IsSession() {
        var since := if idleSince.Some? then idleSince.value else now;
        ampOffAt := if ampOffAt.Some? then Some(since + cfg.offDelay) else None;
        ambientAt := After(cfg.ambientAfter, since);
        blankAt := Some(since + cfg.blankAfter);
      }
      var before := state;
      effects := ApplyPower(now);
      changed := state != before;
    }

    method OverrideAmp(on: bool, now: nat) returns (changed: bool, effects: seq<Effect>)
      requires Valid()
      modifies this
      ensures Valid() && (Value(), effects) == MachineModel.OverrideAmp(old(Value()), on, now)
      ensures changed <==> state != old(state)
    {
      ampOverride := Some(on);
      var before := state;
      effects := ApplyPower(now);
      changed := state != before;
    }

    method OverrideDisplay(value: DisplayPower, now: nat) returns (changed: bool, effects: seq<Effect>)
      requires Valid()
      modifies this
      ensures Valid() && (Value(), effects) == MachineModel.OverrideDisplay(old(Value()), value, now)
      ensures changed <==> state != old(state)
    {
      displayOverride := Some(value);
      if !state.playback.IsSession() {
        ambientAt := After(cfg.ambientAfter, now);
        blankAt := Some(now + cfg.blankAfter);
      }
      var before := state;
      effects := ApplyPower(now);
      changed := state != before;
    }

    method SetArtwork(image: Image) returns (fresh_: bool)
      requires Valid()
      modifies this
      ensures Valid() && Value() == MachineModel.SetArtwork(old(Value()), image)
      ensures fresh_ <==> Value() != old(Value())
    {
      if state.artwork.Some? && state.artwork.value.image.sha256 == image.sha256 {
        return false;
      }
      var revision := (if state.artwork.Some? then state.artwork.value.revision else 0) + 1;
      state := state.(artwork := Some(Artwork(revision, image)));
      return true;
    }

    method NextDeadline() returns (out: Option<nat>)
      ensures out == MachineModel.NextDeadline(Value())
    {
      out := Earlier(Earlier(ampOffAt, ambientAt), blankAt);
      if state.playback == Playing {
        out := Earlier(out, Some(lastActivity + cfg.stall));
      }
      if state.playback.IsSession() {
        out := Earlier(out, Some(lastActivity + cfg.session));
      }
    }

    // --- metadata -------------------------------------------------------------------

    method OnMeta(ev: MetaEvent, now: nat) returns (effects: seq<Effect>)
      requires Valid()
      modifies this
      ensures Valid() && Value() == MachineModel.OnMeta(old(Value()), ev, now)
      ensures effects == MetaEffects(old(Value()), ev)
    {
      hide MachineModel.EnterActive, MachineModel.EnterIdle, MachineModel.CommitBundle;
      effects := [];
      match ev {
        case ActiveBegin =>
          EnterActive(now);
        case ActiveEnd =>
          EnterIdle(now);
        case PlayBegins =>
          if !state.playback.IsSession() {
            EnterActive(now);
          }
          SetPlayback(Starting);
        case FirstFrame =>
          if state.playback.IsSession() {
            SetPlayback(Playing);
          }
        case PlayEnd =>
          if state.playback.IsSession() {
            SetPlayback(Active);
            state := state.(progress := None);
          }
        case PlayFlush =>
          if state.playback == Playing {
            SetPlayback(Paused);
          }
        case PlayResume =>
          if state.playback.IsSession() {
            SetPlayback(Playing);
          }
        case Stall =>
          if state.playback == Playing {
            SetPlayback(Paused);
          }
        case BundleStart =>
          pending := Some(map[]);
        case BundleEnd =>
          CommitBundle();
        case Core(field) =>
          if pending.Some? {
            pending := Some(pending.value[CoreKey(field) := field]);
          }
        case PictureStart =>
          pictureOpen := true;
        case PictureEnd =>
          pictureOpen := false;
        case Picture(image) =>
          effects := effects + [StoreArtwork(image)];
        case PictureCleared =>
          if state.artwork.Some? {
            state := state.(artwork := None);
            effects := effects + [ClearArtwork];
          }
        case ProgressAt(p) =>
          if state.playback == Paused {
            SetPlayback(Playing);
          }
          state := state.(progress := Some(p));
        case VolumeAt(v) =>
          state := state.(volume := Some(v));
        case ClientName(s) =>
          state := state.(session := state.session.(clientName := Some(s)));
        case UserAgent(s) =>
          state := state.(session := state.session.(userAgent := Some(s)));
        case ClientIp(s) =>
          state := state.(session := state.session.(clientIp := Some(s)));
        case ClientConnected(s) =>
          if s != "" {
            state := state.(session := state.session.(clientIp := Some(s)));
          }
        case Unhandled =>
      }
    }

    /** Publish the pending bundle as the current track, visiting its fields in key order. */
    method CommitBundle()
      requires Valid()
      modifies this
      ensures Valid() && Value() == MachineModel.CommitBundle(old(Value()))
    {
      if pending.None? {
        return;
      }
      var fields := pending.value;
      pending := None;
      if fields == map[] {
        return;
      }
      var track := DescribeTrack(fields);
      state := state.(track := Some(track));
    }

    // --- transitions ------------------------------------------------------------------

    method SetPlayback(next: Playback)
      modifies this`state
      ensures state == old(state).(playback := next)
    {
      if state.playback == next {
        return;
      }
      state := state.(playback := next);
    }

    method EnterActive(now: nat)
      requires Valid()
      modifies this
      ensures Valid() && Value() == MachineModel.EnterActive(old(Value()), now)
    {
      if !state.playback.IsSession() {
        sessions := sessions + 1;
        idleSince := None;
        ampOverride := None;
        displayOverride := None;
        ampOffAt := None;
        ambientAt := None;
        blankAt := None;
      }
      lastActivity := now;
      SetPlayback(Active);
      state := state.(session := state.session.(active := true));
    }

    method EnterIdle(now: nat)
      requires Valid()
      modifies this
      ensures Valid() && Value() == MachineModel.EnterIdle(old(Value()), now)
    {
      if !state.playback.IsSession() {
        return;
      }
      SetPlayback(Idle);
      state := state.(session := state.session.(active := false));
      state := state.(progress := None);
      pending := None;
      pictureOpen := false;
      idleSince := Some(now);
      ampOverride := None;
      displayOverride := None;
      ampOffAt := Some(now + cfg.offDelay);
      ambientAt := After(cfg.ambientAfter, now);
      blankAt := Some(now + cfg.blankAfter);
    }

    method EvaluateTimers(now: nat)
      requires Valid()
      modifies this
      ensures Valid() && Value() == MachineModel.EvaluateTimers(old(Value()), now)
    {
      var quiet := if now >= lastActivity then now - lastActivity else 0;
      if state.playback.IsSession() && quiet >= cfg.session {
        EnterIdle(now);
      } else if state.playback == Playing && quiet >= cfg.stall {
        SetPlayback(Paused);
      }
    }

    /** Where the amplifier should be: a manual override, or else the policy. */
    method DesiredAmp(now: nat) returns (want: bool)
      ensures want == Else(ampOverride, PolicyAmp(Value(), now))
    {
      if !cfg.ampEnabled {
        want := false;
      } else if state.playback.IsSession() {
        match cfg.onEvent {
          case SessionBegin =>
            want := true;
          case PlayBegin =>
            want := state.playback in {Starting, Playing} || state.power.amp;
        }
      } else {
        want := ampOffAt.Some? && now < ampOffAt.value && state.power.amp;
      }
      if ampOverride.Some? {
        want := ampOverride.value;
      }
    }

    /** Where the panel should be: a manual override, or else the policy. */
    method DesiredDisplay(now: nat) returns (want: DisplayPower)
      ensures want == Else(displayOverride, PolicyDisplay(Value(), now))
    {
      if state.playback.IsSession() {
        want := On;
      } else if Due(blankAt, now) {
        want := Off;
      } else if Due(ambientAt, now) {
        want := Ambient;
      } else {
        want := state.power.display;
      }
      if displayOverride.Some? {
        want := displayOverride.value;
      }
    }

    /** Switch the outputs that differ, and report them. */
    method Switch(wantAmp: bool, wantDisplay: DisplayPower) returns (effects: seq<Effect>)
      modifies this`state
      ensures state == old(state).(power := Power(wantAmp, wantDisplay))
      ensures effects == PowerEffects(old(state.power), state.power)
    {
      effects := [];
      if wantAmp != state.power.amp {
        state := state.(power := state.power.(amp := wantAmp));
        effects := effects + [SetAmp(wantAmp)];
      }
      if wantDisplay != state.power.display {
        state := state.(power := state.power.(display := wantDisplay));
        effects := effects + [SetDisplay(wantDisplay)];
      }
    }

    method ApplyPower(now: nat) returns (effects: seq<Effect>)
      requires Valid()
      modifies this
      ensures Valid() && (Value(), effects) == MachineModel.ApplyPower(old(Value()), now)
    {
      hide PolicyAmp, PolicyDisplay, PowerEffects;
      ghost var m := Value();
      var wantAmp := DesiredAmp(now);
      if displayOverride.Some? && (Due(blankAt, now) || Due(ambientAt, now)) {
        displayOverride := None;
      }
      var wantDisplay := DesiredDisplay(now);
      PolicyIgnoresOverride(m, displayOverride, now);
      effects := Switch(wantAmp, wantDisplay);
      if Due(ampOffAt, now) {
        ampOffAt := None;
      }
      if Due(ambientAt, now) {
        ambientAt := None;
      }
      if Due(blankAt, now) {
        blankAt := None;
      }
    }
  }

  lemma PolicyIgnoresOverride(m: Model, o: Option<DisplayPower>, now: nat)
    ensures PolicyDisplay(m.(displayOverride := o), now) == PolicyDisplay(m, now)
  {
  }

  // --- bundles, field by field ---------------------------------------------------------

  /** The track a bundle's fields describe, gathered field by field. */
  method DescribeTrack(fields: Fields) returns (track: Track)
    requires Keyed(fields)
    ensures track == TrackFrom(fields)
  {
    hide NonEmpty, TextAt, NumberAt, Identity, Absorb, Visited;
    track := Track(TextOf(None, None, None), None, None, None, None, None, None, None, None);
    var persistentId: Option<nat> := None;
    DescribesNothing(fields, track);
    for k := 0 to |KEY_ORDER|
      invariant Keyed(Visited(fields, k))
      invariant Describes(track, persistentId, Visited(fields, k))
    {
      var key := KEY_ORDER[k];
      VisitNext(fields, k);
      if key in fields {
        var field := fields[key];
        AbsorbDescribes(track, persistentId, Visited(fields, k), field);
        var (track', persistentId') := Absorb(track, persistentId, field);
        track, persistentId := track', persistentId';
      }
    }
    VisitedAll(fields);
    track := track.(id := Identity(persistentId, track.artist, track.album, track.title));
  }

  lemma DescribesNothing(fields: Fields, t: Track)
    requires t == Track(TextOf(None, None, None), None, None, None, None, None, None, None, None)
    ensures Keyed(Visited(fields, 0)) && Describes(t, None, Visited(fields, 0))
  {
    assert KEY_ORDER[..0] == [];
    assert Visited(fields, 0) == map[];
  }

  ghost predicate Keyed(fields: Fields) {
    forall k :: k in fields ==> CoreKey(fields[k]) == k
  }

  /** The track attributes gathered so far are those of the fields visited so far. */
  ghost predicate Describes(t: Track, persistentId: Option<nat>, done: Fields) {
    && Keyed(done)
    && persistentId == NumberAt(done, KPersistentId)
    && t.title == TextAt(done, KTitle) && t.artist == TextAt(done, KArtist) && t.album == TextAt(done, KAlbum)
    && t.albumArtist == TextAt(done, KAlbumArtist) && t.genre == TextAt(done, KGenre)
    && t.composer == TextAt(done, KComposer)
    && t.durationMs == NumberAt(done, KDurationMs) && t.trackNumber == NumberAt(done, KTrackNumber)
  }

  /** One field, put where it belongs. */
  function Absorb(t: Track, persistentId: Option<nat>, f: CoreField): (Track, Option<nat>) {
    match f
    case Title(s) => (t.(title := NonEmpty(s)), persistentId)
    case Artist(s) => (t.(artist := NonEmpty(s)), persistentId)
    case Album(s) => (t.(album := NonEmpty(s)), persistentId)
    case AlbumArtist(s) => (t.(albumArtist := NonEmpty(s)), persistentId)
    case Genre(s) => (t.(genre := NonEmpty(s)), persistentId)
    case Composer(s) => (t.(composer := NonEmpty(s)), persistentId)
    case DurationMs(v) => (t.(durationMs := Some(v)), persistentId)
    case TrackNumber(v) => (t.(trackNumber := Some(v)), persistentId)
    case PersistentId(v) => (t, Some(v))
    case _ => (t, persistentId)
  }

  /** Filing a field under its key leaves what stands under the others. */
  lemma OthersStay(done: Fields, f: CoreField, k: Key)
    requires k != CoreKey(f)
    ensures TextAt(done[CoreKey(f) := f], k) == TextAt(done, k)
    ensures NumberAt(done[CoreKey(f) := f], k) == NumberAt(done, k)
  {
  }

  /** What stands under the field's own key once it is filed there. */
  lemma OwnKey(done: Fields, f: CoreField)
    ensures var after := done[CoreKey(f) := f];
            match f
            case Title(s) => TextAt(after, KTitle) == NonEmpty(s)
            case Artist(s) => TextAt(after, KArtist) == NonEmpty(s)
            case Album(s) => TextAt(after, KAlbum) == NonEmpty(s)
            case AlbumArtist(s) => TextAt(after, KAlbumArtist) == NonEmpty(s)
            case Genre(s) => TextAt(after, KGenre) == NonEmpty(s)
            case Composer(s) => TextAt(after, KComposer) == NonEmpty(s)
            case DurationMs(v) => NumberAt(after, KDurationMs) == Some(v)
            case TrackNumber(v) => NumberAt(after, KTrackNumber) == Some(v)
            case PersistentId(v) => NumberAt(after, KPersistentId) == Some(v)
            case _ => true
  {
    hide NonEmpty;
  }

  /** Filing one more field under its key is absorbing it. */
  lemma AbsorbDescribes(t: Track, persistentId: Option<nat>, done: Fields, f: CoreField)
    requires Describes(t, persistentId, done)
    ensures var (t', p') := Absorb(t, persistentId, f); Describes(t', p', done[CoreKey(f) := f])
  {
    hide NonEmpty, TextAt, NumberAt;
    OwnKey(done, f);
    forall k: Key | k != CoreKey(f)
      ensures TextAt(done[CoreKey(f) := f], k) == TextAt(done, k)
      ensures NumberAt(done[CoreKey(f) := f], k) == NumberAt(done, k)
    {
      OthersStay(done, f, k);
    }
  }

  /** The fields under the first k keys. */
  ghost function Visited(fields: Fields, k: nat): Fields
    requires k <= |KEY_ORDER|
  {
    map key | key in fields && key in KEY_ORDER[..k] :: fields[key]
  }

  lemma VisitNext(fields: Fields, k: nat)
    requires k < |KEY_ORDER|
    ensures var key := KEY_ORDER[k];
            Visited(fields, k + 1) == if key in fields then Visited(fields, k)[key := fields[key]] else Visited(fields, k)
  {
    assert KEY_ORDER[..k + 1] == KEY_ORDER[..k] + [KEY_ORDER[k]];
  }

  /** The key order misses no key. */
  lemma VisitedAll(fields: Fields)
    ensures Visited(fields, |KEY_ORDER|) == fields
  {
    forall key: Key ensures key in KEY_ORDER[..|KEY_ORDER|] {
      var at := match key
        case KAlbum => 0 case KAlbumArtist => 1 case KArtist => 2 case KComment => 3 case KComposer => 4
        case KDescription => 5 case KDurationMs => 6 case KGenre => 7 case KOther => 8 case KPersistentId => 9
        case KSortName => 10 case KTitle => 11 case KTrackNumber => 12 case KUrl => 13;
      assert KEY_ORDER[..|KEY_ORDER|][at] == key;
    }
  }
}
