/** The playback and power state machine as a value: one function per
    operation. Times are milliseconds passed in by the caller; effects come
    out as values. */
module MachineModel {
  import opened Bytes
  import Numerals

  // --- configuration -----------------------------------------------------------

  datatype AmpTrigger = SessionBegin | PlayBegin

  /** The settings that govern timers and power, with delays in milliseconds. */
  datatype Config = Config(
    ampEnabled: bool, onEvent: AmpTrigger, offDelay: nat,
    ambientAfter: Option<nat>, blankAfter: nat,
    stall: nat, session: nat)

  /** The cross-field checks a configuration must pass before it is used. */
  predicate Validated(cfg: Config) {
    && cfg.stall < cfg.session
    && (cfg.ambientAfter.Some? ==> cfg.ambientAfter.value < cfg.blankAfter)
  }

  // --- published state ------------------------------------------------------------

  datatype Playback = Idle | Active | Starting | Playing | Paused {
    predicate IsSession() {
      !Idle?
    }
  }

  datatype DisplayPower = On | Ambient | Off

  datatype Power = Power(amp: bool, display: DisplayPower)

  /** The sender's persistent identifier, or else the text a hash would be taken of. */
  datatype TrackId =
    | Persistent(id: nat)
    | TextOf(artist: Option<string>, album: Option<string>, title: Option<string>)

  datatype Track = Track(
    id: TrackId, title: Option<string>, artist: Option<string>, album: Option<string>,
    albumArtist: Option<string>, genre: Option<string>, composer: Option<string>,
    durationMs: Option<nat>, trackNumber: Option<nat>)

  datatype ArtworkSource = Airplay | Itunes | CoverArtArchive | Cached | Placeholder

  /** An image the runtime has stored. */
  datatype Image = Image(
    sha256: string, path: string, size: nat, dimensions: Option<(nat, nat)>,
    source: ArtworkSource, isUpgrade: bool)

  datatype Artwork = Artwork(revision: nat, image: Image)

  datatype Progress = Progress(positionMs: int, durationMs: int)

  datatype Volume = Volume(airplayDb: real, muted: bool)

  datatype Session = Session(
    active: bool, clientName: Option<string>, userAgent: Option<string>, clientIp: Option<string>)

  datatype State = State(
    playback: Playback, session: Session, track: Option<Track>, artwork: Option<Artwork>,
    progress: Option<Progress>, volume: Option<Volume>, power: Power)

  const BOOT_STATE :=
    State(Idle, Session(false, None, None, None), None, None, None, None, Power(false, Off))

  // --- inputs -------------------------------------------------------------------------

  datatype CoreField =
    | Title(s: string) | Artist(s: string) | Album(s: string) | AlbumArtist(s: string)
    | Genre(s: string) | Composer(s: string) | Comment(s: string) | Description(s: string)
    | SortName(s: string) | Url(s: string)
    | DurationMs(v: nat) | TrackNumber(v: nat) | PersistentId(v: nat)
    | Other(code: nat, raw: bytes)

  datatype Key =
    | KAlbum | KAlbumArtist | KArtist | KComment | KComposer | KDescription | KDurationMs
    | KGenre | KOther | KPersistentId | KSortName | KTitle | KTrackNumber | KUrl

  /** The order in which a bundle's fields are visited: alphabetical by key. */
  const KEY_ORDER := [KAlbum, KAlbumArtist, KArtist, KComment, KComposer, KDescription, KDurationMs,
                      KGenre, KOther, KPersistentId, KSortName, KTitle, KTrackNumber, KUrl]

  function CoreKey(f: CoreField): Key {
    match f
    case Title(_) => KTitle
    case Artist(_) => KArtist
    case Album(_) => KAlbum
    case AlbumArtist(_) => KAlbumArtist
    case Genre(_) => KGenre
    case Composer(_) => KComposer
    case Comment(_) => KComment
    case Description(_) => KDescription
    case SortName(_) => KSortName
    case Url(_) => KUrl
    case DurationMs(_) => KDurationMs
    case TrackNumber(_) => KTrackNumber
    case PersistentId(_) => KPersistentId
    case Other(_, _) => KOther
  }

  datatype MetaEvent =
    | ActiveBegin | ActiveEnd | PlayBegins | PlayEnd | PlayFlush | PlayResume | FirstFrame | Stall
    | BundleStart | BundleEnd | Core(field: CoreField)
    | PictureStart | PictureEnd | Picture(image: bytes) | PictureCleared
    | ProgressAt(progress: Progress) | VolumeAt(volume: Volume)
    | ClientName(name: string) | UserAgent(name: string) | ClientIp(name: string) | ClientConnected(name: string)
    | Unhandled

  datatype Input = Meta(event: MetaEvent) | PipeEof | ParseError | Tick

  datatype Effect =
    | StoreArtwork(image: bytes) | ClearArtwork | SetAmp(on: bool) | SetDisplay(value: DisplayPower)

  // --- the machine as a value ------------------------------------------------------------

  type Fields = map<Key, CoreField>

  datatype Model = Model(
    cfg: Config, state: State, sessions: nat,
    pending: Option<Fields>, pictureOpen: bool,
    lastActivity: nat, idleSince: Option<nat>,
    ampOffAt: Option<nat>, ambientAt: Option<nat>, blankAt: Option<nat>,
    ampOverride: Option<bool>, displayOverride: Option<DisplayPower>)
  {
    predicate InSession() {
      state.playback.IsSession()
    }
  }

  function Boot(cfg: Config, now: nat): Model {
    Model(cfg, BOOT_STATE, 0, None, false, now, Some(now), None, None, None, None, None)
  }

  predicate Due(t: Option<nat>, now: nat) {
    t.Some? && now >= t.value
  }

  function Retired(t: Option<nat>, now: nat): Option<nat> {
    if Due(t, now) then None else t
  }

  function After(delay: Option<nat>, from: nat): Option<nat> {
    if delay.Some? then Some(from + delay.value) else None
  }

  function WithPlayback(m: Model, p: Playback): Model {
    m.(state := m.state.(playback := p))
  }

  // --- transitions --------------------------------------------------------------------------

  function EnterActive(m: Model, now: nat): Model {
    var woken := if m.InSession() then m
                 else m.(sessions := m.sessions + 1, idleSince := None,
                         ampOverride := None, displayOverride := None,
                         ampOffAt := None, ambientAt := None, blankAt := None);
    var active := WithPlayback(woken.(lastActivity := now), Active);
    active.(state := active.state.(session := active.state.session.(active := true)))
  }

  function EnterIdle(m: Model, now: nat): Model {
    if !m.InSession() then m
    else
      m.(state := m.state.(playback := Idle, progress := None, session := m.state.session.(active := false)),
         pending := None, pictureOpen := false, idleSince := Some(now),
         ampOverride := None, displayOverride := None,
         ampOffAt := Some(now + m.cfg.offDelay),
         ambientAt := After(m.cfg.ambientAfter, now),
         blankAt := Some(now + m.cfg.blankAfter))
  }

  /** A session that has gone quiet ends; a stream that has stalled counts as paused. */
  function EvaluateTimers(m: Model, now: nat): Model {
    var quiet := if now >= m.lastActivity then now - m.lastActivity else 0;
    if m.InSession() && quiet >= m.cfg.session then EnterIdle(m, now)
    else if m.state.playback == Playing && quiet >= m.cfg.stall then WithPlayback(m, Paused)
    else m
  }

  /** Where the amplifier should be, overrides aside. */
  function PolicyAmp(m: Model, now: nat): bool {
    && m.cfg.ampEnabled
    && if m.InSession() then
         m.cfg.onEvent == SessionBegin || m.state.playback in {Starting, Playing} || m.state.power.amp
       else
         m.ampOffAt.Some? && now < m.ampOffAt.value && m.state.power.amp
  }

  function PolicyDisplay(m: Model, now: nat): DisplayPower {
    if m.InSession() then On
    else if Due(m.blankAt, now) then Off
    else if Due(m.ambientAt, now) then Ambient
    else m.state.power.display
  }

  function Else<T>(o: Option<T>, default: T): T {
    if o.Some? then o.value else default
  }

  /** Bring the power outputs to where they should be, report what changed, and retire the timers that fired. */
  function ApplyPower(m: Model, now: nat): (Model, seq<Effect>) {
    var forced := if Due(m.blankAt, now) || Due(m.ambientAt, now) then None else m.displayOverride;
    var power := Power(Else(m.ampOverride, PolicyAmp(m, now)), Else(forced, PolicyDisplay(m, now)));
    (m.(state := m.state.(power := power), displayOverride := forced,
        ampOffAt := Retired(m.ampOffAt, now),
        ambientAt := Retired(m.ambientAt, now),
        blankAt := Retired(m.blankAt, now)),
     PowerEffects(m.state.power, power))
  }

  function PowerEffects(from: Power, to: Power): seq<Effect> {
    (if from.amp != to.amp then [SetAmp(to.amp)] else [])
    + (if from.display != to.display then [SetDisplay(to.display)] else [])
  }

  // --- metadata --------------------------------------------------------------------------------

  function ScalarsOf(s: string): Numerals.scalars {
    seq(|s|, i requires 0 <= i < |s| => s[i] as int)
  }

  function NonEmpty(s: string): Option<string> {
    var front := Numerals.TrimStart(ScalarsOf(s));
    var trimmed, start := Numerals.TrimEnd(front), |s| - |front|;
    if trimmed == [] then None else Some(s[start..start + |trimmed|])
  }

  function TextAt(fields: Fields, k: Key): Option<string> {
    if k in fields && (fields[k].Title? || fields[k].Artist? || fields[k].Album? || fields[k].AlbumArtist?
                       || fields[k].Genre? || fields[k].Composer?) then NonEmpty(fields[k].s) else None
  }

  function NumberAt(fields: Fields, k: Key): Option<nat> {
    if k in fields && (fields[k].DurationMs? || fields[k].TrackNumber? || fields[k].PersistentId?)
    then Some(fields[k].v) else None
  }

  /** The identity a track is recognised by: the sender's, unless it is missing or zero. */
  function Identity(persistentId: Option<nat>, artist: Option<string>, album: Option<string>, title: Option<string>): TrackId {
    if persistentId.Some? && persistentId.value != 0 then Persistent(persistentId.value)
    else TextOf(artist, album, title)
  }

  /** The track a bundle describes: each attribute from the field under its key. */
  function TrackFrom(fields: Fields): Track {
    var title, artist, album := TextAt(fields, KTitle), TextAt(fields, KArtist), TextAt(fields, KAlbum);
    Track(Identity(NumberAt(fields, KPersistentId), artist, album, title), title, artist, album,
          TextAt(fields, KAlbumArtist), TextAt(fields, KGenre), TextAt(fields, KComposer),
          NumberAt(fields, KDurationMs), NumberAt(fields, KTrackNumber))
  }

  function CommitBundle(m: Model): Model {
    if m.pending.None? then m
    else if m.pending.value == map[] then m.(pending := None)
    else m.(pending := None, state := m.state.(track := Some(TrackFrom(m.pending.value))))
  }

  /** The state after a metadata event, before timers and power are considered. */
  function OnMeta(m: Model, ev: MetaEvent, now: nat): Model {
    match ev
    case ActiveBegin => EnterActive(m, now)
    case ActiveEnd => EnterIdle(m, now)
    case PlayBegins => WithPlayback(if m.InSession() then m else EnterActive(m, now), Starting)
    case FirstFrame => if m.InSession() then WithPlayback(m, Playing) else m
    case PlayEnd =>
      if m.InSession() then m.(state := m.state.(playback := Active, progress := None)) else m
    case PlayFlush => if m.state.playback == Playing then WithPlayback(m, Paused) else m
    case PlayResume => if m.InSession() then WithPlayback(m, Playing) else m
    case Stall => if m.state.playback == Playing then WithPlayback(m, Paused) else m
    case BundleStart => m.(pending := Some(map[]))
    case BundleEnd => CommitBundle(m)
    case Core(f) => if m.pending.Some? then m.(pending := Some(m.pending.value[CoreKey(f) := f])) else m
    case PictureStart => m.(pictureOpen := true)
    case PictureEnd => m.(pictureOpen := false)
    case Picture(_) => m
    case PictureCleared => m.(state := m.state.(artwork := None))
    case ProgressAt(p) =>
      var playing := if m.state.playback == Paused then WithPlayback(m, Playing) else m;
      playing.(state := playing.state.(progress := Some(p)))
    case VolumeAt(v) => m.(state := m.state.(volume := Some(v)))
    case ClientName(s) => m.(state := m.state.(session := m.state.session.(clientName := Some(s))))
    case UserAgent(s) => m.(state := m.state.(session := m.state.session.(userAgent := Some(s))))
    case ClientIp(s) => m.(state := m.state.(session := m.state.session.(clientIp := Some(s))))
    case ClientConnected(s) =>
      if s != "" then m.(state := m.state.(session := m.state.session.(clientIp := Some(s)))) else m
    case Unhandled => m
  }

  function MetaEffects(m: Model, ev: MetaEvent): seq<Effect> {
    match ev
    case Picture(image) => [StoreArtwork(image)]
    case PictureCleared => if m.state.artwork.Some? then [ClearArtwork] else []
    case _ => []
  }

  // --- the operations --------------------------------------------------------------------------

  /** The state once an input has been taken in, before timers and power are considered. */
  function TakeIn(m: Model, input: Input, now: nat): Model {
    match input
    case Meta(ev) => OnMeta(m.(lastActivity := now), ev, now)
    case PipeEof => EnterIdle(m, now)
    case ParseError => m
    case Tick => m
  }

  function InputEffects(m: Model, input: Input): seq<Effect> {
    if input.Meta? then MetaEffects(m, input.event) else []
  }

  function Apply(m: Model, input: Input, now: nat): (Model, seq<Effect>) {
    var (m', power) := ApplyPower(EvaluateTimers(TakeIn(m, input, now), now), now);
    (m', InputEffects(m, input) + power)
  }

  /** Adopt a new configuration; idle timers are recomputed from when the machine went idle. */
  function SetConfig(m: Model, cfg: Config, now: nat): (Model, seq<Effect>) {
    var adopted := m.(cfg := cfg);
    if m.InSession() then ApplyPower(adopted, now)
    else
      var since := Else(m.idleSince, now);
      ApplyPower(adopted.(ampOffAt := if m.ampOffAt.Some? then Some(since + cfg.offDelay) else None,
                          ambientAt := After(cfg.ambientAfter, since),
                          blankAt := Some(since + cfg.blankAfter)), now)
  }

  function OverrideAmp(m: Model, on: bool, now: nat): (Model, seq<Effect>) {
    ApplyPower(m.(ampOverride := Some(on)), now)
  }

  /** Force a display state; when idle, the idle timers start again from now. */
  function OverrideDisplay(m: Model, value: DisplayPower, now: nat): (Model, seq<Effect>) {
    var forced := m.(displayOverride := Some(value));
    if m.InSession() then ApplyPower(forced, now)
    else ApplyPower(forced.(ambientAt := After(m.cfg.ambientAfter, now),
                            blankAt := Some(now + m.cfg.blankAfter)), now)
  }

  /** Record stored artwork; the same image again changes nothing. */
  function SetArtwork(m: Model, image: Image): Model {
    var existing := m.state.artwork;
    if existing.Some? && existing.value.image.sha256 == image.sha256 then m
    else
      var revision := (if existing.Some? then existing.value.revision else 0) + 1;
      m.(state := m.state.(artwork := Some(Artwork(revision, image))))
  }

  function Earlier(a: Option<nat>, b: Option<nat>): (r: Option<nat>)
    ensures r.None? <==> a.None? && b.None?
    ensures r.Some? ==> r == a || r == b
    ensures a.Some? ==> r.value <= a.value
    ensures b.Some? ==> r.value <= b.value
  {
    if a.None? then b else if b.None? || a.value <= b.value then a else b
  }

  /** The earliest of the armed timers and the running timeouts. */
  function NextDeadline(m: Model): Option<nat> {
    var power := Earlier(Earlier(m.ampOffAt, m.ambientAt), m.blankAt);
    var stall := if m.state.playback == Playing then Some(m.lastActivity + m.cfg.stall) else None;
    var session := if m.InSession() then Some(m.lastActivity + m.cfg.session) else None;
    Earlier(Earlier(power, stall), session)
  }
}
