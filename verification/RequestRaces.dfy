/** Runs of overlapping requests that lose or resurrect a value, from an empty override
    under a schema that takes any text. */
module RequestRaces {
  import opened Bytes
  import opened ConfigTree
  import opened TreeLaws
  import opened Overrides
  import opened SettingsModel
  import opened SettingsLaws
  import opened RequestModel
  import opened RequestLaws

  const MODE: Path := ["display", "mode"]
  const ROTATION: Path := ["display", "rotation"]

  predicate Accepts(v: Value) {
    v.Table? && LeafPaths(v) <= CONFIRM && forall k | k in CONFIRM :: Get(v, k).Some? ==> Get(v, k).value.Leaf?
  }

  /** The two display settings and nothing else, with any text for a value. */
  const DISPLAY_ONLY: Schema := Schema(CONFIRM, Accepts)

  /** No base file, no override, nothing pending. */
  const FRESH: Setup := Setup(DISPLAY_ONLY, Missing, World(Settings(Missing, None, 1), map[]))

  lemma DisplayOnlyIsProper()
    ensures Proper(DISPLAY_ONLY)
  {
    assert MODE[1] != ROTATION[1];
    forall v | Accepts(v) ensures KnownLeaves(DISPLAY_ONLY, v) {
      forall p | LeafAt(v, p).Some? ensures p in CONFIRM {
        LeafPathsAre(v, p);
      }
    }
  }

  /** Under this schema every edit of the display settings is carried out. */
  lemma EditsAreAccepted(s: Settings, es: seq<Edit>)
    requires Sound(DISPLAY_ONLY, s) && Keyed(DISPLAY_ONLY, es)
    ensures Outcome(DISPLAY_ONLY, Missing, s.local, es, true).Ok?
  {
    DisplayOnlyIsProper();
    hide Pruned, Fits, Overrides.Apply, KnownLeaves;
    NoEmptyKeys(DISPLAY_ONLY, es);
    ApplyKeeps(DISPLAY_ONLY, Read(s.local).value, es);
    FitsAccepted(Overrides.Apply(Read(s.local).value, es).value);
  }

  lemma FitsAccepted(t: Value)
    requires Fits(DISPLAY_ONLY, t)
    ensures Accepts(t) && Merge(EMPTY, t) == t
  {
    forall p | p in LeafPaths(t) ensures p in CONFIRM {
      LeafPathsAre(t, p);
    }
  }

  /** One key set to a text, or dropped. */
  function Put(k: Path, v: Option<Value>): seq<Edit> {
    [Edit(k, v)]
  }

  function Text(text: string): Option<Value> {
    Some(Leaf(text))
  }

  lemma PutTouches(k: Path, v: Option<Value>)
    requires k in CONFIRM && (v.Some? ==> v.value.Leaf?)
    ensures Touched(Put(k, v)) == {k} && Keyed(DISPLAY_ONLY, Put(k, v))
  {
    assert Put(k, v)[0].key == k;
    forall j | j in Touched(Put(k, v)) ensures j == k {
    }
  }

  function At(w: World, k: Path): Option<Value>
    requires Read(w.settings.local).Ok?
  {
    Get(Read(w.settings.local).value, k)
  }

  function Opened(k: Path, v: Option<Value>, noted: Undo): Request {
    Request(Put(k, v), noted, None, false)
  }

  lemma NoteMoves(w: World, r: nat, k: Path, text: string)
    requires Sound(DISPLAY_ONLY, w.settings) && r !in w.open && k in CONFIRM
    ensures Moved(FRESH, w, Note(r, Put(k, Text(text))))
         == w.(open := w.open[r := Opened(k, Text(text), map[k := At(w, k)])])
  {
    hide Get;
    PutTouches(k, Text(text));
    assert Snapshot(Read(w.settings.local).value, {k}) == map[k := At(w, k)];
  }

  /** The edited table a request makes of what it reads. */
  lemma EditedTable(s: Settings, k: Path, v: Option<Value>)
    requires Sound(DISPLAY_ONLY, s) && k in CONFIRM && (v.Some? ==> v.value.Leaf?)
    ensures Outcome(DISPLAY_ONLY, Missing, s.local, Put(k, v), true).Ok? && k != []
    ensures var t := Overrides.Apply(Read(s.local).value, Put(k, v));
      && t.Some? && Fits(DISPLAY_ONLY, t.value) && t.value.Table?
      && forall j | j in CONFIRM :: Get(t.value, j) == if j == k then v else Get(Read(s.local).value, j)
  {
    DisplayOnlyIsProper();
    PutTouches(k, v);
    EditsAreAccepted(s, Put(k, v));
    ApplyKeeps(DISPLAY_ONLY, Read(s.local).value, Put(k, v));
    OneEdit(Read(s.local).value, Put(k, v)[0]);
    hide Proper, Fits, Accepts;
    forall j | j in CONFIRM
      ensures Get(Applied(Read(s.local).value, Edit(k, v)).value, j) == if j == k then v else Get(Read(s.local).value, j)
    {
      EditGet(DISPLAY_ONLY, Read(s.local).value, Edit(k, v), j);
    }
  }

  lemma OneEdit(v: Value, e: Edit)
    requires e.key != []
    ensures Overrides.Apply(v, [e]) == Applied(v, e)
  {
    assert [e][..0] == [];
  }

  /** A request opened with one edit, once it has read the file. */
  ghost predicate HasRead(w: World, r: nat, k: Path, v: Option<Value>, noted: Undo, mode: Option<Value>, rotation: Option<Value>) {
    && r in w.open && w.open[r].edits == Put(k, v) && w.open[r].noted == noted
    && w.open[r].read.Some? && !w.open[r].written
    && Fits(DISPLAY_ONLY, w.open[r].read.value) && w.open[r].read.value.Table?
    && Get(w.open[r].read.value, MODE) == mode && Get(w.open[r].read.value, ROTATION) == rotation
  }

  lemma FetchMoves(w: World, r: nat, k: Path, v: Option<Value>, noted: Undo)
    requires Sound(DISPLAY_ONLY, w.settings) && k in CONFIRM && (v.Some? ==> v.value.Leaf?)
    requires r in w.open && w.open[r] == Opened(k, v, noted)
    ensures var t := Moved(FRESH, w, Fetch(r));
      && t.settings == w.settings && t.open.Keys == w.open.Keys
      && (forall q | q in w.open && q != r :: t.open[q] == w.open[q])
      && HasRead(t, r, k, v, noted, if k == MODE then v else At(w, MODE), if k == ROTATION then v else At(w, ROTATION))
  {
    EditedTable(w.settings, k, v);
    hide Outcome, Overrides.Apply, Fits, Get;
  }

  /** The file is replaced, and the request waits to arm, or ends with nothing to arm. */
  lemma ReplaceMoves(w: World, r: nat, k: Path, v: Option<Value>, noted: Undo, mode: Option<Value>, rotation: Option<Value>)
    requires HasRead(w, r, k, v, noted, mode, rotation)
    ensures var t := Moved(FRESH, w, Replace(r, true));
      && t.settings.pending == w.settings.pending && t.settings.nextId == w.settings.nextId
      && Sound(DISPLAY_ONLY, t.settings) && At(t, MODE) == mode && At(t, ROTATION) == rotation
      && (noted == map[] ==> t.open == w.open - {r})
      && (noted != map[] ==> t.open == w.open[r := w.open[r].(written := true)])
  {
    hide Fits, Get;
  }

  lemma FreshIsSound()
    ensures Sound(DISPLAY_ONLY, FRESH.start.settings)
    ensures At(FRESH.start, MODE) == None && At(FRESH.start, ROTATION) == None
  {
    forall p ensures LeafAt(EMPTY, p) == None {
      NothingInEmpty(p);
    }
    forall k | k in CONFIRM ensures Get(EMPTY, k) == None {
      NothingInEmpty(k);
    }
  }

  lemma Grows(ms: seq<Move>, m: Move)
    ensures Play(FRESH, ms + [m]) == Moved(FRESH, Play(FRESH, ms), m)
  {
    hide Moved;
    assert (ms + [m])[..|ms|] == ms;
  }

  lemma GrowsByTwo(ms: seq<Move>, m: Move, n: Move)
    ensures Play(FRESH, ms + [m, n]) == Moved(FRESH, Moved(FRESH, Play(FRESH, ms), m), n)
  {
    hide Moved, Play;
    Grows(ms, m);
    Grows(ms + [m], n);
    assert ms + [m] + [n] == ms + [m, n];
  }

  lemma GrowsByThree(ms: seq<Move>, a: Move, b: Move, c: Move)
    ensures Play(FRESH, ms + [a, b, c]) == Moved(FRESH, Moved(FRESH, Moved(FRESH, Play(FRESH, ms), a), b), c)
  {
    hide Moved, Play;
    GrowsByTwo(ms, a, b);
    Grows(ms + [a, b], c);
    assert ms + [a, b] + [c] == ms + [a, b, c];
  }

  /** A request to set the mode, up to its arming. */
  function SetMode(r: nat, text: string): seq<Move> {
    [Note(r, Put(MODE, Text(text))), Fetch(r), Replace(r, true)]
  }

  /** It has written, and waits to arm with what it noted. */
  ghost predicate WaitsToArm(w: World, r: nat, noted: Option<Value>) {
    r in w.open && w.open[r].written && w.open[r].noted == map[MODE := noted]
  }

  lemma SetModeMoves(w: World, r: nat, text: string)
    requires Sound(DISPLAY_ONLY, w.settings) && r !in w.open
    ensures var t := Moved(FRESH, Moved(FRESH, Moved(FRESH, w, SetMode(r, text)[0]), SetMode(r, text)[1]), SetMode(r, text)[2]);
      && Sound(DISPLAY_ONLY, t.settings) && At(t, MODE) == Text(text)
      && t.settings.pending == w.settings.pending && t.settings.nextId == w.settings.nextId
      && WaitsToArm(t, r, At(w, MODE)) && t.open.Keys == w.open.Keys + {r}
      && forall q | q in w.open :: t.open[q] == w.open[q]
  {
    SoundReads(DISPLAY_ONLY, w.settings);
    hide Moved, Get, Sound;
    var noted := map[MODE := At(w, MODE)];
    assert MODE in noted;
    NoteMoves(w, r, MODE, text);
    var w1 := Moved(FRESH, w, Note(r, Put(MODE, Text(text))));
    FetchMoves(w1, r, MODE, Text(text), noted);
    var w2 := Moved(FRESH, w1, Fetch(r));
    ReplaceMoves(w2, r, MODE, Text(text), noted, Text(text), At(w, ROTATION));
  }

  /** A countdown that runs out, and puts the mode back. */
  function PutModeBack(r: nat, id: nat, v: Option<Value>): seq<Move> {
    [Expire(r, id, Put(MODE, v)), Fetch(r), Replace(r, true)]
  }

  lemma PutModeBackMoves(w: World, r: nat, id: nat, v: Option<Value>)
    requires Sound(DISPLAY_ONLY, w.settings) && r !in w.open && Live(w.settings, id) && (v.Some? ==> v.value.Leaf?)
    ensures var ms := PutModeBack(r, id, v);
      var t := Moved(FRESH, Moved(FRESH, Moved(FRESH, w, ms[0]), ms[1]), ms[2]);
      && Sound(DISPLAY_ONLY, t.settings) && Read(t.settings.local).Ok? && At(t, MODE) == v
      && t.settings.pending.None? && t.settings.nextId == w.settings.nextId && t.open == w.open
  {
    var w1 := Moved(FRESH, w, Expire(r, id, Put(MODE, v)));
    assert w1 == World(w.settings.(pending := None), w.open[r := Opened(MODE, v, map[])]);
    SettledFine(DISPLAY_ONLY, w.settings);
    hide Moved, Get, Sound;
    FetchMoves(w1, r, MODE, v, map[]);
    var w2 := Moved(FRESH, w1, Fetch(r));
    ReplaceMoves(w2, r, MODE, v, map[], v, At(w, ROTATION));
    SoundReads(DISPLAY_ONLY, Moved(FRESH, w2, Replace(r, true)).settings);
    assert w2.open - {r} == w.open;
  }

  lemma ArmMoves(w: World, r: nat, noted: Option<Value>)
    requires Sound(DISPLAY_ONLY, w.settings) && WaitsToArm(w, r, noted)
    ensures var t, undo := Moved(FRESH, w, Arm(r)), map[MODE := noted] + UndoOf(w.settings);
      && Sound(DISPLAY_ONLY, t.settings) && t.open == w.open - {r}
      && t.settings.local == w.settings.local
      && t.settings.pending == Some(Pending(w.settings.nextId, undo))
      && t.settings.nextId == w.settings.nextId + 1
  {
    hide Fits;
    var undo := map[MODE := noted];
    assert undo + map[] == undo;
  }

  // --- requests that arm out of turn -----------------------------------------------------------------

  /** Two requests: the second notes what the first has written, and arms before it. */
  const OUT_OF_TURN: seq<Move> := SetMode(1, "a") + SetMode(2, "b") + [Arm(2), Arm(1)]

  lemma OutOfTurnArms()
    ensures var w := Play(FRESH, OUT_OF_TURN);
      && Sound(DISPLAY_ONLY, w.settings) && 3 !in w.open
      && w.settings.pending == Some(Pending(2, map[MODE := Text("a")]))
  {
    hide Sound, Moved, Play, Get;
    FreshIsSound();
    var a, b := SetMode(1, "a"), SetMode(2, "b");
    GrowsByThree([], a[0], a[1], a[2]);
    assert [] + [a[0], a[1], a[2]] == a;
    PlayNothing();
    SetModeMoves(FRESH.start, 1, "a");
    GrowsByThree(a, b[0], b[1], b[2]);
    assert a + [b[0], b[1], b[2]] == a + b;
    SetModeMoves(Play(FRESH, a), 2, "b");
    GrowsByTwo(a + b, Arm(2), Arm(1));
    var w := Play(FRESH, a + b);
    ArmMoves(w, 2, Text("a"));
    ArmMoves(Moved(FRESH, w, Arm(2)), 1, None);
    assert map[MODE := Text("a")] + map[] == map[MODE := Text("a")];
    assert map[MODE := None] + map[MODE := Text("a")] == map[MODE := Text("a")];
  }

  lemma PlayNothing()
    ensures Play(FRESH, []) == FRESH.start
  {
  }

  /** The countdown then holds the first one's value, though the override said nothing
      to begin with, and running out it restores a value nobody confirmed. */
  lemma OutOfTurnRestoresUnconfirmed()
    ensures At(FRESH.start, MODE) == None
    ensures var w := Play(FRESH, OUT_OF_TURN + PutModeBack(3, 2, Text("a")));
      w.settings.pending.None? && Read(w.settings.local).Ok? && At(w, MODE) == Text("a")
  {
    hide Sound, Moved, Play, Get;
    FreshIsSound();
    OutOfTurnArms();
    var back := PutModeBack(3, 2, Text("a"));
    GrowsByThree(OUT_OF_TURN, back[0], back[1], back[2]);
    assert OUT_OF_TURN + [back[0], back[1], back[2]] == OUT_OF_TURN + back;
    PutModeBackMoves(Play(FRESH, OUT_OF_TURN), 3, 2, Text("a"));
  }

  // --- a request that notes before another's countdown runs out -----------------------------------------

  /** The first request arms, the second takes its note, the first one's countdown runs
      out, and the second goes on. */
  const LATE: seq<Move> :=
    SetMode(1, "a") + [Arm(1), Note(2, Put(MODE, Text("b")))] + PutModeBack(3, 1, None)

  lemma LateReverts()
    ensures var w := Play(FRESH, LATE);
      && Sound(DISPLAY_ONLY, w.settings) && Read(w.settings.local).Ok? && At(w, MODE) == None
      && w.settings.pending.None? && w.settings.nextId == 2
      && w.open == map[2 := Opened(MODE, Text("b"), map[MODE := Text("a")])]
  {
    hide Sound, Moved, Play, Get;
    FreshIsSound();
    var a, back := SetMode(1, "a"), PutModeBack(3, 1, None);
    GrowsByThree([], a[0], a[1], a[2]);
    assert [] + [a[0], a[1], a[2]] == a;
    PlayNothing();
    SetModeMoves(FRESH.start, 1, "a");
    var w := Play(FRESH, a);
    var note := Note(2, Put(MODE, Text("b")));
    GrowsByTwo(a, Arm(1), note);
    ArmMoves(w, 1, None);
    var nothing: Undo := map[MODE := None];
    assert nothing + map[] == nothing;
    var armed := Moved(FRESH, w, Arm(1));
    assert armed.open == map[];
    NoteMoves(armed, 2, MODE, "b");
    GrowsByThree(a + [Arm(1), note], back[0], back[1], back[2]);
    assert a + [Arm(1), note] + [back[0], back[1], back[2]] == LATE;
    PutModeBackMoves(Moved(FRESH, armed, note), 3, 1, None);
  }

  /** The first revert does what it should. The second restores what the first undid. */
  lemma LateRestoresUnconfirmed()
    ensures var w := Play(FRESH, LATE); Read(w.settings.local).Ok? && At(w, MODE) == None && w.settings.pending.None?
    ensures var w := Play(FRESH, LATE + [Fetch(2), Replace(2, true)] + [Arm(2)] + PutModeBack(4, 2, Text("a")));
      w.settings.pending.None? && Read(w.settings.local).Ok? && At(w, MODE) == Text("a")
  {
    hide Sound, Moved, Play, Get;
    LateReverts();
    var w := Play(FRESH, LATE);
    var noted: Undo := map[MODE := Text("a")];
    assert MODE in noted;
    GrowsByTwo(LATE, Fetch(2), Replace(2, true));
    FetchMoves(w, 2, MODE, Text("b"), noted);
    ReplaceMoves(Moved(FRESH, w, Fetch(2)), 2, MODE, Text("b"), noted, Text("b"), At(w, ROTATION));
    var ms := LATE + [Fetch(2), Replace(2, true)];
    Grows(ms, Arm(2));
    ArmMoves(Play(FRESH, ms), 2, Text("a"));
    assert noted + map[] == noted;
    var back := PutModeBack(4, 2, Text("a"));
    GrowsByThree(ms + [Arm(2)], back[0], back[1], back[2]);
    assert ms + [Arm(2)] + [back[0], back[1], back[2]] == ms + [Arm(2)] + back;
    PutModeBackMoves(Play(FRESH, ms + [Arm(2)]), 4, 2, Text("a"));
  }

  // --- a key changed by a request that does not edit it ------------------------------------------

  /** The first request notes and reads the file; the second sets the rotation; then the
      first replaces the file. */
  const STALE: seq<Move> := [Note(1, Put(MODE, Text("a"))), Fetch(1)]

  function SetRotation(r: nat): seq<Move> {
    [Note(r, Put(ROTATION, Text("90"))), Fetch(r), Replace(r, true)]
  }

  /** The rotation is set, and lost again to a request that set the mode. */
  lemma StaleTableLosesEdit()
    ensures var w := Play(FRESH, STALE + SetRotation(2));
      Read(w.settings.local).Ok? && At(w, ROTATION) == Text("90")
    ensures var w := Play(FRESH, STALE + SetRotation(2) + [Replace(1, true)]);
      Read(w.settings.local).Ok? && At(w, ROTATION) == None && At(w, MODE) == Text("a")
  {
    hide Sound, Moved, Play, Get, HasRead;
    FreshIsSound();
    PlayNothing();
    var none: Option<Value> := None;
    var noted: Undo := map[MODE := none];
    GrowsByTwo([], STALE[0], STALE[1]);
    assert [] + [STALE[0], STALE[1]] == STALE;
    NoteMoves(FRESH.start, 1, MODE, "a");
    FetchMoves(Moved(FRESH, FRESH.start, STALE[0]), 1, MODE, Text("a"), noted);
    var w, rotate := Play(FRESH, STALE), SetRotation(2);
    GrowsByThree(STALE, rotate[0], rotate[1], rotate[2]);
    assert STALE + [rotate[0], rotate[1], rotate[2]] == STALE + rotate;
    RotationMoves(w, 2);
    var t := Play(FRESH, STALE + rotate);
    StillRead(w, t, 1, noted);
    Grows(STALE + rotate, Replace(1, true));
    ReplaceMoves(t, 1, MODE, Text("a"), noted, Text("a"), None);
    SoundReads(DISPLAY_ONLY, Moved(FRESH, t, Replace(1, true)).settings);
  }

  lemma StillRead(w: World, t: World, r: nat, noted: Undo)
    requires HasRead(w, r, MODE, Text("a"), noted, Text("a"), None) && r in t.open && t.open[r] == w.open[r]
    ensures HasRead(t, r, MODE, Text("a"), noted, Text("a"), None)
  {
  }

  lemma RotationMoves(w: World, r: nat)
    requires Sound(DISPLAY_ONLY, w.settings) && r !in w.open
    ensures var ms := SetRotation(r);
      var t := Moved(FRESH, Moved(FRESH, Moved(FRESH, w, ms[0]), ms[1]), ms[2]);
      && Read(t.settings.local).Ok? && At(t, ROTATION) == Text("90")
      && forall q | q in w.open :: q in t.open && t.open[q] == w.open[q]
  {
    SoundReads(DISPLAY_ONLY, w.settings);
    hide Moved, Get, Sound;
    var noted := map[ROTATION := At(w, ROTATION)];
    assert ROTATION in noted;
    NoteMoves(w, r, ROTATION, "90");
    var w1 := Moved(FRESH, w, Note(r, Put(ROTATION, Text("90"))));
    FetchMoves(w1, r, ROTATION, Text("90"), noted);
    var w2 := Moved(FRESH, w1, Fetch(r));
    ReplaceMoves(w2, r, ROTATION, Text("90"), noted, At(w, MODE), Text("90"));
    SoundReads(DISPLAY_ONLY, Moved(FRESH, w2, Replace(r, true)).settings);
  }
}
