/** What overlapping requests do to the override, and exactly when an unconfirmed change
    is put back as it was. */
module RequestLaws {
  import opened Bytes
  import opened ConfigTree
  import opened TreeLaws
  import opened Overrides
  import opened SettingsModel
  import opened SettingsLaws
  import opened RequestModel

  // --- steps run together -----------------------------------------------------------------

  /** With no other step in between, a request's four steps are one change. */
  lemma ChangeIsFourSteps(u: Setup, w: World, r: nat, es: seq<Edit>, writes: bool)
    requires [] !in u.schema.known && r !in w.open
    ensures Moved(u, Moved(u, Moved(u, Moved(u, w, Note(r, es)), Fetch(r)), Replace(r, writes)), Arm(r))
         == World(Changed(u.schema, u.base, w.settings, es, writes), w.open)
  {
    hide Outcome, Overrides.Apply;
    if Touched(es) == {} || Read(w.settings.local).Ok? {
      OutcomeNeedsWrite(u, w.settings.local, es, writes);
      SnapshotEmpty(w, es);
      var req := Noted(w, es);
      assert w.open[r := req] - {r} == w.open;
      if Outcome(u.schema, u.base, w.settings.local, es, true).Ok? {
        var read := req.(read := Overrides.Apply(Read(w.settings.local).value, es));
        assert w.open[r := req][r := read] == w.open[r := read];
        assert w.open[r := read] - {r} == w.open;
        assert w.open[r := read][r := read.(written := true)] - {r} == w.open;
      }
    }
  }

  /** Checking and writing succeed when checking does and the write does. */
  lemma OutcomeNeedsWrite(u: Setup, local: File, es: seq<Edit>, writes: bool)
    requires [] !in u.schema.known
    ensures Outcome(u.schema, u.base, local, es, writes).Ok? <==>
      Outcome(u.schema, u.base, local, es, true).Ok? && writes
    ensures Outcome(u.schema, u.base, local, es, true).Ok? ==>
      Read(local).Ok? && (forall i | 0 <= i < |es| :: es[i].key != []) && Overrides.Apply(Read(local).value, es).Some?
  {
    hide Overrides.Apply, Overrides.Load;
  }

  lemma SnapshotEmpty(w: World, es: seq<Edit>)
    requires Touched(es) == {} || Read(w.settings.local).Ok?
    ensures Noted(w, es).noted == map[] <==> Touched(es) == {}
  {
    if Touched(es) != {} {
      var k :| k in Touched(es);
      assert k in Noted(w, es).noted;
    }
  }

  /** And so are a countdown's three. */
  lemma RevertIsThreeSteps(u: Setup, w: World, r: nat, id: nat, order: seq<Edit>, writes: bool)
    requires [] !in u.schema.known && r !in w.open
    ensures Moved(u, Moved(u, Moved(u, w, Expire(r, id, order)), Fetch(r)), Replace(r, writes))
         == World(SettingsModel.Step(u.schema, u.base, w.settings, Revert(id, order, writes)), w.open)
  {
    hide Outcome, Overrides.Apply;
    if Live(w.settings, id) {
      OutcomeNeedsWrite(u, w.settings.local, order, writes);
      var req := Request(order, map[], None, false);
      assert w.open[r := req] - {r} == w.open;
      if Outcome(u.schema, u.base, w.settings.local, order, true).Ok? {
        var read := req.(read := Overrides.Apply(Read(w.settings.local).value, order));
        assert w.open[r := req][r := read] - {r} == w.open;
      }
    }
  }

  /** And so are a reset's. */
  lemma ResetIsThreeSteps(u: Setup, w: World, r: nat, es: seq<Edit>, writes: bool)
    requires [] !in u.schema.known && r !in w.open
    ensures Moved(u, Moved(u, Moved(u, w, Clear(r, es)), Fetch(r)), Replace(r, writes))
         == World(SettingsModel.Step(u.schema, u.base, w.settings, Reset(es, writes)), w.open)
  {
    hide Outcome, Overrides.Apply;
    OutcomeNeedsWrite(u, w.settings.local, es, writes);
    var req := Request(es, map[], None, false);
    assert w.open[r := req] - {r} == w.open;
    if Outcome(u.schema, u.base, w.settings.local, es, true).Ok? {
      var read := req.(read := Overrides.Apply(Read(w.settings.local).value, es));
      assert w.open[r := req][r := read] - {r} == w.open;
    }
  }

  // --- what every step keeps -------------------------------------------------------------

  predicate Plain(undo: Undo) {
    forall k | k in undo :: k in CONFIRM && (undo[k].Some? ==> undo[k].value.Leaf?)
  }

  ghost predicate RequestFine(schema: Schema, req: Request) {
    && Plain(req.noted) && Keyed(schema, req.edits)
    && (req.read.Some? ==> Fits(schema, req.read.value))
  }

  ghost predicate Fine(schema: Schema, w: World) {
    && Sound(schema, w.settings)
    && Plain(UndoOf(w.settings))
    && forall r | r in w.open :: RequestFine(schema, w.open[r])
  }

  /** Requests and resets name known keys, and a countdown that runs out puts back what
      it holds. */
  ghost predicate Allowed(schema: Schema, w: World, m: Move) {
    match m
    case Note(_, es) => Keyed(schema, es)
    case Clear(_, es) => Keyed(schema, es)
    case Expire(_, id, es) => Live(w.settings, id) ==> Lists(es, UndoOf(w.settings))
    case _ => true
  }

  ghost predicate AllowedRun(u: Setup, ms: seq<Move>)
    requires [] !in u.schema.known
  {
    forall i | 0 <= i < |ms| :: Allowed(u.schema, Play(u, ms[..i]), ms[i])
  }

  /** A schema that makes sense, and a start with no countdown and no request open. */
  ghost predicate Ready(u: Setup) {
    && Proper(u.schema) && CONFIRM <= u.schema.known
    && Sound(u.schema, u.start.settings) && u.start.settings.pending.None? && u.start.open == map[]
  }

  lemma ListedKeyed(schema: Schema, undo: Undo, order: seq<Edit>)
    requires CONFIRM <= schema.known && Plain(undo) && Lists(order, undo)
    ensures Keyed(schema, order)
  {
  }

  lemma NotePlain(schema: Schema, w: World, es: seq<Edit>)
    requires CONFIRM <= schema.known && Fine(schema, w)
    ensures Plain(Noted(w, es).noted)
  {
    hide Get;
    if Touched(es) != {} {
      forall k | k in Touched(es)
        ensures var v := Get(Read(w.settings.local).value, k); v.Some? ==> v.value.Leaf?
      {
        KnownIsLeaf(schema, Read(w.settings.local).value, k);
      }
    }
  }

  lemma FetchFine(u: Setup, w: World, r: nat)
    requires Proper(u.schema) && Fine(u.schema, w)
    ensures [] !in u.schema.known && Fine(u.schema, AfterFetch(u, w, r))
  {
    assert [] !in u.schema.known;
    hide Proper, Fits, Outcome, Overrides.Apply;
    if r in w.open {
      NoEmptyKeys(u.schema, w.open[r].edits);
      ApplyKeeps(u.schema, Read(w.settings.local).value, w.open[r].edits);
    }
  }

  lemma ReplaceFine(schema: Schema, w: World, r: nat, writes: bool)
    requires Fine(schema, w)
    ensures Fine(schema, AfterReplace(w, r, writes))
  {
    if r in w.open && w.open[r].read.Some? {
      FitsTable(schema, w.open[r].read.value);
    }
    hide Fits, Keyed;
  }

  lemma ArmFine(schema: Schema, w: World, r: nat)
    requires Fine(schema, w) && r in w.open
    ensures Plain(UndoOf(Armed(w.settings, w.open[r].noted)))
    ensures Sound(schema, Armed(w.settings, w.open[r].noted))
  {
    hide Fits;
  }

  lemma SettledFine(schema: Schema, s: Settings)
    requires Sound(schema, s)
    ensures Sound(schema, s.(pending := None))
  {
  }

  lemma MoveKeepsFine(u: Setup, w: World, m: Move)
    requires Proper(u.schema) && CONFIRM <= u.schema.known && Fine(u.schema, w) && Allowed(u.schema, w, m)
    ensures [] !in u.schema.known && Fine(u.schema, Moved(u, w, m))
  {
    assert [] !in u.schema.known;
    hide Proper, Sound, AfterFetch, AfterReplace, Fits;
    match m {
      case Note(r, es) => NotePlain(u.schema, w, es);
      case Clear(r, es) =>
      case Expire(r, id, es) =>
        if Live(w.settings, id) { ListedKeyed(u.schema, UndoOf(w.settings), es); }
        SettledFine(u.schema, w.settings);
      case Fetch(r) => FetchFine(u, w, r);
      case Replace(r, writes) => ReplaceFine(u.schema, w, r, writes);
      case Arm(r) => if r in w.open { ArmFine(u.schema, w, r); }
      case Keep(id) => SettledFine(u.schema, w.settings);
    }
  }

  lemma AllowedBefore(u: Setup, ms: seq<Move>, n: nat)
    requires [] !in u.schema.known && n <= |ms| && AllowedRun(u, ms)
    ensures AllowedRun(u, ms[..n])
  {
    hide Allowed, Play;
    forall i | 0 <= i < n ensures Allowed(u.schema, Play(u, ms[..n][..i]), ms[..n][i]) {
      assert ms[..n][..i] == ms[..i];
    }
  }

  lemma {:induction false} RunFine(u: Setup, ms: seq<Move>)
    requires Ready(u) && AllowedRun(u, ms)
    ensures Fine(u.schema, Play(u, ms))
  {
    assert [] !in u.schema.known;
    hide Proper, Sound, Moved, Allowed, Keyed;
    if ms != [] {
      var n := |ms| - 1;
      AllowedBefore(u, ms, n);
      RunFine(u, ms[..n]);
      MoveKeepsFine(u, Play(u, ms[..n]), ms[n]);
    }
  }

  // --- where the open requests stand ----------------------------------------------------------

  /** A request that stays open keeps its edits and its note, and what it has read but
      for the move that reads it. */
  lemma StaysOpen(u: Setup, w: World, m: Move, r: nat)
    requires [] !in u.schema.known && r in w.open && r in Moved(u, w, m).open
    ensures var before, after := w.open[r], Moved(u, w, m).open[r];
      && after.noted == before.noted && after.edits == before.edits
      && (!(m == Fetch(r) && before.read.None?) ==> after.read == before.read)
  {
    hide Outcome, Overrides.Apply, Noted;
  }

  lemma ReadsWhatIsThere(u: Setup, w: World, r: nat)
    requires [] !in u.schema.known && r in w.open && w.open[r].read.None? && r in Moved(u, w, Fetch(r)).open
    ensures Read(w.settings.local).Ok? && forall i | 0 <= i < |w.open[r].edits| :: w.open[r].edits[i].key != []
    ensures Moved(u, w, Fetch(r)).open[r].read == Overrides.Apply(Read(w.settings.local).value, w.open[r].edits)
  {
    OutcomeNeedsWrite(u, w.settings.local, w.open[r].edits, true);
    hide Outcome, Overrides.Apply;
  }

  /** A request that is newly open has just been opened, by a move that says with what. */
  lemma NewlyOpen(u: Setup, w: World, m: Move, r: nat)
    requires [] !in u.schema.known && r !in w.open && r in Moved(u, w, m).open
    ensures Opens(m, r) && Moved(u, w, m).open[r].edits == m.edits && Moved(u, w, m).open[r].read.None?
    ensures m.Note? ==>
      && (Touched(m.edits) == {} || Read(w.settings.local).Ok?)
      && Moved(u, w, m).open[r].noted == Noted(w, m.edits).noted
    ensures !m.Note? ==> Moved(u, w, m).open[r].noted == map[]
    ensures m.Expire? ==> Live(w.settings, m.id)
  {
    hide Outcome, Overrides.Apply, Touched, Snapshot;
  }

  lemma NotedValue(w: World, es: seq<Edit>, k: Path)
    requires Touched(es) == {} || Read(w.settings.local).Ok?
    requires k in Noted(w, es).noted
    ensures Read(w.settings.local).Ok?
    ensures AsLeaf(Noted(w, es).noted[k]) == LeafAt(Read(w.settings.local).value, k)
  {
    AsLeafIs(Read(w.settings.local).value, k);
  }

  lemma OpenedEarlier(u: Setup, ms: seq<Move>, r: nat)
    requires [] !in u.schema.known && ms != [] && r in Play(u, ms[..|ms| - 1]).open
    ensures OpenedAt(u, ms, r) == OpenedAt(u, ms[..|ms| - 1], r)
    ensures ms[..OpenedAt(u, ms, r)] == ms[..|ms| - 1][..OpenedAt(u, ms, r)]
  {
    hide Play;
  }

  lemma OpenedNow(u: Setup, ms: seq<Move>, r: nat)
    requires [] !in u.schema.known && ms != [] && Opens(ms[|ms| - 1], r) && r !in Play(u, ms[..|ms| - 1]).open
    ensures OpenedAt(u, ms, r) == |ms| - 1
  {
    hide Play;
  }

  lemma FetchedEarlier(u: Setup, ms: seq<Move>, r: nat)
    requires [] !in u.schema.known && ms != []
    requires var w := Play(u, ms[..|ms| - 1]); !(ms[|ms| - 1] == Fetch(r) && r in w.open && w.open[r].read.None?)
    ensures FetchedAt(u, ms, r) == FetchedAt(u, ms[..|ms| - 1], r)
    ensures ms[..FetchedAt(u, ms, r)] == ms[..|ms| - 1][..FetchedAt(u, ms, r)]
  {
    hide Play;
  }

  lemma FetchedNow(u: Setup, ms: seq<Move>, r: nat)
    requires [] !in u.schema.known && ms != []
    requires var w := Play(u, ms[..|ms| - 1]); ms[|ms| - 1] == Fetch(r) && r in w.open && w.open[r].read.None?
    ensures FetchedAt(u, ms, r) == |ms| - 1
  {
    hide Play;
  }

  /** What is traced of an open request: what it noted, what it read, and what opened it. */
  ghost predicate NoteTraced(u: Setup, ms: seq<Move>, r: nat, k: Path)
    requires [] !in u.schema.known && r in Play(u, ms).open
  {
    var noted := Play(u, ms).open[r].noted;
    k in noted ==> AsLeaf(noted[k]) == ValueAt(u, ms[..OpenedAt(u, ms, r)], k)
  }

  ghost predicate ReadTraced(u: Setup, ms: seq<Move>, r: nat, k: Path)
    requires [] !in u.schema.known && r in Play(u, ms).open
  {
    var req := Play(u, ms).open[r];
    req.read.Some? ==>
      && FetchedAt(u, ms, r) < |ms|
      && LeafAt(req.read.value, k) == LastFor(req.edits, k, ValueAt(u, ms[..FetchedAt(u, ms, r)], k))
  }

  ghost predicate OpeningTraced(u: Setup, ms: seq<Move>, r: nat)
    requires [] !in u.schema.known && r in Play(u, ms).open
  {
    var x := OpenedAt(u, ms, r);
    && x < |ms| && Opens(ms[x], r) && Play(u, ms).open[r].edits == ms[x].edits
    && (ms[x].Expire? ==> Live(Play(u, ms[..x]).settings, ms[x].id))
  }

  lemma NoteTracedNext(u: Setup, ms: seq<Move>, r: nat, k: Path)
    requires [] !in u.schema.known && ms != [] && r in Play(u, ms).open
    requires r in Play(u, ms[..|ms| - 1]).open ==> NoteTraced(u, ms[..|ms| - 1], r, k)
    ensures NoteTraced(u, ms, r, k)
  {
    hide Moved, Noted, OpenedAt, LeafAt, AsLeaf;
    var n := |ms| - 1;
    var w := Play(u, ms[..n]);
    assert Play(u, ms) == Moved(u, w, ms[n]);
    if r in w.open {
      StaysOpen(u, w, ms[n], r);
      OpenedEarlier(u, ms, r);
    } else {
      NewlyOpen(u, w, ms[n], r);
      OpenedNow(u, ms, r);
      if ms[n].Note? && k in Play(u, ms).open[r].noted {
        NotedValue(w, ms[n].edits, k);
      }
    }
  }

  lemma OpeningTracedNext(u: Setup, ms: seq<Move>, r: nat)
    requires [] !in u.schema.known && ms != [] && r in Play(u, ms).open
    requires r in Play(u, ms[..|ms| - 1]).open ==> OpeningTraced(u, ms[..|ms| - 1], r)
    ensures OpeningTraced(u, ms, r)
  {
    hide Moved, OpenedAt, Opens;
    var n := |ms| - 1;
    var w := Play(u, ms[..n]);
    assert Play(u, ms) == Moved(u, w, ms[n]);
    if r in w.open {
      StaysOpen(u, w, ms[n], r);
      OpenedEarlier(u, ms, r);
    } else {
      NewlyOpen(u, w, ms[n], r);
      OpenedNow(u, ms, r);
    }
  }

  lemma ReadTracedNext(u: Setup, ms: seq<Move>, r: nat, k: Path)
    requires Ready(u) && AllowedRun(u, ms) && k in u.schema.known
    requires [] !in u.schema.known && ms != [] && r in Play(u, ms).open
    requires r in Play(u, ms[..|ms| - 1]).open ==> ReadTraced(u, ms[..|ms| - 1], r, k)
    ensures ReadTraced(u, ms, r, k)
  {
    hide Moved, FetchedAt, LeafAt, LastFor, Proper, Fine, Allowed;
    var n := |ms| - 1;
    var w := Play(u, ms[..n]);
    assert Play(u, ms) == Moved(u, w, ms[n]);
    if r !in w.open {
      NewlyOpen(u, w, ms[n], r);
    } else {
      StaysOpen(u, w, ms[n], r);
      if ms[n] == Fetch(r) && w.open[r].read.None? {
        FetchedNow(u, ms, r);
        AllowedBefore(u, ms, n);
        RunFine(u, ms[..n]);
        ReadIsEdited(u, w, r, k);
      } else {
        FetchedEarlier(u, ms, r);
      }
    }
  }

  lemma ReadIsEdited(u: Setup, w: World, r: nat, k: Path)
    requires Proper(u.schema) && Fine(u.schema, w) && k in u.schema.known && [] !in u.schema.known
    requires r in w.open && w.open[r].read.None? && r in Moved(u, w, Fetch(r)).open
    ensures Read(w.settings.local).Ok? && Moved(u, w, Fetch(r)).open[r].read.Some?
    ensures LeafAt(Moved(u, w, Fetch(r)).open[r].read.value, k)
         == LastFor(w.open[r].edits, k, LeafAt(Read(w.settings.local).value, k))
  {
    ReadsWhatIsThere(u, w, r);
    hide Moved, Proper, Fits, LeafAt, LastFor, Overrides.Apply;
    ApplyLeaf(u.schema, Read(w.settings.local).value, w.open[r].edits, k);
  }

  ghost predicate Traced(u: Setup, ms: seq<Move>, k: Path)
    requires [] !in u.schema.known
  {
    forall r | r in Play(u, ms).open :: NoteTraced(u, ms, r, k) && ReadTraced(u, ms, r, k) && OpeningTraced(u, ms, r)
  }

  lemma {:induction false} RunTraced(u: Setup, ms: seq<Move>, k: Path)
    requires Ready(u) && AllowedRun(u, ms) && k in u.schema.known
    ensures [] !in u.schema.known && Traced(u, ms, k)
    decreases |ms|
  {
    assert [] !in u.schema.known;
    if ms != [] {
      hide Ready, Moved, Play, NoteTraced, ReadTraced, OpeningTraced, Allowed;
      var n := |ms| - 1;
      AllowedBefore(u, ms, n);
      RunTraced(u, ms[..n], k);
      forall r | r in Play(u, ms).open
        ensures NoteTraced(u, ms, r, k) && ReadTraced(u, ms, r, k) && OpeningTraced(u, ms, r)
      {
        NoteTracedNext(u, ms, r, k);
        ReadTracedNext(u, ms, r, k);
        OpeningTracedNext(u, ms, r);
      }
    }
  }

  // --- what replacing the file does -------------------------------------------------------------

  /** Only a replacement changes the file. */
  lemma OnlyReplacing(u: Setup, w: World, m: Move)
    requires [] !in u.schema.known
    ensures Moved(u, w, m).settings.local ==
      if Replaces(w, m) then Parsed(w.open[m.r].read.value) else w.settings.local
  {
    hide Outcome, Overrides.Apply;
  }

  /** A replacement leaves at every key what its request's last edit of it says or, for a
      key it does not edit, the value the key had when the request read the file, even
      if it has changed since. */
  lemma ReplaceGives(u: Setup, ms: seq<Move>, r: nat, k: Path)
    requires Ready(u) && AllowedRun(u, ms) && k in u.schema.known
    requires [] !in u.schema.known && Replaces(Play(u, ms), Replace(r, true))
    ensures ValueAt(u, ms + [Replace(r, true)], k)
         == LastFor(Play(u, ms).open[r].edits, k, ValueAt(u, ms[..FetchedAt(u, ms, r)], k))
  {
    hide Proper, Moved, LastFor, LeafAt, FetchedAt, Fine, Allowed;
    var all := ms + [Replace(r, true)];
    assert all[..|ms|] == ms;
    var w := Play(u, ms);
    RunTraced(u, ms, k);
    assert ReadTraced(u, ms, r, k);
    RunFine(u, ms);
    ReadFits(u, w, r);
    OnlyReplacing(u, w, Replace(r, true));
  }

  lemma ReadFits(u: Setup, w: World, r: nat)
    requires Fine(u.schema, w) && r in w.open && w.open[r].read.Some?
    ensures w.open[r].read.value.Table?
  {
    FitsTable(u.schema, w.open[r].read.value);
  }

  /** So a key that a request does not edit survives it if and only if the key reads as
      it did when the request read the file. */
  lemma ReplaceKeepsIff(u: Setup, ms: seq<Move>, r: nat, k: Path)
    requires Ready(u) && AllowedRun(u, ms) && k in u.schema.known
    requires [] !in u.schema.known && Replaces(Play(u, ms), Replace(r, true))
    requires !Touches(Play(u, ms).open[r].edits, k)
    ensures ValueAt(u, ms + [Replace(r, true)], k) == ValueAt(u, ms, k) <==>
      ValueAt(u, ms[..FetchedAt(u, ms, r)], k) == ValueAt(u, ms, k)
  {
    hide Ready, Play, ValueAt, LastFor, FetchedAt, AllowedRun;
    ReplaceGives(u, ms, r, k);
    LastForOther(Play(u, ms).open[r].edits, k, ValueAt(u, ms[..FetchedAt(u, ms, r)], k));
  }

  lemma ValueStays(u: Setup, ms: seq<Move>, x: nat, k: Path)
    requires [] !in u.schema.known && x < |ms| && !Replaces(Play(u, ms[..x]), ms[x])
    ensures ValueAt(u, ms[..x + 1], k) == ValueAt(u, ms[..x], k)
  {
    hide Moved, LeafAt, Replaces;
    assert ms[..x + 1][..x] == ms[..x];
    OnlyReplacing(u, Play(u, ms[..x]), ms[x]);
  }

  /** Where nothing is written to a key it keeps its value. */
  lemma {:induction false} UnwrittenKeeps(u: Setup, ms: seq<Move>, i: nat, j: nat, k: Path)
    requires Ready(u) && AllowedRun(u, ms) && k in u.schema.known && i <= j <= |ms|
    requires [] !in u.schema.known && Unwritten(u, ms, i, j, k)
    ensures ValueAt(u, ms[..i], k) == ValueAt(u, ms[..j], k)
    decreases j, 1
  {
    hide Ready, Play, ValueAt, AllowedRun, Touches, Replaces, FetchedAt;
    if i < j {
      var x := j - 1;
      UnwrittenKeeps(u, ms, i, x, k);
      if Replaces(Play(u, ms[..x]), ms[x]) {
        UnwrittenReplace(u, ms, i, x, k);
      } else {
        ValueStays(u, ms, x, k);
      }
    }
  }

  lemma {:induction false} UnwrittenReplace(u: Setup, ms: seq<Move>, i: nat, x: nat, k: Path)
    requires Ready(u) && AllowedRun(u, ms) && k in u.schema.known && i <= x < |ms|
    requires [] !in u.schema.known && Unwritten(u, ms, i, x + 1, k) && Replaces(Play(u, ms[..x]), ms[x])
    ensures ValueAt(u, ms[..i], k) == ValueAt(u, ms[..x + 1], k)
    decreases x + 1, 0
  {
    hide Ready, Play, ValueAt, AllowedRun, LastFor, FetchedAt;
    var before, r := ms[..x], ms[x].r;
    ReplaceIs(u, ms, x);
    AllowedBefore(u, ms, x);
    ReplaceGives(u, before, r, k);
    assert ms[..x + 1] == before + [Replace(r, true)];
    var l := FetchedAt(u, before, r);
    LastForOther(Play(u, before).open[r].edits, k, ValueAt(u, before[..l], k));
    assert before[..l] == ms[..l];
    UnwrittenKeeps(u, ms, i, l, k);
  }

  lemma ReplaceIs(u: Setup, ms: seq<Move>, x: nat)
    requires [] !in u.schema.known && x < |ms| && Replaces(Play(u, ms[..x]), ms[x])
    ensures ms[x] == Replace(ms[x].r, true)
  {
  }

  // --- what the countdown holds ----------------------------------------------------------------

  ghost predicate UndoTraced(u: Setup, ms: seq<Move>, k: Path)
    requires [] !in u.schema.known
  {
    var undo, first := UndoOf(Play(u, ms).settings), FirstNote(u, ms, k);
    && (k in undo <==> first.Some?)
    && (k in undo ==> AsLeaf(undo[k]) == ValueAt(u, ms[..first.value], k))
  }

  /** What a move does to the undo: arming adds what was noted under what is there,
      settling empties it, and nothing else touches it. */
  lemma UndoAfter(u: Setup, w: World, m: Move)
    requires [] !in u.schema.known
    ensures UndoOf(Moved(u, w, m).settings) ==
      if Settles(w, m) then map[]
      else if m.Arm? && m.r in w.open && w.open[m.r].written then w.open[m.r].noted + UndoOf(w.settings)
      else UndoOf(w.settings)
  {
    hide Outcome, Noted, Overrides.Apply;
  }

  lemma UndoTracedNext(u: Setup, ms: seq<Move>, k: Path)
    requires [] !in u.schema.known && ms != []
    requires Traced(u, ms[..|ms| - 1], k) && UndoTraced(u, ms[..|ms| - 1], k)
    ensures UndoTraced(u, ms, k)
  {
    hide Moved, OpenedAt, ValueAt, Settles, ReadTraced, OpeningTraced;
    var n := |ms| - 1;
    var w := Play(u, ms[..n]);
    UndoAfter(u, w, ms[n]);
    var first := FirstNote(u, ms, k);
    if first.Some? {
      assert first.value <= n ==> ms[..n][..first.value] == ms[..first.value];
    }
    if ms[n].Arm? && ms[n].r in w.open {
      assert NoteTraced(u, ms[..n], ms[n].r, k);
    }
  }

  /** At every point of every run the countdown holds, for each key, what the override
      said when the first request to arm with it took its note. */
  lemma {:induction false} RunUndoTraced(u: Setup, ms: seq<Move>, k: Path)
    requires Ready(u) && AllowedRun(u, ms) && k in u.schema.known
    ensures [] !in u.schema.known && UndoTraced(u, ms, k)
    decreases |ms|
  {
    assert [] !in u.schema.known;
    if ms != [] {
      hide Ready, UndoTraced, Traced, Allowed, Play;
      AllowedBefore(u, ms, |ms| - 1);
      RunTraced(u, ms[..|ms| - 1], k);
      RunUndoTraced(u, ms[..|ms| - 1], k);
      UndoTracedNext(u, ms, k);
    } else {
      hide Proper, Sound;
    }
  }

  // --- exactly when a revert restores -----------------------------------------------------------

  /** The request is a countdown that ran out and is about to replace the file. */
  predicate Reverting(u: Setup, ms: seq<Move>, r: nat)
    requires [] !in u.schema.known
  {
    && Replaces(Play(u, ms), Replace(r, true))
    && OpenedAt(u, ms, r) < |ms| && ms[OpenedAt(u, ms, r)].Expire?
  }

  /** The point whose value of k the revert leaves behind: for a key the countdown held,
      the note of the first request to arm with it; for another, the revert's own
      reading of the file. */
  function Origin(u: Setup, ms: seq<Move>, r: nat, k: Path): (n: nat)
    requires [] !in u.schema.known
    ensures n <= |ms|
  {
    var first := FirstNote(u, ms[..OpenedAt(u, ms, r)], k);
    if first.Some? then first.value else FetchedAt(u, ms, r)
  }

  /** Whatever overlapped, a revert leaves at each key the value it had at its origin. */
  lemma RevertGives(u: Setup, ms: seq<Move>, r: nat, k: Path)
    requires Ready(u) && AllowedRun(u, ms) && k in u.schema.known
    requires [] !in u.schema.known && Reverting(u, ms, r)
    ensures ValueAt(u, ms + [Replace(r, true)], k) == ValueAt(u, ms[..Origin(u, ms, r, k)], k)
  {
    hide Ready, Play, ValueAt, LastFor, FetchedAt, FirstNote, OpenedAt, AllowedRun, Allowed, Lists;
    var x := OpenedAt(u, ms, r);
    RunTraced(u, ms, k);
    assert OpeningTraced(u, ms, r);
    AllowedBefore(u, ms, x);
    RunUndoTraced(u, ms[..x], k);
    ReplaceGives(u, ms, r, k);
    AllowedAt(u, ms, x);
    ExpiryLists(u, Play(u, ms[..x]), ms[x]);
    var undo, was := UndoOf(Play(u, ms[..x]).settings), ValueAt(u, ms[..FetchedAt(u, ms, r)], k);
    PutsBack(ms[x].edits, undo, k, was);
    var first := FirstNote(u, ms[..x], k);
    if first.Some? {
      assert ms[..x][..first.value] == ms[..first.value];
    }
  }

  lemma AllowedAt(u: Setup, ms: seq<Move>, x: nat)
    requires [] !in u.schema.known && AllowedRun(u, ms) && x < |ms|
    ensures Allowed(u.schema, Play(u, ms[..x]), ms[x])
  {
  }

  lemma ExpiryLists(u: Setup, w: World, m: Move)
    requires m.Expire? && Live(w.settings, m.id) && Allowed(u.schema, w, m)
    ensures Lists(m.edits, UndoOf(w.settings))
  {
  }

  lemma PutsBack(order: seq<Edit>, undo: Undo, k: Path, was: Option<string>)
    requires Lists(order, undo)
    ensures LastFor(order, k, was) == if k in undo then AsLeaf(undo[k]) else was
  {
    if k in undo {
      LastForListed(order, undo, k, was);
    } else {
      LastForOther(order, k, was);
    }
  }

  /** Take any point m of a run, such as the one where the slot was last empty. The
      revert gives a key the value it had there if and only if it had that value when
      the first request to arm with the key took its note. */
  lemma RevertRestoresIff(u: Setup, ms: seq<Move>, r: nat, m: nat, k: Path)
    requires Ready(u) && AllowedRun(u, ms) && k in u.schema.known && m <= |ms|
    requires [] !in u.schema.known && Reverting(u, ms, r)
    ensures ValueAt(u, ms + [Replace(r, true)], k) == ValueAt(u, ms[..m], k) <==>
      ValueAt(u, ms[..Origin(u, ms, r, k)], k) == ValueAt(u, ms[..m], k)
  {
    hide Ready, Play, ValueAt, AllowedRun, Origin, Reverting;
    RevertGives(u, ms, r, k);
  }

  /** In particular when nothing was written to the key between the two. */
  lemma UnwrittenIsRestored(u: Setup, ms: seq<Move>, r: nat, m: nat, k: Path)
    requires Ready(u) && AllowedRun(u, ms) && k in u.schema.known && m <= |ms|
    requires [] !in u.schema.known && Reverting(u, ms, r)
    requires var n := Origin(u, ms, r, k);
      Unwritten(u, ms, if m < n then m else n, if m < n then n else m, k)
    ensures ValueAt(u, ms + [Replace(r, true)], k) == ValueAt(u, ms[..m], k)
  {
    hide Ready, Play, ValueAt, AllowedRun, Origin, Reverting, Unwritten;
    RevertGives(u, ms, r, k);
    var n := Origin(u, ms, r, k);
    UnwrittenKeeps(u, ms, if m < n then m else n, if m < n then n else m, k);
  }
}
