/** Edits of known keys never fail for want of a path, say exactly what they did,
    and an unconfirmed display change is put back to the last byte of meaning. */
module SettingsLaws {
  import opened Bytes
  import opened ConfigTree
  import opened TreeLaws
  import opened Overrides
  import opened SettingsModel

  /** No known key lies inside another, and the schema refuses unknown keys and a
      section where a setting should be. */
  ghost predicate Proper(schema: Schema) {
    && [] !in schema.known
    && (forall p, q | p in schema.known && q in schema.known && p != q :: Unrelated(p, q))
    && forall v | schema.accepts(v) :: KnownLeaves(schema, v) && KnownPlain(schema, v)
  }

  ghost predicate KnownLeaves(schema: Schema, v: Value) {
    forall p | LeafAt(v, p).Some? :: p in schema.known
  }

  /** At a known key there is a leaf or nothing. Empty sections elsewhere do no harm. */
  predicate KnownPlain(schema: Schema, v: Value) {
    forall k | k in schema.known :: Get(v, k).Some? ==> Get(v, k).value.Leaf?
  }

  ghost predicate Fits(schema: Schema, v: Value) {
    v.Table? && KnownLeaves(schema, v) && KnownPlain(schema, v)
  }

  predicate Keyed(schema: Schema, es: seq<Edit>) {
    forall i | 0 <= i < |es| :: es[i].key in schema.known && (es[i].value.Some? ==> es[i].value.value.Leaf?)
  }

  function AsLeaf(v: Option<Value>): Option<string> {
    match v case Some(Leaf(text)) => Some(text) case _ => None
  }

  /** A leaf after a list of edits: the last edit of its key, or as it was. */
  function LastFor(es: seq<Edit>, q: Path, was: Option<string>): Option<string> {
    if es == [] then was
    else if es[|es| - 1].key == q then AsLeaf(es[|es| - 1].value)
    else LastFor(es[..|es| - 1], q, was)
  }

  // --- one edit ------------------------------------------------------------------------

  lemma {:induction false} InsertAddsOneLeaf(v: Value, p: Path, x: Value, q: Path)
    requires p != [] && x.Leaf? && Insert(v, p, x).Some?
    ensures LeafAt(Insert(v, p, x).value, q).Some? ==> q == p || LeafAt(v, q).Some?
    decreases |p|
  {
    if q != [] && q[0] == p[0] {
      assert q == [q[0]] + q[1..] && p == [p[0]] + p[1..];
      if |p| > 1 {
        InsertAddsOneLeaf(if p[0] in v.entries then v.entries[p[0]] else EMPTY, p[1..], x, q[1..]);
      } else if |q| > 1 {
        assert Get(x, q[1..]) == None;
      }
    }
  }

  lemma {:induction false} RemoveAddsNone(v: Value, p: Path, q: Path)
    requires p != []
    ensures LeafAt(Remove(v, p), q).Some? ==> LeafAt(v, q).Some?
    decreases |p|
  {
    if v.Table? && p[0] in v.entries && |p| > 1 && v.entries[p[0]].Table? && q != [] && q[0] == p[0] {
      RemoveAddsNone(v.entries[p[0]], p[1..], q[1..]);
    }
  }

  lemma {:induction false} BlockedAtLeaf(v: Value, p: Path) returns (q: Path)
    requires Blocked(v, p)
    ensures q <= p && q != p && LeafAt(v, q).Some?
    decreases |p|
  {
    if v.Leaf? {
      q := [];
    } else {
      var r := BlockedAtLeaf(v.entries[p[0]], p[1..]);
      q := [p[0]] + r;
      assert q[1..] == r;
      assert p == [p[0]] + p[1..];
    }
  }

  /** A known key's path is never blocked in a table of known keys. */
  lemma KnownNotBlocked(schema: Schema, v: Value, p: Path)
    requires Proper(schema) && KnownLeaves(schema, v) && p in schema.known
    ensures !Blocked(v, p)
  {
    if Blocked(v, p) {
      var q := BlockedAtLeaf(v, p);
    }
  }

  function Applied(v: Value, e: Edit): Option<Value>
    requires e.key != []
  {
    if e.value.Some? then Insert(v, e.key, e.value.value) else Some(Remove(v, e.key))
  }

  lemma KeyNotEmpty(schema: Schema, k: Path)
    requires Proper(schema) && k in schema.known
    ensures k != []
  {
  }

  lemma EditKeeps(schema: Schema, v: Value, e: Edit)
    requires Proper(schema) && Fits(schema, v)
    requires e.key in schema.known && (e.value.Some? ==> e.value.value.Leaf?)
    ensures Applied(v, e).Some? && Fits(schema, Applied(v, e).value)
  {
    KeyNotEmpty(schema, e.key);
    hide Pruned, LeafAt, Proper, KnownPlain;
    if e.value.Some? {
      KnownNotBlocked(schema, v, e.key);
      InsertRefusedIff(v, e.key, e.value.value);
      forall q ensures LeafAt(Applied(v, e).value, q).Some? ==> q == e.key || LeafAt(v, q).Some? {
        InsertAddsOneLeaf(v, e.key, e.value.value, q);
      }
    } else {
      forall q ensures LeafAt(Applied(v, e).value, q).Some? ==> LeafAt(v, q).Some? {
        RemoveAddsNone(v, e.key, q);
      }
    }
    EditKeepsPlain(schema, v, e);
  }

  lemma EditGet(schema: Schema, v: Value, e: Edit, q: Path)
    requires Proper(schema) && e.key in schema.known && q in schema.known && Applied(v, e).Some?
    ensures Get(Applied(v, e).value, q) == if q == e.key then e.value else Get(v, q)
  {
    if q == e.key {
      if e.value.Some? { GetInserted(v, q, e.value.value); } else { GetRemoved(v, q); }
    } else if e.value.Some? {
      InsertFrames(v, e.key, e.value.value, q);
    } else {
      RemoveFrames(v, e.key, q);
    }
  }

  lemma EditKeepsPlain(schema: Schema, v: Value, e: Edit)
    requires Proper(schema) && KnownPlain(schema, v)
    requires e.key in schema.known && (e.value.Some? ==> e.value.value.Leaf?) && Applied(v, e).Some?
    ensures KnownPlain(schema, Applied(v, e).value)
  {
    hide Proper, Applied;
    KeyNotEmpty(schema, e.key);
    var t := Applied(v, e).value;
    forall q | q in schema.known ensures Get(t, q).Some? ==> Get(t, q).value.Leaf? {
      EditGet(schema, v, e, q);
    }
  }

  lemma EditLeaf(schema: Schema, v: Value, e: Edit, q: Path)
    requires Proper(schema) && e.key in schema.known && q in schema.known && Applied(v, e).Some?
    ensures LeafAt(Applied(v, e).value, q) == if q == e.key then AsLeaf(e.value) else LeafAt(v, q)
  {
    EditGet(schema, v, e, q);
  }

  // --- lists of edits --------------------------------------------------------------------

  /** Edits of known keys always have a result, and it fits as the table did. */
  lemma {:induction false} ApplyKeeps(schema: Schema, v: Value, es: seq<Edit>)
    requires Proper(schema) && Fits(schema, v) && Keyed(schema, es)
    ensures Apply(v, es).Some? && Fits(schema, Apply(v, es).value) && Apply(v, es).value.Table?
  {
    FitsTable(schema, v);
    hide Proper, Fits;
    NoEmptyKeys(schema, es);
    if es != [] {
      ApplyKeeps(schema, v, es[..|es| - 1]);
      EditKeeps(schema, Apply(v, es[..|es| - 1]).value, es[|es| - 1]);
      FitsTable(schema, Apply(v, es).value);
    }
  }

  lemma FitsTable(schema: Schema, v: Value)
    requires Fits(schema, v)
    ensures v.Table?
  {
  }

  /** Nor do they leave an empty table behind where there was none. */
  lemma {:induction false} ApplyKeepsPruned(schema: Schema, v: Value, es: seq<Edit>)
    requires Proper(schema) && Fits(schema, v) && Keyed(schema, es) && Pruned(v)
    ensures Apply(v, es).Some? && Pruned(Apply(v, es).value)
  {
    hide Proper, Fits, Pruned;
    NoEmptyKeys(schema, es);
    ApplyKeeps(schema, v, es);
    if es != [] {
      var e := es[|es| - 1];
      ApplyKeepsPruned(schema, v, es[..|es| - 1]);
      var t := Apply(v, es[..|es| - 1]).value;
      if e.value.Some? {
        InsertKeepsPruned(t, e.key, e.value.value);
      } else {
        RemoveKeepsPruned(t, e.key);
      }
    }
  }

  lemma NoEmptyKeys(schema: Schema, es: seq<Edit>)
    requires Proper(schema) && Keyed(schema, es)
    ensures forall i | 0 <= i < |es| :: es[i].key != []
  {
  }

  /** After a list of edits each known key says what its last edit said, or what it
      said before. */
  lemma {:induction false} ApplyLeaf(schema: Schema, v: Value, es: seq<Edit>, q: Path)
    requires Proper(schema) && Fits(schema, v) && Keyed(schema, es) && q in schema.known
    ensures Apply(v, es).Some? && LeafAt(Apply(v, es).value, q) == LastFor(es, q, LeafAt(v, q))
  {
    hide Proper, Fits, LeafAt;
    NoEmptyKeys(schema, es);
    ApplyKeeps(schema, v, es);
    if es != [] {
      ApplyLeaf(schema, v, es[..|es| - 1], q);
      ApplyKeeps(schema, v, es[..|es| - 1]);
      EditLeaf(schema, Apply(v, es[..|es| - 1]).value, es[|es| - 1], q);
    }
  }

  /** A leaf of the override is a leaf of the merged configuration, with its text. */
  lemma OverrideShows(under: Value, over: Value, p: Path)
    requires LeafAt(over, p).Some?
    ensures LeafAt(Merge(under, over), p) == LeafAt(over, p)
  {
    GetOrBlocked(over, p);
    MergeGet(under, over, p);
  }

  /** What a successful edit of known keys means for the configuration in force: a
      key that was set reads as set, a key that was dropped and every other key not
      overridden read as the base has them. */
  lemma EditShows(schema: Schema, under: Value, over: Value, es: seq<Edit>, q: Path)
    requires Proper(schema) && Fits(schema, over)
    requires Keyed(schema, es) && q in schema.known
    ensures Apply(over, es).Some?
    ensures LeafAt(Merge(under, Apply(over, es).value), q) ==
            var set_ := LastFor(es, q, LeafAt(over, q));
            if set_.Some? then set_ else LeafAt(under, q)
  {
    ApplyLeaf(schema, over, es, q);
    ApplyKeeps(schema, over, es);
    var t := Apply(over, es).value;
    if LeafAt(t, q).Some? {
      OverrideShows(under, t, q);
    } else {
      KnownNotBlocked(schema, t, q);
      MergeGet(under, t, q);
    }
  }

  // --- confirm or revert --------------------------------------------------------------------

  /** What the countdown, if there is one, would put back. */
  function UndoOf(s: Settings): Undo {
    if s.pending.Some? then s.pending.value.undo else map[]
  }

  ghost predicate Sound(schema: Schema, s: Settings) {
    Read(s.local).Ok? && Fits(schema, Read(s.local).value)
  }

  /** Against the settings it started from: a pending undo holds the first values, and
      a watched key outside it has not changed. */
  ghost predicate Inv(schema: Schema, watch: set<Path>, s0: Settings, s: Settings)
    requires Sound(schema, s0)
  {
    && Sound(schema, s)
    && (forall k | k in UndoOf(s) ::
          && k in CONFIRM
          && (UndoOf(s)[k].Some? ==> UndoOf(s)[k].value.Leaf?)
          && AsLeaf(UndoOf(s)[k]) == LeafAt(Read(s0.local).value, k))
    && (forall q | q in watch && q !in UndoOf(s) ::
          LeafAt(Read(s.local).value, q) == LeafAt(Read(s0.local).value, q))
  }

  /** A step that settles no countdown, and touches a watched key only as a display change. */
  predicate Quiet(schema: Schema, watch: set<Path>, s: Settings, e: Event) {
    match e
    case Change(es, _) => Keyed(schema, es) && forall i | 0 <= i < |es| :: es[i].key in watch ==> es[i].key in CONFIRM
    case Reset(es, _) => Keyed(schema, es) && forall i | 0 <= i < |es| :: es[i].key !in watch
    case Confirm(id) => !Live(s, id)
    case Revert(id, _, _) => !Live(s, id)
  }

  lemma {:induction false} LastForOther(es: seq<Edit>, q: Path, was: Option<string>)
    requires forall i | 0 <= i < |es| :: es[i].key != q
    ensures LastFor(es, q, was) == was
  {
    if es != [] {
      LastForOther(es[..|es| - 1], q, was);
    }
  }

  lemma {:induction false} LastForListed(es: seq<Edit>, undo: Undo, q: Path, was: Option<string>)
    requires forall i | 0 <= i < |es| :: es[i].key in undo && undo[es[i].key] == es[i].value
    requires q in undo
    ensures LastFor(es, q, was) ==
            if exists i :: 0 <= i < |es| && es[i].key == q then AsLeaf(undo[q]) else was
  {
    if es != [] {
      var n := |es| - 1;
      LastForListed(es[..n], undo, q, was);
      if i :| 0 <= i < |es| && es[i].key == q {
        if i < n {
          assert es[..n][i].key == q;
        }
      }
    }
  }

  lemma SoundEdit(schema: Schema, base: File, s: Settings, es: seq<Edit>, writes: bool)
    requires Proper(schema) && Sound(schema, s) && Keyed(schema, es)
    ensures Sound(schema, Edited(schema, base, s, es, writes))
    ensures forall q | q in schema.known ::
      LeafAt(Read(Edited(schema, base, s, es, writes).local).value, q) ==
      if Outcome(schema, base, s.local, es, writes).Ok? then LastFor(es, q, LeafAt(Read(s.local).value, q))
      else LeafAt(Read(s.local).value, q)
  {
    hide Proper, Fits, LeafAt, Outcome, Apply, LastFor;
    NoEmptyKeys(schema, es);
    var t := Read(s.local).value;
    ApplyKeeps(schema, t, es);
    forall q | q in schema.known ensures LeafAt(Apply(t, es).value, q) == LastFor(es, q, LeafAt(t, q)) {
      ApplyLeaf(schema, t, es, q);
    }
  }

  lemma ChangeKeeps(schema: Schema, base: File, watch: set<Path>, s0: Settings, s: Settings, es: seq<Edit>, writes: bool)
    requires Proper(schema) && CONFIRM <= watch <= schema.known
    requires Sound(schema, s0) && Inv(schema, watch, s0, s) && Quiet(schema, watch, s, Change(es, writes))
    ensures Inv(schema, watch, s0, Changed(schema, base, s, es, writes))
  {
    assert [] !in schema.known;
    hide Proper, Fits, LeafAt, Outcome, Apply, Get;
    SoundEdit(schema, base, s, es, writes);
    var t := Changed(schema, base, s, es, writes);
    if Outcome(schema, base, s.local, es, writes).Ok? {
      forall q | q in watch && q !in UndoOf(t)
        ensures LeafAt(Read(t.local).value, q) == LeafAt(Read(s0.local).value, q)
      {
        NotTouched(schema, watch, s, es, writes, q);
        LastForOther(es, q, LeafAt(Read(s.local).value, q));
      }
      forall k | k in UndoOf(t)
        ensures k in CONFIRM && (UndoOf(t)[k].Some? ==> UndoOf(t)[k].value.Leaf?)
        ensures AsLeaf(UndoOf(t)[k]) == LeafAt(Read(s0.local).value, k)
      {
        if k !in UndoOf(s) {
          KnownIsLeaf(schema, Read(s.local).value, k);
          AsLeafIs(Read(s.local).value, k);
        }
      }
    }
  }

  lemma KnownIsLeaf(schema: Schema, v: Value, k: Path)
    requires Fits(schema, v) && k in schema.known
    ensures Get(v, k).Some? ==> Get(v, k).value.Leaf?
  {
  }

  lemma AsLeafIs(v: Value, k: Path)
    ensures AsLeaf(Get(v, k)) == LeafAt(v, k)
  {
  }

  lemma NotTouched(schema: Schema, watch: set<Path>, s: Settings, es: seq<Edit>, writes: bool, q: Path)
    requires Quiet(schema, watch, s, Change(es, writes)) && q in watch && q !in Touched(es)
    ensures forall i | 0 <= i < |es| :: es[i].key != q
  {
  }

  lemma ResetKeeps(schema: Schema, base: File, watch: set<Path>, s0: Settings, s: Settings, es: seq<Edit>, writes: bool)
    requires Proper(schema) && CONFIRM <= watch <= schema.known
    requires Sound(schema, s0) && Inv(schema, watch, s0, s) && Quiet(schema, watch, s, Reset(es, writes))
    ensures Inv(schema, watch, s0, Edited(schema, base, s, es, writes))
  {
    hide Proper, Fits, LeafAt, Outcome, Apply, Get;
    SoundEdit(schema, base, s, es, writes);
    forall q | q in watch
      ensures LastFor(es, q, LeafAt(Read(s.local).value, q)) == LeafAt(Read(s.local).value, q)
    {
      LastForOther(es, q, LeafAt(Read(s.local).value, q));
    }
  }

  lemma StepKeeps(schema: Schema, base: File, watch: set<Path>, s0: Settings, s: Settings, e: Event)
    requires Proper(schema) && CONFIRM <= watch <= schema.known
    requires Sound(schema, s0) && Inv(schema, watch, s0, s) && Quiet(schema, watch, s, e)
    ensures Inv(schema, watch, s0, Step(schema, base, s, e))
  {
    hide Inv, Proper, Changed, Edited;
    match e {
      case Change(es, writes) => ChangeKeeps(schema, base, watch, s0, s, es, writes);
      case Reset(es, writes) => ResetKeeps(schema, base, watch, s0, s, es, writes);
      case Confirm(_) =>
      case Revert(_, _, _) =>
    }
  }

  ghost predicate QuietRun(schema: Schema, base: File, watch: set<Path>, s: Settings, es: seq<Event>)
    requires [] !in schema.known
  {
    forall i | 0 <= i < |es| :: Quiet(schema, watch, Run(schema, base, s, es[..i]), es[i])
  }

  lemma QuietBefore(schema: Schema, base: File, watch: set<Path>, s: Settings, es: seq<Event>)
    requires [] !in schema.known && es != [] && QuietRun(schema, base, watch, s, es)
    ensures QuietRun(schema, base, watch, s, es[..|es| - 1])
  {
    hide Quiet, Run;
    var n := |es| - 1;
    forall i | 0 <= i < n
      ensures Quiet(schema, watch, Run(schema, base, s, es[..n][..i]), es[..n][i])
    {
      assert es[..n][..i] == es[..i];
    }
  }

  lemma {:induction false} RunKeeps(schema: Schema, base: File, watch: set<Path>, s0: Settings, es: seq<Event>)
    requires Proper(schema) && CONFIRM <= watch <= schema.known
    requires Sound(schema, s0) && s0.pending.None? && QuietRun(schema, base, watch, s0, es)
    ensures Inv(schema, watch, s0, Run(schema, base, s0, es))
  {
    assert [] !in schema.known;
    hide Inv, Quiet, Step, Sound, Proper;
    if es == [] {
      StartInv(schema, watch, s0);
    } else {
      var n := |es| - 1;
      QuietBefore(schema, base, watch, s0, es);
      RunKeeps(schema, base, watch, s0, es[..n]);
      StepKeeps(schema, base, watch, s0, Run(schema, base, s0, es[..n]), es[n]);
    }
  }

  lemma StartInv(schema: Schema, watch: set<Path>, s0: Settings)
    requires Sound(schema, s0) && s0.pending.None?
    ensures Inv(schema, watch, s0, s0)
  {
    hide Sound, LeafAt;
  }

  lemma ListedIsKeyed(schema: Schema, watch: set<Path>, s0: Settings, s: Settings, order: seq<Edit>)
    requires CONFIRM <= schema.known && Sound(schema, s0) && Inv(schema, watch, s0, s) && Lists(order, UndoOf(s))
    ensures Keyed(schema, order)
  {
  }

  /** After any run of changes with none settled, a revert of the live countdown that
      is written puts every watched key back as it was before the first of them, and
      changes no key the countdown does not hold; one that is not written changes
      nothing. Either way the countdown is over. */
  lemma RevertPutsBack(schema: Schema, base: File, watch: set<Path>, s0: Settings, es: seq<Event>,
                       order: seq<Edit>, writes: bool, q: Path)
    requires Proper(schema) && CONFIRM <= watch <= schema.known
    requires Sound(schema, s0) && s0.pending.None? && QuietRun(schema, base, watch, s0, es)
    requires Run(schema, base, s0, es).pending.Some? && q in schema.known
    requires Lists(order, UndoOf(Run(schema, base, s0, es)))
    ensures var s := Run(schema, base, s0, es);
      var t := Step(schema, base, s, Revert(s.pending.value.id, order, writes));
      && t.pending.None?
      && Read(s.local).Ok? && Read(t.local).Ok?
      && if Outcome(schema, base, s.local, order, writes).Err? then t.local == s.local
         else
           && (q in watch ==> LeafAt(Read(t.local).value, q) == LeafAt(Read(s0.local).value, q))
           && (q !in UndoOf(s) ==> LeafAt(Read(t.local).value, q) == LeafAt(Read(s.local).value, q))
  {
    assert [] !in schema.known;
    hide Run, QuietRun, Proper, Fits, LeafAt, Outcome;
    var s := Run(schema, base, s0, es);
    RunKeeps(schema, base, watch, s0, es);
    ListedIsKeyed(schema, watch, s0, s, order);
    SoundEdit(schema, base, s, order, writes);
    if q in UndoOf(s) {
      LastForListed(order, UndoOf(s), q, LeafAt(Read(s.local).value, q));
    } else {
      LastForOther(order, q, LeafAt(Read(s.local).value, q));
    }
  }

  ghost predicate Loads(schema: Schema, base: File, local: File) {
    && (base.Parsed? ==> base.tree.Table?)
    && Load(schema, base, local).Ok? && Read(local).Ok?
  }

  lemma NothingInEmpty(p: Path)
    ensures LeafAt(EMPTY, p) == None
    ensures p != [] ==> Get(EMPTY, p) == None
  {
  }

  lemma SectionShows(under: Value, over: Value, k: Path)
    requires Get(over, k).Some? && Get(over, k).value.Table?
    ensures Get(Merge(under, over), k).Some? && Get(Merge(under, over), k).value.Table?
  {
    GetOrBlocked(over, k);
    MergeGet(under, over, k);
  }

  /** An override that loads fits the schema, whatever empty sections it holds. */
  lemma LoadsIsSound(schema: Schema, base: File, s: Settings)
    requires Proper(schema) && Loads(schema, base, s.local)
    ensures Sound(schema, s)
  {
    hide LeafAt;
    var t := Read(s.local).value;
    var under := if base.Missing? then EMPTY else base.tree;
    forall p | LeafAt(t, p).Some? ensures p in schema.known {
      if s.local.Missing? {
        NothingInEmpty(p);
      } else {
        OverrideShows(under, t, p);
      }
    }
    forall k | k in schema.known && Get(t, k).Some? ensures Get(t, k).value.Leaf? {
      if s.local.Missing? {
        NothingInEmpty(k);
      } else if Get(t, k).value.Table? {
        SectionShows(under, t, k);
      }
    }
  }

  /** When only display settings were changed, the revert cannot be refused, and the
      override it leaves is the very table the run started from. */
  lemma RevertIsExact(schema: Schema, base: File, s0: Settings, es: seq<Event>, order: seq<Edit>)
    requires Proper(schema) && CONFIRM <= schema.known
    requires Loads(schema, base, s0.local) && s0.pending.None? && Pruned(Read(s0.local).value)
    requires QuietRun(schema, base, schema.known, s0, es)
    requires Run(schema, base, s0, es).pending.Some?
    requires Lists(order, UndoOf(Run(schema, base, s0, es)))
    ensures var s := Run(schema, base, s0, es);
      var t := Step(schema, base, s, Revert(s.pending.value.id, order, true));
      Read(t.local) == Read(s0.local) && Load(schema, base, t.local).Ok? &&
      Load(schema, base, t.local).value.config == Load(schema, base, s0.local).value.config
  {
    assert [] !in schema.known;
    hide Run, QuietRun, Proper, Fits, LeafAt, Load, Outcome, Apply, Pruned;
    LoadsIsSound(schema, base, s0);
    RunKeeps(schema, base, schema.known, s0, es);
    var s := Run(schema, base, s0, es);
    ListedIsKeyed(schema, schema.known, s0, s, order);
    NoEmptyKeys(schema, order);
    RunStaysPruned(schema, base, s0, es);
    RestoredTable(schema, s0, s, order);
    RestoredLoads(schema, base, s0.local);
    EditReaches(schema, base, s, order, Read(s0.local).value);
  }

  /** An edit that leads to a table that loads is carried out. */
  lemma EditReaches(schema: Schema, base: File, s: Settings, es: seq<Edit>, t: Value)
    requires [] !in schema.known && Keyed(schema, es) && Read(s.local).Ok? && t.Table?
    requires Apply(Read(s.local).value, es) == Some(t) && Load(schema, base, Parsed(t)).Ok?
    ensures Edited(schema, base, s, es, true) == s.(local := Parsed(t)) && Read(Parsed(t)) == Ok(t)
  {
    hide Apply, Load;
  }

  /** Quiet steps leave no empty table behind where there was none. */
  lemma {:induction false} RunStaysPruned(schema: Schema, base: File, s0: Settings, es: seq<Event>)
    requires Proper(schema) && CONFIRM <= schema.known && Sound(schema, s0) && s0.pending.None?
    requires QuietRun(schema, base, schema.known, s0, es) && Pruned(Read(s0.local).value)
    ensures [] !in schema.known && Read(Run(schema, base, s0, es).local).Ok?
    ensures Pruned(Read(Run(schema, base, s0, es).local).value)
  {
    assert [] !in schema.known;
    hide Proper, Step, Quiet, Pruned, Inv, Sound;
    if es != [] {
      var n := |es| - 1;
      QuietBefore(schema, base, schema.known, s0, es);
      RunStaysPruned(schema, base, s0, es[..n]);
      RunKeeps(schema, base, schema.known, s0, es[..n]);
      StepStaysPruned(schema, base, s0, Run(schema, base, s0, es[..n]), es[n]);
    } else {
      StartInv(schema, schema.known, s0);
      SoundReads(schema, s0);
    }
  }

  lemma SoundReads(schema: Schema, s: Settings)
    requires Sound(schema, s)
    ensures Read(s.local).Ok?
  {
  }

  lemma StepStaysPruned(schema: Schema, base: File, s0: Settings, s: Settings, e: Event)
    requires Proper(schema) && Sound(schema, s0) && Inv(schema, schema.known, s0, s)
    requires Quiet(schema, schema.known, s, e) && Pruned(Read(s.local).value)
    ensures Read(Step(schema, base, s, e).local).Ok? && Pruned(Read(Step(schema, base, s, e).local).value)
  {
    hide Proper, Fits, Pruned, Outcome, Apply;
    match e {
      case Change(es, writes) => EditStaysPruned(schema, base, s, es, writes);
      case Reset(es, writes) => EditStaysPruned(schema, base, s, es, writes);
      case _ =>
    }
  }

  lemma EditStaysPruned(schema: Schema, base: File, s: Settings, es: seq<Edit>, writes: bool)
    requires Proper(schema) && Sound(schema, s) && Keyed(schema, es) && Pruned(Read(s.local).value)
    ensures Read(Edited(schema, base, s, es, writes).local).Ok?
    ensures Pruned(Read(Edited(schema, base, s, es, writes).local).value)
  {
    hide Proper, Pruned, Outcome, Apply;
    NoEmptyKeys(schema, es);
    ApplyKeeps(schema, Read(s.local).value, es);
    ApplyKeepsPruned(schema, Read(s.local).value, es);
  }

  lemma RestoredTable(schema: Schema, s0: Settings, s: Settings, order: seq<Edit>)
    requires Proper(schema) && Sound(schema, s0) && Inv(schema, schema.known, s0, s)
    requires Pruned(Read(s0.local).value) && Pruned(Read(s.local).value)
    requires Keyed(schema, order) && Lists(order, UndoOf(s)) && forall i | 0 <= i < |order| :: order[i].key != []
    ensures Read(s0.local).value.Table?
    ensures Apply(Read(s.local).value, order) == Some(Read(s0.local).value)
  {
    hide Proper, LeafAt, Apply, LastFor, Pruned;
    var t, t0 := Read(s.local).value, Read(s0.local).value;
    ApplyKeeps(schema, t, order);
    ApplyKeepsPruned(schema, t, order);
    var u := Apply(t, order).value;
    forall q ensures LeafAt(u, q) == LeafAt(t0, q) {
      if q in schema.known {
        ApplyLeaf(schema, t, order, q);
        if q in UndoOf(s) {
          LastForListed(order, UndoOf(s), q, LeafAt(t, q));
        } else {
          LastForOther(order, q, LeafAt(t, q));
        }
      }
    }
    LeavesDetermine(u, t0);
  }

  lemma RestoredLoads(schema: Schema, base: File, local: File)
    requires Loads(schema, base, local)
    ensures Load(schema, base, Parsed(Read(local).value)).Ok?
    ensures Load(schema, base, Parsed(Read(local).value)).value.config == Load(schema, base, local).value.config
  {
    if local.Missing? {
      var under := if base.Missing? then EMPTY else base.tree;
      assert Merge(under, EMPTY) == under;
    }
  }

  // --- stale countdowns ------------------------------------------------------------------------

  predicate Issued(s: Settings) {
    s.pending.Some? ==> s.pending.value.id < s.nextId
  }

  /** An id that has been handed out and is no longer live is never live again, in
      any run at all, so its countdown changes nothing. */
  lemma {:induction false} StaleStaysStale(schema: Schema, base: File, s: Settings, es: seq<Event>, id: nat)
    requires [] !in schema.known && Issued(s) && id < s.nextId && !Live(s, id)
    ensures var t := Run(schema, base, s, es);
      Issued(t) && id < t.nextId && !Live(t, id)
      && forall order, writes :: Step(schema, base, t, Revert(id, order, writes)) == t == Step(schema, base, t, Confirm(id))
  {
    hide Outcome, Apply;
    if es != [] {
      StaleStaysStale(schema, base, s, es[..|es| - 1], id);
    }
  }

  // --- what starts and ends a countdown ----------------------------------------------------

  /** A change that is written starts a countdown under a new id exactly when it edits how
      the display is driven. It will put back, for each such key, what an earlier countdown
      still running would have, or else what the override said before the change. */
  lemma ChangeArms(schema: Schema, base: File, s: Settings, es: seq<Edit>, writes: bool)
    requires [] !in schema.known && Outcome(schema, base, s.local, es, writes).Ok?
    ensures var t := Changed(schema, base, s, es, writes);
      var display := exists i | 0 <= i < |es| :: es[i].key in {["display", "mode"], ["display", "rotation"]};
      && t.local == Parsed(Overrides.Apply(Read(s.local).value, es).value)
      && (!display ==> t.pending == s.pending && t.nextId == s.nextId)
      && (display ==> t.pending.Some? && t.pending.value.id == s.nextId && t.nextId == s.nextId + 1)
      && (display ==> forall i | 0 <= i < |es| && es[i].key in {["display", "mode"], ["display", "rotation"]} ::
            es[i].key in t.pending.value.undo)
      && (display ==> forall k | k in t.pending.value.undo ::
            if s.pending.Some? && k in s.pending.value.undo then t.pending.value.undo[k] == s.pending.value.undo[k]
            else k in {["display", "mode"], ["display", "rotation"]} && (exists i | 0 <= i < |es| :: es[i].key == k)
                 && t.pending.value.undo[k] == Get(Read(s.local).value, k))
      && (display && s.pending.Some? ==> forall k | k in s.pending.value.undo :: k in t.pending.value.undo)
  {
    hide Overrides.Apply, Outcome, Touched;
    TouchedAre(es);
    ReadsWhenOk(schema, base, s.local, es, writes);
  }

  lemma TouchedAre(es: seq<Edit>)
    ensures forall i | 0 <= i < |es| && es[i].key in {["display", "mode"], ["display", "rotation"]} ::
      es[i].key in Touched(es)
    ensures forall k | k in Touched(es) ::
      k in {["display", "mode"], ["display", "rotation"]} && exists i | 0 <= i < |es| :: es[i].key == k
  {
    assert CONFIRM == {["display", "mode"], ["display", "rotation"]};
  }

  lemma ReadsWhenOk(schema: Schema, base: File, local: File, es: seq<Edit>, writes: bool)
    requires [] !in schema.known && Outcome(schema, base, local, es, writes).Ok?
    ensures Read(local).Ok?
  {
  }

  /** A change that is not written changes nothing and starts nothing. */
  lemma RefusedChangesNothing(schema: Schema, base: File, s: Settings, es: seq<Edit>, writes: bool)
    requires [] !in schema.known && Outcome(schema, base, s.local, es, writes).Err?
    ensures Changed(schema, base, s, es, writes) == s
  {
  }

  /** An override file that cannot be read, or that holds no table, is never written over,
      by a change, a reset or a revert. */
  lemma UnreadableIsLeftAlone(schema: Schema, base: File, s: Settings, e: Event)
    requires [] !in schema.known
    requires s.local.Broken? || (s.local.Parsed? && s.local.tree.Leaf?)
    ensures Step(schema, base, s, e).local == s.local
    ensures e.Change? || e.Reset? ==> Step(schema, base, s, e) == s
  {
    hide Overrides.Apply, Load;
  }

  /** A confirmation leaves the change in place for good: it touches nothing but the
      countdown, which can then never run out, whatever follows. */
  lemma ConfirmedIsKept(schema: Schema, base: File, s: Settings, es: seq<Event>, id: nat, order: seq<Edit>, writes: bool)
    requires [] !in schema.known && Issued(s) && Live(s, id)
    ensures var kept := Step(schema, base, s, Confirm(id));
      && kept.local == s.local && kept.pending.None?
      && var t := Run(schema, base, kept, es);
      Step(schema, base, t, Revert(id, order, writes)) == t
  {
    hide Edited, Changed;
    StaleStaysStale(schema, base, Step(schema, base, s, Confirm(id)), es, id);
  }
}
