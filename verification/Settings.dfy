/** Confirm-or-revert: a display change is written at once, and put back unless
    somebody confirms it. */
module SettingsModel {
  import opened Bytes
  import opened ConfigTree
  import opened Overrides

  /** The keys whose changes have to be confirmed. */
  const CONFIRM: set<Path> := {["display", "mode"], ["display", "rotation"]}

  type Undo = map<Path, Option<Value>>

  datatype Pending = Pending(id: nat, undo: Undo)

  datatype Settings = Settings(local: File, pending: Option<Pending>, nextId: nat)

  /** The override's entries for some keys, absence included. */
  function Snapshot(tree: Value, keys: set<Path>): Undo {
    map k | k in keys :: Get(tree, k)
  }

  function Touched(es: seq<Edit>): set<Path> {
    set k | k in CONFIRM && exists i :: 0 <= i < |es| && es[i].key == k :: k
  }

  /** Arm a countdown. It takes the place of an earlier one, whose undo wins per key. */
  function Armed(s: Settings, undo: Undo): Settings {
    var all := if s.pending.Some? then undo + s.pending.value.undo else undo;
    Settings(s.local, Some(Pending(s.nextId, all)), s.nextId + 1)
  }

  predicate Live(s: Settings, id: nat) {
    s.pending.Some? && s.pending.value.id == id
  }

  function Edited(schema: Schema, base: File, s: Settings, es: seq<Edit>, writes: bool): Settings
    requires [] !in schema.known
  {
    if Outcome(schema, base, s.local, es, writes).Ok? then
      s.(local := Parsed(Overrides.Apply(Read(s.local).value, es).value))
    else s
  }

  /** One settings request: note what is about to be lost, write, and arm. */
  function Changed(schema: Schema, base: File, s: Settings, es: seq<Edit>, writes: bool): Settings
    requires [] !in schema.known
  {
    if Touched(es) != {} && Read(s.local).Err? then s
    else if Outcome(schema, base, s.local, es, writes).Err? then s
    else
      var t := Edited(schema, base, s, es, writes);
      if Touched(es) == {} then t else Armed(t, Snapshot(Read(s.local).value, Touched(es)))
  }

  /** The edits that put things back, in some order, each key once. */
  ghost predicate Lists(es: seq<Edit>, undo: Undo) {
    && (forall i | 0 <= i < |es| :: es[i].key in undo && undo[es[i].key] == es[i].value)
    && (forall k | k in undo :: exists i | 0 <= i < |es| :: es[i].key == k)
  }

  datatype Event =
    | Change(edits: seq<Edit>, writes: bool)
    | Reset(edits: seq<Edit>, writes: bool)
    | Confirm(id: nat)
    | Revert(id: nat, order: seq<Edit>, writes: bool)

  function Step(schema: Schema, base: File, s: Settings, e: Event): Settings
    requires [] !in schema.known
  {
    match e
    case Change(es, writes) => Changed(schema, base, s, es, writes)
    case Reset(es, writes) => Edited(schema, base, s, es, writes)
    case Confirm(id) => if Live(s, id) then s.(pending := None) else s
    case Revert(id, order, writes) =>
      if Live(s, id) then Edited(schema, base, s, order, writes).(pending := None) else s
  }

  function Run(schema: Schema, base: File, s: Settings, es: seq<Event>): Settings
    requires [] !in schema.known
  {
    if es == [] then s else Step(schema, base, Run(schema, base, s, es[..|es| - 1]), es[|es| - 1])
  }
}

/** The settings endpoints' shared state. */
module SettingsStore {
  import opened Bytes
  import opened ConfigTree
  import opened Overrides
  import opened SettingsModel

  class Countdown {
    const store: Store
    var pending: Option<Pending>
    var nextId: nat

    ghost function View(): Settings
      reads this, store
    {
      Settings(store.local, pending, nextId)
    }

    constructor (store: Store)
      ensures this.store == store && View() == Settings(store.local, None, 1)
    {
      this.store := store;
      pending, nextId := None, 1;
    }

    method SnapshotKeys(keys: set<Path>) returns (r: Result<Undo>)
      ensures r == if Read(store.local).Ok? then Ok(Snapshot(Read(store.local).value, keys)) else Err(Read(store.local).error)
    {
      var table := Read(store.local);
      if table.Err? {
        return Err(table.error);
      }
      r := Ok(map k | k in keys :: Get(table.value, k));
    }

    method Arm(undo: Undo) returns (id: nat)
      modifies this
      ensures View() == Armed(old(View()), undo)
      ensures Live(View(), id) && id == old(nextId)
    {
      id := nextId;
      nextId := nextId + 1;
      var all := undo;
      if pending.Some? {
        all := all + pending.value.undo;
      }
      pending := Some(Pending(id, all));
    }

    method ConfirmChange(id: nat) returns (found: bool)
      requires [] !in store.schema.known
      modifies this
      ensures found == Live(old(View()), id)
      ensures View() == Step(store.schema, store.base, old(View()), Confirm(id))
    {
      found := pending.Some? && pending.value.id == id;
      if found {
        pending := None;
      }
    }

    /** A settings request from the browser. */
    method ChangeSettings(es: seq<Edit>, writes: bool) returns (r: Result<Loaded>)
      requires [] !in store.schema.known
      modifies this, store`local
      ensures View() == Changed(store.schema, store.base, old(View()), es, writes)
      ensures r.Ok? ==> r == Load(store.schema, store.base, store.local)
    {
      hide Overrides.Apply, Merge, Load;
      var touched := Touched(es);
      var undo := map[];
      if touched != {} {
        var snapshot := SnapshotKeys(touched);
        if snapshot.Err? {
          return Err(snapshot.error);
        }
        undo := snapshot.value;
      }
      r := store.EditOverrides(es, writes);
      if r.Ok? && touched != {} {
        var id := Arm(undo);
      }
    }

    /** The countdown ran out: nothing if it was confirmed or superseded. The pending
        slot is emptied before the edit is tried, so a refused edit ends it too. */
    method RevertChange(id: nat, writes: bool) returns (r: Option<Result<Loaded>>, ghost order: seq<Edit>)
      requires [] !in store.schema.known
      modifies this, store`local
      ensures r.Some? <==> Live(old(View()), id)
      ensures r.Some? ==> Lists(order, old(pending).value.undo)
      ensures View() == Step(store.schema, store.base, old(View()), Revert(id, order, writes))
    {
      hide Overrides.Apply, Merge, Load;
      order := [];
      if pending.None? || pending.value.id != id {
        return None, order;
      }
      var undo := pending.value.undo;
      pending := None;
      var edits := Listing(undo);
      order := edits;
      var result := store.EditOverrides(edits, writes);
      r := Some(result);
    }
  }

  method Listing(undo: Undo) returns (es: seq<Edit>)
    ensures Lists(es, undo)
  {
    es := [];
    var todo := undo.Keys;
    while todo != {}
      invariant todo <= undo.Keys
      invariant forall i | 0 <= i < |es| :: es[i].key in undo && undo[es[i].key] == es[i].value
      invariant forall k | k in undo :: k in todo || exists i | 0 <= i < |es| :: es[i].key == k
      decreases |todo|
    {
      var k :| k in todo;
      ghost var before := es;
      es := es + [Edit(k, undo[k])];
      assert es[|before|].key == k;
      forall j | j in undo && j !in todo ensures exists i | 0 <= i < |es| :: es[i].key == j {
        var i :| 0 <= i < |before| && before[i].key == j;
        assert es[i].key == j;
      }
      todo := todo - {k};
    }
  }
}
