/** Editing the override file and loading the configuration. Whether a merged
    tree parses and passes validation is a parameter, as is the set of known keys. */
module Overrides {
  import opened Bytes
  import opened ConfigTree
  import opened TreeLaws

  datatype File = Missing | Broken | Parsed(tree: Value)

  datatype Failure = BadKey | Unreadable | Rejected | NotWritten

  datatype Result<T> = Ok(value: T) | Err(error: Failure)

  datatype Loaded = Loaded(config: Value, overridden: set<Path>)

  /** The schema: which dotted keys exist, and which merged trees it accepts. */
  datatype Schema = Schema(known: set<Path>, accepts: Value -> bool)

  datatype Edit = Edit(key: Path, value: Option<Value>)

  function Read(f: File): Result<Value> {
    match f
    case Missing => Ok(EMPTY)
    case Broken => Err(Unreadable)
    case Parsed(tree) => if tree.Table? then Ok(tree) else Err(Rejected)
  }

  /** A fresh load: base under override, parsed and validated. */
  function Load(schema: Schema, base: File, local: File): Result<Loaded> {
    if base.Broken? || local.Broken? then Err(Unreadable)
    else
      var under := if base.Missing? then EMPTY else base.tree;
      var config := if local.Missing? then under else Merge(under, local.tree);
      if schema.accepts(config) then
        Ok(Loaded(config, if local.Missing? then {} else LeafPaths(local.tree) - {[]}))
      else Err(Rejected)
  }

  function Apply(tree: Value, es: seq<Edit>): Option<Value>
    requires forall i | 0 <= i < |es| :: es[i].key != []
  {
    if es == [] then Some(tree)
    else
      var e := es[|es| - 1];
      match Apply(tree, es[..|es| - 1])
      case None => None
      case Some(t) => if e.value.Some? then Insert(t, e.key, e.value.value) else Some(Remove(t, e.key))
  }

  class Store {
    const schema: Schema
    var base: File
    var local: File

    constructor (schema: Schema, base: File, local: File)
      ensures this.schema == schema && this.base == base && this.local == local
    {
      this.schema, this.base, this.local := schema, base, local;
    }

    /** Edit the override file. Either it now holds the edited tree and the answer is
        what a fresh load gives, or it is exactly as it was. */
    method EditOverrides(es: seq<Edit>, writes: bool) returns (r: Result<Loaded>)
      requires [] !in schema.known
      modifies this`local
      ensures r == Outcome(schema, base, old(local), es, writes)
      ensures local == if r.Ok? then Parsed(Apply(Read(old(local)).value, es).value) else old(local)
      ensures old(local).Broken? || (old(local).Parsed? && old(local).tree.Leaf?) ==> r.Err? && local == old(local)
      ensures r.Ok? ==>
        Apply(if old(local).Missing? then EMPTY else old(local).tree, es).Some?
        && local == Parsed(Apply(if old(local).Missing? then EMPTY else old(local).tree, es).value)
    {
      for i := 0 to |es|
        invariant forall j | 0 <= j < i :: es[j].key in schema.known
      {
        if es[i].key !in schema.known {
          return Err(BadKey);
        }
      }
      var found := Read(local);
      if found.Err? {
        return Err(found.error);
      }
      var table := found.value;
      for i := 0 to |es|
        invariant forall j | 0 <= j < |es| :: es[j].key in schema.known && es[j].key != []
        invariant Apply(found.value, es[..i]) == Some(table)
      {
        assert es[..i + 1][..i] == es[..i];
        if es[i].value.Some? {
          var set_ := Insert(table, es[i].key, es[i].value.value);
          if set_.None? {
            ApplyStops(found.value, es, i + 1);
            return Err(BadKey);
          }
          table := set_.value;
        } else {
          table := Remove(table, es[i].key);
        }
      }
      assert es[..|es|] == es;
      if base.Broken? {
        return Err(Unreadable);
      }
      var merged := Merge(if base.Missing? then EMPTY else base.tree, table);
      if !schema.accepts(merged) {
        return Err(Rejected);
      }
      if !writes {
        return Err(NotWritten);
      }
      local := Parsed(table);
      r := Ok(Loaded(merged, LeafPaths(table) - {[]}));
    }
  }

  /** An edit that fails part of the way fails the whole list. */
  lemma {:induction false} ApplyStops(tree: Value, es: seq<Edit>, i: nat)
    requires i <= |es| && forall j | 0 <= j < |es| :: es[j].key != []
    requires Apply(tree, es[..i]).None?
    ensures Apply(tree, es).None?
    decreases |es|
  {
    if i < |es| {
      assert es[..|es| - 1][..i] == es[..i];
      ApplyStops(tree, es[..|es| - 1], i);
    } else {
      assert es[..i] == es;
    }
  }

  /** The answer to an edit: a refusal with its reason, or a fresh load of the
      edited file. */
  function Outcome(schema: Schema, base: File, local: File, es: seq<Edit>, writes: bool): Result<Loaded>
    requires [] !in schema.known
  {
    if exists i | 0 <= i < |es| :: es[i].key !in schema.known then Err(BadKey)
    else if Read(local).Err? then Err(Read(local).error)
    else if Apply(Read(local).value, es).None? then Err(BadKey)
    else
      var loaded := Load(schema, base, Parsed(Apply(Read(local).value, es).value));
      if loaded.Ok? && !writes then Err(NotWritten) else loaded
  }

  /** What each answer means. */
  lemma OutcomeIs(schema: Schema, base: File, local: File, es: seq<Edit>, writes: bool)
    requires [] !in schema.known
    ensures var r, found := Outcome(schema, base, local, es, writes), Read(local);
      && (local.Broken? || (local.Parsed? && local.tree.Leaf?) ==> r.Err?)
      && (r == Err(BadKey) <==>
            (exists i | 0 <= i < |es| :: es[i].key !in schema.known) || (found.Ok? && Apply(found.value, es).None?))
      && (r != Err(BadKey) ==>
            (r == Err(Unreadable) <==> local.Broken? || (found.Ok? && base.Broken?)))
      && (r != Err(BadKey) && r != Err(Unreadable) && found.Ok? ==>
            var table := Apply(found.value, es).value;
            var merged := Merge(if base.Missing? then EMPTY else base.tree, table);
            && (r == Err(Rejected) <==> !schema.accepts(merged))
            && (r == Err(NotWritten) <==> schema.accepts(merged) && !writes)
            && (r.Ok? ==> r.value == Loaded(merged, LeafPaths(table) - {[]})))
      && (r.Ok? ==> found == Ok(if local.Missing? then EMPTY else local.tree))
  {
    hide Apply, Merge, LeafPaths;
    assert (exists i | 0 <= i < |es| :: es[i].key !in schema.known)
      || forall i | 0 <= i < |es| :: es[i].key != [];
  }
}
