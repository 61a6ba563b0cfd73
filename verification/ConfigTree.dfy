/** Configuration as a tree of tables, and the operations the override file is
    edited with. A path is the list of a dotted key's parts, never empty. Tables
    are edited here on values: an edited table is a new table. */
module ConfigTree {
  import opened Bytes

  datatype Value = Leaf(text: string) | Table(entries: map<string, Value>)

  type Path = seq<string>

  const EMPTY := Table(map[])

  /** The value at a path; the empty path is the value itself. */
  function Get(v: Value, p: Path): Option<Value>
    decreases |p|
  {
    if p == [] then Some(v)
    else if v.Table? && p[0] in v.entries then Get(v.entries[p[0]], p[1..])
    else None
  }

  function LeafAt(v: Value, p: Path): Option<string> {
    match Get(v, p)
    case Some(Leaf(text)) => Some(text)
    case _ => None
  }

  /** Set a path, making the tables it runs through. A path that runs through
      something else is refused. */
  function Insert(v: Value, p: Path, x: Value): Option<Value>
    requires p != []
    decreases |p|
  {
    if v.Leaf? then None
    else if |p| == 1 then Some(Table(v.entries[p[0] := x]))
    else
      match Insert(if p[0] in v.entries then v.entries[p[0]] else EMPTY, p[1..], x)
      case None => None
      case Some(child) => Some(Table(v.entries[p[0] := child]))
  }

  /** Drop a path, and every table that leaves empty. */
  function Remove(v: Value, p: Path): Value
    requires p != []
    decreases |p|
  {
    if v.Leaf? || p[0] !in v.entries then v
    else if |p| == 1 then Table(v.entries - {p[0]})
    else if v.entries[p[0]].Leaf? then v
    else
      var child := Remove(v.entries[p[0]], p[1..]);
      if child == EMPTY then Table(v.entries - {p[0]}) else Table(v.entries[p[0] := child])
  }

  /** Lay one tree over another: tables combine, anything else replaces. */
  function Merge(b: Value, o: Value): Value
    decreases o
  {
    if b.Table? && o.Table? then
      Table(map k | k in b.entries.Keys + o.entries.Keys ::
        if k !in o.entries then b.entries[k]
        else if k in b.entries then Merge(b.entries[k], o.entries[k])
        else o.entries[k])
    else o
  }

  /** The paths of all leaves. */
  function LeafPaths(v: Value): set<Path> {
    if v.Leaf? then {[]}
    else set k, q | k in v.entries && q in LeafPaths(v.entries[k]) :: [k] + q
  }

  predicate Unrelated(p: Path, q: Path) {
    !(p <= q) && !(q <= p)
  }

  /** No table below this one is empty. */
  predicate Pruned(v: Value) {
    v.Table? ==> forall k | k in v.entries :: v.entries[k] != EMPTY && Pruned(v.entries[k])
  }

  /** Some proper prefix of the path, counting the root, is not a table. */
  predicate Blocked(v: Value, p: Path)
    decreases |p|
  {
    p != [] && (v.Leaf? || (p[0] in v.entries && Blocked(v.entries[p[0]], p[1..])))
  }
}

/** How reading, setting, dropping and merging paths relate. */
module TreeLaws {
  import opened Bytes
  import opened ConfigTree

  lemma {:induction false} InsertRefusedIff(v: Value, p: Path, x: Value)
    requires p != []
    ensures Insert(v, p, x).None? <==> Blocked(v, p)
    decreases |p|
  {
    if v.Table? && |p| > 1 {
      if p[0] in v.entries {
        InsertRefusedIff(v.entries[p[0]], p[1..], x);
      } else {
        InsertRefusedIff(EMPTY, p[1..], x);
      }
    } else if v.Table? && p[0] in v.entries {
      assert p[1..] == [];
    }
  }

  lemma {:induction false} GetInserted(v: Value, p: Path, x: Value)
    requires p != [] && Insert(v, p, x).Some?
    ensures Get(Insert(v, p, x).value, p) == Some(x)
    decreases |p|
  {
    if |p| == 1 {
      assert p[1..] == [];
    } else {
      GetInserted(if p[0] in v.entries then v.entries[p[0]] else EMPTY, p[1..], x);
    }
  }

  lemma UnrelatedTails(p: Path, q: Path)
    requires Unrelated(p, q) && p[0] == q[0]
    ensures |p| > 1 && |q| > 1 && Unrelated(p[1..], q[1..])
  {
    TailPrefix(p, q);
    TailPrefix(q, p);
  }

  lemma TailPrefix(p: Path, q: Path)
    requires p != [] && q != [] && p[0] == q[0]
    ensures p[1..] <= q[1..] ==> p <= q
  {
    assert p == [p[0]] + p[1..] && q == [q[0]] + q[1..];
  }

  lemma {:induction false} InsertFrames(v: Value, p: Path, x: Value, q: Path)
    requires p != [] && Insert(v, p, x).Some? && Unrelated(p, q)
    ensures Get(Insert(v, p, x).value, q) == Get(v, q)
    decreases |p|
  {
    if p[0] == q[0] {
      UnrelatedTails(p, q);
      InsertFrames(if p[0] in v.entries then v.entries[p[0]] else EMPTY, p[1..], x, q[1..]);
    }
  }

  lemma {:induction false} GetRemoved(v: Value, p: Path)
    requires p != []
    ensures Get(Remove(v, p), p) == None
    decreases |p|
  {
    if v.Table? && p[0] in v.entries && |p| > 1 && v.entries[p[0]].Table? {
      GetRemoved(v.entries[p[0]], p[1..]);
    }
  }

  lemma {:induction false} RemoveFrames(v: Value, p: Path, q: Path)
    requires p != [] && Unrelated(p, q)
    ensures Get(Remove(v, p), q) == Get(v, q)
    decreases |p|
  {
    if v.Table? && p[0] in v.entries && p[0] == q[0] {
      UnrelatedTails(p, q);
      if v.entries[p[0]].Table? {
        RemoveFrames(v.entries[p[0]], p[1..], q[1..]);
      }
    }
  }

  lemma {:induction false} InsertKeepsPruned(v: Value, p: Path, x: Value)
    requires p != [] && Pruned(v) && x.Leaf? && Insert(v, p, x).Some?
    ensures Pruned(Insert(v, p, x).value) && Insert(v, p, x).value != EMPTY
    decreases |p|
  {
    if |p| > 1 {
      InsertKeepsPruned(if p[0] in v.entries then v.entries[p[0]] else EMPTY, p[1..], x);
    }
    assert p[0] in Insert(v, p, x).value.entries;
  }

  lemma {:induction false} RemoveKeepsPruned(v: Value, p: Path)
    requires p != [] && Pruned(v)
    ensures Pruned(Remove(v, p))
    decreases |p|
  {
    if v.Table? && p[0] in v.entries && |p| > 1 && v.entries[p[0]].Table? {
      RemoveKeepsPruned(v.entries[p[0]], p[1..]);
    }
  }

  /** Dropping a key that was just set where there was none gives the table back. */
  lemma {:induction false} RemoveUndoesInsert(v: Value, p: Path, x: Value)
    requires p != [] && v.Table? && Pruned(v) && Get(v, p) == None && Insert(v, p, x).Some?
    ensures Remove(Insert(v, p, x).value, p) == v
    decreases |p|
  {
    var child := if p[0] in v.entries then v.entries[p[0]] else EMPTY;
    if |p| == 1 {
      assert p[1..] == [];
      assert (v.entries[p[0] := x]) - {p[0]} == v.entries;
    } else {
      RemoveUndoesInsert(child, p[1..], x);
      var c := Insert(child, p[1..], x).value;
      assert v.entries[p[0] := c] - {p[0]} == v.entries - {p[0]};
      assert v.entries[p[0] := c][p[0] := child] == v.entries[p[0] := child];
    }
  }

  lemma {:induction false} MergeSelf(o: Value)
    ensures Merge(o, o) == o
    decreases o
  {
    if o.Table? {
      forall k | k in o.entries ensures Merge(o.entries[k], o.entries[k]) == o.entries[k] {
        MergeSelf(o.entries[k]);
      }
    }
  }

  lemma {:induction false} MergeIdempotent(b: Value, o: Value)
    ensures Merge(Merge(b, o), o) == Merge(b, o)
    decreases o
  {
    if b.Table? && o.Table? {
      forall k | k in o.entries ensures Merge(Merge(b, o).entries[k], o.entries[k]) == Merge(b, o).entries[k] {
        if k in b.entries {
          MergeIdempotent(b.entries[k], o.entries[k]);
        } else {
          MergeSelf(o.entries[k]);
        }
      }
    } else {
      MergeSelf(o);
    }
  }

  /** What the merged tree holds at any path at all. */
  lemma {:induction false} MergeGet(b: Value, o: Value, p: Path)
    ensures Get(Merge(b, o), p) ==
      if Blocked(o, p) then None
      else match Get(o, p)
        case None => Get(b, p)
        case Some(over) => match Get(b, p) {
          case None => Some(over)
          case Some(under) => Some(Merge(under, over))
        }
    decreases |p|
  {
    if p != [] && b.Table? && o.Table? && p[0] in o.entries {
      if p[0] in b.entries {
        MergeGet(b.entries[p[0]], o.entries[p[0]], p[1..]);
      } else {
        GetOrBlocked(o.entries[p[0]], p[1..]);
      }
    } else if p != [] && o.Table? {
      GetOrBlocked(o, p);
    }
  }

  lemma {:induction false} GetOrBlocked(v: Value, p: Path)
    ensures Blocked(v, p) ==> Get(v, p) == None
    decreases |p|
  {
    if p != [] && v.Table? && p[0] in v.entries {
      GetOrBlocked(v.entries[p[0]], p[1..]);
    }
  }

  lemma {:induction false} LeafPathsAre(v: Value, p: Path)
    ensures p in LeafPaths(v) <==> LeafAt(v, p).Some?
    decreases v, |p|
  {
    if v.Table? {
      if p != [] && p[0] in v.entries {
        LeafPathsAre(v.entries[p[0]], p[1..]);
        assert p == [p[0]] + p[1..];
      }
    }
  }

  /** A table that is neither empty nor holds empty tables has a leaf. */
  lemma {:induction false} HasLeaf(v: Value) returns (p: Path)
    requires Pruned(v) && v != EMPTY
    ensures LeafAt(v, p).Some?
  {
    if v.Leaf? {
      p := [];
    } else {
      var k :| k in v.entries;
      var q := HasLeaf(v.entries[k]);
      p := [k] + q;
      assert p[1..] == q;
    }
  }

  lemma LeafUnder(v: Value, k: string, q: Path)
    requires v.Table?
    ensures LeafAt(v, [k] + q) == if k in v.entries then LeafAt(v.entries[k], q) else None
  {
    assert ([k] + q)[1..] == q;
  }

  lemma NoEntry(v: Value, u: Value, k: string)
    requires v.Table? && u.Table? && Pruned(v) && k in v.entries && k !in u.entries
    ensures exists p :: LeafAt(v, p) != LeafAt(u, p)
  {
    var q := HasLeaf(v.entries[k]);
    LeafUnder(v, k, q);
    LeafUnder(u, k, q);
    assert LeafAt(v, [k] + q) != LeafAt(u, [k] + q);
  }

  ghost predicate SameLeaves(v: Value, u: Value) {
    forall p {:trigger LeafAt(v, p)} {:trigger LeafAt(u, p)} :: LeafAt(v, p) == LeafAt(u, p)
  }

  lemma SameEntries(v: Value, u: Value, k: string)
    requires v.Table? && u.Table? && Pruned(v) && SameLeaves(v, u)
    ensures k in v.entries ==> k in u.entries
  {
    hide Pruned, LeafAt;
    if k in v.entries && k !in u.entries {
      NoEntry(v, u, k);
    }
  }

  lemma SameBelow(v: Value, u: Value, k: string)
    requires v.Table? && u.Table? && k in v.entries && k in u.entries && SameLeaves(v, u)
    ensures SameLeaves(v.entries[k], u.entries[k])
  {
    hide LeafAt;
    forall q ensures LeafAt(v.entries[k], q) == LeafAt(u.entries[k], q) {
      LeafUnder(v, k, q);
      LeafUnder(u, k, q);
    }
  }

  /** With no empty tables, the leaves say everything. */
  lemma {:induction false} LeavesDetermine(v: Value, u: Value)
    requires Pruned(v) && Pruned(u) && SameLeaves(v, u) && v.Table? == u.Table?
    ensures v == u
    decreases v
  {
    if v.Leaf? {
      assert LeafAt(v, []) == Some(v.text) && LeafAt(u, []) == Some(u.text);
    } else {
      forall k ensures k in v.entries <==> k in u.entries {
        SameEntries(v, u, k);
        SameEntries(u, v, k);
      }
      forall k | k in v.entries ensures v.entries[k] == u.entries[k] {
        SameBelow(v, u, k);
        assert LeafAt(v.entries[k], []) == LeafAt(u.entries[k], []);
        LeavesDetermine(v.entries[k], u.entries[k]);
      }
      assert v.entries == u.entries;
    }
  }
}
