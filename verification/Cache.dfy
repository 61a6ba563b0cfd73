/** The cache as an object over its files and its index. Each operation runs
    alone here; how their steps interleave is the business of CacheLaws. */
module ArtworkCache {
  import opened Bytes
  import opened CacheModel
  import opened CacheLaws
  import opened Finite

  class Cache {
    var files: map<Name, bytes>
    var rows: map<string, Row>
    var negative: map<string, int>
    const digest: Digest
    const maxBytes: nat
    const negativeTtl: int

    ghost function View(): Store
      reads this
    {
      Store(files, rows, negative)
    }

    constructor (digest: Digest, maxBytes: nat, negativeTtl: int, found: Store)
      ensures View() == found && this.digest == digest
      ensures this.maxBytes == maxBytes && this.negativeTtl == negativeTtl
    {
      files, rows, negative := found.files, found.rows, found.negative;
      this.digest, this.maxBytes, this.negativeTtl := digest, maxBytes, negativeTtl;
    }

    method Get(key: string, now: int) returns (r: Option<bytes>)
      modifies this
      ensures r == Fetch(digest, old(View()), key)
      ensures View() == Fetched(digest, old(View()), key, now)
      ensures r.Some? ==> key in old(rows) && |r.value| == old(rows)[key].size && digest(r.value) == old(rows)[key].sha
      ensures r.Some? ==> Image(old(rows)[key].sha) in files && r.value == files[Image(old(rows)[key].sha)]
      ensures r.Some? ==> rows == old(rows)[key := old(rows)[key].(lastAccess := now)]
      ensures r.None? ==> rows == old(rows) - {key}
      ensures r.None? && key in old(rows) && Image(old(rows)[key].sha) in files ==>
        var found := files[Image(old(rows)[key].sha)];
        |found| != old(rows)[key].size || digest(found) != old(rows)[key].sha
      ensures files == old(files) && negative == old(negative)
    {
      if key !in rows {
        return None;
      }
      var row := rows[key];
      var path := Image(row.sha);
      if path !in files || |files[path]| != row.size || digest(files[path]) != row.sha {
        rows := rows - {key};
        return None;
      }
      rows := rows[key := row.(lastAccess := now)];
      r := Some(files[path]);
    }

    method Put(key: string, payload: bytes, now: int) returns (sha: string)
      modifies this
      ensures View() == DoAll(digest, old(View()), PutSteps(digest, key, payload, now))
      ensures sha == digest(payload)
      ensures rows == old(rows)[key := Row(sha, |payload|, now)] && negative == old(negative) - {key}
      ensures files == (old(files) - {Part(sha)})[Image(sha) := payload]
    {
      sha := digest(payload);
      PutEffect(digest, View(), key, payload, now);
      files := files[Part(sha) := []];
      files := files[Part(sha) := payload];
      files := (files - {Part(sha)})[Image(sha) := files[Part(sha)]];
      assert files == (old(files) - {Part(sha)})[Image(sha) := payload];
      rows := rows[key := Row(sha, |payload|, now)];
      negative := negative - {key};
    }

    method RecordMiss(key: string, now: int)
      modifies this`negative
      ensures View() == Do(digest, old(View()), NoteMiss(key, now))
    {
      negative := negative[key := now];
    }

    method Missed(key: string, now: int) returns (r: bool)
      ensures r == IsNegative(negative, key, now, negativeTtl)
      ensures r <==> key in negative && now < negative[key] + negativeTtl
    {
      if key in negative {
        r := now - negative[key] < negativeTtl;
      } else {
        r := false;
      }
    }

    /** `order` is the index's answer to listing its rows least recently used first. */
    method Sweep(order: seq<Victim>, now: int) returns (evicted: nat, expired: nat, orphans: nat)
      requires Enumerates(order, rows) && LeastRecentFirst(order)
      modifies this
      ensures Shortest(order, maxBytes, evicted)
      ensures View() == Swept(old(View()), order, evicted, now - negativeTtl)
      ensures expired == |old(negative)| - |negative|
      ensures orphans == |Without(old(files), Shas(order[..evicted]))| - |files|
    {
      hide Live, Without, Shas, Keys, Referenced, Kept, Enumerates, LeastRecentFirst, Shortest;
      var before := now - negativeTtl;
      LiveCode(negative, before);
      var live := map k | k in negative && negative[k] > before :: negative[k];
      LiveIsFewer(negative, before);
      expired := |negative| - |live|;
      negative := live;
      evicted := Evict(order);
      orphans := RemoveUnreferencedFiles();
      KeptAfter(old(files), Referenced(rows), Shas(order[..evicted]));
    }

    /** Evict from the front until what is left fits. */
    method Evict(order: seq<Victim>) returns (evicted: nat)
      modifies this`files, this`rows
      ensures evicted <= |order| && Shortest(order, maxBytes, evicted)
      ensures Total(order[evicted..]) <= maxBytes && (evicted > 0 ==> Total(order[evicted - 1..]) > maxBytes)
      ensures rows == old(rows) - Keys(order[..evicted])
      ensures files == Without(old(files), Shas(order[..evicted]))
    {
      hide Without, Shas, Keys;
      var total := Total(order);
      evicted := 0;
      NothingEvicted(order, files, rows);
      while evicted < |order| && total > maxBytes
        invariant evicted <= |order|
        invariant total == Total(order[evicted..])
        invariant evicted > 0 ==> Total(order[evicted - 1..]) > maxBytes
        invariant rows == old(rows) - Keys(order[..evicted])
        invariant files == Without(old(files), Shas(order[..evicted]))
      {
        var victim := order[evicted];
        assert order[evicted..][1..] == order[evicted + 1..];
        EvictOne(order, evicted, old(files), old(rows));
        files := files - {Image(victim.row.sha)};
        rows := rows - {victim.key};
        total := total - victim.row.size;
        evicted := evicted + 1;
      }
      assert order[|order|..] == [];
    }

    /** Delete leftovers of cut-short writes and every image no row names. */
    method RemoveUnreferencedFiles() returns (removed: nat)
      modifies this`files
      ensures files == Kept(old(files), Referenced(rows))
      ensures removed == |old(files)| - |files|
    {
      var known := set k | k in rows :: rows[k].sha;
      var todo := files.Keys;
      removed := 0;
      while todo != {}
        invariant todo <= files.Keys
        invariant forall n :: n in files <==> n in old(files) && (n in todo || (n.Image? && n.sha in known))
        invariant forall n | n in files :: files[n] == old(files)[n]
        invariant removed == |old(files)| - |files|
        decreases |todo|
      {
        var name :| name in todo;
        if name.Part? || name.sha !in known {
          RemoveOne(files, name);
          files := files - {name};
          removed := removed + 1;
        }
        todo := todo - {name};
      }
    }
  }

  /** The files eviction leaves, before unreferenced ones go. */
  function Without(files: map<Name, bytes>, shas: set<string>): map<Name, bytes> {
    map n | n in files && (n.Part? || n.sha !in shas) :: files[n]
  }

  lemma SnocSets(order: seq<Victim>, i: nat)
    requires i < |order|
    ensures Keys(order[..i + 1]) == Keys(order[..i]) + {order[i].key}
    ensures Shas(order[..i + 1]) == Shas(order[..i]) + {order[i].row.sha}
  {
    assert order[..i + 1] == order[..i] + [order[i]];
  }

  lemma LiveCode(negative: map<string, int>, before: int)
    ensures Live(negative, before) == map k | k in negative && negative[k] > before :: negative[k]
  {
  }

  lemma NothingEvicted(order: seq<Victim>, files: map<Name, bytes>, rows: map<string, Row>)
    ensures order[0..] == order && Without(files, Shas(order[..0])) == files && rows - Keys(order[..0]) == rows
  {
  }

  lemma EvictOne(order: seq<Victim>, i: nat, files: map<Name, bytes>, rows: map<string, Row>)
    requires i < |order|
    ensures rows - Keys(order[..i + 1]) == rows - Keys(order[..i]) - {order[i].key}
    ensures Without(files, Shas(order[..i + 1])) == Without(files, Shas(order[..i])) - {Image(order[i].row.sha)}
  {
    SnocSets(order, i);
    hide Shas, Keys;
  }

  lemma KeptAfter(files: map<Name, bytes>, known: set<string>, gone: set<string>)
    ensures Kept(Without(files, gone), known) == Kept(files, known - gone)
  {
  }

  lemma LiveIsFewer(negative: map<string, int>, before: int)
    ensures |Live(negative, before)| <= |negative|
  {
    Fewer(Live(negative, before).Keys, negative.Keys);
  }
}
