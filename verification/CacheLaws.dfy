/** What the cache promises whatever its operations' steps interleave with,
    wherever a crash falls, and whatever happens to its files. */
module CacheLaws {
  import opened Bytes
  import opened CacheModel

  // --- lookups ---------------------------------------------------------------------------

  /** The payload last recorded for each key. */
  function Latest(es: seq<Step>, was: map<string, bytes>): map<string, bytes> {
    if es == [] then was
    else
      var before := Latest(es[..|es| - 1], was);
      match es[|es| - 1]
      case Record(key, payload, _) => before[key := payload]
      case _ => before
  }

  predicate Describes(digest: Digest, row: Row, payload: bytes) {
    row.sha == digest(payload) && row.size == |payload|
  }

  predicate RowsHonest(digest: Digest, rows: map<string, Row>, latest: map<string, bytes>) {
    forall k | k in rows :: k in latest && Describes(digest, rows[k], latest[k])
  }

  lemma {:induction false} RowsStayHonest(digest: Digest, s: Store, was: map<string, bytes>, es: seq<Step>)
    requires RowsHonest(digest, s.rows, was)
    ensures RowsHonest(digest, DoAll(digest, s, es).rows, Latest(es, was))
  {
    hide Do, RowsHonest;
    if es != [] {
      RowsStayHonest(digest, s, was, es[..|es| - 1]);
      HonestStep(digest, DoAll(digest, s, es[..|es| - 1]), Latest(es[..|es| - 1], was), es[|es| - 1]);
    }
  }

  lemma HonestStep(digest: Digest, s: Store, was: map<string, bytes>, e: Step)
    requires RowsHonest(digest, s.rows, was)
    ensures RowsHonest(digest, Do(digest, s, e).rows, if e.Record? then was[e.key := e.payload] else was)
  {
  }

  /** A lookup reads its row after any run `es` and its file after any further run
      `later`. If it answers at all, it answers the payload last recorded for the
      key when the row was read, or the digest has collided; and if the file holds that
      payload, it answers it. */
  lemma GetIsTruthful(digest: Digest, s: Store, was: map<string, bytes>, es: seq<Step>, later: seq<Step>, key: string)
    requires RowsHonest(digest, s.rows, was) && key in DoAll(digest, s, es).rows
    ensures key in Latest(es, was)
    ensures var files := DoAll(digest, DoAll(digest, s, es), later).files;
      var r, p := Answer(digest, DoAll(digest, s, es).rows[key], files), Latest(es, was)[key];
      && (r.Some? ==> |r.value| == |p| && digest(r.value) == digest(p))
      && (Image(digest(p)) in files && files[Image(digest(p))] == p ==> r == Some(p))
  {
    RowsStayHonest(digest, s, was, es);
  }

  /** Storing and then looking up, with nothing in between, gives the bytes back,
      over any store at all. */
  lemma PutThenGet(digest: Digest, s: Store, key: string, payload: bytes, now: int)
    ensures var t := DoAll(digest, s, PutSteps(digest, key, payload, now));
      && Fetch(digest, t, key) == Some(payload)
      && key !in t.negative
      && key in t.rows && t.rows[key].lastAccess == now
      && forall k | k != key :: (k in t.rows <==> k in s.rows) && (k in s.rows ==> t.rows[k] == s.rows[k])
  {
    PutEffect(digest, s, key, payload, now);
  }

  lemma PutEffect(digest: Digest, s: Store, key: string, payload: bytes, now: int)
    ensures DoAll(digest, s, PutSteps(digest, key, payload, now))
         == Store((s.files - {Part(digest(payload))})[Image(digest(payload)) := payload],
                  s.rows[key := RowFor(digest, payload, now)], s.negative - {key})
  {
    hide Do, DoAll;
    var es := PutSteps(digest, key, payload, now);
    DoFirst(digest, s, es);
    DoNext(digest, s, es, 1);
    DoNext(digest, s, es, 2);
    DoNext(digest, s, es, 3);
    DoNext(digest, s, es, 4);
    assert es[..5] == es;
    PutFile(digest, s, digest(payload), payload);
    RecordAfter(digest, DoAll(digest, s, es[..3]), key, payload, now);
  }

  lemma DoNext(digest: Digest, s: Store, es: seq<Step>, n: nat)
    requires n < |es|
    ensures DoAll(digest, s, es[..n + 1]) == Do(digest, DoAll(digest, s, es[..n]), es[n])
  {
    hide Do;
    assert es[..n + 1][..n] == es[..n];
  }

  lemma DoFirst(digest: Digest, s: Store, es: seq<Step>)
    requires es != []
    ensures DoAll(digest, s, es[..1]) == Do(digest, s, es[0])
  {
    hide Do;
    DoNext(digest, s, es, 0);
    assert DoAll(digest, s, es[..0]) == s;
  }

  lemma PutFile(digest: Digest, s: Store, d: string, payload: bytes)
    ensures Do(digest, Do(digest, Do(digest, s, Open(d)), Write(Some(Part(d)), payload)), Rename(d))
         == s.(files := (s.files - {Part(d)})[Image(d) := payload])
  {
    assert s.files[Part(d) := []][Part(d) := payload] - {Part(d)} == s.files - {Part(d)};
  }

  lemma RecordAfter(digest: Digest, s: Store, key: string, payload: bytes, now: int)
    ensures Do(digest, Do(digest, s, Record(key, payload, now)), Answered(key))
         == Store(s.files, s.rows[key := RowFor(digest, payload, now)], s.negative - {key})
  {
  }

  // --- crashes ----------------------------------------------------------------------------

  /** Every row is recorded only after a rename to its digest that succeeded, as
      `put` orders its steps. */
  ghost predicate FileFirst(digest: Digest, s: Store, es: seq<Step>) {
    forall i | 0 <= i < |es| && es[i].Record? :: Renamed(digest, s, es[..i], digest(es[i].payload))
  }

  ghost predicate Renamed(digest: Digest, s: Store, es: seq<Step>, d: string) {
    exists j | 0 <= j < |es| :: es[j] == Rename(d) && Part(d) in DoAll(digest, s, es[..j]).files
  }

  /** A step that neither removes nor damages the image of sha d, nor leaves part of a
      write in it. */
  predicate Spares(digest: Digest, e: Step, d: string) {
    && e != Remove(Image(d)) && (e.Damage? ==> e.name != Image(d))
    && (e.Write? && e.into == Some(Image(d)) ==> digest(e.content) == d)
  }

  /** What is renamed to sha d has it as its digest. */
  predicate RenamesWhole(digest: Digest, s: Store, e: Step, d: string) {
    e == Rename(d) && Part(d) in s.files ==> digest(s.files[Part(d)]) == d
  }

  ghost predicate AllSpared(digest: Digest, s: Store, es: seq<Step>, d: string) {
    forall i | 0 <= i < |es| :: Spares(digest, es[i], d) && RenamesWhole(digest, DoAll(digest, s, es[..i]), es[i], d)
  }

  predicate ImageMatches(digest: Digest, s: Store, d: string) {
    Image(d) in s.files ==> digest(s.files[Image(d)]) == d
  }

  predicate Backed(digest: Digest, s: Store, d: string) {
    ImageMatches(digest, s, d) && forall k | k in s.rows && s.rows[k].sha == d :: Image(d) in s.files
  }

  lemma SparingStep(digest: Digest, s: Store, e: Step, d: string)
    requires ImageMatches(digest, s, d) && Spares(digest, e, d) && RenamesWhole(digest, s, e, d)
    ensures ImageMatches(digest, Do(digest, s, e), d)
    ensures Image(d) in s.files ==> Image(d) in Do(digest, s, e).files
    ensures e == Rename(d) && Part(d) in s.files ==> Image(d) in Do(digest, s, e).files
  {
  }

  lemma SparedBefore(digest: Digest, s: Store, es: seq<Step>, d: string)
    requires es != [] && AllSpared(digest, s, es, d)
    ensures AllSpared(digest, s, es[..|es| - 1], d)
  {
    hide Spares, RenamesWhole, DoAll;
    var n := |es| - 1;
    forall i | 0 <= i < n
      ensures Spares(digest, es[..n][i], d) && RenamesWhole(digest, DoAll(digest, s, es[..n][..i]), es[..n][i], d)
    {
      assert es[..n][..i] == es[..i];
    }
  }

  lemma {:induction false} RenamedStays(digest: Digest, s: Store, es: seq<Step>, d: string)
    requires ImageMatches(digest, s, d) && AllSpared(digest, s, es, d)
    ensures ImageMatches(digest, DoAll(digest, s, es), d)
    ensures Image(d) in s.files || Renamed(digest, s, es, d) ==> Image(d) in DoAll(digest, s, es).files
  {
    hide Do, Spares, RenamesWhole, ImageMatches, Renamed;
    if es == [] {
      NothingRenamed(digest, s, d);
    } else {
      var n := |es| - 1;
      SparedBefore(digest, s, es, d);
      RenamedStays(digest, s, es[..n], d);
      SparingStep(digest, DoAll(digest, s, es[..n]), es[n], d);
      if Renamed(digest, s, es, d) {
        RenamedEarlier(digest, s, es, d);
      }
    }
  }

  lemma NothingRenamed(digest: Digest, s: Store, d: string)
    ensures !Renamed(digest, s, [], d)
  {
  }

  lemma RenamedEarlier(digest: Digest, s: Store, es: seq<Step>, d: string)
    requires es != [] && Renamed(digest, s, es, d)
    ensures var n := |es| - 1;
      Renamed(digest, s, es[..n], d) || (es[n] == Rename(d) && Part(d) in DoAll(digest, s, es[..n]).files)
  {
    hide Do, DoAll;
    var n := |es| - 1;
    var j :| 0 <= j < |es| && es[j] == Rename(d) && Part(d) in DoAll(digest, s, es[..j]).files;
    if j < n {
      assert es[..n][..j] == es[..j] && es[..n][j] == es[j];
    }
  }

  /** File first, row second: over every run that records rows only after their
      renames and renames only whole writes, stopped anywhere and with any write cut
      short, a row's image is there under its digest unless a step removed or
      damaged it. */
  lemma {:induction false} RowsAreBacked(digest: Digest, s: Store, es: seq<Step>, d: string)
    requires Backed(digest, s, d) && FileFirst(digest, s, es) && AllSpared(digest, s, es, d)
    ensures Backed(digest, DoAll(digest, s, es), d)
  {
    hide Do, Spares, RenamesWhole, ImageMatches, Renamed;
    RenamedStays(digest, s, es, d);
    if es != [] {
      var n := |es| - 1;
      FileFirstBefore(digest, s, es);
      SparedBefore(digest, s, es, d);
      RowsAreBacked(digest, s, es[..n], d);
      RowAppears(digest, DoAll(digest, s, es[..n]), es[n], d);
      RenamedStays(digest, s, es[..n], d);
      SparingStep(digest, DoAll(digest, s, es[..n]), es[n], d);
    }
  }

  lemma FileFirstBefore(digest: Digest, s: Store, es: seq<Step>)
    requires es != [] && FileFirst(digest, s, es)
    ensures FileFirst(digest, s, es[..|es| - 1])
  {
    hide Renamed;
    var n := |es| - 1;
    forall i | 0 <= i < n && es[..n][i].Record? ensures Renamed(digest, s, es[..n][..i], digest(es[..n][i].payload)) {
      assert es[..n][..i] == es[..i];
    }
  }

  /** Only recording makes a row name a digest it did not name before. */
  lemma RowAppears(digest: Digest, s: Store, e: Step, d: string)
    ensures (exists k | k in Do(digest, s, e).rows :: Do(digest, s, e).rows[k].sha == d) ==>
      (exists k | k in s.rows :: s.rows[k].sha == d) || (e.Record? && digest(e.payload) == d)
  {
    var t := Do(digest, s, e);
    if k :| k in t.rows && t.rows[k].sha == d {
      if k in s.rows && s.rows[k].sha == d {
      } else {
        assert e.Record?;
      }
    }
  }

  // --- sweeping ------------------------------------------------------------------------

  /** The sum the index reports does not depend on the order it lists rows in. */
  lemma {:induction false} TotalOfAny(a: seq<Victim>, b: seq<Victim>, rows: map<string, Row>)
    requires Enumerates(a, rows) && Enumerates(b, rows)
    ensures Total(a) == Total(b) && (rows == map[] ==> Total(a) == 0)
    decreases |a|
  {
    hide Enumerates, Total;
    NothingTotals();
    Listed(a, rows);
    Listed(b, rows);
    if a != [] {
      var i := Place(b, rows, a[0].key);
      TotalWithout(a, 0);
      EnumeratesWithout(a, rows, 0);
      EnumeratesWithout(b, rows, i);
      assert a[..0] + a[1..] == a[1..];
      TotalWithout(b, i);
      assert |a[1..]| < |a|;
      TotalOfAny(a[1..], b[..i] + b[i + 1..], rows - {a[0].key});
    }
  }

  lemma NothingTotals()
    ensures Total([]) == 0
  {
  }

  lemma Listed(order: seq<Victim>, rows: map<string, Row>)
    requires Enumerates(order, rows)
    ensures order == [] <==> rows == map[]
    ensures order != [] ==> order[0].key in rows && rows[order[0].key] == order[0].row
  {
    forall k | k in rows ensures order != [] {
      var i := Place(order, rows, k);
    }
    if order != [] {
      assert order[0].key in rows;
    } else {
      assert rows == map[];
    }
  }

  lemma Place(order: seq<Victim>, rows: map<string, Row>, key: string) returns (i: nat)
    requires Enumerates(order, rows) && key in rows
    ensures i < |order| && order[i].key == key && order[i].row == rows[key]
  {
    i :| 0 <= i < |order| && order[i].key == key;
  }

  lemma EnumeratesWithout(order: seq<Victim>, rows: map<string, Row>, i: nat)
    requires Enumerates(order, rows) && i < |order|
    ensures Enumerates(order[..i] + order[i + 1..], rows - {order[i].key})
  {
    var less, rest := order[..i] + order[i + 1..], rows - {order[i].key};
    WithoutAt(order, i);
    forall j | 0 <= j < |less| ensures less[j].key in rest && rest[less[j].key] == less[j].row {
      assert less[j] == order[if j < i then j else j + 1];
    }
    forall k | k in rest ensures exists j | 0 <= j < |less| :: less[j].key == k {
      var j := Place(order, rows, k);
      assert less[if j < i then j else j - 1] == order[j];
    }
    WithoutDistinct(order, rows, i);
  }

  lemma WithoutAt(order: seq<Victim>, i: nat)
    requires i < |order|
    ensures var less := order[..i] + order[i + 1..];
      |less| == |order| - 1 && forall j | 0 <= j < |less| :: less[j] == order[if j < i then j else j + 1]
  {
  }

  lemma WithoutDistinct(order: seq<Victim>, rows: map<string, Row>, i: nat)
    requires Enumerates(order, rows) && i < |order|
    ensures var less := order[..i] + order[i + 1..];
      forall a, b | 0 <= a < b < |less| :: less[a].key != less[b].key
  {
    var less := order[..i] + order[i + 1..];
    forall a, b | 0 <= a < b < |less| ensures less[a].key != less[b].key {
      assert less[a] == order[if a < i then a else a + 1];
      assert less[b] == order[if b < i then b else b + 1];
    }
  }

  lemma {:induction false} TotalWithout(order: seq<Victim>, i: nat)
    requires i < |order|
    ensures Total(order) == Total(order[..i] + order[i + 1..]) + order[i].row.size
  {
    if i == 0 {
      assert order[..0] + order[1..] == order[1..];
    } else {
      TotalWithout(order[1..], i - 1);
      assert (order[..i] + order[i + 1..])[1..] == order[1..][..i - 1] + order[1..][i..];
    }
  }

  /** The rows a sweep leaves are the rest of the order, and they fit the budget. */
  lemma {:induction false} SweptFits(s: Store, order: seq<Victim>, max: nat, k: nat, before: int)
    requires Enumerates(order, s.rows) && Shortest(order, max, k)
    ensures Enumerates(order[k..], Swept(s, order, k, before).rows) && Total(order[k..]) <= max
    ensures forall i, j | 0 <= i < k <= j < |order| && LeastRecentFirst(order) ::
      order[i].row.lastAccess <= order[j].row.lastAccess
  {
    RestEnumerates(order, s.rows, k);
  }

  /** Fewer evictions never suffice, so the sweep evicts no more than it must. */
  lemma ShortestIff(order: seq<Victim>, max: nat, k: nat)
    ensures Shortest(order, max, k) <==>
      k <= |order| && Total(order[k..]) <= max && forall j | 0 <= j < k :: Total(order[j..]) > max
  {
    if Shortest(order, max, k) {
      forall j | 0 <= j < k ensures Total(order[j..]) > max {
        TotalShrinks(order, j, k - 1);
      }
    }
  }

  /** A row used after every other is evicted only when no other row is left. */
  lemma LastUsedGoesLast(s: Store, order: seq<Victim>, max: nat, k: nat, before: int, key: string)
    requires Enumerates(order, s.rows) && LeastRecentFirst(order) && Shortest(order, max, k)
    requires key in s.rows && forall x | x in s.rows && x != key :: s.rows[x].lastAccess < s.rows[key].lastAccess
    ensures key !in Swept(s, order, k, before).rows ==> Swept(s, order, k, before).rows == map[]
    ensures s.rows[key].size <= max ==> key in Swept(s, order, k, before).rows
  {
    hide LeastRecentFirst;
    var i := Place(order, s.rows, key);
    LastUsedIsLast(s, order, key, i);
    RestEnumerates(order, s.rows, k);
    var n := |order| - 1;
    Listed(order[k..], s.rows - Keys(order[..k]));
    if k <= n {
      assert order[k..][n - k] == order[n];
      assert order[k..][n - k].key in s.rows - Keys(order[..k]);
    } else {
      assert order[n..] == [order[n]] && order[n..][1..] == [];
    }
  }

  lemma LastUsedIsLast(s: Store, order: seq<Victim>, key: string, i: nat)
    requires Enumerates(order, s.rows) && LeastRecentFirst(order)
    requires key in s.rows && forall x | x in s.rows && x != key :: s.rows[x].lastAccess < s.rows[key].lastAccess
    requires i < |order| && order[i].key == key
    ensures i == |order| - 1
  {
    assert order[i].row.lastAccess <= order[|order| - 1].row.lastAccess;
  }

  /** Both a put and a lookup that answers make a key the last used, if the clock has moved on. */
  lemma UseIsRecorded(digest: Digest, s: Store, key: string, payload: bytes, now: int)
    requires forall x | x in s.rows :: s.rows[x].lastAccess < now
    ensures var t := DoAll(digest, s, PutSteps(digest, key, payload, now));
      key in t.rows && forall x | x in t.rows && x != key :: t.rows[x].lastAccess < t.rows[key].lastAccess
    ensures var t := Fetched(digest, s, key, now); Fetch(digest, s, key).Some? ==>
      key in t.rows && forall x | x in t.rows && x != key :: t.rows[x].lastAccess < t.rows[key].lastAccess
  {
    PutEffect(digest, s, key, payload, now);
  }

  lemma RestEnumerates(order: seq<Victim>, rows: map<string, Row>, k: nat)
    requires Enumerates(order, rows) && k <= |order|
    ensures Enumerates(order[k..], rows - Keys(order[..k]))
  {
    var rest := rows - Keys(order[..k]);
    forall j | 0 <= j < k ensures order[j].key in Keys(order[..k]) {
      assert order[..k][j] == order[j];
    }
    forall x | x in rest ensures exists j | 0 <= j < |order[k..]| :: order[k..][j].key == x {
      var j := Place(order, rows, x);
      assert order[k..][j - k].key == x;
    }
  }

  /** Only one number of evictions is the shortest that suffices. */
  lemma ShortestIsUnique(order: seq<Victim>, max: nat, k: nat, l: nat)
    requires Shortest(order, max, k) && Shortest(order, max, l)
    ensures k == l
  {
    if k < l {
      TotalShrinks(order, k, l - 1);
    } else if l < k {
      TotalShrinks(order, l, k - 1);
    }
  }

  lemma {:induction false} TotalShrinks(order: seq<Victim>, i: nat, j: nat)
    requires i <= j <= |order|
    ensures Total(order[j..]) <= Total(order[i..])
    decreases j - i
  {
    if i < j {
      assert order[i..][1..] == order[i + 1..];
      TotalShrinks(order, i + 1, j);
    }
  }

  function Lengths(names: seq<Name>, files: map<Name, bytes>): nat
    requires forall i | 0 <= i < |names| :: names[i] in files
  {
    if names == [] then 0 else |files[names[0]]| + Lengths(names[1..], files)
  }

  /** Each name is the image of a listed row of its own length. */
  ghost predicate Covered(names: seq<Name>, files: map<Name, bytes>, order: seq<Victim>) {
    forall i | 0 <= i < |names| ::
      names[i] in files && names[i].Image? &&
      exists j | 0 <= j < |order| :: order[j].row.sha == names[i].sha && order[j].row.size == |files[names[i]]|
  }

  lemma {:induction false} CoveredFits(names: seq<Name>, files: map<Name, bytes>, order: seq<Victim>)
    requires Covered(names, files, order)
    requires forall i, j | 0 <= i < j < |names| :: names[i] != names[j]
    ensures Lengths(names, files) <= Total(order)
  {
    if names != [] {
      var j :| 0 <= j < |order| && order[j].row.sha == names[0].sha && order[j].row.size == |files[names[0]]|;
      var less := order[..j] + order[j + 1..];
      TotalWithout(order, j);
      forall i | 0 <= i < |names[1..]| ensures
        exists l | 0 <= l < |less| :: less[l].row.sha == names[1..][i].sha && less[l].row.size == |files[names[1..][i]]|
      {
        var n := names[i + 1];
        var l :| 0 <= l < |order| && order[l].row.sha == n.sha && order[l].row.size == |files[n]|;
        assert names[0] != n;
        assert less[if l < j then l else l - 1] == order[l];
      }
      CoveredFits(names[1..], files, less);
    }
  }

  /** What is left on disk, listed in any order without repeats, fits the budget
      too, provided an image's length is what its rows say. */
  lemma DiskFits(s: Store, order: seq<Victim>, max: nat, k: nat, before: int, names: seq<Name>)
    requires Enumerates(order, s.rows) && Shortest(order, max, k)
    requires forall x, n | x in s.rows && n in s.files && n == Image(s.rows[x].sha) :: |s.files[n]| == s.rows[x].size
    requires forall i | 0 <= i < |names| :: names[i] in Swept(s, order, k, before).files
    requires forall i, j | 0 <= i < j < |names| :: names[i] != names[j]
    ensures Lengths(names, Swept(s, order, k, before).files) <= max
  {
    var t := Swept(s, order, k, before);
    RestEnumerates(order, s.rows, k);
    forall i | 0 <= i < |names| ensures
      exists j | 0 <= j < |order[k..]| ::
        order[k..][j].row.sha == names[i].sha && order[k..][j].row.size == |t.files[names[i]]|
    {
      SweptIsReferenced(s, order, k, before, names[i]);
      var x :| x in t.rows && t.rows[x].sha == names[i].sha;
      var j := Place(order[k..], t.rows, x);
    }
    CoveredFits(names, t.files, order[k..]);
  }

  /** A sweep leaves exactly the images that some row left names and no evicted row
      named, as they are. */
  lemma SweptIsReferenced(s: Store, order: seq<Victim>, k: nat, before: int, n: Name)
    requires k <= |order|
    ensures n in Swept(s, order, k, before).files <==>
      && n in s.files && n.Image?
      && (exists x :: x in Swept(s, order, k, before).rows && Swept(s, order, k, before).rows[x].sha == n.sha)
      && (forall i | 0 <= i < k :: order[i].row.sha != n.sha)
    ensures n in Swept(s, order, k, before).files ==> Swept(s, order, k, before).files[n] == s.files[n]
  {
    forall i | 0 <= i < k ensures order[..k][i] == order[i] {
    }
  }

  /** A sweep costs a lookup its answer exactly when it evicted the key itself or
      another key whose image was the same bytes. */
  lemma SweptAnswers(digest: Digest, s: Store, order: seq<Victim>, k: nat, before: int, key: string)
    requires Enumerates(order, s.rows) && k <= |order| && Fetch(digest, s, key).Some?
    ensures Fetch(digest, Swept(s, order, k, before), key) ==
      if s.rows[key].sha in Shas(order[..k]) then None else Fetch(digest, s, key)
  {
    if key in Keys(order[..k]) {
      var i :| 0 <= i < k && order[..k][i].key == key;
      assert order[..k][i].row == s.rows[key];
    }
  }

  /** Two albums with one cover, over an empty cache. */
  function Twins(digest: Digest, cover: bytes): Store {
    var d := digest(cover);
    Store(map[Image(d) := cover], map["a" := Row(d, |cover|, 0), "b" := Row(d, |cover|, 1)], map[])
  }

  lemma TwinsAreTwoPuts(digest: Digest, cover: bytes)
    ensures DoAll(digest, DoAll(digest, Store(map[], map[], map[]), PutSteps(digest, "a", cover, 0)),
                  PutSteps(digest, "b", cover, 1)) == Twins(digest, cover)
  {
    hide DoAll;
    var d := digest(cover);
    var empty: Store := Store(map[], map[], map[]);
    PutEffect(digest, empty, "a", cover, 0);
    var one := Store(map[Image(d) := cover], map["a" := Row(d, |cover|, 0)], map[]);
    assert empty.files - {Part(d)} == empty.files;
    assert DoAll(digest, empty, PutSteps(digest, "a", cover, 0)) == one;
    PutEffect(digest, one, "b", cover, 1);
    assert one.files - {Part(d)} == one.files;
  }

  /** Make room for one of them, and the eviction of the other takes the cover it is
      left with: the row stays, and its lookup fails. */
  lemma EvictionTakesTheTwin(digest: Digest, cover: bytes, before: int)
    requires cover != []
    ensures var s := Twins(digest, cover);
      var order := [Victim("a", s.rows["a"]), Victim("b", s.rows["b"])];
      && Enumerates(order, s.rows) && LeastRecentFirst(order) && Shortest(order, |cover|, 1)
      && var t := Swept(s, order, 1, before);
      "b" in t.rows && Fetch(digest, s, "b") == Some(cover) && Fetch(digest, t, "b") == None
  {
    var s := Twins(digest, cover);
    var order := [Victim("a", s.rows["a"]), Victim("b", s.rows["b"])];
    assert order[0].key == "a" && order[1].key == "b" && "a" != "b";
    assert order[1..] == [order[1]] && order[1..][1..] == [] && order[0..] == order;
    assert order[..1][0] == order[0];
    assert forall k | k in Keys(order[..1]) :: k == "a";
    assert Enumerates(order, s.rows);
    SweptAnswers(digest, s, order, 1, before, "b");
  }

  // --- misses -------------------------------------------------------------------------

  /** When every catalogue last missed the key, unless it has been answered since. */
  function LastMiss(es: seq<Step>, key: string, was: Option<int>): Option<int> {
    if es == [] then was
    else
      match es[|es| - 1]
      case NoteMiss(k, now) => if k == key then Some(now) else LastMiss(es[..|es| - 1], key, was)
      case Answered(k) => if k == key then None else LastMiss(es[..|es| - 1], key, was)
      case _ => LastMiss(es[..|es| - 1], key, was)
  }

  function MissOf(negative: map<string, int>, key: string): Option<int> {
    if key in negative then Some(negative[key]) else None
  }

  /** Over every run, however its sweeps fall, the network is skipped exactly while
      the last unanswered miss is younger than the lifetime. */
  lemma {:induction false} SkipsByHistory(digest: Digest, s: Store, es: seq<Step>, key: string, now: int, ttl: int)
    requires forall i | 0 <= i < |es| && es[i].Expire? :: es[i].before <= now - ttl
    ensures var last := LastMiss(es, key, MissOf(s.negative, key));
      IsNegative(DoAll(digest, s, es).negative, key, now, ttl) <==> last.Some? && now - last.value < ttl
  {
    hide DoAll, Do;
    SkipsKnown(digest, s, es, key, now, ttl);
  }

  predicate Skips(miss: Option<int>, now: int, ttl: int) {
    miss.Some? && now - miss.value < ttl
  }

  lemma {:induction false} SkipsKnown(digest: Digest, s: Store, es: seq<Step>, key: string, now: int, ttl: int)
    requires forall i | 0 <= i < |es| && es[i].Expire? :: es[i].before <= now - ttl
    ensures var last := LastMiss(es, key, MissOf(s.negative, key));
      var kept := MissOf(DoAll(digest, s, es).negative, key);
      kept == last || (kept == None && !Skips(last, now, ttl))
  {
    hide Do;
    if es != [] {
      var n := |es| - 1;
      SkipsKnown(digest, s, es[..n], key, now, ttl);
      MissStep(digest, DoAll(digest, s, es[..n]), es[n], key);
    }
  }

  lemma MissStep(digest: Digest, s: Store, e: Step, key: string)
    ensures MissOf(Do(digest, s, e).negative, key) ==
      match e {
        case NoteMiss(k, now) => if k == key then Some(now) else MissOf(s.negative, key)
        case Answered(k) => if k == key then None else MissOf(s.negative, key)
        case Expire(before) =>
          if key in s.negative && s.negative[key] <= before then None else MissOf(s.negative, key)
        case _ => MissOf(s.negative, key)
      }
  {
  }

  /** A sweep drops the misses older than their lifetime and changes no answer to
      "did every catalogue miss this lately?", now or later. */
  lemma SweepKeepsLiveMisses(s: Store, order: seq<Victim>, k: nat, now: int, ttl: int, key: string, at: int)
    requires k <= |order| && now <= at
    ensures IsNegative(Swept(s, order, k, now - ttl).negative, key, at, ttl) == IsNegative(s.negative, key, at, ttl)
    ensures key in Swept(s, order, k, now - ttl).negative ==> now - s.negative[key] < ttl
  {
  }
}
