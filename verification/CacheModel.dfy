/** The artwork cache's two stores, files named by digest and an index of rows,
    and the atomic steps every operation is made of. The digest is a parameter. */
module CacheModel {
  import opened Bytes

  type Digest = bytes -> string

  datatype Name = Image(sha: string) | Part(sha: string)

  datatype Row = Row(sha: string, size: nat, lastAccess: int)

  datatype Store = Store(files: map<Name, bytes>, rows: map<string, Row>, negative: map<string, int>)

  /** The steps of every operation, each of which the file system or the index
      makes atomic. Writing a file is two steps: `Open` creates the temporary file or
      empties the one that is there, and `Write` is what lands in the opened file,
      whole or cut short, under the name the file has by then, if it has one. `Damage`
      is anything the rest of the machine does to a file. */
  datatype Step =
    | Open(sha: string)
    | Write(into: Option<Name>, content: bytes)
    | Rename(sha: string)
    | Record(key: string, payload: bytes, now: int)
    | Answered(key: string)
    | Touch(key: string, now: int)
    | Forget(key: string)
    | NoteMiss(key: string, now: int)
    | Expire(before: int)
    | Remove(name: Name)
    | Damage(name: Name, content: bytes)

  function RowFor(digest: Digest, payload: bytes, now: int): Row {
    Row(digest(payload), |payload|, now)
  }

  function Live(negative: map<string, int>, before: int): map<string, int> {
    map k | k in negative && negative[k] > before :: negative[k]
  }

  function Do(digest: Digest, s: Store, e: Step): Store {
    match e
    case Open(sha) => s.(files := s.files[Part(sha) := []])
    case Write(into, content) => if into.Some? then s.(files := s.files[into.value := content]) else s
    case Rename(sha) =>
      if Part(sha) in s.files then
        s.(files := (s.files - {Part(sha)})[Image(sha) := s.files[Part(sha)]])
      else s
    case Record(key, payload, now) => s.(rows := s.rows[key := RowFor(digest, payload, now)])
    case Answered(key) => s.(negative := s.negative - {key})
    case Touch(key, now) =>
      if key in s.rows then s.(rows := s.rows[key := s.rows[key].(lastAccess := now)]) else s
    case Forget(key) => s.(rows := s.rows - {key})
    case NoteMiss(key, now) => s.(negative := s.negative[key := now])
    case Expire(before) => s.(negative := Live(s.negative, before))
    case Remove(name) => s.(files := s.files - {name})
    case Damage(name, content) => s.(files := s.files[name := content])
  }

  function DoAll(digest: Digest, s: Store, es: seq<Step>): Store {
    if es == [] then s else Do(digest, DoAll(digest, s, es[..|es| - 1]), es[|es| - 1])
  }

  /** Bytes that a row accepts as its own. */
  predicate Matches(digest: Digest, row: Row, b: bytes) {
    |b| == row.size && digest(b) == row.sha
  }

  /** What a lookup that has read the row answers from the files it finds. */
  function Answer(digest: Digest, row: Row, files: map<Name, bytes>): Option<bytes> {
    if Image(row.sha) in files && Matches(digest, row, files[Image(row.sha)]) then Some(files[Image(row.sha)])
    else None
  }

  /** What a lookup run alone answers. */
  function Fetch(digest: Digest, s: Store, key: string): Option<bytes> {
    if key !in s.rows then None else Answer(digest, s.rows[key], s.files)
  }

  /** What a lookup run alone does to the store. */
  function Fetched(digest: Digest, s: Store, key: string, now: int): Store {
    if key !in s.rows then s
    else if Fetch(digest, s, key).Some? then Do(digest, s, Touch(key, now))
    else Do(digest, s, Forget(key))
  }

  /** The steps of storing an image, file first and row second. */
  function PutSteps(digest: Digest, key: string, payload: bytes, now: int): seq<Step> {
    var d := digest(payload);
    [Open(d), Write(Some(Part(d)), payload), Rename(d), Record(key, payload, now), Answered(key)]
  }

  predicate IsNegative(negative: map<string, int>, key: string, now: int, ttl: int) {
    key in negative && now - negative[key] < ttl
  }

  // --- sweeping ------------------------------------------------------------------------

  datatype Victim = Victim(key: string, row: Row)

  /** The index's rows in some order, each exactly once. */
  ghost predicate Enumerates(order: seq<Victim>, rows: map<string, Row>) {
    && (forall i | 0 <= i < |order| :: order[i].key in rows && rows[order[i].key] == order[i].row)
    && (forall i, j | 0 <= i < j < |order| :: order[i].key != order[j].key)
    && (forall k | k in rows :: exists i | 0 <= i < |order| :: order[i].key == k)
  }

  /** Least recently used first. */
  ghost predicate LeastRecentFirst(order: seq<Victim>) {
    forall i, j | 0 <= i < j < |order| :: order[i].row.lastAccess <= order[j].row.lastAccess
  }

  function Total(order: seq<Victim>): nat {
    if order == [] then 0 else order[0].row.size + Total(order[1..])
  }

  /** Evicting the first k leaves no more than max, and evicting fewer does not. */
  predicate Shortest(order: seq<Victim>, max: nat, k: nat) {
    && k <= |order|
    && Total(order[k..]) <= max
    && (k > 0 ==> Total(order[k - 1..]) > max)
  }

  function Keys(order: seq<Victim>): (r: set<string>)
    ensures forall k :: k in r <==> exists i :: 0 <= i < |order| && order[i].key == k
  {
    set i | 0 <= i < |order| :: order[i].key
  }

  function Shas(order: seq<Victim>): (r: set<string>)
    ensures forall d :: d in r <==> exists i :: 0 <= i < |order| && order[i].row.sha == d
  {
    set i | 0 <= i < |order| :: order[i].row.sha
  }

  function Referenced(rows: map<string, Row>): (r: set<string>)
    ensures forall d :: d in r <==> exists k :: k in rows && rows[k].sha == d
  {
    set k | k in rows :: rows[k].sha
  }

  function Kept(files: map<Name, bytes>, known: set<string>): map<Name, bytes> {
    map n | n in files && n.Image? && n.sha in known :: files[n]
  }

  /** The store after a sweep that evicts the first k. */
  function Swept(s: Store, order: seq<Victim>, k: nat, before: int): Store
    requires k <= |order|
  {
    var rows := s.rows - Keys(order[..k]);
    var known := Referenced(rows) - Shas(order[..k]);
    Store(Kept(s.files, known), rows, Live(s.negative, before))
  }
}
