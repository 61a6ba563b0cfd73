/** Settings requests that overlap, step by step. A request notes what the override
    says about the display keys it will change, reads the file, replaces it with the
    edited table, and arms its countdown; a countdown that runs out empties the slot,
    reads the file and replaces it. Nothing keeps two of them apart. */
module RequestModel {
  import opened Bytes
  import opened ConfigTree
  import opened Overrides
  import opened SettingsModel

  /** A request between its first step and its last; `read` is the edited table it
      will write, made from the file as it was when the request read it. */
  datatype Request = Request(edits: seq<Edit>, noted: Undo, read: Option<Value>, written: bool)

  datatype World = World(settings: Settings, open: map<nat, Request>)

  /** A settings request notes and later arms; a reset clears keys and does neither; a
      countdown that runs out takes its undo and puts it back. Each then reads the
      file and replaces it. `Keep` is a confirmation. */
  datatype Move =
    | Note(r: nat, edits: seq<Edit>)
    | Clear(r: nat, edits: seq<Edit>)
    | Expire(r: nat, id: nat, edits: seq<Edit>)
    | Fetch(r: nat)
    | Replace(r: nat, writes: bool)
    | Arm(r: nat)
    | Keep(id: nat)

  /** What the steps of a run share: the schema, the base file, and the start. */
  datatype Setup = Setup(schema: Schema, base: File, start: World)

  function Noted(w: World, es: seq<Edit>): Request
    requires Touched(es) == {} || Read(w.settings.local).Ok?
  {
    Request(es, if Touched(es) == {} then map[] else Snapshot(Read(w.settings.local).value, Touched(es)), None, false)
  }

  /** Read the file, edit and check: the request goes on with the edited table, or ends
      here if it is refused. */
  function AfterFetch(u: Setup, w: World, r: nat): World
    requires [] !in u.schema.known
  {
    if r !in w.open || w.open[r].read.Some? then w
    else
      var req := w.open[r];
      if Outcome(u.schema, u.base, w.settings.local, req.edits, true).Ok? then
        w.(open := w.open[r := req.(read := Overrides.Apply(Read(w.settings.local).value, req.edits))])
      else w.(open := w.open - {r})
  }

  predicate Replaces(w: World, m: Move) {
    m.Replace? && m.r in w.open && w.open[m.r].read.Some? && !w.open[m.r].written && m.writes
  }

  /** Replace the file with the edited table. A request with nothing to arm ends here,
      and so does one whose write fails. */
  function AfterReplace(w: World, r: nat, writes: bool): World {
    if r !in w.open || w.open[r].read.None? || w.open[r].written then w
    else
      var req := w.open[r];
      if !writes then w.(open := w.open - {r})
      else World(w.settings.(local := Parsed(req.read.value)),
                 if req.noted == map[] then w.open - {r} else w.open[r := req.(written := true)])
  }

  /** The countdown is settled: confirmed, or run out. */
  predicate Settles(w: World, m: Move) {
    (m.Keep? && Live(w.settings, m.id)) || (m.Expire? && m.r !in w.open && Live(w.settings, m.id))
  }

  function Moved(u: Setup, w: World, m: Move): World
    requires [] !in u.schema.known
  {
    match m
    case Note(r, es) =>
      if r in w.open || (Touched(es) != {} && Read(w.settings.local).Err?) then w
      else w.(open := w.open[r := Noted(w, es)])
    case Clear(r, es) => if r in w.open then w else w.(open := w.open[r := Request(es, map[], None, false)])
    case Expire(r, id, es) =>
      if Settles(w, m) then World(w.settings.(pending := None), w.open[r := Request(es, map[], None, false)]) else w
    case Fetch(r) => AfterFetch(u, w, r)
    case Replace(r, writes) => AfterReplace(w, r, writes)
    case Arm(r) =>
      if r in w.open && w.open[r].written then World(Armed(w.settings, w.open[r].noted), w.open - {r}) else w
    case Keep(id) => if Settles(w, m) then w.(settings := w.settings.(pending := None)) else w
  }

  function Play(u: Setup, ms: seq<Move>): World
    requires [] !in u.schema.known
  {
    if ms == [] then u.start else Moved(u, Play(u, ms[..|ms| - 1]), ms[|ms| - 1])
  }

  predicate Opens(m: Move, r: nat) {
    (m.Note? || m.Clear? || m.Expire?) && m.r == r
  }

  /** When the request now open as r began, which is when it took its note. */
  function OpenedAt(u: Setup, ms: seq<Move>, r: nat): (n: nat)
    requires [] !in u.schema.known
    ensures n <= |ms|
  {
    if ms == [] then 0
    else
      var n := |ms| - 1;
      if Opens(ms[n], r) && r !in Play(u, ms[..n]).open then n else OpenedAt(u, ms[..n], r)
  }

  /** When the request now open as r read the file. */
  function FetchedAt(u: Setup, ms: seq<Move>, r: nat): (n: nat)
    requires [] !in u.schema.known
    ensures n <= |ms|
  {
    if ms == [] then 0
    else
      var n := |ms| - 1;
      var w := Play(u, ms[..n]);
      if ms[n] == Fetch(r) && r in w.open && w.open[r].read.None? then n else FetchedAt(u, ms[..n], r)
  }

  /** When the note was taken that the countdown now holds for k: the note of the first
      request to arm with k since the slot was last empty. */
  function FirstNote(u: Setup, ms: seq<Move>, k: Path): (r: Option<nat>)
    requires [] !in u.schema.known
    ensures r.Some? ==> r.value <= |ms|
  {
    if ms == [] then None
    else
      var n := |ms| - 1;
      var w, before := Play(u, ms[..n]), FirstNote(u, ms[..n], k);
      if Settles(w, ms[n]) then None
      else match ms[n]
        case Arm(r) =>
          if before.None? && r in w.open && w.open[r].written && k in w.open[r].noted then Some(OpenedAt(u, ms[..n], r))
          else before
        case _ => before
  }

  /** What the override says about k after a run. */
  function ValueAt(u: Setup, ms: seq<Move>, k: Path): Option<string>
    requires [] !in u.schema.known
  {
    var tree := Read(Play(u, ms).settings.local);
    if tree.Ok? then LeafAt(tree.value, k) else None
  }

  predicate Touches(es: seq<Edit>, k: Path) {
    exists i :: 0 <= i < |es| && es[i].key == k
  }

  /** Between the i-th move and the j-th no replacement edits k, nor carries k over from
      a file read earlier. */
  predicate Unwritten(u: Setup, ms: seq<Move>, i: nat, j: nat, k: Path)
    requires [] !in u.schema.known && j <= |ms|
  {
    forall x | i <= x < j && Replaces(Play(u, ms[..x]), ms[x]) ::
      !Touches(Play(u, ms[..x]).open[ms[x].r].edits, k) && FetchedAt(u, ms[..x], ms[x].r) >= i
  }
}
