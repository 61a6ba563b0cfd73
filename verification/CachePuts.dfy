/** Puts that run side by side, interleaved with everything else that happens to the
    cache, and stopped by a failure of their own or by a crash. Puts of the same bytes
    share a temporary file; a put that has opened it goes on writing into that file
    under whatever name it is given meanwhile. */
module CachePuts {
  import opened Bytes
  import opened CacheModel
  import opened CacheLaws

  datatype Job = Job(key: string, payload: bytes, now: int)

  /** A run's digest, what each put has to store, and the store it starts from. */
  datatype Setup = Setup(digest: Digest, jobs: nat -> Job, start: Store)

  /** A put opens its file, writes, renames, records its row and clears the negative
      entry. A write that is cut short finishes with less than the payload. */
  datatype Act =
    | Begin(put: nat)
    | Finish(put: nat, content: bytes)
    | Move(put: nat)
    | Index(put: nat)
    | Settle(put: nat)
    | Other(step: Step)

  /** The store, and under which name the file is that each put is writing to. */
  datatype Disk = Disk(store: Store, open: map<nat, Name>)

  function Sha(u: Setup, p: nat): string {
    u.digest(u.jobs(p).payload)
  }

  function StepOf(u: Setup, k: Disk, a: Act): Step {
    match a
    case Begin(p) => Open(Sha(u, p))
    case Finish(p, content) => Write(if p in k.open then Some(k.open[p]) else None, content)
    case Move(p) => Rename(Sha(u, p))
    case Index(p) => Record(u.jobs(p).key, u.jobs(p).payload, u.jobs(p).now)
    case Settle(p) => Answered(u.jobs(p).key)
    case Other(e) => e
  }

  /** Where opened files are after an act: a rename takes them along and leaves those
      of the file it replaces without a name, as removing a file does. */
  function Handles(u: Setup, k: Disk, a: Act): map<nat, Name> {
    match a
    case Begin(p) => k.open[p := Part(Sha(u, p))]
    case Finish(p, _) => k.open - {p}
    case Move(p) =>
      var d := Sha(u, p);
      if Part(d) in k.store.files then
        map q | q in k.open && k.open[q] != Image(d) :: if k.open[q] == Part(d) then Image(d) else k.open[q]
      else k.open
    case Other(Remove(name)) => map q | q in k.open && k.open[q] != name :: k.open[q]
    case _ => k.open
  }

  function After(u: Setup, k: Disk, a: Act): Disk {
    Disk(Do(u.digest, k.store, StepOf(u, k, a)), Handles(u, k, a))
  }

  function Play(u: Setup, acts: seq<Act>): Disk {
    if acts == [] then Disk(u.start, map[]) else After(u, Play(u, acts[..|acts| - 1]), acts[|acts| - 1])
  }

  function Steps(u: Setup, acts: seq<Act>): (r: seq<Step>)
    ensures |r| == |acts|
  {
    if acts == [] then []
    else
      var before := acts[..|acts| - 1];
      Steps(u, before) + [StepOf(u, Play(u, before), acts[|acts| - 1])]
  }

  predicate Of(a: Act, p: nat) {
    !a.Other? && a.put == p
  }

  /** How many steps the put has taken. */
  function Stage(acts: seq<Act>, p: nat): nat {
    if acts == [] then 0
    else Stage(acts[..|acts| - 1], p) + if Of(acts[|acts| - 1], p) then 1 else 0
  }

  /** What a put needs to go on after a step: its write was whole, its rename found a file. */
  predicate Succeeded(u: Setup, k: Disk, a: Act) {
    && (a.Finish? ==> a.content == u.jobs(a.put).payload)
    && (a.Move? ==> Part(Sha(u, a.put)) in k.store.files)
  }

  predicate Turn(a: Act, stage: nat) {
    match a
    case Begin(_) => stage == 0
    case Finish(_, _) => stage == 1
    case Move(_) => stage == 2
    case Index(_) => stage == 3
    case Settle(_) => stage == 4
    case Other(e) => !e.Open? && !e.Write? && !e.Rename? && !e.Record?
  }

  /** Each put takes its steps in order, and none after one that failed. Any tail may
      be missing, which is what a crash makes of a run. */
  ghost predicate Orderly(u: Setup, acts: seq<Act>) {
    forall i | 0 <= i < |acts| ::
      && (acts[i].Other? ==> Turn(acts[i], 0))
      && (!acts[i].Other? ==>
            && Turn(acts[i], Stage(acts[..i], acts[i].put))
            && forall x | 0 <= x < i && Of(acts[x], acts[i].put) :: Succeeded(u, Play(u, acts[..x]), acts[x]))
  }

  // --- the run as steps on the store ------------------------------------------------------------

  lemma {:induction false} PlayIsSteps(u: Setup, acts: seq<Act>)
    ensures Play(u, acts).store == DoAll(u.digest, u.start, Steps(u, acts))
  {
    hide Do, StepOf, Handles;
    if acts != [] {
      var n := |acts| - 1;
      PlayIsSteps(u, acts[..n]);
      assert Steps(u, acts)[..n] == Steps(u, acts[..n]);
    }
  }

  lemma {:induction false} StepsPrefix(u: Setup, acts: seq<Act>, n: nat)
    requires n <= |acts|
    ensures Steps(u, acts)[..n] == Steps(u, acts[..n])
    decreases |acts|
  {
    hide StepOf, Play;
    if n < |acts| {
      var m := |acts| - 1;
      StepsPrefix(u, acts[..m], n);
      assert acts[..m][..n] == acts[..n];
      assert Steps(u, acts)[..n] == Steps(u, acts[..m])[..n];
    } else {
      assert acts[..n] == acts && Steps(u, acts)[..n] == Steps(u, acts);
    }
  }

  lemma StepAt(u: Setup, acts: seq<Act>, i: nat)
    requires i < |acts|
    ensures Steps(u, acts)[i] == StepOf(u, Play(u, acts[..i]), acts[i])
    ensures DoAll(u.digest, u.start, Steps(u, acts)[..i]) == Play(u, acts[..i]).store
  {
    hide StepOf, Play, DoAll;
    StepsPrefix(u, acts, i);
    StepsPrefix(u, acts, i + 1);
    PlayIsSteps(u, acts[..i]);
    assert acts[..i + 1][..i] == acts[..i];
    assert Steps(u, acts)[i] == Steps(u, acts)[..i + 1][i];
  }

  lemma PlayNext(u: Setup, acts: seq<Act>, i: nat)
    requires i < |acts|
    ensures Play(u, acts[..i + 1]) == After(u, Play(u, acts[..i]), acts[i])
    ensures forall p :: Stage(acts[..i + 1], p) == Stage(acts[..i], p) + if Of(acts[i], p) then 1 else 0
  {
    hide After, Of;
    assert acts[..i + 1][..i] == acts[..i];
  }

  // --- rows come after files -----------------------------------------------------------------------

  lemma {:induction false} Reached(acts: seq<Act>, p: nat, c: nat) returns (r: nat)
    requires c < Stage(acts, p)
    ensures r < |acts| && Of(acts[r], p) && Stage(acts[..r], p) == c
  {
    hide Of;
    var n := |acts| - 1;
    if Stage(acts[..n], p) == c {
      r := n;
    } else {
      r := Reached(acts[..n], p, c);
      assert acts[..n][..r] == acts[..r];
    }
  }

  /** The act by which a put that is past a stage took it. */
  lemma Took(u: Setup, acts: seq<Act>, i: nat, p: nat, c: nat) returns (r: nat)
    requires Orderly(u, acts) && i < |acts| && Of(acts[i], p) && c < Stage(acts[..i], p)
    ensures r < i && Of(acts[r], p) && Stage(acts[..r], p) == c && Turn(acts[r], c)
    ensures Succeeded(u, Play(u, acts[..r]), acts[r])
  {
    hide Succeeded, Turn, Stage, Play;
    r := Reached(acts[..i], p, c);
    assert acts[..i][..r] == acts[..r];
  }

  lemma TurnOf(u: Setup, acts: seq<Act>, i: nat)
    requires Orderly(u, acts) && i < |acts|
    ensures Turn(acts[i], if acts[i].Other? then 0 else Stage(acts[..i], acts[i].put))
  {
    hide Succeeded, Turn, Stage, Play;
  }

  /** In every interleaving of puts, each row is recorded after a rename to its digest
      that succeeded. */
  lemma PutsAreFileFirst(u: Setup, acts: seq<Act>)
    requires Orderly(u, acts)
    ensures FileFirst(u.digest, u.start, Steps(u, acts))
  {
    hide Orderly, Stage, DoAll, Renamed, Play, Turn, Succeeded;
    var es := Steps(u, acts);
    forall i | 0 <= i < |es| && es[i].Record? ensures Renamed(u.digest, u.start, es[..i], u.digest(es[i].payload)) {
      StepAt(u, acts, i);
      RecordsThird(u, acts, i);
      var r := Took(u, acts, i, acts[i].put, 2);
      RenamesThen(u, Play(u, acts[..r]), acts[r]);
      StepAt(u, acts, r);
      assert es[..i][..r] == es[..r] && es[..i][r] == es[r];
      RenamedAt(u.digest, u.start, es[..i], r, u.digest(es[i].payload));
    }
  }

  lemma RenamedAt(digest: Digest, s: Store, es: seq<Step>, r: nat, d: string)
    requires r < |es| && es[r] == Rename(d) && Part(d) in DoAll(digest, s, es[..r]).files
    ensures Renamed(digest, s, es, d)
  {
  }

  lemma RecordsThird(u: Setup, acts: seq<Act>, i: nat)
    requires Orderly(u, acts) && i < |acts| && StepOf(u, Play(u, acts[..i]), acts[i]).Record?
    ensures acts[i].Index? && Stage(acts[..i], acts[i].put) == 3
  {
    hide Orderly, Stage, Play;
    TurnOf(u, acts, i);
  }

  lemma RenamesThen(u: Setup, k: Disk, a: Act)
    requires !a.Other? && Turn(a, 2) && Succeeded(u, k, a)
    ensures a.Move? && StepOf(u, k, a) == Rename(Sha(u, a.put)) && Part(Sha(u, a.put)) in k.store.files
  {
  }

  // --- what a file holds ---------------------------------------------------------------------------

  /** The act that last wrote into the file now called by a name, following renames;
      none if it is as the run found it. */
  function Last(u: Setup, acts: seq<Act>, name: Name): Option<Act> {
    if acts == [] then None
    else
      var n := |acts| - 1;
      var before, a := acts[..n], acts[n];
      var k := Play(u, before);
      match a
      case Begin(p) => if name == Part(Sha(u, p)) then Some(a) else Last(u, before, name)
      case Finish(p, _) => if p in k.open && k.open[p] == name then Some(a) else Last(u, before, name)
      case Move(p) =>
        if name == Image(Sha(u, p)) && Part(Sha(u, p)) in k.store.files then Last(u, before, Part(Sha(u, p)))
        else Last(u, before, name)
      case Other(Damage(at, _)) => if at == name then Some(a) else Last(u, before, name)
      case _ => Last(u, before, name)
  }

  /** What a write left behind: nothing yet, or what it finished with. */
  function Left(a: Act): bytes {
    match a
    case Finish(_, content) => content
    case Other(Damage(_, content)) => content
    case _ => []
  }

  /** A file with this name was put there or emptied by a put. */
  predicate Begun(u: Setup, acts: seq<Act>, d: string) {
    exists w :: 0 <= w < |acts| && acts[w].Begin? && Sha(u, acts[w].put) == d
  }

  predicate Told(u: Setup, acts: seq<Act>, d: string) {
    var files, part, image := Play(u, acts).store.files, Last(u, acts, Part(d)), Last(u, acts, Image(d));
    && (Part(d) in files && part.Some? ==> files[Part(d)] == Left(part.value))
    && (Part(d) in files && Begun(u, acts, d) ==> part.Some?)
    && (Image(d) in files && image.Some? ==> files[Image(d)] == Left(image.value))
    && (Image(d) in files && image.None? ==> Image(d) in u.start.files && files[Image(d)] == u.start.files[Image(d)])
  }

  lemma BegunStays(u: Setup, acts: seq<Act>, d: string)
    requires acts != [] && Begun(u, acts, d)
    ensures Begun(u, acts[..|acts| - 1], d) || (acts[|acts| - 1].Begin? && Sha(u, acts[|acts| - 1].put) == d)
  {
    var n := |acts| - 1;
    var w :| 0 <= w < |acts| && acts[w].Begin? && Sha(u, acts[w].put) == d;
    if w < n {
      assert acts[..n][w] == acts[w];
    }
  }

  /** A put that renames has begun. */
  lemma MovesBegun(u: Setup, acts: seq<Act>, i: nat)
    requires Orderly(u, acts) && i < |acts| && acts[i].Move?
    ensures Begun(u, acts[..i], Sha(u, acts[i].put))
  {
    hide Orderly, Stage, Play, Succeeded;
    TurnOf(u, acts, i);
    var w := Took(u, acts, i, acts[i].put, 0);
    assert acts[..i][w] == acts[w];
  }

  predicate CanFollow(u: Setup, acts: seq<Act>, a: Act, d: string) {
    && (a.Other? ==> Turn(a, 0))
    && (a.Move? && Sha(u, a.put) == d ==> Begun(u, acts, d))
  }

  lemma WriteTells(u: Setup, acts: seq<Act>, d: string)
    requires acts != [] && acts[|acts| - 1].Finish? && Told(u, acts[..|acts| - 1], d)
    requires Begun(u, acts, d) ==> Begun(u, acts[..|acts| - 1], d)
    ensures Told(u, acts, d)
  {
    hide Begun;
  }

  lemma MoveTells(u: Setup, acts: seq<Act>, d: string)
    requires acts != [] && acts[|acts| - 1].Move?
    requires Told(u, acts[..|acts| - 1], d) && CanFollow(u, acts[..|acts| - 1], acts[|acts| - 1], d)
    requires Begun(u, acts, d) ==> Begun(u, acts[..|acts| - 1], d)
    ensures Told(u, acts, d)
  {
    hide Begun, Turn;
  }

  lemma OtherTells(u: Setup, acts: seq<Act>, d: string)
    requires acts != [] && acts[|acts| - 1].Other?
    requires Told(u, acts[..|acts| - 1], d) && CanFollow(u, acts[..|acts| - 1], acts[|acts| - 1], d)
    requires Begun(u, acts, d) ==> Begun(u, acts[..|acts| - 1], d)
    ensures Told(u, acts, d)
  {
    hide Begun;
  }

  lemma RowTells(u: Setup, acts: seq<Act>, d: string)
    requires acts != [] && (acts[|acts| - 1].Index? || acts[|acts| - 1].Settle?) && Told(u, acts[..|acts| - 1], d)
    requires Begun(u, acts, d) ==> Begun(u, acts[..|acts| - 1], d)
    ensures Told(u, acts, d)
  {
    hide Begun;
  }

  lemma TellsNext(u: Setup, acts: seq<Act>, d: string)
    requires acts != []
    requires Told(u, acts[..|acts| - 1], d) && CanFollow(u, acts[..|acts| - 1], acts[|acts| - 1], d)
    ensures Told(u, acts, d)
  {
    hide Begun, Told, Play, CanFollow;
    if Begun(u, acts, d) {
      BegunStays(u, acts, d);
    }
    match acts[|acts| - 1] {
      case Begin(_) => BeginTells(u, acts, d);
      case Finish(_, _) => WriteTells(u, acts, d);
      case Move(_) => MoveTells(u, acts, d);
      case Other(_) => OtherTells(u, acts, d);
      case _ => RowTells(u, acts, d);
    }
  }

  lemma BeginTells(u: Setup, acts: seq<Act>, d: string)
    requires acts != [] && acts[|acts| - 1].Begin? && Told(u, acts[..|acts| - 1], d)
    requires Begun(u, acts, d) ==>
      Begun(u, acts[..|acts| - 1], d) || Sha(u, acts[|acts| - 1].put) == d
    ensures Told(u, acts, d)
  {
    hide Begun;
  }

  lemma OrderlyBefore(u: Setup, acts: seq<Act>, n: nat)
    requires n <= |acts| && Orderly(u, acts)
    ensures Orderly(u, acts[..n])
  {
    hide Succeeded, Turn, Stage, Play, Of;
    forall i | 0 <= i < n
      ensures acts[..n][..i] == acts[..i] && forall x | 0 <= x < i :: acts[..n][..x] == acts[..x]
    {
    }
  }

  lemma {:induction false} RunTells(u: Setup, acts: seq<Act>, d: string)
    requires Orderly(u, acts)
    ensures Told(u, acts, d)
  {
    if acts == [] {
      assert !Begun(u, acts, d);
    } else {
      hide Orderly, Told, Begun, Stage, Play;
      var n := |acts| - 1;
      OrderlyBefore(u, acts, n);
      RunTells(u, acts[..n], d);
      TurnOf(u, acts, n);
      if acts[n].Move? {
        MovesBegun(u, acts, n);
      }
      TellsNext(u, acts, d);
    }
  }

  /** At every point of every run, crashes included, an image holds what its name says
      if and only if the last write into its file, under whatever name it had then,
      was a whole one that finished: not one only begun, and not one cut short. */
  lemma WholeIff(u: Setup, acts: seq<Act>, d: string)
    requires Orderly(u, acts) && ImageMatches(u.digest, u.start, d) && Image(d) in Play(u, acts).store.files
    ensures u.digest(Play(u, acts).store.files[Image(d)]) == d <==>
      var last := Last(u, acts, Image(d));
      last.Some? ==> u.digest(Left(last.value)) == d
  {
    hide Orderly, Play, Last;
    RunTells(u, acts, d);
  }

  /** A rename moves whole content if and only if the last write into the temporary
      file was a whole one that finished. */
  lemma RenamesWholeIff(u: Setup, acts: seq<Act>, i: nat)
    requires Orderly(u, acts) && i < |acts| && acts[i].Move?
    requires var d := Sha(u, acts[i].put); Part(d) in Play(u, acts[..i]).store.files
    ensures var d, last := Sha(u, acts[i].put), Last(u, acts[..i], Part(Sha(u, acts[i].put)));
      last.Some? &&
      (u.digest(Play(u, acts[..i]).store.files[Part(d)]) == d <==> u.digest(Left(last.value)) == d)
  {
    hide Orderly, Play, Last, Begun;
    OrderlyBefore(u, acts, i);
    RunTells(u, acts[..i], Sha(u, acts[i].put));
    MovesBegun(u, acts, i);
  }

  // --- whether an image is there -------------------------------------------------------------------

  /** The act puts an image of sha d in place. */
  predicate Restores(u: Setup, k: Disk, a: Act, d: string) {
    || (a.Move? && Sha(u, a.put) == d && Part(d) in k.store.files)
    || (a.Other? && a.step.Damage? && a.step.name == Image(d))
  }

  /** The image was removed and nothing has put one there since. */
  ghost predicate Removed(u: Setup, acts: seq<Act>, d: string) {
    exists x :: 0 <= x < |acts| && acts[x] == Other(Remove(Image(d)))
                && forall y :: x < y < |acts| ==> !Restores(u, Play(u, acts[..y]), acts[y], d)
  }

  predicate Named(s: Store, d: string) {
    exists k :: k in s.rows && s.rows[k].sha == d
  }

  /** An opened file goes by its temporary name or, renamed, by its image's. */
  predicate HandlesNamed(u: Setup, k: Disk) {
    forall p | p in k.open :: k.open[p] == Part(Sha(u, p)) || (k.open[p] == Image(Sha(u, p)) && k.open[p] in k.store.files)
  }

  lemma HandlesStay(u: Setup, k: Disk, a: Act)
    requires HandlesNamed(u, k) && (a.Other? ==> Turn(a, 0))
    ensures HandlesNamed(u, After(u, k, a))
  {
  }

  lemma {:induction false} RunHandles(u: Setup, acts: seq<Act>)
    requires Orderly(u, acts)
    ensures HandlesNamed(u, Play(u, acts))
  {
    hide Orderly, HandlesNamed, Turn, Stage, After;
    if acts == [] {
      NoHandles(u);
    } else {
      var n := |acts| - 1;
      OrderlyBefore(u, acts, n);
      RunHandles(u, acts[..n]);
      TurnOf(u, acts, n);
      HandlesStay(u, Play(u, acts[..n]), acts[n]);
    }
  }

  lemma NoHandles(u: Setup)
    ensures HandlesNamed(u, Play(u, []))
  {
  }

  /** An act takes an image away only by removing it, and puts one there only by
      restoring it. */
  lemma ImageNext(u: Setup, k: Disk, a: Act, d: string)
    requires HandlesNamed(u, k) && (a.Other? ==> Turn(a, 0))
    ensures Image(d) in After(u, k, a).store.files <==>
      Restores(u, k, a, d) || (a != Other(Remove(Image(d))) && Image(d) in k.store.files)
  {
  }

  lemma RemovedNext(u: Setup, acts: seq<Act>, d: string)
    requires acts != []
    ensures var n := |acts| - 1;
      Removed(u, acts, d) <==>
        || acts[n] == Other(Remove(Image(d)))
        || (Removed(u, acts[..n], d) && !Restores(u, Play(u, acts[..n]), acts[n], d))
  {
    hide Restores, Play;
    var n := |acts| - 1;
    forall y | 0 <= y < n ensures acts[..n][..y] == acts[..y] && acts[..n][y] == acts[y] {
    }
    if Removed(u, acts, d) {
      var x :| 0 <= x < |acts| && acts[x] == Other(Remove(Image(d)))
               && forall y :: x < y < |acts| ==> !Restores(u, Play(u, acts[..y]), acts[y], d);
      if x < n {
        assert acts[..n][x] == acts[x];
      }
    }
    if acts[n] == Other(Remove(Image(d))) {
      assert Removed(u, acts, d);
    } else if Removed(u, acts[..n], d) && !Restores(u, Play(u, acts[..n]), acts[n], d) {
      var x :| 0 <= x < n && acts[..n][x] == Other(Remove(Image(d)))
               && forall y :: x < y < n ==> !Restores(u, Play(u, acts[..n][..y]), acts[..n][y], d);
      assert acts[x] == Other(Remove(Image(d)));
    }
  }

  /** Sha d has had an image at some point of the run. */
  predicate Imaged(u: Setup, acts: seq<Act>, d: string) {
    || Image(d) in u.start.files
    || exists y :: 0 <= y < |acts| && Restores(u, Play(u, acts[..y]), acts[y], d)
  }

  lemma ImagedStays(u: Setup, acts: seq<Act>, d: string)
    requires acts != []
    ensures var n := |acts| - 1;
      Imaged(u, acts, d) <==> Imaged(u, acts[..n], d) || Restores(u, Play(u, acts[..n]), acts[n], d)
  {
    hide Restores, Play;
    var n := |acts| - 1;
    forall y | 0 <= y < n ensures acts[..n][..y] == acts[..y] && acts[..n][y] == acts[y] {
    }
    if exists y :: 0 <= y < n && Restores(u, Play(u, acts[..n][..y]), acts[..n][y], d) {
      var y :| 0 <= y < n && Restores(u, Play(u, acts[..n][..y]), acts[..n][y], d);
      assert Restores(u, Play(u, acts[..y]), acts[y], d);
    }
    if exists y :: 0 <= y < |acts| && Restores(u, Play(u, acts[..y]), acts[y], d) {
      var y :| 0 <= y < |acts| && Restores(u, Play(u, acts[..y]), acts[y], d);
      if y < n {
        assert Restores(u, Play(u, acts[..n][..y]), acts[..n][y], d);
      }
    }
  }

  lemma {:induction false} ImageThereIff(u: Setup, acts: seq<Act>, d: string)
    requires Orderly(u, acts)
    ensures Image(d) in Play(u, acts).store.files <==> Imaged(u, acts, d) && !Removed(u, acts, d)
  {
    hide Orderly, HandlesNamed, Turn, Stage, After, Restores, Removed, Imaged;
    if acts == [] {
      NothingYet(u, d);
    } else {
      var n := |acts| - 1;
      OrderlyBefore(u, acts, n);
      ImageThereIff(u, acts[..n], d);
      RunHandles(u, acts[..n]);
      TurnOf(u, acts, n);
      ImageNext(u, Play(u, acts[..n]), acts[n], d);
      RemovedNext(u, acts, d);
      ImagedStays(u, acts, d);
      RemovesOrRestores(u, Play(u, acts[..n]), acts[n], d);
    }
  }

  lemma RemovesOrRestores(u: Setup, k: Disk, a: Act, d: string)
    ensures !(a == Other(Remove(Image(d))) && Restores(u, k, a, d))
  {
  }

  lemma NothingYet(u: Setup, d: string)
    ensures Imaged(u, [], d) <==> Image(d) in u.start.files
    ensures !Removed(u, [], d)
  {
  }

  lemma {:induction false} NamedIsImaged(u: Setup, acts: seq<Act>, d: string)
    requires Orderly(u, acts) && Named(Play(u, acts).store, d)
    requires Named(u.start, d) ==> Image(d) in u.start.files
    ensures Imaged(u, acts, d)
    decreases |acts|
  {
    hide Orderly, Turn, Stage, Restores, Succeeded, Imaged, Do;
    if acts == [] {
      NothingYet(u, d);
    } else {
      var n := |acts| - 1;
      OrderlyBefore(u, acts, n);
      ImagedStays(u, acts, d);
      var k := Play(u, acts[..n]);
      RowAppears(u.digest, k.store, StepOf(u, k, acts[n]), d);
      if Named(k.store, d) {
        NamedIsImaged(u, acts[..n], d);
      } else {
        RecordsImaged(u, acts, d);
      }
    }
  }

  /** A put that records a row has put its image in place. */
  lemma RecordsImaged(u: Setup, acts: seq<Act>, d: string)
    requires Orderly(u, acts) && acts != []
    requires var n := |acts| - 1;
      var e := StepOf(u, Play(u, acts[..n]), acts[n]); e.Record? && u.digest(e.payload) == d
    ensures Imaged(u, acts, d)
  {
    hide Orderly, Turn, Stage, Succeeded, Play;
    var n := |acts| - 1;
    RecordsThird(u, acts, n);
    var r := Took(u, acts, n, acts[n].put, 2);
    RenamesThen(u, Play(u, acts[..r]), acts[r]);
    assert Restores(u, Play(u, acts[..r]), acts[r], d);
  }

  /** At every point of every run, crashes included, a row's image is there if and only
      if it was not removed since it was last put in place. A sweep that listed the
      rows before a put recorded its own can remove the image after the put's rename,
      and then the row is without one until the next put of the same bytes. */
  lemma RowHasImageIff(u: Setup, acts: seq<Act>, d: string)
    requires Orderly(u, acts) && Named(Play(u, acts).store, d)
    requires Named(u.start, d) ==> Image(d) in u.start.files
    ensures Image(d) in Play(u, acts).store.files <==> !Removed(u, acts, d)
  {
    hide Orderly, Play, Removed, Imaged;
    NamedIsImaged(u, acts, d);
    ImageThereIff(u, acts, d);
  }

  /** The two together, for every run and every crash: rows of sha d have their image,
      with its digest, if and only if it was not removed since it was last put in
      place and the last write into its file was a whole one that finished. */
  lemma BackedIff(u: Setup, acts: seq<Act>, d: string)
    requires Orderly(u, acts) && Backed(u.digest, u.start, d) && Named(Play(u, acts).store, d)
    ensures Backed(u.digest, Play(u, acts).store, d) <==>
      var last := Last(u, acts, Image(d));
      !Removed(u, acts, d) && (last.Some? ==> u.digest(Left(last.value)) == d)
  {
    hide Orderly, Play, Last, Removed;
    RowHasImageIff(u, acts, d);
    if Image(d) in Play(u, acts).store.files {
      WholeIff(u, acts, d);
    }
  }

  // --- puts of the same bytes kept apart -------------------------------------------------------------

  /** The act writes into the put's file, or renames it. */
  predicate Uses(a: Act, p: nat) {
    (a.Finish? || a.Move?) && a.put == p
  }

  /** No put of these bytes opens the temporary file between another's opening it and
      its last use of it. */
  ghost predicate Apart(u: Setup, acts: seq<Act>, d: string) {
    forall v, w, y | 0 <= v < w < y < |acts| && acts[v].Begin? && acts[w].Begin? && acts[v].put != acts[w].put
                     && Sha(u, acts[v].put) == d && Sha(u, acts[w].put) == d ::
      !Uses(acts[y], acts[v].put)
  }

  /** Nothing but puts touches the files of sha d, sweeping its temporary file away aside. */
  predicate FilesSpared(acts: seq<Act>, d: string) {
    forall i | 0 <= i < |acts| && acts[i].Other? ::
      && acts[i].step != Remove(Image(d))
      && (acts[i].step.Damage? ==> acts[i].step.name != Image(d) && acts[i].step.name != Part(d))
  }

  /** The put has opened its file and will yet use it. */
  ghost predicate Busy(u: Setup, acts: seq<Act>, x: nat, q: nat, d: string) {
    && Sha(u, q) == d
    && (exists w :: 0 <= w < x <= |acts| && acts[w] == Begin(q))
    && (exists y :: x <= y < |acts| && Uses(acts[y], q))
  }

  lemma BusySpan(u: Setup, acts: seq<Act>, x: nat, q: nat, d: string) returns (w: nat, y: nat)
    requires Busy(u, acts, x, q, d)
    ensures w < x <= y < |acts| && acts[w] == Begin(q) && Uses(acts[y], q) && Sha(u, q) == d
  {
    w :| 0 <= w < x && acts[w] == Begin(q);
    y :| x <= y < |acts| && Uses(acts[y], q);
  }

  lemma OneBusy(u: Setup, acts: seq<Act>, x: nat, p: nat, q: nat, d: string)
    requires Apart(u, acts, d) && Busy(u, acts, x, p, d) && Busy(u, acts, x, q, d)
    ensures p == q
  {
    hide Apart, Uses;
    var v, y := BusySpan(u, acts, x, p, d);
    var w, z := BusySpan(u, acts, x, q, d);
    if v < w {
      ApartAt(u, acts, v, w, y, d);
    } else if w < v {
      ApartAt(u, acts, w, v, z, d);
    }
  }

  lemma ApartAt(u: Setup, acts: seq<Act>, v: nat, w: nat, y: nat, d: string)
    requires Apart(u, acts, d) && v < w < y < |acts| && acts[v].Begin? && acts[w].Begin?
    requires Sha(u, acts[v].put) == d && Sha(u, acts[w].put) == d && Uses(acts[y], acts[v].put)
    ensures acts[v].put == acts[w].put
  {
  }

  /** A put that is using its file has opened it, and is busy until then. */
  lemma UsersAreBusy(u: Setup, acts: seq<Act>, x: nat)
    requires Orderly(u, acts) && x < |acts| && (acts[x].Finish? || acts[x].Move?)
    ensures Busy(u, acts, x, acts[x].put, Sha(u, acts[x].put))
    ensures Stage(acts[..x], acts[x].put) == if acts[x].Finish? then 1 else 2
  {
    hide Orderly, Stage, Play, Succeeded;
    TurnOf(u, acts, x);
    var p := acts[x].put;
    var w := Took(u, acts, x, p, 0);
    assert acts[w] == Begin(p) && Uses(acts[x], p);
  }

  lemma {:induction false} StageGrows(acts: seq<Act>, p: nat, i: nat, j: nat)
    requires i <= j <= |acts|
    ensures Stage(acts[..i], p) <= Stage(acts[..j], p)
    decreases j
  {
    hide Of;
    if i < j {
      StageGrows(acts, p, i, j - 1);
      assert acts[..j][..j - 1] == acts[..j - 1];
    }
  }

  /** A put that will yet use its file has not renamed it, and has so far succeeded. */
  lemma BusyStage(u: Setup, acts: seq<Act>, x: nat, q: nat, d: string)
    requires Orderly(u, acts) && Busy(u, acts, x, q, d)
    ensures Stage(acts[..x], q) <= 2
    ensures x > 0 && Of(acts[x - 1], q) ==> Succeeded(u, Play(u, acts[..x - 1]), acts[x - 1])
  {
    hide Stage, Play, Succeeded;
    var y :| x <= y < |acts| && Uses(acts[y], q);
    TurnOf(u, acts, y);
    StageGrows(acts, q, x, y);
  }

  lemma BusyBefore(u: Setup, acts: seq<Act>, x: nat, q: nat, d: string)
    requires x < |acts| && Busy(u, acts, x + 1, q, d) && acts[x] != Begin(q)
    ensures Busy(u, acts, x, q, d)
  {
    var w :| 0 <= w < x + 1 && acts[w] == Begin(q);
    var y :| x + 1 <= y < |acts| && Uses(acts[y], q);
    assert w < x;
  }

  predicate PartMatches(digest: Digest, s: Store, d: string) {
    Part(d) in s.files ==> digest(s.files[Part(d)]) == d
  }

  /** A busy put's file is still the temporary one, or is gone; once written it is whole. */
  predicate Holds(u: Setup, k: Disk, q: nat, stage: nat, d: string) {
    && (q in k.open ==> k.open[q] == Part(d))
    && (stage == 1 && q !in k.open ==> Part(d) !in k.store.files)
    && (stage == 2 ==> PartMatches(u.digest, k.store, d))
  }

  ghost predicate AllHold(u: Setup, acts: seq<Act>, x: nat, d: string)
    requires x <= |acts|
  {
    && ImageMatches(u.digest, Play(u, acts[..x]).store, d)
    && forall q | Busy(u, acts, x, q, d) :: Holds(u, Play(u, acts[..x]), q, Stage(acts[..x], q), d)
  }

  predicate Harmless(a: Act, d: string) {
    a.Other? ==>
      && Turn(a, 0) && a.step != Remove(Image(d))
      && (a.step.Damage? ==> a.step.name != Image(d) && a.step.name != Part(d))
  }

  /** The image keeps its digest: what is renamed to it is whole, and nobody is still
      writing into it. */
  lemma ImageKeeps(u: Setup, k: Disk, a: Act, d: string)
    requires ImageMatches(u.digest, k.store, d) && HandlesNamed(u, k) && Harmless(a, d)
    requires a.Finish? && Sha(u, a.put) == d ==> (a.put in k.open ==> k.open[a.put] == Part(d))
    requires a.Move? && Sha(u, a.put) == d ==> PartMatches(u.digest, k.store, d)
    ensures ImageMatches(u.digest, After(u, k, a).store, d)
  {
  }

  /** Another's act leaves what a busy put relies on. */
  lemma OtherKeeps(u: Setup, k: Disk, a: Act, q: nat, stage: nat, d: string)
    requires Holds(u, k, q, stage, d) && HandlesNamed(u, k) && Harmless(a, d)
    requires !Of(a, q) && ((a.Begin? || a.Finish? || a.Move?) ==> Sha(u, a.put) != d)
    ensures Holds(u, After(u, k, a), q, stage, d)
  {
  }

  /** Its own act sets up what it relies on next. */
  lemma OwnKeeps(u: Setup, k: Disk, a: Act, q: nat, stage: nat, d: string)
    requires Of(a, q) && Sha(u, q) == d && Turn(a, stage) && Succeeded(u, k, a) && stage < 2
    requires stage == 1 ==> Holds(u, k, q, 1, d)
    ensures Holds(u, After(u, k, a), q, stage + 1, d)
  {
  }

  lemma HoldsNext(u: Setup, acts: seq<Act>, x: nat, q: nat, d: string)
    requires Orderly(u, acts) && Apart(u, acts, d) && FilesSpared(acts, d)
    requires x < |acts| && AllHold(u, acts, x, d) && Busy(u, acts, x + 1, q, d)
    ensures Holds(u, Play(u, acts[..x + 1]), q, Stage(acts[..x + 1], q), d)
  {
    hide Orderly, Apart, Stage, Play, After, Holds, Turn, Succeeded, HandlesNamed, Busy;
    var a, k := acts[x], Play(u, acts[..x]);
    PlayNext(u, acts, x);
    TurnOf(u, acts, x);
    OrderlyBefore(u, acts, x);
    RunHandles(u, acts[..x]);
    BusyStage(u, acts, x + 1, q, d);
    BusySha(u, acts, x + 1, q, d);
    if Of(a, q) {
      OwnTurn(a, Stage(acts[..x], q));
      if a != Begin(q) {
        BusyBefore(u, acts, x, q, d);
      } else {
        BeginsFirst(a, Stage(acts[..x], q));
      }
      OwnKeeps(u, k, a, q, Stage(acts[..x], q), d);
    } else {
      BusyBefore(u, acts, x, q, d);
      if a.Begin? && Sha(u, a.put) == d {
        NoneBegins(u, acts, x, q, d);
      } else if (a.Finish? || a.Move?) && Sha(u, a.put) == d {
        UsersAreBusy(u, acts, x);
        OneBusy(u, acts, x, a.put, q, d);
      } else {
        OtherKeeps(u, k, a, q, Stage(acts[..x], q), d);
      }
    }
  }

  lemma BusySha(u: Setup, acts: seq<Act>, x: nat, q: nat, d: string)
    requires Busy(u, acts, x, q, d)
    ensures Sha(u, q) == d
  {
  }

  lemma OwnTurn(a: Act, stage: nat)
    requires !a.Other? && Turn(a, stage)
    ensures stage + 1 <= 2 ==> stage < 2
  {
  }

  lemma BeginsFirst(a: Act, stage: nat)
    requires a.Begin? && Turn(a, stage)
    ensures stage == 0
  {
  }

  /** While a put is busy no other of the same bytes begins. */
  lemma NoneBegins(u: Setup, acts: seq<Act>, x: nat, q: nat, d: string)
    requires Apart(u, acts, d) && x < |acts| && Busy(u, acts, x + 1, q, d) && acts[x].Begin?
    requires Sha(u, acts[x].put) == d
    ensures acts[x].put == q
  {
    hide Apart, Uses;
    var v, y := BusySpan(u, acts, x + 1, q, d);
    if v < x {
      ApartAt(u, acts, v, x, y, d);
    }
  }

  lemma {:induction false} AllKeepHolding(u: Setup, acts: seq<Act>, x: nat, d: string)
    requires Orderly(u, acts) && Apart(u, acts, d) && FilesSpared(acts, d)
    requires x <= |acts| && ImageMatches(u.digest, u.start, d)
    ensures AllHold(u, acts, x, d)
    decreases x
  {
    hide Orderly, Apart, Stage, After, Holds, Turn, HandlesNamed, ImageMatches;
    if x == 0 {
      assert forall q :: !Busy(u, acts, 0, q, d);
      assert acts[..0] == [];
    } else {
      AllKeepHolding(u, acts, x - 1, d);
      forall q | Busy(u, acts, x, q, d)
        ensures Holds(u, Play(u, acts[..x]), q, Stage(acts[..x], q), d)
      {
        HoldsNext(u, acts, x - 1, q, d);
      }
      ImageNextMatches(u, acts, x - 1, d);
    }
  }

  lemma ImageNextMatches(u: Setup, acts: seq<Act>, x: nat, d: string)
    requires Orderly(u, acts) && FilesSpared(acts, d) && x < |acts| && AllHold(u, acts, x, d)
    ensures ImageMatches(u.digest, Play(u, acts[..x + 1]).store, d)
  {
    hide Orderly, Stage, Play, After, Turn, HandlesNamed, Busy, ImageMatches, PartMatches;
    var a, k := acts[x], Play(u, acts[..x]);
    PlayNext(u, acts, x);
    TurnOf(u, acts, x);
    OrderlyBefore(u, acts, x);
    RunHandles(u, acts[..x]);
    if (a.Finish? || a.Move?) && Sha(u, a.put) == d {
      UsersAreBusy(u, acts, x);
      assert Holds(u, k, a.put, Stage(acts[..x], a.put), d);
    }
    ImageKeeps(u, k, a, d);
  }

  lemma SparedIsNotRemoved(u: Setup, acts: seq<Act>, d: string)
    requires FilesSpared(acts, d)
    ensures !Removed(u, acts, d)
  {
  }

  /** Crash safety: where puts of the same bytes keep apart, after any number of steps
      of any interleaving with puts of other bytes and anything else, stopped
      anywhere, every row of sha d has its image with its digest, unless something
      removed or damaged its files. */
  lemma PutsAreBacked(u: Setup, acts: seq<Act>, n: nat, d: string)
    requires Backed(u.digest, u.start, d) && n <= |acts|
    requires Orderly(u, acts) && Apart(u, acts, d) && FilesSpared(acts, d)
    ensures Backed(u.digest, Play(u, acts[..n]).store, d)
  {
    hide Orderly, Apart, Play, Removed, Busy, Stage, Holds;
    AllKeepHolding(u, acts, n, d);
    OrderlyBefore(u, acts, n);
    if Named(Play(u, acts[..n]).store, d) {
      SparedIsNotRemoved(u, acts[..n], d);
      RowHasImageIff(u, acts[..n], d);
    }
  }

  // --- two puts of one cover -----------------------------------------------------------------------

  /** Two albums with one cover, stored side by side in an empty cache. */
  function Pair(digest: Digest, cover: bytes): Setup {
    Setup(digest, p => Job(if p == 1 then "a" else "b", cover, 0), Store(map[], map[], map[]))
  }

  /** The second put opens the shared file after the first has written it, and the
      first renames and records what is by then empty. */
  function Overlap(cover: bytes): seq<Act> {
    [Begin(1), Finish(1, cover), Begin(2), Move(1), Index(1)]
  }

  lemma PlayGrows(u: Setup, acts: seq<Act>, a: Act)
    ensures Play(u, acts + [a]) == After(u, Play(u, acts), a)
    ensures forall p :: Stage(acts + [a], p) == Stage(acts, p) + if Of(a, p) then 1 else 0
  {
    hide After, Of;
    assert (acts + [a])[..|acts|] == acts;
  }

  /** A run stays orderly when the next act is its put's turn and the put has not failed. */
  lemma OrderlyGrows(u: Setup, acts: seq<Act>, a: Act)
    requires Orderly(u, acts) && !a.Other? && Turn(a, Stage(acts, a.put))
    requires forall x | 0 <= x < |acts| && Of(acts[x], a.put) :: Succeeded(u, Play(u, acts[..x]), acts[x])
    ensures Orderly(u, acts + [a])
  {
    hide Turn, Stage, Play, Succeeded, Of;
    var all := acts + [a];
    assert all[..|acts|] == acts;
    forall i | 0 <= i < |acts| ensures all[..i] == acts[..i] && all[i] == acts[i] {
    }
  }

  /** The put's acts so far have succeeded. */
  ghost predicate Going(u: Setup, acts: seq<Act>, p: nat) {
    forall x | 0 <= x < |acts| && Of(acts[x], p) :: Succeeded(u, Play(u, acts[..x]), acts[x])
  }

  lemma GoingGrows(u: Setup, acts: seq<Act>, a: Act, p: nat)
    requires Going(u, acts, p) && (Of(a, p) ==> Succeeded(u, Play(u, acts), a))
    ensures Going(u, acts + [a], p)
  {
    hide Succeeded, Play, Of;
    var all := acts + [a];
    assert all[..|acts|] == acts;
    forall x | 0 <= x < |acts| ensures all[..x] == acts[..x] && all[x] == acts[x] {
    }
  }

  /** One more act of an orderly run, by one of two puts. */
  lemma Extend(u: Setup, acts: seq<Act>, a: Act, other: nat)
    requires Orderly(u, acts) && !a.Other? && Turn(a, Stage(acts, a.put)) && other != a.put
    requires Going(u, acts, a.put) && Going(u, acts, other) && Succeeded(u, Play(u, acts), a)
    ensures Orderly(u, acts + [a]) && Going(u, acts + [a], a.put) && Going(u, acts + [a], other)
    ensures Play(u, acts + [a]) == After(u, Play(u, acts), a)
    ensures Stage(acts + [a], a.put) == Stage(acts, a.put) + 1 && Stage(acts + [a], other) == Stage(acts, other)
  {
    hide Turn, Stage, Play, Succeeded, After;
    OrderlyGrows(u, acts, a);
    GoingGrows(u, acts, a, a.put);
    GoingGrows(u, acts, a, other);
    PlayGrows(u, acts, a);
  }

  lemma OverlapRuns(digest: Digest, cover: bytes)
    ensures var u, acts := Pair(digest, cover), Overlap(cover);
      && Orderly(u, acts) && Going(u, acts, 1) && Going(u, acts, 2)
      && Stage(acts, 1) == 4 && Stage(acts, 2) == 1
      && var d := digest(cover);
      Play(u, acts) == Disk(Store(map[Image(d) := []], map["a" := Row(d, |cover|, 0)], map[]), map[2 := Image(d)])
  {
    hide Orderly, Going, Stage, Play, After;
    var u, d := Pair(digest, cover), digest(cover);
    var a1, a2, a3, a4, a5 := Begin(1), Finish(1, cover), Begin(2), Move(1), Index(1);
    assert [] + [a1] == [a1] && [a1] + [a2] == [a1, a2] && [a1, a2] + [a3] == [a1, a2, a3];
    assert [a1, a2, a3] + [a4] == [a1, a2, a3, a4] && [a1, a2, a3, a4] + [a5] == Overlap(cover);
    StartsOrderly(u);
    FirstTwo(digest, cover);
    ThirdAct(digest, cover);
    LastTwo(digest, cover);
    Extend(u, [], a1, 2);
    Extend(u, [a1], a2, 2);
    Extend(u, [a1, a2], a3, 1);
    Extend(u, [a1, a2, a3], a4, 2);
    Extend(u, [a1, a2, a3, a4], a5, 2);
  }

  lemma StartsOrderly(u: Setup)
    ensures Orderly(u, []) && Going(u, [], 1) && Going(u, [], 2) && Stage([], 1) == Stage([], 2) == 0
    ensures Play(u, []) == Disk(u.start, map[])
  {
  }

  lemma FirstTwo(digest: Digest, cover: bytes)
    ensures var u, d := Pair(digest, cover), digest(cover);
      After(u, After(u, Disk(u.start, map[]), Begin(1)), Finish(1, cover))
      == Disk(Store(map[Part(d) := cover], map[], map[]), map[])
  {
    var u, d := Pair(digest, cover), digest(cover);
    var k := After(u, Disk(u.start, map[]), Begin(1));
    assert k == Disk(Store(map[Part(d) := []], map[], map[]), map[1 := Part(d)]);
    assert map[Part(d) := []][Part(d) := cover] == map[Part(d) := cover];
    assert map[1 := Part(d)] - {1} == map[];
  }

  lemma ThirdAct(digest: Digest, cover: bytes)
    ensures var u, d := Pair(digest, cover), digest(cover);
      After(u, Disk(Store(map[Part(d) := cover], map[], map[]), map[]), Begin(2))
      == Disk(Store(map[Part(d) := []], map[], map[]), map[2 := Part(d)])
  {
    var d := digest(cover);
    assert map[Part(d) := cover][Part(d) := []] == map[Part(d) := []];
  }

  lemma LastTwo(digest: Digest, cover: bytes)
    ensures var u, d := Pair(digest, cover), digest(cover);
      After(u, After(u, Disk(Store(map[Part(d) := []], map[], map[]), map[2 := Part(d)]), Move(1)), Index(1))
      == Disk(Store(map[Image(d) := []], map["a" := Row(d, |cover|, 0)], map[]), map[2 := Image(d)])
  {
    var u, d := Pair(digest, cover), digest(cover);
    var empty: map<Name, bytes> := map[Part(d) := []];
    var k := After(u, Disk(Store(empty, map[], map[]), map[2 := Part(d)]), Move(1));
    assert (empty - {Part(d)})[Image(d) := []] == map[Image(d) := []];
    assert k.open == map[2 := Image(d)];
  }

  /** If the power fails here, a recorded row has an image with nothing in it. Its
      lookup fails. Nothing removed or damaged a file. */
  lemma CrashLeavesTornImage(digest: Digest, cover: bytes)
    requires digest([]) != digest(cover)
    ensures var u, acts := Pair(digest, cover), Overlap(cover);
      && Orderly(u, acts) && FilesSpared(acts, digest(cover)) && Backed(digest, u.start, digest(cover))
      && var s := Play(u, acts).store;
      "a" in s.rows && !Backed(digest, s, digest(cover)) && Fetch(digest, s, "a") == None
  {
    hide Orderly, Going, Stage, Play;
    OverlapRuns(digest, cover);
  }

  /** If it does not, the second put's write lands in that image: whole, and the row
      is good; cut short, and it stays torn. */
  lemma SecondWriteDecides(digest: Digest, cover: bytes, content: bytes)
    ensures var u, acts := Pair(digest, cover), Overlap(cover) + [Finish(2, content)];
      && Orderly(u, acts)
      && var s := Play(u, acts).store;
      && (Backed(digest, s, digest(cover)) <==> digest(content) == digest(cover))
      && (content == cover ==> Fetch(digest, s, "a") == Some(cover))
  {
    var u, d := Pair(digest, cover), digest(cover);
    OverlapRuns(digest, cover);
    OrderlyGrows(u, Overlap(cover), Finish(2, content));
    PlayGrows(u, Overlap(cover), Finish(2, content));
    hide Orderly, Going, Stage, Play;
    assert map[Image(d) := []][Image(d) := content] == map[Image(d) := content];
  }

  /** A sweep that listed the rows while the cover was not yet among them removes its
      image after the rename, and the row recorded next has none. */
  lemma SweepStrandsRow(digest: Digest, cover: bytes)
    ensures var u, d := Pair(digest, cover), digest(cover);
      var listed := [Begin(1), Finish(1, cover), Move(1)];
      var acts := listed + [Other(Remove(Image(d)))] + [Index(1)];
      && !Named(Play(u, listed).store, d)
      && Orderly(u, acts) && Named(Play(u, acts).store, d) && Image(d) !in Play(u, acts).store.files
  {
    var u, d := Pair(digest, cover), digest(cover);
    var a1, a2, a3, a4, a5 := Begin(1), Finish(1, cover), Move(1), Other(Remove(Image(d))), Index(1);
    var listed := [a1, a2, a3];
    hide Orderly, Going, Stage, Play;
    SweepRuns(digest, cover);
    RemoveGrows(u, listed, d);
    PlayGrows(u, listed, a4);
    PlayGrows(u, listed + [a4], a5);
    assert map[Image(d) := cover] - {Image(d)} == map[];
    assert Play(u, listed + [a4]).store == Store(map[], map[], map[]);
    OrderlyGrowsFrom(u, listed + [a4], a5);
    var s := Play(u, listed + [a4] + [a5]).store;
    assert s.rows["a"].sha == d;
  }

  lemma OrderlyGrowsFrom(u: Setup, acts: seq<Act>, a: Act)
    requires Orderly(u, acts) && !a.Other? && Turn(a, Stage(acts, a.put)) && Going(u, acts, a.put)
    ensures Orderly(u, acts + [a])
  {
    OrderlyGrows(u, acts, a);
  }

  lemma RemoveGrows(u: Setup, acts: seq<Act>, d: string)
    requires Orderly(u, acts) && Going(u, acts, 1)
    ensures Orderly(u, acts + [Other(Remove(Image(d)))]) && Going(u, acts + [Other(Remove(Image(d)))], 1)
  {
    hide Stage, Play, Succeeded;
    var a := Other(Remove(Image(d)));
    var all := acts + [a];
    assert all[..|acts|] == acts;
    forall i | 0 <= i < |acts| ensures all[..i] == acts[..i] && all[i] == acts[i] {
    }
    GoingGrows(u, acts, a, 1);
  }

  lemma SweepRuns(digest: Digest, cover: bytes)
    ensures var u, d, acts := Pair(digest, cover), digest(cover), [Begin(1), Finish(1, cover), Move(1)];
      && Orderly(u, acts) && Going(u, acts, 1) && Stage(acts, 1) == 3
      && Play(u, acts) == Disk(Store(map[Image(d) := cover], map[], map[]), map[])
  {
    hide Orderly, Going, Stage, Play, After;
    var u, d := Pair(digest, cover), digest(cover);
    var a1, a2, a3 := Begin(1), Finish(1, cover), Move(1);
    assert [] + [a1] == [a1] && [a1] + [a2] == [a1, a2] && [a1, a2] + [a3] == [a1, a2, a3];
    StartsOrderly(u);
    FirstTwo(digest, cover);
    MoveAlone(digest, cover);
    Extend(u, [], a1, 2);
    Extend(u, [a1], a2, 2);
    Extend(u, [a1, a2], a3, 2);
  }

  lemma MoveAlone(digest: Digest, cover: bytes)
    ensures var u, d := Pair(digest, cover), digest(cover);
      After(u, Disk(Store(map[Part(d) := cover], map[], map[]), map[]), Move(1))
      == Disk(Store(map[Image(d) := cover], map[], map[]), map[])
  {
    var d := digest(cover);
    assert (map[Part(d) := cover] - {Part(d)})[Image(d) := cover] == map[Image(d) := cover];
  }
}
