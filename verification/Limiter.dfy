/** The login limiter: at most five attempts per address in any minute, counted in a
    bounded table that is swept as it grows. Times are in milliseconds. */
module LimiterModel {
  const ATTEMPTS: nat := 5
  const WINDOW: nat := 60_000
  const MAX_TRACKED: nat := 4096
  const SWEEP_THRESHOLD: nat := 256

  type Address = string

  type Table = map<Address, seq<nat>>

  predicate Inside(t: nat, now: nat) {
    now < t + WINDOW
  }

  /** The times still inside the window, in order. */
  function Recent(seen: seq<nat>, now: nat): seq<nat> {
    if seen == [] then []
    else
      var rest := Recent(seen[..|seen| - 1], now);
      if Inside(seen[|seen| - 1], now) then rest + [seen[|seen| - 1]] else rest
  }

  function Seen(table: Table, a: Address): seq<nat> {
    if a in table then table[a] else []
  }

  function Swept(table: Table, now: nat): Table {
    map a | a in table && Recent(table[a], now) != [] :: Recent(table[a], now)
  }

  function Ready(table: Table, from: Address, now: nat): Table {
    if |table| > SWEEP_THRESHOLD && from !in table then Swept(table, now) else table
  }

  /** A newcomer while the table is full of addresses all inside the window. */
  predicate Crowded(table: Table, from: Address, now: nat) {
    |table| > SWEEP_THRESHOLD && from !in table && |Swept(table, now)| >= MAX_TRACKED
  }

  predicate Allowed(table: Table, from: Address, now: nat) {
    !Crowded(table, from, now) && |Recent(Seen(table, from), now)| < ATTEMPTS
  }

  function Noted(table: Table, from: Address, now: nat): Table {
    var ready := Ready(table, from, now);
    if Crowded(table, from, now) then ready
    else
      var recent := Recent(Seen(ready, from), now);
      ready[from := if |recent| >= ATTEMPTS then recent else recent + [now]]
  }

  datatype Event = Attempt(from: Address, now: nat) | Clear(from: Address)

  function Step(table: Table, e: Event): Table {
    match e
    case Attempt(from, now) => Noted(table, from, now)
    case Clear(from) => table - {from}
  }

  function Run(es: seq<Event>): Table {
    if es == [] then map[] else Step(Run(es[..|es| - 1]), es[|es| - 1])
  }

  /** The attempts accepted from an address since it was last cleared, oldest first. */
  function Accepted(es: seq<Event>, a: Address): seq<nat> {
    if es == [] then []
    else
      var before := Accepted(es[..|es| - 1], a);
      match es[|es| - 1]
      case Attempt(from, now) =>
        if from == a && Allowed(Run(es[..|es| - 1]), from, now) then before + [now] else before
      case Clear(from) => if from == a then [] else before
  }

  /** The time of the last attempt of a run. */
  function Clock(es: seq<Event>): nat {
    if es == [] then 0
    else if es[|es| - 1].Attempt? then es[|es| - 1].now
    else Clock(es[..|es| - 1])
  }

  predicate Ordered(es: seq<Event>) {
    es == [] || (Ordered(es[..|es| - 1]) && Clock(es[..|es| - 1]) <= Clock(es))
  }
}

/** The bounded, swept table decides exactly as the full history would. */
module LimiterLaws {
  import opened LimiterModel
  import opened Finite

  lemma {:induction false} RecentAgain(seen: seq<nat>, now: nat, t: nat)
    requires now <= t
    ensures Recent(Recent(seen, now), t) == Recent(seen, t)
  {
    if seen != [] {
      var n := |seen| - 1;
      RecentAgain(seen[..n], now, t);
      if Inside(seen[n], now) {
        RecentSnoc(Recent(seen[..n], now), seen[n], t);
      }
    }
  }

  lemma RecentSnoc(seen: seq<nat>, x: nat, t: nat)
    ensures Recent(seen + [x], t) == if Inside(x, t) then Recent(seen, t) + [x] else Recent(seen, t)
  {
    assert (seen + [x])[..|seen|] == seen;
  }

  lemma {:induction false} RecentPlus(a: seq<nat>, b: seq<nat>, t: nat)
    requires forall i | 0 <= i < |b| :: Inside(b[i], t)
    ensures Recent(a + b, t) == Recent(a, t) + b
  {
    hide Recent;
    if b == [] {
      assert a + b == a;
    } else {
      var n := |b| - 1;
      RecentPlus(a, b[..n], t);
      assert a + b == (a + b[..n]) + [b[n]];
      RecentSnoc(a + b[..n], b[n], t);
    }
  }

  /** From now on the table's memory of an address is as good as its whole history. */
  ghost predicate Remembers(seen: seq<nat>, history: seq<nat>, now: nat) {
    forall t | now <= t :: Recent(seen, t) == Recent(history, t)
  }

  predicate Increasing(s: seq<nat>) {
    forall i, j | 0 <= i < j < |s| :: s[i] <= s[j]
  }

  /** Any six accepted attempts in a row take at least the window. */
  predicate Spaced(s: seq<nat>) {
    Increasing(s) && forall i | 0 <= i < |s| - ATTEMPTS :: s[i] + WINDOW <= s[i + ATTEMPTS]
  }

  lemma SweepForgetsNothing(table: Table, now: nat, a: Address, t: nat)
    requires now <= t
    ensures Recent(Seen(Swept(table, now), a), t) == Recent(Seen(table, a), t)
  {
    RecentAgain(Seen(table, a), now, t);
  }

  /** An attempt leaves the other addresses' entries alone while the table is small, and
      always if its own address is known. */
  lemma OthersUntouched(table: Table, from: Address, now: nat)
    requires |table| <= 256 || from in table
    ensures forall b | b != from :: (b in Noted(table, from, now) <==> b in table)
    ensures forall b | b != from && b in table :: Noted(table, from, now)[b] == table[b]
  {
  }

  lemma ReadyRemembers(table: Table, from: Address, now: nat, a: Address, t: nat)
    requires now <= t
    ensures Recent(Seen(Ready(table, from, now), a), t) == Recent(Seen(table, a), t)
  {
    SweepForgetsNothing(table, now, a, t);
  }

  lemma NotedSeen(table: Table, from: Address, now: nat, a: Address, t: nat)
    requires now <= t
    ensures Recent(Seen(Noted(table, from, now), a), t) ==
      if a == from && Allowed(table, from, now) then Recent(Seen(table, a) + [now], t)
      else Recent(Seen(table, a), t)
  {
    hide Ready, Recent, Crowded;
    ReadyRemembers(table, from, now, a, t);
    ReadyRemembers(table, from, now, from, now);
    var recent := Recent(Seen(Ready(table, from, now), from), now);
    RecentAgain(Seen(table, from), now, t);
    RecentSnoc(recent, now, t);
    RecentSnoc(Seen(table, from), now, t);
  }

  /** The table decides as the full history would, and the history is spaced out. */
  lemma {:induction false} RunRemembers(es: seq<Event>, a: Address)
    requires Ordered(es)
    ensures Remembers(Seen(Run(es), a), Accepted(es, a), Clock(es))
    ensures Spaced(Accepted(es, a))
    ensures Accepted(es, a) != [] ==> Accepted(es, a)[|Accepted(es, a)| - 1] <= Clock(es)
  {
    hide Recent, Spaced, Noted, Allowed, Seen, Remembers;
    if es == [] {
      StartRemembers(a);
    } else {
      var n := |es| - 1;
      RunRemembers(es[..n], a);
      match es[n] {
        case Attempt(from, now) =>
          AttemptRemembers(Run(es[..n]), Accepted(es[..n], a), Clock(es[..n]), from, now, a);
        case Clear(from) =>
          ClearRemembers(Run(es[..n]), Accepted(es[..n], a), Clock(es[..n]), from, a);
      }
    }
  }

  lemma StartRemembers(a: Address)
    ensures Remembers(Seen(map[], a), [], 0) && Spaced([])
  {
  }

  lemma ClearRemembers(table: Table, history: seq<nat>, clock: nat, from: Address, a: Address)
    requires Remembers(Seen(table, a), history, clock) && Spaced(history)
    ensures var after := if from == a then [] else history;
      Remembers(Seen(table - {from}, a), after, clock) && Spaced(after)
  {
    hide Recent;
  }

  lemma AttemptRemembers(table: Table, history: seq<nat>, clock: nat, from: Address, now: nat, a: Address)
    requires clock <= now && Remembers(Seen(table, a), history, clock) && Spaced(history)
    requires history != [] ==> history[|history| - 1] <= clock
    ensures var after := if from == a && Allowed(table, from, now) then history + [now] else history;
      Remembers(Seen(Noted(table, from, now), a), after, now) && Spaced(after)
  {
    hide Recent, Spaced;
    var after := if from == a && Allowed(table, from, now) then history + [now] else history;
    forall t | now <= t ensures Recent(Seen(Noted(table, from, now), a), t) == Recent(after, t) {
      NotedSeen(table, from, now, a, t);
      RecentSnoc(history, now, t);
      RecentSnoc(Seen(table, a), now, t);
    }
    if from == a && Allowed(table, from, now) {
      assert Recent(Seen(table, a), now) == Recent(history, now);
      SpacedSnoc(history, now);
    }
  }

  lemma SpacedSnoc(history: seq<nat>, now: nat)
    requires Spaced(history) && |Recent(history, now)| < ATTEMPTS
    requires history != [] ==> history[|history| - 1] <= now
    ensures Spaced(history + [now])
  {
    if |history| >= ATTEMPTS {
      LastFive(history, now);
    }
  }

  lemma LastFive(history: seq<nat>, now: nat)
    requires Increasing(history) && |history| >= ATTEMPTS && |Recent(history, now)| < ATTEMPTS
    ensures history[|history| - ATTEMPTS] + WINDOW <= now
  {
    var k := |history| - ATTEMPTS;
    hide Recent;
    assert history == history[..k] + history[k..];
    if Inside(history[k], now) {
      forall i | 0 <= i < |history[k..]| ensures Inside(history[k..][i], now) {
        assert i > 0 ==> history[k] <= history[k + i];
      }
      RecentPlus(history[..k], history[k..], now);
    }
  }

  /** Five attempts of the address, all accepted since it was last cleared, lie inside the window. */
  ghost predicate FiveInside(es: seq<Event>, a: Address, now: nat) {
    var h := Accepted(es, a);
    |h| >= ATTEMPTS && forall i | |h| - ATTEMPTS <= i < |h| :: now < h[i] + WINDOW
  }

  /** The address has an attempt, accepted since it was last cleared, inside the window. */
  ghost predicate Active(es: seq<Event>, a: Address, now: nat) {
    exists i | 0 <= i < |Accepted(es, a)| :: now < Accepted(es, a)[i] + WINDOW
  }

  /** Over every run, however the table has been swept: an attempt is refused only when
      five accepted attempts of the address lie inside the window, or when at least 4096
      other addresses each have one inside and the address has none; and in the first case
      it always is. */
  lemma DecidesByHistory(es: seq<Event>, a: Address, now: nat) returns (others: set<Address>)
    requires Ordered(es) && Clock(es) <= now
    ensures FiveInside(es, a, now) ==> !Allowed(Run(es), a, now)
    ensures !Allowed(Run(es), a, now) ==>
      FiveInside(es, a, now) || (!Active(es, a, now) && |others| >= MAX_TRACKED)
    ensures forall b | b in others :: b != a && Active(es, b, now)
  {
    hide Run, Accepted, Recent, Remembers, Spaced;
    var table := Run(es);
    RunRemembers(es, a);
    FiveRecent(Accepted(es, a), now);
    KnowsActive(es, a, now);
    NothingRecent(now);
    others := Swept(table, now).Keys - {a};
    forall b | b in others ensures Active(es, b, now) {
      KnowsActive(es, b, now);
    }
    if Crowded(table, a, now) {
      assert others == Swept(table, now).Keys && |others| == |Swept(table, now)|;
    }
  }

  /** The table knows which addresses have an attempt inside the window. */
  lemma KnowsActive(es: seq<Event>, a: Address, now: nat)
    requires Ordered(es) && Clock(es) <= now
    ensures Recent(Seen(Run(es), a), now) == Recent(Accepted(es, a), now)
    ensures Recent(Seen(Run(es), a), now) != [] <==> Active(es, a, now)
  {
    hide Run, Accepted, Recent, Spaced;
    RunRemembers(es, a);
    AnyRecent(Accepted(es, a), now);
  }

  /** An address with an attempt inside the window keeps its own budget however crowded
      the table is: its next attempt is accepted exactly when fewer than five are inside. */
  lemma ActiveKeepsBudget(es: seq<Event>, a: Address, now: nat)
    requires Ordered(es) && Clock(es) <= now && Active(es, a, now)
    ensures Allowed(Run(es), a, now) <==> !FiveInside(es, a, now)
  {
    hide Run, Accepted, Recent;
    var others := DecidesByHistory(es, a, now);
  }

  /** A newcomer is turned away exactly when at least 4096 addresses have an attempt
      inside the window: the sweep leaves those and no others. */
  lemma NewcomerRefusedIff(es: seq<Event>, a: Address, now: nat) returns (active: set<Address>)
    requires Ordered(es) && Clock(es) <= now && a !in Run(es)
    ensures forall b :: b in active <==> Active(es, b, now)
    ensures Allowed(Run(es), a, now) <==> |active| < MAX_TRACKED
  {
    hide Run, Accepted, Recent;
    var table := Run(es);
    active := Swept(table, now).Keys;
    forall b: Address ensures b in active <==> Active(es, b, now) {
      KnowsActive(es, b, now);
      NothingRecent(now);
    }
    NothingRecent(now);
    SweptIsFewer(table, now);
    assert |active| == |Swept(table, now)|;
  }

  lemma NothingRecent(now: nat)
    ensures Recent([], now) == []
  {
  }

  /** Some time is inside the window exactly when something recent is left. */
  lemma {:induction false} AnyRecent(s: seq<nat>, now: nat)
    ensures Recent(s, now) != [] <==> exists i | 0 <= i < |s| :: now < s[i] + WINDOW
  {
    if s != [] {
      var n := |s| - 1;
      AnyRecent(s[..n], now);
      if i :| 0 <= i < |s| && now < s[i] + WINDOW {
        assert i < n ==> s[..n][i] == s[i];
      }
    }
  }

  /** Of times in order, five are recent exactly when the last five are inside. */
  lemma FiveRecent(s: seq<nat>, now: nat)
    requires Spaced(s)
    ensures |Recent(s, now)| >= ATTEMPTS <==>
      |s| >= ATTEMPTS && forall i | |s| - ATTEMPTS <= i < |s| :: now < s[i] + WINDOW
  {
    hide Recent;
    RecentIsFewer(s, now);
    if |s| >= ATTEMPTS {
      var k := |s| - ATTEMPTS;
      if |Recent(s, now)| < ATTEMPTS {
        LastFive(s, now);
        assert !(now < s[k] + WINDOW);
      } else if now >= s[k] + WINDOW {
        assert s == s[..k + 1] + s[k + 1..];
        AllPast(s[..k + 1], now);
        RecentAtMost(s[..k + 1], s[k + 1..], now);
        assert false;
      } else {
        forall i | k <= i < |s| ensures now < s[i] + WINDOW {
          assert k < i ==> s[k] <= s[i];
        }
      }
    }
  }

  lemma {:induction false} RecentIsFewer(s: seq<nat>, now: nat)
    ensures |Recent(s, now)| <= |s|
  {
    if s != [] {
      RecentIsFewer(s[..|s| - 1], now);
    }
  }

  lemma {:induction false} AllPast(s: seq<nat>, now: nat)
    requires Increasing(s) && s != [] && s[|s| - 1] + WINDOW <= now
    ensures Recent(s, now) == []
  {
    forall i | 0 <= i < |s| ensures s[i] + WINDOW <= now {
      assert i < |s| - 1 ==> s[i] <= s[|s| - 1];
    }
    AnyRecent(s, now);
  }

  lemma {:induction false} RecentAtMost(a: seq<nat>, b: seq<nat>, now: nat)
    ensures |Recent(a + b, now)| <= |Recent(a, now)| + |b|
  {
    hide Recent;
    if b == [] {
      assert a + b == a;
    } else {
      var n := |b| - 1;
      RecentAtMost(a, b[..n], now);
      assert a + b == (a + b[..n]) + [b[n]];
      RecentSnoc(a + b[..n], b[n], now);
    }
  }

  /** How many times lie in the window that starts at w. */
  function CountFrom(s: seq<nat>, w: nat): nat {
    if s == [] then 0
    else CountFrom(s[..|s| - 1], w) + if w <= s[|s| - 1] < w + WINDOW then 1 else 0
  }

  /** In every run, every 60-second window of every address holds at most five
      accepted attempts since its last clear. */
  lemma AtMostFive(es: seq<Event>, a: Address, w: nat)
    requires Ordered(es)
    ensures CountFrom(Accepted(es, a), w) <= ATTEMPTS
  {
    RunRemembers(es, a);
    SpacedCount(Accepted(es, a), w);
  }

  lemma {:induction false} SpacedCount(s: seq<nat>, w: nat)
    requires Spaced(s)
    ensures CountFrom(s, w) <= ATTEMPTS
  {
    if s != [] {
      var n := |s| - 1;
      SpacedCount(s[..n], w);
      if w <= s[n] < w + WINDOW && n >= ATTEMPTS {
        SpacedTail(s, w);
      } else if n < ATTEMPTS {
        CountBound(s, w);
      }
    }
  }

  /** When the last time is inside, the fifth before it and all earlier ones are not. */
  lemma SpacedTail(s: seq<nat>, w: nat)
    requires Spaced(s) && |s| > ATTEMPTS && s[|s| - 1] < w + WINDOW
    ensures CountFrom(s[..|s| - 1], w) <= ATTEMPTS - 1
  {
    hide CountFrom;
    var n := |s| - 1;
    var k := n - ATTEMPTS;
    assert s[k] + WINDOW <= s[n];
    forall i | 0 <= i <= k ensures s[i] < w {
      assert i < k ==> s[i] <= s[k];
    }
    NoneBefore(s[..k + 1], w);
    CountTail(s[..n], k + 1, w);
    assert s[..n][..k + 1] == s[..k + 1];
  }

  lemma {:induction false} NoneBefore(s: seq<nat>, w: nat)
    requires forall i | 0 <= i < |s| :: s[i] < w
    ensures CountFrom(s, w) == 0
  {
    if s != [] {
      NoneBefore(s[..|s| - 1], w);
    }
  }

  lemma {:induction false} CountBound(s: seq<nat>, w: nat)
    ensures CountFrom(s, w) <= |s|
  {
    if s != [] {
      CountBound(s[..|s| - 1], w);
    }
  }

  lemma {:induction false} CountTail(s: seq<nat>, k: nat, w: nat)
    requires k <= |s|
    ensures CountFrom(s, w) <= CountFrom(s[..k], w) + |s| - k
  {
    if k < |s| {
      CountTail(s[..|s| - 1], k, w);
      assert s[..|s| - 1][..k] == s[..k];
    } else {
      assert s[..k] == s;
    }
  }

  /** The table never tracks more than its limit of addresses. */
  lemma {:induction false} TableIsBounded(es: seq<Event>)
    ensures |Run(es)| <= MAX_TRACKED
  {
    if es != [] {
      TableIsBounded(es[..|es| - 1]);
      StepIsBounded(Run(es[..|es| - 1]), es[|es| - 1]);
    }
  }

  lemma StepIsBounded(table: Table, e: Event)
    requires |table| <= MAX_TRACKED
    ensures |Step(table, e)| <= MAX_TRACKED
  {
    match e {
      case Attempt(from, now) =>
        SweptIsFewer(table, now);
        var ready := Ready(table, from, now);
        PutOne(ready, from, Recent(Seen(ready, from), now));
        PutOne(ready, from, Recent(Seen(ready, from), now) + [now]);
      case Clear(from) =>
        Fewer((table - {from}).Keys, table.Keys);
    }
  }

  lemma SweptIsFewer(table: Table, now: nat)
    ensures |Swept(table, now)| <= |table|
  {
    Fewer(Swept(table, now).Keys, table.Keys);
  }
}

/** The limiter as the object the login handler calls. */
module LoginLimiter {
  import opened LimiterModel

  class Attempts {
    var table: Table

    constructor ()
      ensures table == map[]
    {
      table := map[];
    }

    method NoteAttempt(from: Address, now: nat) returns (ok: bool)
      modifies this
      ensures ok == Allowed(old(table), from, now)
      ensures table == Noted(old(table), from, now)
    {
      if |table| > SWEEP_THRESHOLD && from !in table {
        table := map a | a in table && Recent(table[a], now) != [] :: Recent(table[a], now);
        if |table| >= MAX_TRACKED {
          return false;
        }
      }
      var recent := Retain(if from in table then table[from] else [], now);
      if |recent| >= ATTEMPTS {
        table := table[from := recent];
        return false;
      }
      table := table[from := recent + [now]];
      ok := true;
    }

    method ClearAttempts(from: Address)
      modifies this
      ensures table == Step(old(table), Clear(from))
    {
      table := table - {from};
    }
  }

  method Retain(seen: seq<nat>, now: nat) returns (r: seq<nat>)
    ensures r == Recent(seen, now)
  {
    r := [];
    for i := 0 to |seen|
      invariant r == Recent(seen[..i], now)
    {
      assert seen[..i + 1][..i] == seen[..i];
      if now < seen[i] + WINDOW {
        r := r + [seen[i]];
      }
    }
    assert seen[..|seen|] == seen;
  }
}
