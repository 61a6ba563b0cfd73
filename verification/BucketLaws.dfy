/** The bucket's promises over every run: a bound on how many tokens any window
    hands out, pauses that hold, and callers that are served as soon as can be. */
module BucketLaws {
  import opened Bytes
  import opened BucketModel

  predicate Sane(b: Bucket) {
    b.rate > 0.0 && 0.0 <= b.tokens <= b.capacity
  }

  lemma Scale(rate: real, x: real, y: real)
    requires rate > 0.0
    ensures rate * (x + y) == rate * x + rate * y == x * rate + y * rate
    ensures x >= 0.0 ==> rate * x >= 0.0
  {
  }

  lemma RefillBounds(b: Bucket, now: real)
    requires Sane(b) && b.last <= now
    ensures Sane(Refill(b, now))
    ensures b.tokens <= Refill(b, now).tokens <= b.tokens + b.rate * (now - b.last)
  {
    Scale(b.rate, now - b.last, 0.0);
  }

  lemma StepKeepsSane(b: Bucket, e: Event)
    requires Sane(b) && b.last <= e.at
    ensures Sane(Step(b, e))
  {
    hide Refill;
    RefillBounds(b, e.at);
  }

  /** What a prefix of a run has handed out in the window, against the clock of its
      last refill. */
  predicate Bounded(b: Bucket, grants: nat, s: real, e: real) {
    if b.last < s then grants == 0
    else if b.last <= e then grants as real <= b.capacity + b.rate * (b.last - s) - b.tokens
    else grants as real <= b.capacity + b.rate * (e - s)
  }

  /** A span split in two earns what its parts earn. */
  lemma Distribute(rate: real, x: real, y: real, z: real)
    requires rate > 0.0 && x + y == z
    ensures rate * z == rate * x + rate * y
  {
  }

  lemma Earns(rate: real, x: real)
    requires rate > 0.0 && x >= 0.0
    ensures rate * x >= 0.0
  {
  }

  /** An attempt takes one token from the refilled bucket, if there is one, or none. */
  lemma AttemptTokens(b: Bucket, at: real, check: real)
    requires Sane(b) && b.last <= at
    ensures var c, granted := Attempt(b, at, check).bucket, Attempt(b, at, check).wait.None?;
      && Sane(c) && c.last == at && c.rate == b.rate && c.capacity == b.capacity
      && c.tokens <= b.tokens + b.rate * (at - b.last) - (if granted then 1.0 else 0.0)
      && c.tokens <= b.capacity - (if granted then 1.0 else 0.0)
  {
    hide Refill;
    RefillBounds(b, at);
    RefillFields(b, at);
  }

  lemma RefillFields(b: Bucket, at: real)
    ensures var r := Refill(b, at);
      r.last == at && r.rate == b.rate && r.capacity == b.capacity && r.tokens <= b.capacity
  {
  }

  lemma TryKeepsBounded(b: Bucket, at: real, check: real, grants: nat, s: real, e: real)
    requires Sane(b) && b.last <= at && s <= e && Bounded(b, grants, s, e)
    ensures Bounded(Step(b, Try(at, check)),
                    if s <= at <= e && Grants(b, Try(at, check)) then grants + 1 else grants, s, e)
  {
    hide Attempt;
    AttemptTokens(b, at, check);
    Distribute(b.rate, b.last - s, at - b.last, at - s);
    Distribute(b.rate, b.last - s, e - b.last, e - s);
    if s <= at {
      Earns(b.rate, at - s);
    }
    if b.last <= e {
      Earns(b.rate, e - b.last);
    }
    Earns(b.rate, e - s);
  }

  /** The bound at the end of a run, wherever its last refill fell. */
  lemma BoundedEnds(r: Bucket, grants: nat, s: real, e: real)
    requires Sane(r) && s <= e && Bounded(r, grants, s, e)
    ensures grants as real <= r.capacity + r.rate * (e - s)
  {
    if r.last < s {
      Earns(r.rate, e - s);
    } else if r.last <= e {
      Distribute(r.rate, r.last - s, e - r.last, e - s);
      Earns(r.rate, e - r.last);
    }
  }

  /** The last refill is never later than the run so far. */
  lemma {:induction false} RunFacts(b: Bucket, es: seq<Event>)
    requires Sane(b) && Ordered(b.last, es)
    ensures Sane(Run(b, es))
    ensures b.last <= Run(b, es).last <= if es == [] then b.last else End(es[|es| - 1])
  {
    hide Step;
    if es != [] {
      var n := |es| - 1;
      RunFacts(b, es[..n]);
      StepKeepsSane(Run(b, es[..n]), es[n]);
      StepLast(Run(b, es[..n]), es[n]);
    }
  }

  lemma StepLast(b: Bucket, e: Event)
    requires b.rate > 0.0
    ensures Step(b, e).last == if e.Try? then e.at else b.last
  {
  }

  lemma {:induction false} RunBounded(b: Bucket, es: seq<Event>, s: real, e: real)
    requires Sane(b) && Ordered(b.last, es) && s <= e
    ensures Bounded(Run(b, es), GrantsIn(b, es, s, e), s, e)
  {
    hide Step, Grants, Bounded;
    if es == [] {
      NothingYet(b, s, e);
    } else {
      var n := |es| - 1;
      RunBounded(b, es[..n], s, e);
      LastBefore(b, es);
      StepBounded(Run(b, es[..n]), es[n], GrantsIn(b, es[..n], s, e), s, e);
    }
  }

  lemma NothingYet(b: Bucket, s: real, e: real)
    requires Sane(b) && s <= e
    ensures Bounded(b, 0, s, e)
  {
    assert b.rate * (e - s) >= 0.0;
    if s <= b.last {
      assert b.rate * (b.last - s) >= 0.0;
    }
  }

  lemma LastBefore(b: Bucket, es: seq<Event>)
    requires es != [] && Sane(b) && Ordered(b.last, es)
    ensures var n := |es| - 1;
      Sane(Run(b, es[..n])) && Run(b, es[..n]).last <= es[n].at
  {
    var n := |es| - 1;
    RunFacts(b, es[..n]);
    if n > 0 {
      assert es[..n][n - 1] == es[n - 1];
    }
  }

  lemma StepBounded(b: Bucket, e: Event, grants: nat, s: real, t: real)
    requires Sane(b) && b.last <= e.at && s <= t && Bounded(b, grants, s, t)
    ensures Bounded(Step(b, e), if s <= e.at <= t && Grants(b, e) then grants + 1 else grants, s, t)
  {
    hide Bounded, Attempt, Paused;
    match e {
      case Try(at, check) =>
        TryKeepsBounded(b, at, check, grants, s, t);
      case Pause(at, d) =>
        PauseKeepsBounded(b, at, d, grants, s, t);
        assert Step(b, e) == Paused(b, at, d);
    }
  }

  lemma PauseKeepsBounded(b: Bucket, at: real, d: real, grants: nat, s: real, e: real)
    requires Bounded(b, grants, s, e)
    ensures Bounded(Paused(b, at, d), grants, s, e)
  {
  }

  /** In any run, any window hands out at most a full bucket plus what the rate
      supplies over its length. */
  lemma RateBound(b: Bucket, es: seq<Event>, s: real, e: real)
    requires Sane(b) && Ordered(b.last, es) && s <= e
    ensures GrantsIn(b, es, s, e) as real <= b.capacity + b.rate * (e - s)
  {
    hide Step, Grants, Run, GrantsIn;
    RunBounded(b, es, s, e);
    RunFacts(b, es);
    BoundedEnds(Run(b, es), GrantsIn(b, es, s, e), s, e);
  }

  // --- pauses --------------------------------------------------------------------------

  /** A pause still to run out is at least as long as any asked for. */
  predicate Holds(b: Bucket, until: real, now: real) {
    until <= now || (b.pausedUntil.Some? && b.pausedUntil.value >= until)
  }

  lemma StepHolds(b: Bucket, e: Event, until: real, before: real)
    requires b.rate > 0.0 && Holds(b, until, before) && before <= e.at <= End(e)
    ensures Holds(Step(b, e), until, End(e))
    ensures Grants(b, e) ==> e.Try? && until <= e.check
  {
  }

  lemma {:induction false} PauseHolds(b: Bucket, es: seq<Event>, p: nat)
    requires b.rate > 0.0 && p < |es| && es[p].Pause? && Ordered(b.last, es)
    ensures Holds(Run(b, es), es[p].at + es[p].d, End(es[|es| - 1]))
  {
    hide Step, Holds;
    var n := |es| - 1;
    if p == n {
      PauseStarts(Run(b, es[..n]), es[n]);
    } else {
      PauseHolds(b, es[..n], p);
      StepHolds(Run(b, es[..n]), es[n], es[p].at + es[p].d, End(es[n - 1]));
    }
  }

  lemma PauseStarts(b: Bucket, e: Event)
    requires b.rate > 0.0 && e.Pause?
    ensures Holds(Step(b, e), e.at + e.d, End(e))
  {
  }

  /** No token is handed out before the end of any earlier pause, however many
      pauses and attempts come between. */
  lemma NoGrantDuringPause(b: Bucket, es: seq<Event>, p: nat, g: nat)
    requires b.rate > 0.0 && p < g < |es| && es[p].Pause? && Ordered(b.last, es)
    requires Grants(Run(b, es[..g]), es[g])
    ensures es[p].at + es[p].d <= es[g].check
  {
    hide Step, Grants, Run;
    assert es[..g][p] == es[p] && es[..g][g - 1] == es[g - 1];
    assert forall i | 0 <= i < g :: es[..g][i] == es[i];
    PauseHolds(b, es[..g], p);
    StepHolds(Run(b, es[..g]), es[g], es[p].at + es[p].d, End(es[g - 1]));
  }

  /** A pause in force is one that was asked for, and has its end. */
  lemma {:induction false} PauseWasAsked(b: Bucket, es: seq<Event>)
    requires b.rate > 0.0 && b.pausedUntil.None?
    ensures Run(b, es).pausedUntil.Some? ==>
      exists p | 0 <= p < |es| :: es[p].Pause? && Run(b, es).pausedUntil.value == es[p].at + es[p].d
  {
    hide Step;
    if es != [] {
      var n := |es| - 1;
      PauseWasAsked(b, es[..n]);
      StepPauses(Run(b, es[..n]), es[n]);
      if Run(b, es[..n]).pausedUntil.Some? {
        var p :| 0 <= p < n && es[..n][p].Pause? && Run(b, es[..n]).pausedUntil.value == es[..n][p].at + es[..n][p].d;
        assert es[p] == es[..n][p];
      }
    }
  }

  lemma StepPauses(b: Bucket, e: Event)
    requires b.rate > 0.0
    ensures var p := Step(b, e).pausedUntil;
      p.None? || p == b.pausedUntil || (e.Pause? && p.value == e.at + e.d)
  {
  }

  // --- bursts ----------------------------------------------------------------------------

  /** Attempts made one after the other at one moment. */
  function AtOnce(at: real, n: nat): seq<Event> {
    seq(n, _ => Try(at, at))
  }

  /** A bucket that holds n tokens and is not paused hands out n at once. */
  lemma {:induction false} BurstIsServed(b: Bucket, at: real, n: nat, k: nat)
    requires Sane(b) && b.last <= at && !Blocked(b, at) && n as real <= Refill(b, at).tokens && k < n
    ensures Grants(Run(b, AtOnce(at, n)[..k]), AtOnce(at, n)[k])
    ensures var r := Run(b, AtOnce(at, n)[..k + 1]);
      r.tokens == Refill(b, at).tokens - (k + 1) as real && r.last == at && r.pausedUntil.None?
      && r.rate == b.rate && r.capacity == b.capacity
  {
    hide Refill, Attempt, Grants;
    var es := AtOnce(at, n);
    assert es[..k + 1][..k] == es[..k];
    if k == 0 {
      assert es[..0] == [];
      TokenGiven(b, at);
    } else {
      BurstIsServed(b, at, n, k - 1);
      var r := Run(b, es[..k]);
      RefillBounds(b, at);
      RefillFields(b, at);
      RefillNow(r, at);
      TokenGiven(r, at);
    }
  }

  lemma RefillNow(b: Bucket, at: real)
    requires b.rate > 0.0 && b.last == at && b.tokens <= b.capacity
    ensures Refill(b, at) == b
  {
  }

  lemma TokenGiven(b: Bucket, at: real)
    requires b.rate > 0.0 && !Blocked(b, at) && 1.0 <= Refill(b, at).tokens
    ensures Grants(b, Try(at, at))
    ensures Step(b, Try(at, at)) == Refill(b, at).(tokens := Refill(b, at).tokens - 1.0, pausedUntil := None)
    ensures Refill(b, at).last == at && Refill(b, at).rate == b.rate && Refill(b, at).capacity == b.capacity
  {
  }

  /** Left alone for as long as its capacity takes to earn, a bucket is full again. */
  lemma FullAgain(b: Bucket, at: real)
    requires Sane(b) && b.last + b.capacity / b.rate <= at
    ensures Refill(b, at).tokens == b.capacity
  {
    Quotient(b.capacity, b.rate);
    Earns(b.rate, at - b.last - b.capacity / b.rate);
    Distribute(b.rate, b.capacity / b.rate, at - b.last - b.capacity / b.rate, at - b.last);
  }

  // --- being served ----------------------------------------------------------------------

  /** A bucket that cannot hold one token never hands one out. */
  lemma TooSmallNeverGrants(b: Bucket, es: seq<Event>, g: nat)
    requires b.rate > 0.0 && b.capacity < 1.0 && g < |es|
    ensures !Grants(Run(b, es[..g]), es[g])
  {
    hide Run;
    TooSmallRefuses(Run(b, es[..g]), es[g]);
  }

  lemma TooSmallRefuses(b: Bucket, e: Event)
    requires b.rate > 0.0 && b.capacity < 1.0
    ensures !Grants(b, e)
  {
  }

  /** When the bucket holds, or first will hold, a whole token. */
  function FullAt(b: Bucket): real
    requires b.rate > 0.0
  {
    if b.tokens >= 1.0 then b.last else b.last + (1.0 - b.tokens) / b.rate
  }

  predicate Blocked(b: Bucket, now: real) {
    b.pausedUntil.Some? && b.pausedUntil.value > now
  }

  /** When a lone caller can first be served: not paused, and a whole token there. */
  function ReadyAt(b: Bucket, now: real): real
    requires b.rate > 0.0
  {
    Max(if Blocked(b, now) then b.pausedUntil.value else now, FullAt(b))
  }

  lemma Quotient(x: real, rate: real)
    requires rate > 0.0
    ensures x / rate * rate == x
    ensures x > 0.0 ==> x / rate > 0.0
  {
  }

  /** After a pause is slept off, or with none in force, an attempt at a time t
      succeeds exactly when t has reached the time the token is complete. */
  lemma GrantedWhenReady(b: Bucket, t: real)
    requires Sane(b) && b.capacity >= 1.0 && b.last <= t
    ensures Attempt(b, t, t).wait.None? <==> ReadyAt(b, t) <= t
  {
    if b.tokens < 1.0 {
      Reaches(b.tokens, b.rate, t - b.last);
    } else {
      Scale(b.rate, t - b.last, 0.0);
    }
  }

  lemma Reaches(tokens: real, rate: real, elapsed: real)
    requires rate > 0.0 && tokens < 1.0
    ensures tokens + elapsed * rate >= 1.0 <==> (1.0 - tokens) / rate <= elapsed
  {
    var wait := (1.0 - tokens) / rate;
    Quotient(1.0 - tokens, rate);
    Scale(rate, elapsed - wait, wait);
    if elapsed < wait { Scale(rate, wait - elapsed, elapsed); Positive(rate, wait - elapsed); }
  }

  lemma Positive(x: real, y: real)
    requires x > 0.0 && y > 0.0
    ensures x * y > 0.0
  {
  }

  // --- retrying ---------------------------------------------------------------------------

  /** Looking at the clock on the way costs nothing: two refills are one. */
  lemma RefillTwice(b: Bucket, t: real, u: real)
    requires Sane(b) && b.last <= t <= u
    ensures Refill(Refill(b, t), u) == Refill(b, u)
  {
    Scale(b.rate, t - b.last, u - t);
    Scale(b.rate, u - t, 0.0);
  }

  lemma WaitPositive(b: Bucket, t: real)
    requires Sane(b) && b.last <= t && Attempt(b, t, t).wait.Some?
    ensures Attempt(b, t, t).wait.value > 0.0
  {
    AttemptWaits(b, t);
    RefillRate(b, t);
    if !Blocked(b, t) {
      Quotient(1.0 - Refill(b, t).tokens, b.rate);
    }
  }

  lemma RefillRate(b: Bucket, t: real)
    ensures Refill(b, t).rate == b.rate && Refill(b, t).pausedUntil == b.pausedUntil && Refill(b, t).last == t
  {
  }

  /** Refilling does not move the time at which a whole token is there. */
  lemma FullAtSame(b: Bucket, t: real)
    requires Sane(b) && b.capacity >= 1.0 && b.last <= t
    ensures Refill(b, t).tokens < 1.0 ==> FullAt(Refill(b, t)) == FullAt(b)
    ensures Refill(b, t).tokens >= 1.0 ==> FullAt(b) <= t
  {
    Scale(b.rate, t - b.last, 0.0);
    var x, y := 1.0 - b.tokens, t - b.last;
    if Refill(b, t).tokens < 1.0 {
      assert Refill(b, t).tokens == b.tokens + y * b.rate;
      DivideDifference(x, y, b.rate);
    } else if b.tokens < 1.0 {
      Reaches(b.tokens, b.rate, y);
    }
  }

  /** A waiting attempt keeps the refilled bucket, minus a pause that has run out. */
  lemma AttemptWaits(b: Bucket, t: real)
    requires b.rate > 0.0 && Attempt(b, t, t).wait.Some?
    ensures var r, c := Refill(b, t), Attempt(b, t, t).bucket;
      && c == r.(pausedUntil := if Blocked(b, t) then b.pausedUntil else None)
      && Attempt(b, t, t).wait.value ==
         (if Blocked(b, t) then b.pausedUntil.value else FullAt(r)) - t
      && (!Blocked(b, t) ==> r.tokens < 1.0)
  {
  }

  lemma AttemptSame(b: Bucket, t: real, v: real)
    requires Sane(b) && b.last <= t <= v && Attempt(b, t, t).wait.Some? && !Blocked(b, v)
    ensures Attempt(Attempt(b, t, t).bucket, v, v) == Attempt(b, v, v)
  {
    AttemptWaits(b, t);
    RefillTwice(b, t, v);
    RefillRate(b, t);
    RefillRate(b, v);
    var c := Attempt(b, t, t).bucket;
    assert Refill(c, v) == Refill(b, v).(pausedUntil := c.pausedUntil);
  }

  /** An attempt that has to wait changes neither when the caller can be served nor
      what the bucket will then hold. */
  lemma WaitingCostsNothing(b: Bucket, t: real)
    requires Sane(b) && b.capacity >= 1.0 && b.last <= t && Attempt(b, t, t).wait.Some?
    ensures var c, u, v := Attempt(b, t, t).bucket, t + Attempt(b, t, t).wait.value, ReadyAt(b, t);
      && Sane(c) && c.last == t < u <= v
      && c.rate == b.rate && c.capacity == b.capacity
      && ReadyAt(c, u) == v && !Blocked(c, u)
      && (!Blocked(b, t) ==> u == v)
      && Attempt(c, v, v) == Attempt(b, v, v)
  {
    RefillBounds(b, t);
    RefillRate(b, t);
    AttemptWaits(b, t);
    FullAtSame(b, t);
    WaitPositive(b, t);
    hide Refill, Attempt, FullAt;
    FullAtFields(b, t);
    AttemptSame(b, t, ReadyAt(b, t));
  }

  /** Whether a pause is recorded makes no difference to the tokens. */
  lemma FullAtFields(b: Bucket, t: real)
    requires b.rate > 0.0
    ensures forall p :: FullAt(Refill(b, t).(pausedUntil := p)) == FullAt(Refill(b, t))
    ensures Refill(b, t).tokens >= 1.0 ==> FullAt(Refill(b, t)) == t
  {
  }

  lemma DivideDifference(x: real, y: real, rate: real)
    requires rate > 0.0
    ensures (x - y * rate) / rate == x / rate - y
  {
    var q := x / rate;
    Quotient(x, rate);
    assert x - y * rate == (q - y) * rate;
    assert (q - y) * rate / rate == q - y;
  }
}
