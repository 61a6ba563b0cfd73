/** The token bucket as the object its callers share. */
module TokenBucket {
  import opened Bytes
  import opened BucketModel
  import opened BucketLaws

  class RateLimit {
    var tokens: real
    const capacity: real
    const perSec: real
    var last: real
    var pausedUntil: Option<real>

    ghost function View(): Bucket
      reads this
    {
      Bucket(tokens, capacity, perSec, last, pausedUntil)
    }

    constructor (perSec: real, capacity: real, now: real)
      requires perSec > 0.0
      ensures View() == Full(perSec, capacity, now)
    {
      this.perSec, this.capacity := perSec, capacity;
      tokens, last, pausedUntil := capacity, now, None;
    }

    method Refill(now: real)
      modifies this
      ensures View() == BucketModel.Refill(old(View()), now)
    {
      var elapsed := if now > last then now - last else 0.0;
      last := now;
      tokens := tokens + elapsed * perSec;
      if tokens > capacity {
        tokens := capacity;
      }
    }

    method Take(now: real) returns (wait: Option<real>)
      requires perSec > 0.0
      modifies this
      ensures Taken(View(), wait) == BucketModel.Take(old(View()), now)
    {
      if pausedUntil.Some? {
        var until := pausedUntil.value;
        if until > now {
          return Some(until - now);
        }
        pausedUntil := None;
      }
      if tokens >= 1.0 {
        tokens := tokens - 1.0;
        return None;
      }
      wait := Some((1.0 - tokens) / perSec);
    }

    method Pause(now: real, d: real)
      modifies this
      ensures View() == Paused(old(View()), now, d)
    {
      var until := now + d;
      if pausedUntil.None? || until > pausedUntil.value {
        pausedUntil := Some(until);
      }
    }

    /** Retry until served, with nobody else at the bucket and sleeps that end on
        time. The caller is served at the first moment it could have been, having
        slept exactly until then, and its waiting leaves no trace in the bucket. */
    method Acquire(start: real) returns (slept: real)
      requires Sane(View()) && capacity >= 1.0 && last <= start
      modifies this
      ensures start + slept == ReadyAt(old(View()), start)
      ensures View() == Attempt(old(View()), start + slept, start + slept).bucket
    {
      hide BucketModel.Refill, BucketModel.Take, Attempt, ReadyAt;
      slept := 0.0;
      ghost var ready := ReadyAt(View(), start);
      while true
        invariant Sane(View()) && last <= start + slept
        invariant ReadyAt(View(), start + slept) == ready
        invariant slept > 0.0 ==> !Blocked(View(), start + slept)
        invariant Attempt(View(), ready, ready) == Attempt(old(View()), ready, ready)
        decreases Turns(View(), start + slept)
      {
        var now := start + slept;
        ghost var before := View();
        ServedWhenReady(before, now);
        AttemptIs(before, now);
        Refill(now);
        var wait := Take(now);
        if wait.None? {
          return;
        }
        WaitingCostsNothing(before, now);
        TurnsShrink(before, View(), now, now + wait.value);
        slept := slept + wait.value;
      }
    }
  }

  /** At most two sleeps remain: out of the pause, and up to the next token. */
  function Turns(b: Bucket, now: real): nat
    requires b.rate > 0.0
  {
    if Blocked(b, now) then 2 else if ReadyAt(b, now) > now then 1 else 0
  }

  lemma TurnsShrink(b: Bucket, c: Bucket, t: real, u: real)
    requires b.rate > 0.0 && c.rate > 0.0 && t < u && !Blocked(c, u)
    requires ReadyAt(c, u) == ReadyAt(b, t) && (!Blocked(b, t) ==> u == ReadyAt(b, t))
    ensures Turns(c, u) < Turns(b, t)
  {
  }

  lemma ServedWhenReady(b: Bucket, t: real)
    requires Sane(b) && b.capacity >= 1.0 && b.last <= t
    ensures Attempt(b, t, t).wait.None? <==> ReadyAt(b, t) == t
  {
    GrantedWhenReady(b, t);
    assert ReadyAt(b, t) >= t;
  }

  lemma AttemptIs(b: Bucket, t: real)
    requires b.rate > 0.0
    ensures BucketModel.Refill(b, t).rate == b.rate
    ensures Attempt(b, t, t) == BucketModel.Take(BucketModel.Refill(b, t), t)
  {
  }
}
