/** The token bucket on values: refill, take and pause as functions of the clock.
    Times, tokens and rates are real numbers. An attempt reads the clock twice,
    once to refill and once to look at the pause, while holding the lock. */
module BucketModel {
  import opened Bytes

  datatype Bucket = Bucket(tokens: real, capacity: real, rate: real, last: real, pausedUntil: Option<real>)

  function Full(rate: real, capacity: real, now: real): Bucket {
    Bucket(capacity, capacity, rate, now, None)
  }

  function Min(x: real, y: real): real {
    if x <= y then x else y
  }

  function Max(x: real, y: real): real {
    if x <= y then y else x
  }

  function Refill(b: Bucket, now: real): Bucket {
    var elapsed := if now > b.last then now - b.last else 0.0;
    b.(last := now, tokens := Min(b.tokens + elapsed * b.rate, b.capacity))
  }

  /** The bucket after an attempt, with the wait it imposes, or none when it gave a token. */
  datatype Taken = Taken(bucket: Bucket, wait: Option<real>)

  function Take(b: Bucket, now: real): Taken
    requires b.rate > 0.0
  {
    if b.pausedUntil.Some? && b.pausedUntil.value > now then Taken(b, Some(b.pausedUntil.value - now))
    else
      var b := b.(pausedUntil := None);
      if b.tokens >= 1.0 then Taken(b.(tokens := b.tokens - 1.0), None)
      else Taken(b, Some((1.0 - b.tokens) / b.rate))
  }

  function Attempt(b: Bucket, now: real, then_: real): Taken
    requires b.rate > 0.0
  {
    Take(Refill(b, now), then_)
  }

  /** A pause never shortens one already in force. */
  function Paused(b: Bucket, now: real, d: real): Bucket {
    if b.pausedUntil.None? || now + d > b.pausedUntil.value then b.(pausedUntil := Some(now + d)) else b
  }

  datatype Event = Try(at: real, check: real) | Pause(at: real, d: real)

  function End(e: Event): real {
    if e.Try? then e.check else e.at
  }

  function Step(b: Bucket, e: Event): Bucket
    requires b.rate > 0.0
    ensures Step(b, e).rate == b.rate && Step(b, e).capacity == b.capacity
  {
    match e
    case Try(at, check) => Attempt(b, at, check).bucket
    case Pause(at, d) => Paused(b, at, d)
  }

  predicate Grants(b: Bucket, e: Event)
    requires b.rate > 0.0
  {
    e.Try? && Attempt(b, e.at, e.check).wait.None?
  }

  function Run(b: Bucket, es: seq<Event>): (r: Bucket)
    requires b.rate > 0.0
    ensures r.rate == b.rate && r.capacity == b.capacity
  {
    if es == [] then b else Step(Run(b, es[..|es| - 1]), es[|es| - 1])
  }

  /** The clock never goes back. */
  predicate Ordered(start: real, es: seq<Event>) {
    && (forall i | 0 <= i < |es| :: start <= es[i].at <= End(es[i]))
    && (forall i, j | 0 <= i < j < |es| :: End(es[i]) <= es[j].at)
  }

  /** How many tokens are handed out in the window from s to e. */
  function GrantsIn(b: Bucket, es: seq<Event>, s: real, e: real): nat
    requires b.rate > 0.0
  {
    if es == [] then 0
    else
      var n := |es| - 1;
      GrantsIn(b, es[..n], s, e)
      + if s <= es[n].at <= e && Grants(Run(b, es[..n]), es[n]) then 1 else 0
  }
}
