/** The one-slot cache behind `/outside` in server.js. It holds the last
    outdoor reading and the time it was stored, in ms since the epoch, and
    starts empty at time 0. The clock readings and the outcome of the fetch
    are parameters of each step. */
module OutsideCache {
  import opened Wrappers
  import opened Readings

  datatype Cache = Cache(value: Option<Reading>, from: int)

  /** The cache as the server starts: no value, stored at the epoch. */
  const Initial := Cache(None, 0)

  /** How long a stored reading is served before it is fetched again, in ms. */
  const MaxAgeMs := 60 * 1000

  /** The stored reading is too old at time `now`. */
  predicate Stale(c: Cache, now: int)
  {
    now - c.from > MaxAgeMs
  }

  /** What one request to `/outside` yields: the reading it answers with
      (`None` for `undefined`) and the cache after it, or no answer at all
      because no reading arrived. */
  datatype StepResult =
    | Answered(value: Option<Reading>, next: Cache)
    | Waiting(next: Cache)

  /** One request at time `now`. When the entry is stale the reading is
      fetched; `fetched` is the outcome and `refreshedAt` the clock read
      after it arrives. `None` means that no reading arrives: the retries
      never end, or the answer lacks `dt` or `main` and the mapping to a
      reading throws. */
  function Step(c: Cache, now: int, fetched: Option<Reading>, refreshedAt: int): (r: StepResult)
    ensures !Stale(c, now) ==> r == Answered(c.value, c)
    ensures Stale(c, now) && fetched.Some? ==>
              r.Answered? && r.value == fetched && r.next == Cache(fetched, refreshedAt)
    ensures Stale(c, now) && fetched.None? ==> r == Waiting(c)
  {
    if Stale(c, now) then
      match fetched
      case Some(reading) => Answered(Some(reading), Cache(Some(reading), refreshedAt))
      case None => Waiting(c)
    else Answered(c.value, c)
  }

  /** The server never stores an empty value: an empty cache is the initial one. */
  predicate Valid(c: Cache)
  {
    c.value.None? ==> c.from == 0
  }

  /** Any request after the first minute since the epoch finds the initial
      cache stale, so the first answer is always fetched. */
  lemma FirstRequestFetches(now: int, reading: Reading, refreshedAt: int)
    requires now > MaxAgeMs
    ensures Step(Initial, now, Some(reading), refreshedAt)
            == Answered(Some(reading), Cache(Some(reading), refreshedAt))
  {
  }

  /** Within the minute the stored value is served unchanged, whatever the
      network would have answered. */
  lemma FreshIgnoresFetch(c: Cache, now: int, f1: Option<Reading>, a1: int, f2: Option<Reading>, a2: int)
    requires !Stale(c, now)
    ensures Step(c, now, f1, a1) == Step(c, now, f2, a2)
    ensures Step(c, now, f1, a1).next == c
  {
  }

  /** A request within the minute after a refresh gets the refreshed reading. */
  lemma RefreshThenServe(c: Cache, now1: int, reading: Reading, at: int,
                         now2: int, f2: Option<Reading>, at2: int)
    requires Stale(c, now1)
    requires now2 - at <= MaxAgeMs
    ensures var first := Step(c, now1, Some(reading), at);
            Step(first.next, now2, f2, at2) == Answered(Some(reading), first.next)
  {
  }

  /** One request as the environment decides it. */
  datatype Request = Request(now: int, fetched: Option<Reading>, refreshedAt: int)

  /** The answers to a run of requests, the cache threaded through them. */
  function Run(c: Cache, requests: seq<Request>): (r: (seq<Option<Option<Reading>>>, Cache))
    ensures |r.0| == |requests|
    decreases |requests|
  {
    if |requests| == 0 then ([], c)
    else
      var q := requests[0];
      var s := Step(c, q.now, q.fetched, q.refreshedAt);
      var rest := Run(s.next, requests[1..]);
      var answer := if s.Answered? then Some(s.value) else None;
      ([answer] + rest.0, rest.1)
  }

  /** Every step keeps the cache valid. */
  lemma StepKeepsValid(c: Cache, now: int, fetched: Option<Reading>, refreshedAt: int)
    requires Valid(c)
    ensures Valid(Step(c, now, fetched, refreshedAt).next)
  {
  }

  /** Once the clock is past the first minute, `/outside` never answers
      `undefined`: every answer of a run from a valid cache is a reading. */
  lemma {:induction false} NeverUndefined(c: Cache, requests: seq<Request>)
    requires Valid(c)
    requires forall i :: 0 <= i < |requests| ==> requests[i].now > MaxAgeMs
    ensures Valid(Run(c, requests).1)
    ensures forall i :: 0 <= i < |requests| && Run(c, requests).0[i].Some? ==>
              Run(c, requests).0[i].value.Some?
    decreases |requests|
  {
    if |requests| > 0 {
      var q := requests[0];
      var s := Step(c, q.now, q.fetched, q.refreshedAt);
      StepKeepsValid(c, q.now, q.fetched, q.refreshedAt);
      NeverUndefined(s.next, requests[1..]);
      var rest := Run(s.next, requests[1..]);
      assert forall i :: 1 <= i < |requests| ==> Run(c, requests).0[i] == rest.0[i - 1];
    }
  }
}
