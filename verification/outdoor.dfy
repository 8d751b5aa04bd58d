/** `fetchOutdoorReadings` and `retryFetch` of server.js: the weather
    provider's answer mapped to a reading, and the schedule of waits between
    failed fetches. The network and the timers are left out; which attempts
    fail is a parameter. */
module Outdoor {
  import opened Wrappers
  import opened Readings

  /** The fields of the provider's JSON answer the server reads. */
  datatype WeatherPayload = WeatherPayload(dt: int, temp: real, pressure: real, humidity: real)

  /** The carbon dioxide level reported for outdoor air, in ppm. */
  const OutdoorCo2: real := 440.0

  /** The wait before the first retry, in ms. */
  const InitialBackoff: nat := 500

  /** The reading built from the provider's answer. */
  function OutdoorReading(p: WeatherPayload): (r: Reading)
    ensures KeysOf(r) == OutdoorKeys
  {
    [ Entry("date", (p.dt * 1000) as real),
      Entry("co2", OutdoorCo2),
      Entry("temperature", p.temp),
      Entry("pressure", p.pressure),
      Entry("humidity", p.humidity) ]
  }

  /** The keys of an outdoor reading, in order. */
  const OutdoorKeys: seq<string> := ["date", "co2", "temperature", "pressure", "humidity"]

  /** Each field of the reading holds the value the mapping promises: the
      timestamp in ms, the fixed outdoor level, and the three measurements
      copied from the payload. */
  lemma OutdoorReadingFields(p: WeatherPayload)
    ensures ValueOf(OutdoorReading(p), "date") == Some((p.dt * 1000) as real)
    ensures ValueOf(OutdoorReading(p), "co2") == Some(OutdoorCo2)
    ensures ValueOf(OutdoorReading(p), "temperature") == Some(p.temp)
    ensures ValueOf(OutdoorReading(p), "pressure") == Some(p.pressure)
    ensures ValueOf(OutdoorReading(p), "humidity") == Some(p.humidity)
  {
    var r := OutdoorReading(p);
    forall i | 0 <= i < |r|
      ensures ValueOf(r, r[i].key) == Some(r[i].value)
    {
      ValueOfAt(r, i);
    }
    assert r[0].key == "date" && r[1].key == "co2" && r[2].key == "temperature";
    assert r[3].key == "pressure" && r[4].key == "humidity";
  }

  function Pow2(k: nat): (p: nat)
    ensures p >= 1
  {
    if k == 0 then 1 else 2 * Pow2(k - 1)
  }

  /** Doubling the backoff shifts the schedule by one retry. */
  lemma DoubledBackoff(backoff: nat, i: nat)
    ensures (backoff * 2) * Pow2(i) == backoff * Pow2(i + 1)
    ensures (backoff * Pow2(i)) * 2 == backoff * Pow2(i + 1)
  {
    assert Pow2(i + 1) == 2 * Pow2(i);
  }

  /** How a run of fetch attempts ends: with the attempt that succeeded, or
      still retrying after the attempts seen so far. `waits` lists the delays
      slept before each retry. There is no outcome for giving up. */
  datatype RetryOutcome =
    | Fetched(attempt: nat, waits: seq<nat>)
    | StillRetrying(waits: seq<nat>)

  /** `retryFetch(resource, options, backoff)` over the outcomes of the
      successive attempts (`true` for an attempt that succeeds): a failure
      waits `backoff` and retries with `backoff * 2`. */
  function Retry(attempts: seq<bool>, backoff: nat): (r: RetryOutcome)
    ensures r.Fetched? ==> r.attempt < |attempts| && attempts[r.attempt] && |r.waits| == r.attempt
    ensures r.Fetched? ==> forall j :: 0 <= j < r.attempt ==> !attempts[j]
    ensures r.StillRetrying? ==> |r.waits| == |attempts|
    ensures r.StillRetrying? ==> forall j :: 0 <= j < |attempts| ==> !attempts[j]
    ensures forall i :: 0 <= i < |r.waits| ==> r.waits[i] == backoff * Pow2(i)
    decreases |attempts|
  {
    if |attempts| == 0 then StillRetrying([])
    else if attempts[0] then Fetched(0, [])
    else
      var rest := Retry(attempts[1..], backoff * 2);
      var waits := [backoff] + rest.waits;
      ShiftedWaits(backoff, rest.waits);
      if rest.Fetched? then
        assert forall j :: 1 <= j < rest.attempt + 1 ==> attempts[j] == attempts[1..][j - 1];
        Fetched(rest.attempt + 1, waits)
      else
        assert forall j :: 1 <= j < |attempts| ==> attempts[j] == attempts[1..][j - 1];
        StillRetrying(waits)
  }

  /** Waits that double from `2 * backoff`, preceded by `backoff`, double
      from `backoff`. */
  lemma ShiftedWaits(backoff: nat, rest: seq<nat>)
    requires forall i :: 0 <= i < |rest| ==> rest[i] == (backoff * 2) * Pow2(i)
    ensures forall i :: 0 <= i < |rest| + 1 ==> ([backoff] + rest)[i] == backoff * Pow2(i)
  {
    forall i | 1 <= i < |rest| + 1
      ensures ([backoff] + rest)[i] == backoff * Pow2(i)
    {
      assert ([backoff] + rest)[i] == rest[i - 1];
      DoubledBackoff(backoff, i - 1);
    }
  }

  /** The delays `retryFetch` sleeps before each of the first `n` retries. */
  method RetryDelays(n: nat) returns (delays: seq<nat>)
    ensures |delays| == n
    ensures n > 0 ==> delays[0] == InitialBackoff
    ensures forall i :: 0 < i < n ==> delays[i] == 2 * delays[i - 1]
    ensures forall i :: 0 <= i < n ==> delays[i] == InitialBackoff * Pow2(i)
  {
    delays := [];
    var backoff := InitialBackoff;
    while |delays| < n
      invariant |delays| <= n
      invariant backoff == InitialBackoff * Pow2(|delays|)
      invariant forall i :: 0 <= i < |delays| ==> delays[i] == InitialBackoff * Pow2(i)
      invariant forall i :: 0 < i < |delays| ==> delays[i] == 2 * delays[i - 1]
      invariant |delays| > 0 ==> backoff == 2 * delays[|delays| - 1]
    {
      DoubledBackoff(InitialBackoff, |delays|);
      delays := delays + [backoff];
      backoff := backoff * 2;
    }
  }

  function Sum(xs: seq<nat>): nat
  {
    if |xs| == 0 then 0 else Sum(xs[..|xs| - 1]) + xs[|xs| - 1]
  }

  /** After `k` failures the server has waited `500 * (2^k - 1)` ms in all. */
  lemma {:induction false} TotalWait(waits: seq<nat>)
    requires forall i :: 0 <= i < |waits| ==> waits[i] == InitialBackoff * Pow2(i)
    ensures Sum(waits) == InitialBackoff * (Pow2(|waits|) - 1)
    decreases |waits|
  {
    if |waits| > 0 {
      var init := waits[..|waits| - 1];
      TotalWait(init);
    }
  }

  /** Every attempt failing leaves the fetch still retrying, having slept a
      doubling delay before each retry. */
  lemma AllFailuresKeepRetrying(attempts: seq<bool>)
    requires forall i :: 0 <= i < |attempts| ==> !attempts[i]
    ensures Retry(attempts, InitialBackoff).StillRetrying?
    ensures Sum(Retry(attempts, InitialBackoff).waits) == InitialBackoff * (Pow2(|attempts|) - 1)
  {
    TotalWait(Retry(attempts, InitialBackoff).waits);
  }
}
