/**
  src/services/cacheService.ts: thin operations on the shared store, plus the
  running-average update of the processing time.
 */
module CacheService {
  import opened Wrappers
  import opened Store

  /**
    `redis.incr(key)`: an absent key counts as 0; a value that is not an integer
    makes Redis reject the command (the promise rejects) and changes nothing.
   */
  method IncrementCacheStatistic(redis: Redis, key: string) returns (ok: bool)
    modifies redis
    ensures ok <==> key !in old(redis.data) || (old(redis.data)[key].Num? && IsIntegral(old(redis.data)[key].x))
    ensures ok ==> redis.data == old(redis.data)[key := Num(old(NumberAt(redis.data, key)) + 1.0)]
    ensures !ok ==> redis.data == old(redis.data)
    ensures IsCounter(key) && Valid(old(redis.data)) ==> Valid(redis.data)
  {
    if key !in redis.data || (redis.data[key].Num? && IsIntegral(redis.data[key].x)) {
      var next := NumberAt(redis.data, key) + 1.0;
      if IsCounter(key) && Valid(redis.data) {
        assert next.Floor == NumberAt(redis.data, key).Floor + 1;
        ValidWrite(redis.data, key, Num(next));
      }
      redis.data := redis.data[key := Num(next)];
      ok := true;
    } else {
      ok := false;
    }
  }

  /** The mean of n samples averaging `average`, together with one more sample `time`. */
  function NextAverage(average: real, n: real, time: real): (r: real)
    requires n >= 0.0
    ensures r * (n + 1.0) == average * n + time
  {
    (average * n + time) / (n + 1.0)
  }

  /** The first sample is the average; later ones move it toward themselves, never past. */
  lemma AverageBetween(average: real, n: real, time: real)
    requires n >= 0.0
    ensures n == 0.0 ==> NextAverage(average, n, time) == time
    ensures average <= time ==> average <= NextAverage(average, n, time) <= time
    ensures time <= average ==> time <= NextAverage(average, n, time) <= average
  {
    var r := NextAverage(average, n, time);
    assert r * (n + 1.0) == average * n + time;
    assert (r - average) * (n + 1.0) == time - average;
    assert (time - r) * (n + 1.0) == (time - average) * n;
  }

  function Sum(ts: seq<real>): real {
    if ts == [] then 0.0 else Sum(ts[..|ts| - 1]) + ts[|ts| - 1]
  }

  /**
    The stored average after the samples `ts` were recorded, one by one, starting
    from 0 while `totalRequests` equalled the number of samples already recorded.
   */
  function Replay(ts: seq<real>): real {
    if ts == [] then 0.0
    else NextAverage(Replay(ts[..|ts| - 1]), (|ts| - 1) as real, ts[|ts| - 1])
  }

  /** Under that discipline the stored value is the arithmetic mean of the samples. */
  lemma {:induction false} ReplayIsMean(ts: seq<real>)
    requires |ts| > 0
    ensures Replay(ts) == Sum(ts) / |ts| as real
  {
    var k := |ts|;
    var p := ts[..k - 1];
    if k == 1 {
      assert p == [];
    } else {
      ReplayIsMean(p);
      var m := (k - 1) as real;
      assert Replay(p) * m == Sum(p);
      assert Replay(ts) == (Sum(p) + ts[k - 1]) / (m + 1.0);
    }
  }

  /**
    `updateAverageProcessingTime(time)`: reads `totalRequests` and the average
    (each 0 when absent) and overwrites only the average.
   */
  method UpdateAverageProcessingTime(redis: Redis, time: real)
    requires StatsTyped(redis.data)
    modifies redis
    ensures redis.data == old(redis.data)[AverageProcessingTime :=
      Num(NextAverage(old(NumberAt(redis.data, AverageProcessingTime)), old(NumberAt(redis.data, TotalRequests)), time))]
    ensures Valid(old(redis.data)) ==> Valid(redis.data)
  {
    var totalRequests := GetCache(redis, TotalRequests);
    var average := GetCache(redis, AverageProcessingTime);
    var n := if totalRequests.Some? then totalRequests.value.x else 0.0;
    var avg := if average.Some? then average.value.x else 0.0;
    if Valid(redis.data) {
      ValidWrite(redis.data, AverageProcessingTime, Num(NextAverage(avg, n, time)));
    }
    SetCache(redis, AverageProcessingTime, Num(NextAverage(avg, n, time)));
  }

  /** `getCache(key)`: the stored value, or null for a key that was never set. */
  method GetCache(redis: Redis, key: string) returns (r: Option<Value>)
    ensures r.Some? <==> key in redis.data
    ensures r.Some? ==> r.value == redis.data[key]
  {
    r := if key in redis.data then Some(redis.data[key]) else None;
  }

  /** `setCache(key, value)`: overwrites `key` and nothing else. */
  method SetCache(redis: Redis, key: string, value: Value)
    modifies redis
    ensures redis.data == old(redis.data)[key := value]
    ensures Valid(old(redis.data)) && Fits(key, value) ==> Valid(redis.data)
  {
    if Valid(redis.data) && Fits(key, value) {
      ValidWrite(redis.data, key, value);
    }
    redis.data := redis.data[key := value];
  }

  /** `getCacheSize()` (DBSIZE): every key, statistics keys included. */
  method GetCacheSize(redis: Redis) returns (n: nat)
    ensures n == |redis.data.Keys|
  {
    n := |redis.data|;
  }

  /** A value written with setCache is what getCache returns next. */
  method SetThenGet(redis: Redis, key: string, value: Value) returns (r: Option<Value>)
    modifies redis
    ensures r == Some(value)
    ensures redis.data == old(redis.data)[key := value]
  {
    SetCache(redis, key, value);
    r := GetCache(redis, key);
  }
}
