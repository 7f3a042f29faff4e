/**
  src/app.ts: `initializeStatistics`, run once at start-up, which gives every
  statistic that is not yet in the store its starting value.
 */
module App {
  import opened Store
  import StatisticsService

  /** The six scalar statistics, in the order they are initialised. */
  const ScalarStatistics: seq<string> :=
    [ResizedImages, CacheHits, CacheMisses, TotalRequests, TotalErrors, AverageProcessingTime]

  /** The starting value of a statistic: 0, or the empty object for the two frequency maps. */
  function Default(key: string): Value {
    if IsFrequencyMap(key) then Dict([]) else Num(0.0)
  }

  /** `if (await redis.get(key) === null) await redis.set(key, v)`. */
  function SetIfAbsent(db: map<string, Value>, key: string, v: Value): (r: map<string, Value>)
    ensures r.Keys == db.Keys + {key}
    ensures key in db ==> r[key] == db[key]
    ensures key !in db ==> r[key] == v
    ensures forall k :: k in db && k != key ==> r[k] == db[k]
  {
    if key in db then db else db[key := v]
  }

  /** The store after the loop over `keys`. */
  function FillScalars(db: map<string, Value>, keys: seq<string>): map<string, Value>
  {
    if keys == [] then db
    else SetIfAbsent(FillScalars(db, keys[..|keys| - 1]), keys[|keys| - 1], Num(0.0))
  }

  /**
    The store after `initializeStatistics`: exactly the missing statistics are
    added, each with its starting value, and every key already in the store
    keeps its value.
   */
  function Initialized(db: map<string, Value>): (r: map<string, Value>)
    ensures forall k :: k in r <==> k in db || IsStatistic(k)
    ensures forall k :: k in db ==> r[k] == db[k]
    ensures forall k :: IsStatistic(k) && k !in db ==> r[k] == Default(k)
  {
    var scalars := FillScalars(db, ScalarStatistics);
    FillScalarsKeeps(db, ScalarStatistics);
    ScalarMembers();
    var resolutions := SetIfAbsent(scalars, MostRequestedResolutions, Dict([]));
    var r := SetIfAbsent(resolutions, MostRequestedImages, Dict([]));
    assert forall k :: IsStatistic(k) && k !in db ==> r[k] == Default(k) by {
      forall k | IsStatistic(k) && k !in db ensures r[k] == Default(k) {
        if IsFrequencyMap(k) {
          assert k !in ScalarStatistics;
        } else {
          assert k in ScalarStatistics;
        }
      }
    }
    r
  }

  /** `initializeStatistics` on the shared store. */
  method InitializeStatistics(redis: Redis)
    modifies redis
    ensures redis.data == Initialized(old(redis.data))
  {
    var i := 0;
    while i < |ScalarStatistics|
      invariant 0 <= i <= |ScalarStatistics|
      invariant redis.data == FillScalars(old(redis.data), ScalarStatistics[..i])
    {
      var statistic := ScalarStatistics[i];
      if statistic !in redis.data {
        redis.data := redis.data[statistic := Num(0.0)];
      }
      assert ScalarStatistics[..i + 1][..i] == ScalarStatistics[..i];
      i := i + 1;
    }
    assert ScalarStatistics[..i] == ScalarStatistics;
    if MostRequestedResolutions !in redis.data {
      redis.data := redis.data[MostRequestedResolutions := Dict([])];
    }
    if MostRequestedImages !in redis.data {
      redis.data := redis.data[MostRequestedImages := Dict([])];
    }
  }

  /** The loop keeps every present key and gives each listed absent key 0. */
  lemma {:induction false} FillScalarsKeeps(db: map<string, Value>, keys: seq<string>)
    ensures FillScalars(db, keys).Keys == db.Keys + set k | k in keys
    ensures forall k :: k in db ==> FillScalars(db, keys)[k] == db[k]
    ensures forall k :: k in keys && k !in db ==> FillScalars(db, keys)[k] == Num(0.0)
  {
    if keys != [] {
      var init := keys[..|keys| - 1];
      FillScalarsKeeps(db, init);
      assert keys == init + [keys[|keys| - 1]];
      assert (set k | k in keys) == (set k | k in init) + {keys[|keys| - 1]};
    }
  }

  lemma ScalarMembers()
    ensures forall k :: k in ScalarStatistics <==> IsCounter(k) || k == AverageProcessingTime
  {
  }

  /** Running initialisation twice leaves the store as running it once. */
  lemma InitializeIdempotent(db: map<string, Value>)
    ensures Initialized(Initialized(db)) == Initialized(db)
  {
    var once := Initialized(db);
    assert Initialized(once).Keys == once.Keys;
    assert forall k :: k in once ==> Initialized(once)[k] == once[k];
  }

  /** Initialisation keeps the store's layout: the starting values are of each statistic's kind. */
  lemma InitializedValid(db: map<string, Value>)
    requires Valid(db)
    ensures Valid(Initialized(db))
  {
    var r := Initialized(db);
    forall k | k in r ensures Fits(k, r[k]) {
      if k in db {
        ValidFits(db, k);
      } else {
        assert IsStatistic(k);
        assert r[k] == Default(k);
        assert IsIntegral(0.0);
      }
    }
    FitsValid(r);
  }

  /** The starting values are what reading an absent statistic gives, so the statistics read the same. */
  lemma InitializedSnapshot(db: map<string, Value>)
    requires StatsTyped(db)
    ensures StatsTyped(Initialized(db))
    ensures StatisticsService.Snapshot(Initialized(db)) == StatisticsService.Snapshot(db)
  {
    var r := Initialized(db);
    InitializedTyped(db);
    forall k | IsCounter(k) || k == AverageProcessingTime ensures NumberAt(r, k) == NumberAt(db, k) {
      assert !IsFrequencyMap(k);
    }
    forall k | IsFrequencyMap(k) ensures EntriesAt(r, k) == EntriesAt(db, k) {
    }
    var s1 := StatisticsService.Snapshot(r);
    var s2 := StatisticsService.Snapshot(db);
    assert s1.averageProcessingTime == s2.averageProcessingTime;
  }

  lemma InitializedTyped(db: map<string, Value>)
    requires StatsTyped(db)
    ensures StatsTyped(Initialized(db))
  {
    var r := Initialized(db);
    assert IsIntegral(0.0);
    forall k | k in r && IsCounter(k) ensures r[k].Num? && IsIntegral(r[k].x) && r[k].x >= 0.0 {
      assert !IsFrequencyMap(k);
    }
    forall k | k in r && IsFrequencyMap(k) ensures r[k].Dict? && UniqueLabels(r[k].entries) {
    }
  }
}
