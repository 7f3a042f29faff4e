/**
  The shared Redis key-value store, as an in-memory map. A Redis value is a string;
  the model records what that string encodes: a number (the counters and the
  average), a JSON object of label counts (the two frequency maps), or other text
  (the base64 image payloads).
 */
module Store {
  import Base64

  /** One `name: count` member of a JSON object, kept in insertion order. */
  datatype Entry = Entry(name: string, count: int)

  datatype Value = Num(x: real) | Dict(entries: seq<Entry>) | Text(s: string)

  const ResizedImages := "resizedImages"
  const CacheHits := "cacheHits"
  const CacheMisses := "cacheMisses"
  const TotalRequests := "totalRequests"
  const TotalErrors := "totalErrors"
  const AverageProcessingTime := "averageProcessingTime"
  const MostRequestedResolutions := "mostRequestedResolutions"
  const MostRequestedImages := "mostRequestedImages"

  /** The five counters, which only ever grow by one. */
  predicate IsCounter(key: string) {
    key == ResizedImages || key == CacheHits || key == CacheMisses || key == TotalRequests || key == TotalErrors
  }

  predicate IsFrequencyMap(key: string) {
    key == MostRequestedResolutions || key == MostRequestedImages
  }

  predicate IsStatistic(key: string) {
    IsCounter(key) || key == AverageProcessingTime || IsFrequencyMap(key)
  }

  predicate IsIntegral(x: real) {
    x.Floor as real == x
  }

  /** A JSON object has no key twice. */
  predicate UniqueLabels(f: seq<Entry>) {
    forall i, j :: 0 <= i < j < |f| ==> f[i].name != f[j].name
  }

  /**
    Every statistics key that is present holds a value of its kind: a counter a
    non-negative integer, the average a number, a frequency map a JSON object.
   */
  predicate StatsTyped(db: map<string, Value>) {
    && (forall k :: k in db && IsCounter(k) ==> db[k].Num? && IsIntegral(db[k].x) && db[k].x >= 0.0)
    && (AverageProcessingTime in db ==> db[AverageProcessingTime].Num?)
    && (forall k :: k in db && IsFrequencyMap(k) ==> db[k].Dict? && UniqueLabels(db[k].entries))
  }

  /** Every key other than the statistics holds the base64 text of an image. */
  predicate PayloadsDecodable(db: map<string, Value>) {
    forall k :: k in db && !IsStatistic(k) ==> db[k].Text? && Base64.Decode(db[k].s).Some?
  }

  predicate Valid(db: map<string, Value>) {
    StatsTyped(db) && PayloadsDecodable(db)
  }

  /** What `key` may hold under Valid. */
  predicate Fits(key: string, v: Value) {
    if IsCounter(key) then v.Num? && IsIntegral(v.x) && v.x >= 0.0
    else if key == AverageProcessingTime then v.Num?
    else if IsFrequencyMap(key) then v.Dict? && UniqueLabels(v.entries)
    else v.Text? && Base64.Decode(v.s).Some?
  }

  /** Valid is exactly "every key holds what fits it", so one fitting write keeps it. */
  lemma ValidWrite(db: map<string, Value>, key: string, v: Value)
    requires Valid(db) && Fits(key, v)
    ensures Valid(db[key := v])
  {
    var db' := db[key := v];
    forall k | k in db' ensures Fits(k, db'[k]) {
      if k != key {
        ValidFits(db, k);
      }
    }
    FitsValid(db');
  }

  /** A write of a fitting value to a statistics key, or of anything elsewhere, keeps StatsTyped. */
  lemma StatsTypedWrite(db: map<string, Value>, key: string, v: Value)
    requires StatsTyped(db) && (IsStatistic(key) ==> Fits(key, v))
    ensures StatsTyped(db[key := v])
  {
  }

  lemma ValidFits(db: map<string, Value>, k: string)
    requires Valid(db) && k in db
    ensures Fits(k, db[k])
  {
  }

  lemma FitsValid(db: map<string, Value>)
    requires forall k :: k in db ==> Fits(k, db[k])
    ensures Valid(db)
  {
    forall k | k in db && IsCounter(k) ensures db[k].Num? && IsIntegral(db[k].x) && db[k].x >= 0.0 {
      assert Fits(k, db[k]);
    }
    if AverageProcessingTime in db {
      assert Fits(AverageProcessingTime, db[AverageProcessingTime]);
    }
    forall k | k in db && IsFrequencyMap(k) ensures db[k].Dict? && UniqueLabels(db[k].entries) {
      assert Fits(k, db[k]);
    }
    forall k | k in db && !IsStatistic(k) ensures db[k].Text? && Base64.Decode(db[k].s).Some? {
      assert Fits(k, db[k]);
    }
  }

  /** `Number(await redis.get(key) || 0)` for a key that holds a number when present. */
  function NumberAt(db: map<string, Value>, key: string): real
    requires key in db ==> db[key].Num?
  {
    if key in db then db[key].x else 0.0
  }

  /** `JSON.parse(await redis.get(key) || '{}')` for a key that holds an object when present. */
  function EntriesAt(db: map<string, Value>, key: string): seq<Entry>
    requires key in db ==> db[key].Dict?
  {
    if key in db then db[key].entries else []
  }

  /**
    The store as a connection sees it: one map that every operation reads and
    writes in place. The service's connections all reach the same server, so
    they share this one map.
   */
  class Redis {
    var data: map<string, Value>

    /** A connection to a server that already holds `contents`; connecting changes nothing. */
    constructor (contents: map<string, Value>)
      ensures data == contents
    {
      data := contents;
    }
  }
}
