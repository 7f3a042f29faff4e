/**
  src/services/statisticsService.ts: the two frequency maps (updated by a
  read-modify-write of the whole JSON object), the statistics snapshot with its
  defaults, and the top-N selection.
 */
module StatisticsService {
  import opened Wrappers
  import opened Store
  import Decimal
  import CacheService

  predicate HasName(f: seq<Entry>, name: string) {
    exists i :: 0 <= i < |f| && f[i].name == name
  }

  /** The count of `name` in the object, 0 when it has no such member. */
  function CountOf(f: seq<Entry>, name: string): int {
    if f == [] then 0 else if f[0].name == name then f[0].count else CountOf(f[1..], name)
  }

  /**
    `data[name] = data[name] ? data[name] + 1 : 1` on the object whose members are
    `f` in insertion order: an existing member keeps its place (a falsy count of 0
    also becomes 1, which is 0 + 1), a new member goes last.
   */
  function Bump(f: seq<Entry>, name: string): (r: seq<Entry>)
    requires UniqueLabels(f)
    ensures UniqueLabels(r)
    ensures HasName(f, name) ==> |r| == |f|
    ensures !HasName(f, name) ==> |r| == |f| + 1 && r[|f|] == Entry(name, 1)
    ensures forall i :: 0 <= i < |f| ==> r[i].name == f[i].name
    ensures forall i :: 0 <= i < |f| && f[i].name != name ==> r[i] == f[i]
    ensures forall i :: 0 <= i < |f| && f[i].name == name ==> r[i].count == f[i].count + 1
  {
    if f == [] then [Entry(name, 1)]
    else if f[0].name == name then [Entry(name, if f[0].count != 0 then f[0].count + 1 else 1)] + f[1..]
    else
      var rest := Bump(f[1..], name);
      assert HasName(f[1..], name) ==> HasName(f, name);
      assert HasName(f, name) ==> HasName(f[1..], name) by {
        if HasName(f, name) {
          var i :| 0 <= i < |f| && f[i].name == name;
          assert f[1..][i - 1].name == name;
        }
      }
      [f[0]] + rest
  }

  /** The bumped name counts one more (an absent one counts 1); every other name keeps its count. */
  lemma {:induction false} BumpCounts(f: seq<Entry>, name: string, other: string)
    requires UniqueLabels(f)
    ensures CountOf(Bump(f, name), name) == CountOf(f, name) + 1
    ensures other != name ==> CountOf(Bump(f, name), other) == CountOf(f, other)
  {
    if f != [] && f[0].name != name {
      BumpCounts(f[1..], name, other);
      assert Bump(f, name)[1..] == Bump(f[1..], name);
    }
  }

  /**
    `updateMostRequestedResolutions` and `updateMostRequestedImages`: parse the
    stored object (`{}` when absent), bump one member, write the whole object back.
   */
  method UpdateFrequency(redis: Redis, key: string, name: string)
    requires IsFrequencyMap(key) && StatsTyped(redis.data)
    modifies redis
    ensures redis.data == old(redis.data)[key := Dict(Bump(old(EntriesAt(redis.data, key)), name))]
    ensures StatsTyped(redis.data)
    ensures Valid(old(redis.data)) ==> Valid(redis.data)
  {
    var stored := CacheService.GetCache(redis, key);
    var data := if stored.Some? then stored.value.entries else [];
    var updated := Dict(Bump(data, name));
    StatsTypedWrite(redis.data, key, updated);
    if Valid(redis.data) {
      ValidWrite(redis.data, key, updated);
    }
    CacheService.SetCache(redis, key, updated);
  }

  method UpdateMostRequestedResolutions(redis: Redis, resolution: string)
    requires StatsTyped(redis.data)
    modifies redis
    ensures redis.data == old(redis.data)[MostRequestedResolutions :=
      Dict(Bump(old(EntriesAt(redis.data, MostRequestedResolutions)), resolution))]
    ensures StatsTyped(redis.data)
    ensures Valid(old(redis.data)) ==> Valid(redis.data)
  {
    UpdateFrequency(redis, MostRequestedResolutions, resolution);
  }

  method UpdateMostRequestedImages(redis: Redis, filename: string)
    requires StatsTyped(redis.data)
    modifies redis
    ensures redis.data == old(redis.data)[MostRequestedImages :=
      Dict(Bump(old(EntriesAt(redis.data, MostRequestedImages)), filename))]
    ensures StatsTyped(redis.data)
    ensures Valid(old(redis.data)) ==> Valid(redis.data)
  {
    UpdateFrequency(redis, MostRequestedImages, filename);
  }

  /** What `getStatisticsData` returns. */
  datatype StatisticsData = StatisticsData(
    resizedImages: real,
    cacheHits: real,
    cacheMisses: real,
    totalRequests: real,
    totalErrors: real,
    averageProcessingTime: string,
    mostRequestedResolutions: seq<Entry>,
    mostRequestedImages: seq<Entry>)

  /** Each statistic as stored, with 0, "0.00 ms" or `{}` standing in for an absent key. */
  function Snapshot(db: map<string, Value>): (s: StatisticsData)
    requires StatsTyped(db)
    ensures s.resizedImages >= 0.0 && s.cacheHits >= 0.0 && s.cacheMisses >= 0.0
    ensures s.totalRequests >= 0.0 && s.totalErrors >= 0.0
    ensures IsIntegral(s.resizedImages) && IsIntegral(s.cacheHits) && IsIntegral(s.cacheMisses)
    ensures IsIntegral(s.totalRequests) && IsIntegral(s.totalErrors)
    ensures |s.averageProcessingTime| >= 7 && s.averageProcessingTime[|s.averageProcessingTime| - 3..] == " ms"
    ensures UniqueLabels(s.mostRequestedResolutions) && UniqueLabels(s.mostRequestedImages)
  {
    StatisticsData(
      NumberAt(db, ResizedImages),
      NumberAt(db, CacheHits),
      NumberAt(db, CacheMisses),
      NumberAt(db, TotalRequests),
      NumberAt(db, TotalErrors),
      Decimal.ToFixed2(NumberAt(db, AverageProcessingTime)) + " ms",
      EntriesAt(db, MostRequestedResolutions),
      EntriesAt(db, MostRequestedImages))
  }

  /** A store holding none of the statistics reads as all zero and empty. */
  lemma SnapshotOfEmptyStore()
    ensures Snapshot(map[]) == StatisticsData(0.0, 0.0, 0.0, 0.0, 0.0, "0.00 ms", [], [])
  {
    Decimal.ToFixed2Examples();
  }

  method GetStatisticsData(redis: Redis) returns (s: StatisticsData)
    requires StatsTyped(redis.data)
    ensures s == Snapshot(redis.data)
  {
    var resizedImages := ReadNumber(redis, ResizedImages);
    var cacheHits := ReadNumber(redis, CacheHits);
    var cacheMisses := ReadNumber(redis, CacheMisses);
    var totalRequests := ReadNumber(redis, TotalRequests);
    var totalErrors := ReadNumber(redis, TotalErrors);
    var average := ReadNumber(redis, AverageProcessingTime);
    var resolutions := CacheService.GetCache(redis, MostRequestedResolutions);
    var images := CacheService.GetCache(redis, MostRequestedImages);
    s := StatisticsData(resizedImages, cacheHits, cacheMisses, totalRequests, totalErrors,
      Decimal.ToFixed2(average) + " ms",
      if resolutions.Some? then resolutions.value.entries else [],
      if images.Some? then images.value.entries else []);
  }

  /** `await getCache(key) || 0` for a numeric statistic. */
  method ReadNumber(redis: Redis, key: string) returns (x: real)
    requires StatsTyped(redis.data) && (IsCounter(key) || key == AverageProcessingTime)
    ensures x == NumberAt(redis.data, key)
  {
    var stored := CacheService.GetCache(redis, key);
    x := if stored.Some? then stored.value.x else 0.0;
  }

  // ---------------------------------------------------------------- getTopN

  /** Counts never increase from left to right. */
  predicate Descending(s: seq<Entry>) {
    forall i, j :: 0 <= i < j < |s| ==> s[i].count >= s[j].count
  }

  /** Puts `e` ahead of the first entry whose count is not larger than its own. */
  function Insert(e: Entry, s: seq<Entry>): (r: seq<Entry>)
    ensures |r| == |s| + 1
    ensures multiset(r) == multiset(s) + multiset{e}
  {
    if s == [] || s[0].count <= e.count then [e] + s
    else
      assert s == [s[0]] + s[1..];
      [s[0]] + Insert(e, s[1..])
  }

  lemma {:induction false} InsertKeepsDescending(e: Entry, s: seq<Entry>)
    requires Descending(s)
    ensures Descending(Insert(e, s))
  {
    if s != [] && s[0].count > e.count {
      var t := Insert(e, s[1..]);
      InsertKeepsDescending(e, s[1..]);
      forall j | 0 <= j < |t| ensures s[0].count >= t[j].count {
        assert t[j] in multiset(t);
        if t[j] != e {
          assert t[j] in multiset(s[1..]);
          var p :| 0 <= p < |s[1..]| && s[1..][p] == t[j];
          assert s[p + 1] == t[j];
        }
      }
      assert Insert(e, s) == [s[0]] + t;
    }
  }

  /**
    `Object.entries(obj).sort((a, b) => b[1] - a[1])`: descending by count; the
    sort is stable, so an entry met earlier goes ahead of later ones with its count.
   */
  function SortByCount(s: seq<Entry>): (r: seq<Entry>)
    ensures |r| == |s|
    ensures multiset(r) == multiset(s)
    ensures Descending(r)
  {
    if s == [] then []
    else
      assert s == [s[0]] + s[1..];
      InsertKeepsDescending(s[0], SortByCount(s[1..]));
      Insert(s[0], SortByCount(s[1..]))
  }

  /** `getTopN(obj, n)`: the first n entries of the sorted list (all of them if fewer). */
  function TopN(f: seq<Entry>, n: nat): (r: seq<Entry>)
    ensures |r| == if n < |f| then n else |f|
    ensures Descending(r)
    ensures multiset(r) <= multiset(f)
  {
    var sorted := SortByCount(f);
    var k := if n < |f| then n else |f|;
    assert sorted == sorted[..k] + sorted[k..];
    assert multiset(sorted) == multiset(sorted[..k]) + multiset(sorted[k..]);
    sorted[..k]
  }

  /** The entries of `s` whose count is `c`, in their order in `s`. */
  function WithCount(s: seq<Entry>, c: int): seq<Entry> {
    if s == [] then [] else (if s[0].count == c then [s[0]] else []) + WithCount(s[1..], c)
  }

  lemma {:induction false} InsertWithCount(e: Entry, s: seq<Entry>, c: int)
    ensures WithCount(Insert(e, s), c) == (if e.count == c then [e] else []) + WithCount(s, c)
  {
    var r := Insert(e, s);
    if s == [] || s[0].count <= e.count {
      assert r == [e] + s;
      assert r[0] == e && r[1..] == s;
    } else {
      var t := Insert(e, s[1..]);
      assert r == [s[0]] + t;
      assert r[0] == s[0] && r[1..] == t;
      assert WithCount(s, c) == (if s[0].count == c then [s[0]] else []) + WithCount(s[1..], c);
      InsertWithCount(e, s[1..], c);
    }
  }

  /** Stability: among entries with equal counts the sort keeps the input order. */
  lemma {:induction false} SortIsStable(s: seq<Entry>, c: int)
    ensures WithCount(SortByCount(s), c) == WithCount(s, c)
  {
    if s != [] {
      SortIsStable(s[1..], c);
      InsertWithCount(s[0], SortByCount(s[1..]), c);
    }
  }

  /** Sorting a list that is already descending changes nothing. */
  lemma {:induction false} SortOfDescending(s: seq<Entry>)
    requires Descending(s)
    ensures SortByCount(s) == s
  {
    if s != [] {
      SortOfDescending(s[1..]);
      assert [s[0]] + s[1..] == s;
    }
  }

  /**
    A descending list is determined by the order it gives each count's entries:
    so the stable sort is the only descending rearrangement that keeps ties in
    input order.
   */
  lemma {:induction false} DescendingDeterminedByTies(a: seq<Entry>, b: seq<Entry>)
    requires Descending(a) && Descending(b)
    requires forall c :: WithCount(a, c) == WithCount(b, c)
    ensures a == b
  {
    if a == [] || b == [] {
      if a != [] {
        WithCountOfHead(a);
        assert false;
      } else if b != [] {
        WithCountOfHead(b);
        assert false;
      }
    } else {
      var ca, cb := a[0].count, b[0].count;
      if ca != cb {
        var hi := if ca > cb then ca else cb;
        assert WithCount(a, hi) != [] && WithCount(b, hi) != [];
        WithCountMember(a, hi);
        WithCountMember(b, hi);
        assert false;
      }
      assert WithCount(a, ca) == [a[0]] + WithCount(a[1..], ca);
      assert WithCount(b, ca) == [b[0]] + WithCount(b[1..], ca);
      assert WithCount(a, ca)[0] == a[0] && WithCount(b, ca)[0] == b[0];
      forall c ensures WithCount(a[1..], c) == WithCount(b[1..], c) {
        var pa := if ca == c then [a[0]] else [];
        var x, y := WithCount(a[1..], c), WithCount(b[1..], c);
        assert WithCount(a, c) == pa + x;
        assert WithCount(b, c) == pa + y;
        assert x == (pa + x)[|pa|..] && y == (pa + y)[|pa|..];
      }
      DescendingDeterminedByTies(a[1..], b[1..]);
      assert a == [a[0]] + a[1..] && b == [b[0]] + b[1..];
    }
  }

  lemma WithCountOfHead(s: seq<Entry>)
    requires s != []
    ensures WithCount(s, s[0].count) != []
  {
  }

  /** A non-empty group of count c comes from some entry of count c, which a descending list's head cannot be below. */
  lemma {:induction false} WithCountMember(s: seq<Entry>, c: int)
    requires Descending(s) && WithCount(s, c) != []
    ensures s != [] && s[0].count >= c
  {
    if s != [] && s[0].count != c {
      WithCountMember(s[1..], c);
    }
  }

  /** The sort equals any descending permutation-by-ties of its input: an independent characterisation. */
  lemma SortIsUniqueStableOrder(s: seq<Entry>, r: seq<Entry>)
    requires Descending(r)
    requires forall c :: WithCount(r, c) == WithCount(s, c)
    ensures SortByCount(s) == r
  {
    forall c ensures WithCount(SortByCount(s), c) == WithCount(r, c) {
      SortIsStable(s, c);
    }
    DescendingDeterminedByTies(SortByCount(s), r);
  }

  /** No entry left out of the top n has a larger count than one kept. */
  lemma TopNKeepsLargest(f: seq<Entry>, n: nat, kept: Entry, omitted: nat)
    requires kept in TopN(f, n) && omitted < |f| && f[omitted] !in TopN(f, n)
    ensures f[omitted].count <= kept.count
  {
    var sorted := SortByCount(f);
    var k := if n < |f| then n else |f|;
    assert f[omitted] in multiset(sorted);
    var p :| 0 <= p < |sorted| && sorted[p] == f[omitted];
    var i :| 0 <= i < k && sorted[..k][i] == kept;
  }

  /** Taking the top n of the top n changes nothing. */
  lemma TopNIdempotent(f: seq<Entry>, n: nat)
    ensures TopN(TopN(f, n), n) == TopN(f, n)
  {
    var top := TopN(f, n);
    SortOfDescending(top);
  }

  /** Ties within the result keep the input order: each count's entries are a prefix of that count's entries in the input. */
  lemma TopNKeepsTieOrder(f: seq<Entry>, n: nat, c: int)
    ensures WithCount(TopN(f, n), c) <= WithCount(f, c)
  {
    var sorted := SortByCount(f);
    var k := if n < |f| then n else |f|;
    SortIsStable(f, c);
    WithCountOfPrefix(sorted, k, c);
  }

  lemma {:induction false} WithCountOfPrefix(s: seq<Entry>, k: nat, c: int)
    requires k <= |s|
    ensures WithCount(s[..k], c) <= WithCount(s, c)
  {
    if k > 0 {
      WithCountOfPrefix(s[1..], k - 1, c);
      assert s[..k][1..] == s[1..][..k - 1];
    }
  }

  /** An example with ties: the two entries counted 3 keep their order, the smallest count drops out. */
  lemma TopNExample()
    ensures TopN([Entry("a.png", 1), Entry("b.png", 3), Entry("c.png", 3), Entry("d.png", 2)], 3)
         == [Entry("b.png", 3), Entry("c.png", 3), Entry("d.png", 2)]
  {
    var a, b, c, d := Entry("a.png", 1), Entry("b.png", 3), Entry("c.png", 3), Entry("d.png", 2);
    calc {
      TopN([a, b, c, d], 3);
      SortByCount([a, b, c, d])[..3];
      { SortExample(a, b, c, d); }
      [b, c, d, a][..3];
      [b, c, d];
    }
  }

  lemma SortExample(a: Entry, b: Entry, c: Entry, d: Entry)
    requires a.count == 1 && b.count == 3 && c.count == 3 && d.count == 2
    ensures SortByCount([a, b, c, d]) == [b, c, d, a]
  {
    calc {
      SortByCount([a, b, c, d]);
      { assert [a, b, c, d] == [a] + [b, c, d]; SortStep(a, [b, c, d]); }
      Insert(a, SortByCount([b, c, d]));
      { SortOfDescendingExample(b, c, d); }
      Insert(a, [b, c, d]);
      { InsertLastExample(a, b, c, d); }
      [b, c, d, a];
    }
  }

  lemma SortOfDescendingExample(b: Entry, c: Entry, d: Entry)
    requires b.count == 3 && c.count == 3 && d.count == 2
    ensures SortByCount([b, c, d]) == [b, c, d]
  {
    SortStep(d, []);
    InsertAhead(d, []);
    assert [d] + [] == [d];
    SortStep(c, [d]);
    InsertAhead(c, [d]);
    assert [c] + [d] == [c, d];
    SortStep(b, [c, d]);
    InsertAhead(b, [c, d]);
    assert [b] + [c, d] == [b, c, d];
  }

  lemma InsertLastExample(a: Entry, b: Entry, c: Entry, d: Entry)
    requires a.count == 1 && b.count == 3 && c.count == 3 && d.count == 2
    ensures Insert(a, [b, c, d]) == [b, c, d, a]
  {
    InsertAhead(a, []);
    assert Insert(a, []) == [a];
    InsertBehind(a, [d]);
    assert [d][1..] == [];
    assert Insert(a, [d]) == [d, a];
    InsertBehind(a, [c, d]);
    assert [c, d][1..] == [d];
    assert Insert(a, [c, d]) == [c, d, a];
    InsertBehind(a, [b, c, d]);
    assert [b, c, d][1..] == [c, d];
  }

  lemma SortStep(e: Entry, s: seq<Entry>)
    ensures SortByCount([e] + s) == Insert(e, SortByCount(s))
  {
    assert ([e] + s)[1..] == s;
  }

  lemma InsertAhead(e: Entry, s: seq<Entry>)
    requires s == [] || s[0].count <= e.count
    ensures Insert(e, s) == [e] + s
  {
  }

  lemma InsertBehind(e: Entry, s: seq<Entry>)
    requires s != [] && s[0].count > e.count
    ensures Insert(e, s) == [s[0]] + Insert(e, s[1..])
  {
  }
}
