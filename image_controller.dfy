/**
  src/controllers/imageController.ts: `getImage`, one request against the image
  directory and the shared cache. The directory is a map from file name to
  bytes; the `sharp` resize is a function parameter that may fail; a failing
  `redis.set` is a flag.
 */
module ImageController {
  import opened Wrappers
  import opened Store
  import Base64
  import opened ImageValidator
  import StatisticsService

  type byte = Base64.byte

  /** The position of the last `c` in `s`, or -1. */
  function LastIndexOf(s: string, c: char): (i: int)
    ensures -1 <= i < |s|
    ensures i >= 0 ==> s[i] == c
    ensures forall j :: i < j < |s| ==> s[j] != c
  {
    if s == [] then -1
    else if s[|s| - 1] == c then |s| - 1
    else LastIndexOf(s[..|s| - 1], c)
  }

  /** `path` without its trailing slashes. */
  function TrimTrailingSlashes(path: string): (p: string)
    ensures p <= path
    ensures p == [] || p[|p| - 1] != '/'
    ensures forall k :: |p| <= k < |path| ==> path[k] == '/'
  {
    if path != [] && path[|path| - 1] == '/' then TrimTrailingSlashes(path[..|path| - 1]) else path
  }

  /**
    Node's POSIX `path.extname`: from the last '.' of the last path segment
    (trailing slashes ignored) to its end; empty when the segment has no '.',
    when its only leading character is that '.', or when the segment is "..".
   */
  function ExtName(path: string): (ext: string)
    ensures ext != [] ==> ext[0] == '.' && EndsWith(TrimTrailingSlashes(path), ext)
    ensures forall k :: 0 < k < |ext| ==> ext[k] != '.' && ext[k] != '/'
  {
    var p := TrimTrailingSlashes(path);
    var start := LastIndexOf(p, '/') + 1;
    var base := p[start..];
    var dot := LastIndexOf(base, '.');
    if dot <= 0 || base == ".." then ""
    else
      assert p[|p| - |base[dot..]|..] == base[dot..];
      base[dot..]
  }

  /** A name with something before its last '.' in the last segment has that suffix as its extension. */
  lemma ExtNameOfName(stem: string, ext: string)
    requires stem != [] && stem[|stem| - 1] != '/'
    requires |ext| >= 2 && ext[0] == '.' && ext[|ext| - 1] != '/'
    requires forall k :: 0 < k < |ext| ==> ext[k] != '.' && ext[k] != '/'
    ensures ExtName(stem + ext) == ext
  {
    var path := stem + ext;
    assert TrimTrailingSlashes(path) == path;
    LastIndexOfSkip(stem, ext, '/');
    var start := LastIndexOf(stem, '/') + 1;
    assert start < |stem|;
    var base := path[start..];
    assert base == stem[start..] + ['.'] + ext[1..] by {
      assert ext == ['.'] + ext[1..];
    }
    LastIndexOfSkip(stem[start..] + ['.'], ext[1..], '.');
    assert base[|stem| - start..] == ext;
  }

  lemma {:induction false} LastIndexOfSkip(a: string, b: string, c: char)
    requires c !in b
    ensures LastIndexOf(a + b, c) == LastIndexOf(a, c)
  {
    if b != [] {
      assert (a + b)[..|a + b| - 1] == a + b[..|b| - 1];
      assert (a + b)[|a + b| - 1] == b[|b| - 1] != c;
      LastIndexOfSkip(a, b[..|b| - 1], c);
    } else {
      assert a + b == a;
    }
  }

  /** A dot file, such as ".png", has no extension. */
  lemma ExtNameOfDotFile(name: string)
    requires |name| >= 1 && name[0] == '.'
    requires forall k :: 0 < k < |name| ==> name[k] != '.' && name[k] != '/'
    requires name != "." ==> name[|name| - 1] != '/'
    ensures ExtName(name) == ""
  {
    assert TrimTrailingSlashes(name) == name;
    assert LastIndexOf(name, '/') == -1;
  }

  function LowerChar(c: char): char {
    if 'A' <= c <= 'Z' then (c as int - 'A' as int + 'a' as int) as char else c
  }

  /** `toLowerCase` on the ASCII letters. */
  function ToLower(s: string): (t: string)
    ensures |t| == |s|
    ensures forall k :: 0 <= k < |s| ==> t[k] == LowerChar(s[k])
  {
    if s == [] then [] else [LowerChar(s[0])] + ToLower(s[1..])
  }

  /** The type of an original or freshly resized image: png only for a ".png" extension in any case. */
  function ContentType(filename: string): (t: string)
    ensures t == "image/png" || t == "image/jpeg"
  {
    if ToLower(ExtName(filename)) == ".png" then "image/png" else "image/jpeg"
  }

  /** Any name with a stem before ".png", in any letter case, is served as image/png. */
  lemma ContentTypeOfPng(stem: string, ext: string)
    requires stem != [] && stem[|stem| - 1] != '/'
    requires |ext| == 4 && ext[0] == '.' && ToLower(ext) == ".png"
    ensures ContentType(stem + ext) == "image/png"
  {
    assert forall k :: 0 < k < 4 ==> LowerChar(ext[k]) == ".png"[k];
    ExtNameOfName(stem, ext);
  }

  /** A ".jpg" name is served as image/jpeg. */
  lemma ContentTypeOfJpg(stem: string)
    requires stem != [] && stem[|stem| - 1] != '/'
    ensures ContentType(stem + ".jpg") == "image/jpeg"
  {
    ExtNameOfName(stem, ".jpg");
    assert ToLower(".jpg")[1] == 'j';
  }

  /** The dot file ".png" has no extension and is served as image/jpeg. */
  lemma ContentTypeOfDotPng()
    ensures ContentType(".png") == "image/jpeg"
  {
    ExtNameOfDotFile(".png");
  }

  /** The cache key `${filename}_${resolution}`: an absent resolution is written "undefined". */
  function CacheKey(filename: string, resolution: Option<string>): (key: string)
    ensures |key| > |filename| && key[..|filename|] == filename && key[|filename|] == '_'
    ensures resolution.None? ==> key[|filename| + 1..] == "undefined"
    ensures resolution.Some? ==> key[|filename| + 1..] == resolution.value
  {
    filename + "_" + (if resolution.Some? then resolution.value else "undefined")
  }

  /** A cache key never names a statistic, so image payloads and statistics never collide. */
  lemma CacheKeyNotStatistic(filename: string, resolution: Option<string>)
    ensures !IsStatistic(CacheKey(filename, resolution))
  {
    var key := CacheKey(filename, resolution);
    assert key[|filename|] == '_';
    assert forall k :: IsStatistic(k) ==> '_' !in k;
  }

  /** Requests the validator lets through. */
  predicate Admissible(resolution: Option<string>) {
    resolution.Some? ==> IsResolution(resolution.value)
  }

  /** Different admissible requests use different cache keys. */
  lemma CacheKeyInjective(f1: string, r1: Option<string>, f2: string, r2: Option<string>)
    requires Admissible(r1) && Admissible(r2)
    requires CacheKey(f1, r1) == CacheKey(f2, r2)
    ensures f1 == f2 && r1 == r2
  {
    var t1 := if r1.Some? then r1.value else "undefined";
    var t2 := if r2.Some? then r2.value else "undefined";
    NoUnderscore(r1);
    NoUnderscore(r2);
    var key := CacheKey(f1, r1);
    LastIndexOfBefore(f1, '_', t1);
    LastIndexOfBefore(f2, '_', t2);
    assert |f1| == |f2|;
    assert f1 == key[..|f1|] && f2 == key[..|f2|];
    assert t1 == key[|f1| + 1..] && t2 == key[|f2| + 1..];
  }

  lemma NoUnderscore(r: Option<string>)
    requires Admissible(r)
    ensures '_' !in (if r.Some? then r.value else "undefined")
  {
    if r.Some? {
      var i :| 0 < i < |r.value| - 1 && r.value[i] == 'x' && Decimal.AllDigits(r.value[..i]) && Decimal.AllDigits(r.value[i + 1..]);
      forall j | 0 <= j < |r.value|
        ensures r.value[j] != '_'
      {
        if j < i {
          assert r.value[j] == r.value[..i][j];
        } else if j > i {
          assert r.value[j] == r.value[i + 1..][j - i - 1];
        }
      }
    }
  }

  lemma LastIndexOfBefore(a: string, c: char, t: string)
    requires c !in t
    ensures LastIndexOf(a + [c] + t, c) == |a|
  {
    var s := a + [c] + t;
    var i := LastIndexOf(s, c);
    assert s[|a|] == c;
  }

  datatype Response =
    | Image(contentType: string, body: seq<byte>)
    | Failure(status: int, message: string)
    | Rejected(status: int, errors: seq<ValidationError>)

  const NotFound := Failure(404, "Image not found!")
  const ProcessingError := Failure(500, "Error processing image!")

  /** What a request answers and what the cache holds afterwards. */
  datatype Outcome = Outcome(response: Response, cache: map<string, Value>)

  /**
    `getImage` as a transition: 404 for a missing file; a non-empty cached
    payload served as image/jpeg; without a resolution the original file; with
    one, the resized bytes, cached as base64 unless the resize or the write fails.
   */
  function Handle(db: map<string, Value>, files: map<string, seq<byte>>, filename: string,
                  resolution: Option<string>, resize: (seq<byte>, nat, nat) -> Option<seq<byte>>,
                  writeFails: bool): (o: Outcome)
    requires Valid(db) && Admissible(resolution)
    ensures Valid(o.cache)
    ensures o.response == NotFound <==> filename !in files
    ensures o.cache == db || (o.response.Image? && resolution.Some? &&
      o.cache == db[CacheKey(filename, resolution) := Text(Base64.Encode(o.response.body))])
    ensures o.cache != db ==> o.response.contentType == ContentType(filename)
    ensures o.response.Image? || o.response == NotFound || o.response == ProcessingError
  {
    if filename !in files then Outcome(NotFound, db)
    else
      var key := CacheKey(filename, resolution);
      CacheKeyNotStatistic(filename, resolution);
      if key in db && db[key].s != "" then
        Outcome(Image("image/jpeg", Base64.Decode(db[key].s).value), db)
      else if resolution.None? then
        Outcome(Image(ContentType(filename), files[filename]), db)
      else
        var wh := Dimensions(resolution.value);
        match resize(files[filename], wh.0, wh.1)
        case None => Outcome(ProcessingError, db)
        case Some(resized) =>
          if writeFails then Outcome(ProcessingError, db)
          else
            Base64.DecodeEncode(resized);
            ValidWrite(db, key, Text(Base64.Encode(resized)));
            Outcome(Image(ContentType(filename), resized), db[key := Text(Base64.Encode(resized))])
  }

  /** `getImage` on the shared store. */
  method GetImage(redis: Redis, files: map<string, seq<byte>>, filename: string,
                  resolution: Option<string>, resize: (seq<byte>, nat, nat) -> Option<seq<byte>>,
                  writeFails: bool) returns (response: Response)
    requires Valid(redis.data) && Admissible(resolution)
    modifies redis
    ensures Outcome(response, redis.data) == Handle(old(redis.data), files, filename, resolution, resize, writeFails)
  {
    if filename !in files {
      return NotFound;
    }
    var key := CacheKey(filename, resolution);
    CacheKeyNotStatistic(filename, resolution);
    var cached := if key in redis.data then Some(redis.data[key]) else None;
    if cached.Some? && cached.value.s != "" {
      var image := Base64.Decode(cached.value.s).value;
      return Image("image/jpeg", image);
    }
    if resolution.None? {
      return Image(ContentType(filename), files[filename]);
    }
    var wh := Dimensions(resolution.value);
    var resized := resize(files[filename], wh.0, wh.1);
    if resized.None? {
      return ProcessingError;
    }
    var contentType := ContentType(filename);
    if writeFails {
      return ProcessingError;
    }
    redis.data := redis.data[key := Text(Base64.Encode(resized.value))];
    response := Image(contentType, resized.value);
  }

  /** `GET /api/images/:filename`: the validator, then `getImage` for a request it lets through. */
  method Route(redis: Redis, files: map<string, seq<byte>>, filename: string,
               resolution: Option<string>, resize: (seq<byte>, nat, nat) -> Option<seq<byte>>,
               writeFails: bool) returns (response: Response)
    requires Valid(redis.data)
    modifies redis
    ensures Validate(filename, resolution).BadRequest? ==>
      response == Rejected(400, Validate(filename, resolution).errors) && redis.data == old(redis.data)
    ensures Validate(filename, resolution) == Next ==>
      Outcome(response, redis.data) == Handle(old(redis.data), files, filename, resolution, resize, writeFails)
  {
    var decision := Validate(filename, resolution);
    if decision.BadRequest? {
      return Rejected(decision.status, decision.errors);
    }
    response := GetImage(redis, files, filename, resolution, resize, writeFails);
  }

  /** A request without a resolution never writes the cache: originals are not cached. */
  lemma OriginalNeverCached(db: map<string, Value>, files: map<string, seq<byte>>, filename: string,
                            resize: (seq<byte>, nat, nat) -> Option<seq<byte>>, writeFails: bool)
    requires Valid(db)
    ensures Handle(db, files, filename, None, resize, writeFails).cache == db
  {
  }

  /** Serving an image changes no statistic: the statistics snapshot is the same before and after. */
  lemma HandleKeepsStatistics(db: map<string, Value>, files: map<string, seq<byte>>, filename: string,
                              resolution: Option<string>, resize: (seq<byte>, nat, nat) -> Option<seq<byte>>,
                              writeFails: bool)
    requires Valid(db) && Admissible(resolution)
    ensures var o := Handle(db, files, filename, resolution, resize, writeFails);
      forall k :: IsStatistic(k) ==> (k in o.cache <==> k in db) && (k in db ==> o.cache[k] == db[k])
    ensures StatisticsService.Snapshot(Handle(db, files, filename, resolution, resize, writeFails).cache)
         == StatisticsService.Snapshot(db)
  {
    CacheKeyNotStatistic(filename, resolution);
    var o := Handle(db, files, filename, resolution, resize, writeFails);
    SameStatisticsSameSnapshot(o.cache, db);
  }

  lemma SameStatisticsSameSnapshot(db1: map<string, Value>, db2: map<string, Value>)
    requires StatsTyped(db1) && StatsTyped(db2)
    requires forall k :: IsStatistic(k) ==> (k in db1 <==> k in db2) && (k in db1 ==> db1[k] == db2[k])
    ensures StatisticsService.Snapshot(db1) == StatisticsService.Snapshot(db2)
  {
    assert forall k :: IsCounter(k) ==> NumberAt(db1, k) == NumberAt(db2, k);
    assert NumberAt(db1, AverageProcessingTime) == NumberAt(db2, AverageProcessingTime);
    assert forall k :: IsFrequencyMap(k) ==> EntriesAt(db1, k) == EntriesAt(db2, k);
  }

  /**
    After a request that resized and cached a non-empty image, the same request
    is a hit that serves the same bytes, whatever the resize would now do, and
    always as image/jpeg.
   */
  lemma RepeatIsHit(db: map<string, Value>, files: map<string, seq<byte>>, filename: string,
                    resolution: Option<string>, resize: (seq<byte>, nat, nat) -> Option<seq<byte>>,
                    writeFails: bool, resize': (seq<byte>, nat, nat) -> Option<seq<byte>>, writeFails': bool)
    requires Valid(db) && Admissible(resolution)
    requires var o := Handle(db, files, filename, resolution, resize, writeFails);
      o.cache != db && o.response.body != []
    ensures var o := Handle(db, files, filename, resolution, resize, writeFails);
      Handle(o.cache, files, filename, resolution, resize', writeFails')
        == Outcome(Image("image/jpeg", o.response.body), o.cache)
  {
    var o := Handle(db, files, filename, resolution, resize, writeFails);
    var key := CacheKey(filename, resolution);
    Base64.DecodeEncode(o.response.body);
    EncodeNonEmpty(o.response.body);
    assert o.cache[key] == Text(Base64.Encode(o.response.body));
  }

  /**
    A miss: the key is absent or holds the empty payload (which is falsy). Without
    a resolution the original is served; with one, a failed resize or write gives
    500 and leaves the cache alone, and a successful one serves the resized bytes
    and caches their base64 text under the request's key.
   */
  lemma MissOutcome(db: map<string, Value>, files: map<string, seq<byte>>, filename: string,
                    resolution: Option<string>, resize: (seq<byte>, nat, nat) -> Option<seq<byte>>,
                    writeFails: bool)
    requires Valid(db) && Admissible(resolution) && filename in files
    requires CacheKey(filename, resolution) !in db
          || (db[CacheKey(filename, resolution)].Text? && db[CacheKey(filename, resolution)].s == "")
    ensures resolution.None? ==>
      Handle(db, files, filename, resolution, resize, writeFails)
        == Outcome(Image(ContentType(filename), files[filename]), db)
    ensures resolution.Some? ==>
      Handle(db, files, filename, resolution, resize, writeFails)
        == (var wh := Dimensions(resolution.value);
            var resized := resize(files[filename], wh.0, wh.1);
            if resized.None? || writeFails then Outcome(ProcessingError, db)
            else Outcome(Image(ContentType(filename), resized.value),
                         db[CacheKey(filename, resolution) := Text(Base64.Encode(resized.value))]))
  {
  }

  /**
    A hit: any non-empty payload under the request's key is served decoded, as
    image/jpeg, and the cache is left alone.
   */
  lemma HitOutcome(db: map<string, Value>, files: map<string, seq<byte>>, filename: string,
                   resolution: Option<string>, resize: (seq<byte>, nat, nat) -> Option<seq<byte>>,
                   writeFails: bool)
    requires Valid(db) && Admissible(resolution) && filename in files
    requires CacheKey(filename, resolution) in db
    requires db[CacheKey(filename, resolution)].Text? && db[CacheKey(filename, resolution)].s != ""
    ensures var o := Handle(db, files, filename, resolution, resize, writeFails);
      && o.cache == db
      && o.response.Image?
      && o.response.contentType == "image/jpeg"
      && Base64.Decode(db[CacheKey(filename, resolution)].s) == Some(o.response.body)
  {
    CacheKeyNotStatistic(filename, resolution);
  }

  lemma EncodeNonEmpty(b: seq<byte>)
    requires b != []
    ensures Base64.Encode(b) != ""
  {
  }

  /** A resized ".png" is served as image/png, and the same request served from the cache as image/jpeg. */
  lemma PngTurnsJpegOnHit(db: map<string, Value>, files: map<string, seq<byte>>, stem: string,
                          resolution: Option<string>, resize: (seq<byte>, nat, nat) -> Option<seq<byte>>)
    requires Valid(db) && Admissible(resolution)
    requires stem != [] && stem[|stem| - 1] != '/'
    requires var o := Handle(db, files, stem + ".png", resolution, resize, false);
      o.cache != db && o.response.body != []
    ensures var o := Handle(db, files, stem + ".png", resolution, resize, false);
      o.response.contentType == "image/png" &&
      Handle(o.cache, files, stem + ".png", resolution, resize, false).response.contentType == "image/jpeg"
  {
    ContentTypeOfPng(stem, ".png");
    RepeatIsHit(db, files, stem + ".png", resolution, resize, false, resize, false);
  }
}
