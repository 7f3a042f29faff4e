# Dynamic image processing service: cache and statistics layer

This project models the cache-and-statistics core of the dynamic image processing service. The service is an Express server that:

- serves images from a directory;
- resizes them on request (`GET /api/images/:filename?resolution=WxH`);
- caches each resized image in Redis as base64 text;
- keeps usage statistics in the same Redis store;
- reports those statistics (`GET /api/statistics`).

The Redis store is the class `Store.Redis`. It holds one map from key to value, and every operation reads it and changes it in place. A Redis value is a string. The model records what that string encodes:

- `Num`: a decimal number, for the five counters and the average processing time.
- `Dict`: a JSON object of label counts, kept as an insertion-ordered sequence of entries, for the two frequency maps.
- `Text`: other text, for the base64 image payloads.

`Store.Valid` is the store's layout:

- statistics keys hold values of their kind;
- counters are non-negative integers;
- frequency maps have no label twice;
- every other key holds text that decodes as base64.

These writers are proved to keep the layout:

- `UpdateFrequency` and its two wrappers;
- `UpdateAverageProcessingTime`;
- `IncrementCacheStatistic` on a counter key;
- `SetCache` with a value that fits its key;
- `InitializeStatistics`;
- `GetImage`.

An `INCR` on a key that is not a counter, or a `SetCache` of a value that does not fit, can break the layout. The service never issues either.

Modules, one per source file, plus three supporting ones:

- `CacheService` (src/services/cacheService.ts) covers:
  - `INCR`;
  - the running average `(avg·n + t)/(n+1)`;
  - get, set and the key count.
- `StatisticsService` (src/services/statisticsService.ts) covers:
  - the read-modify-write of the two frequency maps;
  - the defaulting read of all statistics;
  - `getTopN`, which is a stable sort by descending count followed by a prefix.
- `StatisticsController` (src/controllers/statisticsController.ts) covers:
  - the report: counters, top three of each map, store size;
  - the two ratios with their `"N/A"` sentinel;
  - the 500 path.
- `ImageValidator` (src/validators/imageValidator.ts) covers:
  - the extension rule and the `^\d+x\d+$` rule;
  - the 400-or-next decision;
  - JavaScript's `split` and `Number` on the accepted resolution.
- `ImageController` (src/controllers/imageController.ts) covers `getImage`:
  - a spec function `Handle` over (cache map, image directory);
  - an imperative `GetImage` proved equal to it;
  - Node's `path.extname`, the content type and the cache key.
- `App` (src/app.ts) covers `initializeStatistics`: a loop that sets the absent statistics.
- Supporting modules:
  - `Store`: the datatypes, the layout invariant and the store class.
  - `Base64`: RFC 4648 section 4 encoding and strict decoding, proved inverse in both directions.
  - `Decimal`: digit strings as `Number` reads them, the digits of a natural number, and `Number.prototype.toFixed(2)` on exact reals.
  - `Wrappers`: `Option`.

The image directory is a map from file name to bytes. The `sharp` resize is a function parameter that returns `None` when it throws. A failing `redis.set` in `getImage` is a boolean parameter. For the statistics endpoint, a failing `readdirSync` is an absent file count and a failing store read is a boolean parameter.

## Model

| member | source | states |
|---|---|---|
| Store.Redis.constructor | src/services/cacheService.ts:3-6 | a connection sees the data its server already holds; connecting changes nothing |
| CacheService.IncrementCacheStatistic | src/services/cacheService.ts:8-11 | `INCR` succeeds exactly when the key is absent or holds an integer; on success the key holds its old number plus 1 (absent counts as 0) and no other key changes; on failure nothing changes; a counter increment keeps the layout |
| CacheService.NextAverage | src/services/cacheService.ts:17 | the new average times (n + 1) is the old total avg·n plus the new sample |
| CacheService.AverageBetween | src/services/cacheService.ts:17 | with n = 0 the new average is the sample; otherwise it lies between the old average and the sample |
| CacheService.ReplayIsMean | src/services/cacheService.ts:13-19 | averages updated one sample at a time, with n the number of earlier samples, give the arithmetic mean of all samples |
| CacheService.UpdateAverageProcessingTime | src/services/cacheService.ts:13-19 | stores `(avg·n + time)/(n+1)` with n and avg read from `totalRequests` and the average (0 when absent); only the average key changes; the layout is kept |
| CacheService.GetCache | src/services/cacheService.ts:21-23 | returns the stored value, or nothing exactly when the key was never set |
| CacheService.SetCache | src/services/cacheService.ts:25-27 | overwrites the one key and leaves every other key unchanged; a value that fits its key keeps the layout |
| CacheService.SetThenGet | src/services/cacheService.ts:21-27 | a read after a write returns the written value |
| CacheService.GetCacheSize | src/services/cacheService.ts:29-31 | the number of keys in the store, statistics keys included |
| StatisticsService.Bump | src/services/statisticsService.ts:6 | a label's count goes up by 1, or the label is appended with count 1; every other entry, and the order, is kept; labels stay unique |
| StatisticsService.BumpCounts | src/services/statisticsService.ts:6 | after the bump the label's count is its old count plus 1 (0 when absent) and every other label's count is unchanged |
| StatisticsService.UpdateFrequency | src/services/statisticsService.ts:3-15 | reads the map (empty when absent), bumps the label, writes back only that key, keeping the layout |
| StatisticsService.UpdateMostRequestedResolutions | src/services/statisticsService.ts:3-8 | `UpdateFrequency` on `mostRequestedResolutions` |
| StatisticsService.UpdateMostRequestedImages | src/services/statisticsService.ts:10-15 | `UpdateFrequency` on `mostRequestedImages` |
| StatisticsService.Snapshot | src/services/statisticsService.ts:17-42 | the counters read are non-negative integers, the average is a two-decimal rendering followed by " ms", and the maps have no label twice |
| StatisticsService.GetStatisticsData | src/services/statisticsService.ts:17-42 | returns the snapshot of the store: each counter or 0, the average rendered with two decimals and " ms", each map or the empty map |
| StatisticsService.SnapshotOfEmptyStore | src/services/statisticsService.ts:17-42 | with no statistics stored every counter is 0, the average is "0.00 ms" and both maps are empty |
| StatisticsService.Insert | src/services/statisticsService.ts:46 | inserting one entry into a list lengthens it by one and adds exactly that entry |
| StatisticsService.InsertKeepsDescending | src/services/statisticsService.ts:46 | inserting into a list in descending count order keeps it in that order |
| StatisticsService.SortByCount | src/services/statisticsService.ts:46 | the sort is a permutation of its input in descending count order |
| StatisticsService.SortIsStable | src/services/statisticsService.ts:46 | for every count, the entries with that count appear in the sorted list in their input order |
| StatisticsService.SortOfDescending | src/services/statisticsService.ts:46 | a list already in descending order is left as it is |
| StatisticsService.DescendingDeterminedByTies | src/services/statisticsService.ts:46 | two descending lists with the same entries per count, in the same order, are equal |
| StatisticsService.SortIsUniqueStableOrder | src/services/statisticsService.ts:46 | any descending permutation that keeps ties in input order is the sort's result |
| StatisticsService.TopN | src/services/statisticsService.ts:44-49 | returns min(n, size) entries in descending count order, each one an input entry |
| StatisticsService.TopNKeepsLargest | src/services/statisticsService.ts:44-49 | no omitted entry has a larger count than a kept one |
| StatisticsService.TopNIdempotent | src/services/statisticsService.ts:44-49 | taking the top n of a top-n result changes nothing |
| StatisticsService.TopNKeepsTieOrder | src/services/statisticsService.ts:44-49 | within each count the result is a prefix of that count's input entries |
| StatisticsService.TopNExample | src/services/statisticsService.ts:44-49 | the top 3 of a:1, b:3, c:3, d:2 is b, c, d |
| StatisticsService.SortExample | src/services/statisticsService.ts:46 | sorting a:1, b:3, c:3, d:2 gives b, c, d, a |
| StatisticsController.CacheHitMissRatio | src/controllers/statisticsController.ts:95 | "N/A" exactly when there were no misses, otherwise hits/misses to two decimals |
| StatisticsController.RequestSuccessErrorRatio | src/controllers/statisticsController.ts:96 | "N/A" exactly when there were no errors, otherwise (requests − errors)/errors to two decimals |
| StatisticsController.BuildReport | src/controllers/statisticsController.ts:88-111 | counters, average, file count and store size are passed through; each map is cut to at most three entries, in descending order, taken from the stored map; each ratio is "N/A" exactly when its denominator is 0 |
| StatisticsController.GetStatistics | src/controllers/statisticsController.ts:74-115 | a failed directory listing or store read gives 500 "Error retrieving statistics!"; otherwise the report of the current store and its size |
| StatisticsController.RatioExamples | src/controllers/statisticsController.ts:95-96 | 5/3 gives "1.67", 0/3 gives "0.00", (8−1)/1 gives "7.00", a zero denominator gives "N/A" |
| StatisticsController.FreshStoreReport | src/controllers/statisticsController.ts:74-115 | an empty store reports zeros, "0.00 ms", empty maps and both ratios "N/A" |
| StatisticsController.StatisticsTestExample | src/controllers/statisticsController.ts:88-111 | the stored values of the first statistics test, with the average 123.45 rendered through `toFixed(2)`, give the report that test expects |
| ImageValidator.ImageExtensionShape | src/validators/imageValidator.ts:27 | a name matches the extension pattern exactly when it ends with a '.' followed by "png", "jpg" or "jpeg" |
| ImageValidator.ResolutionShape | src/validators/imageValidator.ts:34 | a resolution matches the pattern exactly when it is digits and one 'x', with a digit at each end |
| ImageValidator.FilenameErrors | src/validators/imageValidator.ts:23-27 | no filename error exactly when the name ends with ".png", ".jpg" or ".jpeg" (case-sensitive); the empty-name error exactly for "" |
| ImageValidator.ResolutionErrors | src/validators/imageValidator.ts:30-34 | no resolution error exactly when the resolution is absent or matches digits, 'x', digits; the empty error exactly for "" |
| ImageValidator.Validate | src/validators/imageValidator.ts:21-44 | next exactly when both rules pass; otherwise 400 with every failure, filename errors first |
| ImageValidator.RejectsTextFile | src/validators/imageValidator.ts:27 | "invalid.txt" gets exactly the extension error |
| ImageValidator.RejectsBareNumber | src/validators/imageValidator.ts:34 | the resolution "100" gets exactly the format error |
| ImageValidator.AcceptsImageAndResolution | src/validators/imageValidator.ts:21-44 | "test.jpg" at "100x100" passes |
| ImageValidator.ValidateEdgeExamples | src/validators/imageValidator.ts:23-34 | "test.JPG" is refused; an empty resolution fails both resolution checks |
| ImageValidator.Split | src/controllers/imageController.ts:68 | `split` yields at least one part, no part contains the separator, and joining the parts gives the input back |
| ImageValidator.SplitJoin | src/controllers/imageController.ts:68 | splitting a join of separator-free parts gives the parts back |
| ImageValidator.ResolutionSplits | src/validators/imageValidator.ts:34 | a resolution is accepted exactly when splitting it on 'x' gives two non-empty digit strings |
| ImageValidator.Dimensions | src/controllers/imageController.ts:68 | an accepted resolution splits on 'x' into two digit strings, and the width and height are their values |
| ImageValidator.DimensionsOfShow | src/controllers/imageController.ts:68 | "{w}x{h}" is accepted and the handler reads width w and height h from it |
| Decimal.ValueOf | src/controllers/imageController.ts:68 | `Number` of a digit string is 0 exactly when every digit is '0' |
| Decimal.Show | src/controllers/imageController.ts:68 | the digits of a number are non-empty decimal digits without a leading zero |
| Decimal.ValueOfShow | src/controllers/imageController.ts:68 | `Number` of the digits of n is n |
| Decimal.ShowValueOf | src/controllers/imageController.ts:68 | a digit string without a leading zero is the digits of its own value |
| Decimal.Hundredths | src/services/statisticsService.ts:26 | the nearest whole number of hundredths, ties upward |
| Decimal.ToFixed2 | src/services/statisticsService.ts:26 | a sign exactly for negatives, digits, a point and two fraction digits |
| Decimal.NegativeToFixed | src/controllers/statisticsController.ts:96 | a negative value renders as "-" followed by the rendering of its magnitude |
| Decimal.ToFixed2Reads | src/services/statisticsService.ts:26 | for any value, the rendered digits after the sign read back to within half a hundredth of its magnitude |
| Decimal.ToFixed2Examples | src/services/statisticsService.ts:26 | 5/3, 7, 0 and 123.45 render as "1.67", "7.00", "0.00" and "123.45" |
| Base64.Encode | src/controllers/imageController.ts:81 | four characters per started group of three bytes |
| Base64.Decode | src/controllers/imageController.ts:61 | only text whose length is a multiple of 4 decodes, to three bytes per group of four characters less at most two padding bytes |
| Base64.DecodeEncode | src/controllers/imageController.ts:81 | decoding the base64 text of any bytes gives those bytes |
| Base64.EncodeDecode | src/controllers/imageController.ts:61 | any text that decodes is the encoding of what it decodes to |
| Base64.TestVectors | src/controllers/imageController.ts:81 | the test vectors of RFC 4648 section 10 for "f", "fo" and "foo" |
| ImageController.ExtName | src/controllers/imageController.ts:77 | the extension is empty or a '.' followed by no further '.' or '/', and it ends the path without trailing slashes |
| ImageController.ExtNameOfName | src/controllers/imageController.ts:77 | a name with a stem before its last '.' has that suffix as its extension |
| ImageController.ExtNameOfDotFile | src/controllers/imageController.ts:92 | a dot file has no extension |
| ImageController.ToLower | src/controllers/imageController.ts:77 | lowercasing keeps the length and lowercases each character in place |
| ImageController.ContentType | src/controllers/imageController.ts:77-78 | either image/png or image/jpeg |
| ImageController.ContentTypeOfPng | src/controllers/imageController.ts:77-78 | a stem followed by ".png" in any letter case is image/png |
| ImageController.ContentTypeOfJpg | src/controllers/imageController.ts:92-93 | a stem followed by ".jpg" is image/jpeg |
| ImageController.ContentTypeOfDotPng | src/controllers/imageController.ts:92-93 | the name ".png" is served as image/jpeg |
| ImageController.CacheKey | src/controllers/imageController.ts:59 | the key is the file name, '_' and the resolution, or "undefined" when there is none |
| ImageController.CacheKeyNotStatistic | src/controllers/imageController.ts:59 | a cache key never names a statistic |
| ImageController.CacheKeyInjective | src/controllers/imageController.ts:59 | two validated requests share a cache key only if they have the same name and resolution, with "undefined" for an absent resolution |
| ImageController.Handle | src/controllers/imageController.ts:49-99 | 404 "Image not found!" exactly for a missing file; the only possible cache change is storing the base64 of the served bytes under the request's key; the layout is kept; the response is an image, the 404 or 500 "Error processing image!" |
| ImageController.GetImage | src/controllers/imageController.ts:49-99 | the response and new store are those `Handle` gives for the old store |
| ImageController.Route | src/routes/imageRoutes.ts:7 | a rejected request gets 400 with the validator's errors and leaves the store unchanged; an accepted one is handled by `getImage` |
| ImageController.OriginalNeverCached | src/controllers/imageController.ts:89-98 | a request without a resolution never changes the cache |
| ImageController.HandleKeepsStatistics | src/controllers/imageController.ts:49-99 | serving an image changes no statistic, so the statistics snapshot is unchanged |
| ImageController.RepeatIsHit | src/controllers/imageController.ts:59-81 | after a resize that cached non-empty bytes, the same request is a hit serving the same bytes as image/jpeg, whatever the resize would now do |
| ImageController.MissOutcome | src/controllers/imageController.ts:59-98 | with no payload or the empty payload under the key: without a resolution the original is served and the cache is unchanged; with one, a failed resize or write gives 500 and leaves the cache unchanged, and a successful one serves the resized bytes with the name's content type and stores their base64 under the key |
| ImageController.HitOutcome | src/controllers/imageController.ts:59-65 | any non-empty payload under the key is served decoded, as image/jpeg, and the cache is unchanged |
| ImageController.PngTurnsJpegOnHit | src/controllers/imageController.ts:63-84 | a resized ".png" is served as image/png, then as image/jpeg from the cache |
| App.SetIfAbsent | src/app.ts:23-26 | the key is present afterwards, keeping its value when it had one; every other key is unchanged |
| App.InitializeStatistics | src/app.ts:20-38 | the store afterwards is the initialised store |
| App.FillScalarsKeeps | src/app.ts:22-27 | the loop adds exactly the listed keys, keeps every present value and gives each absent key 0 |
| App.Initialized | src/app.ts:20-38 | exactly the missing statistics are added, each with 0 or the empty map; every present key keeps its value |
| App.InitializeIdempotent | src/app.ts:20-38 | initialising twice is initialising once |
| App.InitializedValid | src/app.ts:20-38 | initialisation keeps the store's layout |
| App.InitializedSnapshot | src/app.ts:20-38 | the starting values are what a read of an absent statistic gives, so the statistics report is unchanged |

## Left out

- Express plumbing is out: routing, `res.set`/`send`/`json`, stream piping, Swagger and `listen`. Responses are datatypes.
- The Redis connection is out, and so are failures other than the modelled ones. A rejected `redis.get` in `getImage` leaves the request unanswered; that case is not modelled.
- Each Redis value is modelled by what its string encodes, so the decimal and JSON text is out. The report's counters go through `Number`, which is modelled on exact reals.
- Floating point is out. Averages and ratios are exact reals, and `toFixed(2)` is modelled on exact values, with the ties-upward rounding ECMAScript specifies.
- `toFixed` for values of 1e21 or more, which switches to exponent notation, is out.
- `Number` on digit strings beyond 2^53 is out. The model reads them exactly.
- JavaScript's reordering of integer-like object keys is out. Maps keep insertion order.
- Prototype property names as labels (`data["constructor"]`) are out.
- Buffer's lenient base64 decoder is out. Stored payloads are kept strictly decodable by the layout invariant, and decoding them is strict RFC 4648 section 4.
- Concurrency is out: each operation is one atomic step, so the lost update between two interleaved read-modify-writes is not modelled.
- The file system is out: path joining and normalisation, `existsSync`, `createReadStream`, `readdirSync`, src/services/imageService.ts and src/services/fileService.ts. The image directory is a map from names to bytes, and the file count is a parameter.
- `sharp` is out; the resize is an arbitrary function that may fail.
- `toLowerCase` is modelled on ASCII letters only. No other character lowercases to one of ".png", so the content-type decision does not depend on this.
- CacheService.IncrementCacheStatistic: Redis's 64-bit overflow error is not modelled, and an integral value is accepted whatever its text looks like (Redis rejects "3.0").
- CacheService.IncrementCacheStatistic: every `Text` value is refused. Redis `INCR` accepts any string that reads as a decimal integer, so a payload such as "1234" would be incremented by Redis but is refused by the model. The service only increments counter keys, which never hold `Text`.
- StatisticsService.UpdateFrequency, CacheService.UpdateAverageProcessingTime and the statistics readers require statistics of the right kind. JavaScript would compute NaN or string concatenations on wrong-kind values; those cases are not modelled.
- ImageValidator.FilenameErrors: the `exists` and `isString` checks on `filename` cannot fail for a route parameter, so they are not modelled.
- ImageValidator.ResolutionErrors: a repeated `resolution` query parameter, which Express turns into an array, is not modelled; a present resolution is one string.
- ImageController.Handle requires a validated resolution and a valid store layout. The route always runs the validator first. Every write the service issues is one of the layout-keeping writers listed above.
