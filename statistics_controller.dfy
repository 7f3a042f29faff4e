/**
  src/controllers/statisticsController.ts: `getStatistics` gathers the counters,
  the top three of each frequency map, the store size and two ratios.
 */
module StatisticsController {
  import opened Wrappers
  import opened Store
  import Decimal
  import CacheService
  import StatisticsService

  /** The JSON body of a successful `GET /api/statistics`. */
  datatype Report = Report(
    totalImages: nat,
    resizedImages: real,
    cacheHits: real,
    cacheMisses: real,
    totalRequests: real,
    totalErrors: real,
    averageProcessingTime: string,
    mostRequestedResolutions: seq<Entry>,
    mostRequestedImages: seq<Entry>,
    cacheSize: nat,
    cacheHitMissRatio: string,
    requestSuccessErrorRatio: string)

  datatype StatisticsResponse = Statistics(report: Report) | Failure(status: int, message: string)

  /** Hits per miss to two decimals, "N/A" when there has been no miss. */
  function CacheHitMissRatio(cacheHits: real, cacheMisses: real): (s: string)
    ensures s == "N/A" <==> cacheMisses == 0.0
    ensures cacheMisses != 0.0 ==> s == Decimal.ToFixed2(cacheHits / cacheMisses)
  {
    if cacheMisses == 0.0 then "N/A" else Decimal.ToFixed2(cacheHits / cacheMisses)
  }

  /** Successful requests per error to two decimals, "N/A" when there has been no error. */
  function RequestSuccessErrorRatio(totalRequests: real, totalErrors: real): (s: string)
    ensures s == "N/A" <==> totalErrors == 0.0
    ensures totalErrors != 0.0 ==> s == Decimal.ToFixed2((totalRequests - totalErrors) / totalErrors)
  {
    if totalErrors == 0.0 then "N/A" else Decimal.ToFixed2((totalRequests - totalErrors) / totalErrors)
  }

  /** The report built from the file count, the statistics snapshot and the store size. */
  function BuildReport(totalImages: nat, data: StatisticsService.StatisticsData, cacheSize: nat): (r: Report)
    ensures r.totalImages == totalImages && r.cacheSize == cacheSize
    ensures r.resizedImages == data.resizedImages && r.cacheHits == data.cacheHits
    ensures r.cacheMisses == data.cacheMisses && r.totalRequests == data.totalRequests
    ensures r.totalErrors == data.totalErrors && r.averageProcessingTime == data.averageProcessingTime
    ensures |r.mostRequestedResolutions| <= 3 && |r.mostRequestedImages| <= 3
    ensures StatisticsService.Descending(r.mostRequestedResolutions)
    ensures StatisticsService.Descending(r.mostRequestedImages)
    ensures multiset(r.mostRequestedResolutions) <= multiset(data.mostRequestedResolutions)
    ensures multiset(r.mostRequestedImages) <= multiset(data.mostRequestedImages)
    ensures r.cacheHitMissRatio == "N/A" <==> data.cacheMisses == 0.0
    ensures r.requestSuccessErrorRatio == "N/A" <==> data.totalErrors == 0.0
  {
    Report(
      totalImages,
      data.resizedImages,
      data.cacheHits,
      data.cacheMisses,
      data.totalRequests,
      data.totalErrors,
      data.averageProcessingTime,
      StatisticsService.TopN(data.mostRequestedResolutions, 3),
      StatisticsService.TopN(data.mostRequestedImages, 3),
      cacheSize,
      CacheHitMissRatio(data.cacheHits, data.cacheMisses),
      RequestSuccessErrorRatio(data.totalRequests, data.totalErrors))
  }

  const RetrievalError := "Error retrieving statistics!"

  /**
    `getStatistics`. `imageCount` is what `readdirSync` of the image directory
    gives (None when it throws); `storeFails` says that a store read rejects.
    Either failure gives 500 and no report.
   */
  method GetStatistics(redis: Redis, imageCount: Option<nat>, storeFails: bool) returns (response: StatisticsResponse)
    requires StatsTyped(redis.data)
    ensures imageCount.None? || storeFails ==> response == Failure(500, RetrievalError)
    ensures imageCount.Some? && !storeFails ==>
      response == Statistics(BuildReport(imageCount.value, StatisticsService.Snapshot(redis.data), |redis.data.Keys|))
  {
    if imageCount.None? || storeFails {
      return Failure(500, RetrievalError);
    }
    var data := StatisticsService.GetStatisticsData(redis);
    var cacheSize := CacheService.GetCacheSize(redis);
    response := Statistics(BuildReport(imageCount.value, data, cacheSize));
  }

  /** The ratios the statistics tests expect. */
  lemma RatioExamples()
    ensures CacheHitMissRatio(5.0, 3.0) == "1.67"
    ensures CacheHitMissRatio(0.0, 3.0) == "0.00"
    ensures CacheHitMissRatio(5.0, 0.0) == "N/A"
    ensures RequestSuccessErrorRatio(8.0, 1.0) == "7.00"
    ensures RequestSuccessErrorRatio(8.0, 0.0) == "N/A"
  {
    Decimal.ToFixed2Examples();
  }

  /** A store without statistics reports zeros, empty maps and both ratios "N/A". */
  lemma FreshStoreReport(totalImages: nat, cacheSize: nat)
    ensures BuildReport(totalImages, StatisticsService.Snapshot(map[]), cacheSize)
         == Report(totalImages, 0.0, 0.0, 0.0, 0.0, 0.0, "0.00 ms", [], [], cacheSize, "N/A", "N/A")
  {
    StatisticsService.SnapshotOfEmptyStore();
  }

  lemma ShortDescendingTopThree(s: seq<Entry>)
    requires StatisticsService.Descending(s) && |s| <= 3
    ensures StatisticsService.TopN(s, 3) == s
  {
    StatisticsService.SortOfDescending(s);
    assert StatisticsService.SortByCount(s)[..|s|] == s;
  }

  /** The report for the statistics the first statistics test mocks, with two image files and ten keys in the store. */
  lemma StatisticsTestExample()
    ensures
      var resolutions := [Entry("400x400", 3), Entry("200x200", 2)];
      var images := [Entry("image.png", 5), Entry("image.jpg", 3)];
      var average := Decimal.ToFixed2(123.45) + " ms";
      BuildReport(2, StatisticsService.StatisticsData(1.0, 5.0, 3.0, 8.0, 1.0, average, resolutions, images), 10)
        == Report(2, 1.0, 5.0, 3.0, 8.0, 1.0, "123.45 ms", resolutions, images, 10, "1.67", "7.00")
  {
    Decimal.ToFixed2Examples();
    var average := Decimal.ToFixed2(123.45) + " ms";
    assert average == "123.45 ms";
    MockedReport(average);
  }

  lemma MockedReport(average: string)
    ensures
      var resolutions := [Entry("400x400", 3), Entry("200x200", 2)];
      var images := [Entry("image.png", 5), Entry("image.jpg", 3)];
      BuildReport(2, StatisticsService.StatisticsData(1.0, 5.0, 3.0, 8.0, 1.0, average, resolutions, images), 10)
        == Report(2, 1.0, 5.0, 3.0, 8.0, 1.0, average, resolutions, images, 10, "1.67", "7.00")
  {
    ShortDescendingTopThree([Entry("400x400", 3), Entry("200x200", 2)]);
    ShortDescendingTopThree([Entry("image.png", 5), Entry("image.jpg", 3)]);
    RatioExamples();
  }
}
