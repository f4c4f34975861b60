/**
 * The first three steps of main: load the dataset, score every record, and
 * aggregate by year. A failure in any step ends the run; no item is isolated.
 */
module Analysis {
  import opened Wrappers
  import Loading
  import Sentiment
  import Aggregation

  datatype AnalysisError = LoadFailed(load: Loading.LoadError) | ScoringFailed(scoring: Sentiment.SentimentError)

  /**
   * The yearly table for a dataset and a classifier. The run succeeds exactly
   * when some entry is kept and the classifier answers for every kept record.
   * The table's counts then add up to the number of kept records, and when
   * every confidence lies in [0, 1], so does every mean lie in [-1, 1]. A run
   * that fails says why: nothing was kept (the KeyError of load_dataset), or
   * the classifier raised on the kept record it names, the first one it
   * raises on.
   */
  method Analyze(entries: seq<Loading.Entry>, classify: Sentiment.Classifier)
    returns (result: Result<seq<Aggregation.YearlyStats>, AnalysisError>)
    ensures result.Success? <==>
      Loading.KeptRecords(entries) != [] && Sentiment.ClassifiesAll(Loading.KeptRecords(entries), classify)
    ensures result.Success? ==>
      result.value == Aggregation.AggregateByYear(Sentiment.ScoreRecords(Loading.KeptRecords(entries), classify))
    ensures result.Success? ==> Aggregation.TotalCount(result.value) == |Loading.KeptRecords(entries)|
    ensures result.Success? &&
      (forall i :: 0 <= i < |Loading.KeptRecords(entries)| ==>
         0.0 <= classify(Loading.KeptRecords(entries)[i].text).value.score <= 1.0)
      ==> forall k :: 0 <= k < |result.value| ==> -1.0 <= result.value[k].meanSentiment <= 1.0
    ensures result.Failure? ==> (result.error.LoadFailed? <==> Loading.KeptRecords(entries) == [])
    ensures result.Failure? && result.error.ScoringFailed? ==>
      var records, k := Loading.KeptRecords(entries), result.error.scoring.index;
      k < |records| && classify(records[k].text).None? && forall i :: 0 <= i < k ==> classify(records[i].text).Some?
  {
    var loaded := Loading.LoadDataset(entries);
    if loaded.Failure? {
      return Failure(LoadFailed(loaded.error));
    }
    var records := loaded.value.records;
    var scored := Sentiment.ComputeSentiment(records, classify);
    if scored.Failure? {
      return Failure(ScoringFailed(scored.error));
    }
    var stats := Aggregation.AggregateByYear(scored.value);
    Aggregation.CountsSumToTotal(scored.value);
    if forall i :: 0 <= i < |records| ==> 0.0 <= classify(records[i].text).value.score <= 1.0 {
      Sentiment.ScoredValuesBounded(records, classify);
      Aggregation.MeansWithinUnitRange(scored.value);
    }
    return Success(stats);
  }
}
