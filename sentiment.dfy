/**
 * compute_sentiment: one classifier call per record, in record order, and the
 * mapping of its (label, confidence) answer to a signed value.
 */
module Sentiment {
  import opened Wrappers
  import Loading

  /**
   * One answer of the sentiment-analysis pipeline: its label ("POSITIVE" or
   * "NEGATIVE") and its confidence.
   */
  datatype Classification = Classification(verdict: string, score: real)

  /**
   * A row of the DataFrame compute_sentiment returns: the loaded record joined
   * with the sentiment_label, sentiment_score and sentiment_value columns.
   */
  datatype ScoredRecord = ScoredRecord(
    date: string, year: int, text: string,
    sentimentLabel: string, sentimentScore: real, sentimentValue: real)

  /** The classifier raised on the record at `index`; nothing after it is scored. */
  datatype SentimentError = ClassifierFailed(index: nat)

  /**
   * The classifier as the model sees it: a function of the text, None where
   * the call raises.
   */
  type Classifier = string -> Option<Classification>

  function Abs(x: real): real {
    if x < 0.0 then -x else x
  }

  /**
   * The signed sentiment value: its magnitude is the confidence, and for a
   * positive confidence it is positive exactly when the label is "POSITIVE";
   * a confidence in [0, 1] gives a value in [-1, 1].
   */
  function SentimentValue(c: Classification): (v: real)
    ensures Abs(v) == Abs(c.score)
    ensures c.score > 0.0 ==> (v > 0.0 <==> c.verdict == "POSITIVE")
    ensures c.score < 0.0 ==> (v < 0.0 <==> c.verdict == "POSITIVE")
    ensures 0.0 <= c.score <= 1.0 ==> -1.0 <= v <= 1.0
  {
    if c.verdict == "POSITIVE" then c.score else -c.score
  }

  function Score(r: Loading.Record, c: Classification): ScoredRecord {
    ScoredRecord(r.date, r.year, r.text, c.verdict, c.score, SentimentValue(c))
  }

  predicate ClassifiesAll(records: seq<Loading.Record>, classify: Classifier) {
    forall i :: 0 <= i < |records| ==> classify(records[i].text).Some?
  }

  /** The rows compute_sentiment produces when no classifier call raises. */
  function ScoreRecords(records: seq<Loading.Record>, classify: Classifier): seq<ScoredRecord>
    requires ClassifiesAll(records, classify)
  {
    seq(|records|, i requires 0 <= i < |records| => Score(records[i], classify(records[i].text).value))
  }

  /**
   * When every confidence the classifier gives for these records lies in
   * [0, 1], every scored value lies in [-1, 1].
   */
  lemma ScoredValuesBounded(records: seq<Loading.Record>, classify: Classifier)
    requires ClassifiesAll(records, classify)
    requires forall i :: 0 <= i < |records| ==> 0.0 <= classify(records[i].text).value.score <= 1.0
    ensures forall i :: 0 <= i < |records| ==> -1.0 <= ScoreRecords(records, classify)[i].sentimentValue <= 1.0
  {
    forall i | 0 <= i < |records|
      ensures -1.0 <= ScoreRecords(records, classify)[i].sentimentValue <= 1.0
    {
      var c := classify(records[i].text).value;
      assert ScoreRecords(records, classify)[i].sentimentValue == SentimentValue(c);
    }
  }

  /**
   * The loop of compute_sentiment. Row i is record i with its classification;
   * the first call that raises ends the whole step with no rows.
   */
  method ComputeSentiment(records: seq<Loading.Record>, classify: Classifier)
    returns (result: Result<seq<ScoredRecord>, SentimentError>)
    ensures result.Success? <==> ClassifiesAll(records, classify)
    ensures result.Success? ==> |result.value| == |records|
    ensures result.Success? ==> forall i :: 0 <= i < |records| ==>
      && result.value[i].date == records[i].date
      && result.value[i].year == records[i].year
      && result.value[i].text == records[i].text
      && Some(Classification(result.value[i].sentimentLabel, result.value[i].sentimentScore)) == classify(records[i].text)
      && result.value[i].sentimentValue == SentimentValue(classify(records[i].text).value)
    ensures result.Success? ==> result.value == ScoreRecords(records, classify)
    ensures result.Failure? ==>
      var k := result.error.index;
      k < |records| && classify(records[k].text).None? && forall i :: 0 <= i < k ==> classify(records[i].text).Some?
  {
    var results: seq<ScoredRecord> := [];
    var i := 0;
    while i < |records|
      invariant 0 <= i <= |records|
      invariant |results| == i
      invariant forall k :: 0 <= k < i ==> classify(records[k].text).Some?
      invariant forall k :: 0 <= k < i ==> results[k] == Score(records[k], classify(records[k].text).value)
    {
      var outcome := classify(records[i].text);
      if outcome.None? {
        return Failure(ClassifierFailed(i));
      }
      results := results + [Score(records[i], outcome.value)];
      i := i + 1;
    }
    return Success(results);
  }
}
