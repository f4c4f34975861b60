/**
 * aggregate_by_year: group the scored rows by year, take the mean of
 * sentiment_value and the number of rows per year, and sort by year. Means are
 * exact real quotients.
 */
module Aggregation {
  import Sentiment

  /** The two columns the grouping reads from one row: its year and its sentiment value. */
  datatype Sample = Sample(year: int, value: real)

  /** One row of the yearly table: year, mean_sentiment, comic_count. */
  datatype YearlyStats = YearlyStats(year: int, meanSentiment: real, comicCount: nat)

  function Samples(rows: seq<Sentiment.ScoredRecord>): (s: seq<Sample>)
    ensures |s| == |rows|
    ensures forall i :: 0 <= i < |rows| ==> s[i].year == rows[i].year && s[i].value == rows[i].sentimentValue
  {
    seq(|rows|, i requires 0 <= i < |rows| => Sample(rows[i].year, rows[i].sentimentValue))
  }

  /** The number of samples of year y. */
  function CountOf(s: seq<Sample>, y: int): nat {
    if s == [] then 0 else (if s[0].year == y then 1 else 0) + CountOf(s[1..], y)
  }

  /** The sum of the values of the samples of year y. */
  function SumOf(s: seq<Sample>, y: int): real {
    if s == [] then 0.0 else (if s[0].year == y then s[0].value else 0.0) + SumOf(s[1..], y)
  }

  predicate StrictlyIncreasing(ys: seq<int>) {
    forall i, j :: 0 <= i < j < |ys| ==> ys[i] < ys[j]
  }

  /** Adds y to a strictly increasing sequence of years, keeping it strictly increasing. */
  function InsertYear(ys: seq<int>, y: int): (r: seq<int>)
    requires StrictlyIncreasing(ys)
    ensures StrictlyIncreasing(r)
    ensures forall x :: x in r <==> x in ys || x == y
  {
    if ys == [] then [y]
    else if y < ys[0] then [y] + ys
    else if y == ys[0] then ys
    else
      var rest := InsertYear(ys[1..], y);
      assert forall x :: x in ys[1..] ==> ys[0] < x;
      assert forall k :: 0 <= k < |rest| ==> rest[k] in rest;
      [ys[0]] + rest
  }

  /** The distinct years of the samples, in ascending order. */
  function Years(s: seq<Sample>): (ys: seq<int>)
    ensures StrictlyIncreasing(ys)
    ensures forall y :: y in ys <==> CountOf(s, y) > 0
  {
    if s == [] then [] else InsertYear(Years(s[1..]), s[0].year)
  }

  /** The table rows for the given years, in the given order. */
  function Summaries(s: seq<Sample>, ys: seq<int>): (stats: seq<YearlyStats>)
    requires forall y :: y in ys ==> CountOf(s, y) > 0
    ensures |stats| == |ys|
    ensures forall i :: 0 <= i < |ys| ==> stats[i].year == ys[i]
  {
    if ys == [] then []
    else
      var n := CountOf(s, ys[0]);
      [YearlyStats(ys[0], SumOf(s, ys[0]) / n as real, n)] + Summaries(s, ys[1..])
  }

  /**
   * The yearly table: one row per year that occurs in the samples and no other,
   * strictly ascending by year; each row counts the samples of its year and
   * holds the mean of their values.
   */
  function Aggregate(s: seq<Sample>): (stats: seq<YearlyStats>)
    ensures forall i, j :: 0 <= i < j < |stats| ==> stats[i].year < stats[j].year
    ensures forall y :: CountOf(s, y) > 0 <==> exists i :: 0 <= i < |stats| && stats[i].year == y
    ensures forall i :: 0 <= i < |stats| ==>
      && stats[i].comicCount == CountOf(s, stats[i].year) > 0
      && stats[i].meanSentiment == SumOf(s, stats[i].year) / stats[i].comicCount as real
  {
    var ys := Years(s);
    SummariesAt(s, ys);
    Summaries(s, ys)
  }

  lemma {:induction false} SummariesAt(s: seq<Sample>, ys: seq<int>)
    requires forall y :: y in ys ==> CountOf(s, y) > 0
    ensures forall i :: 0 <= i < |ys| ==>
      var n := CountOf(s, ys[i]);
      Summaries(s, ys)[i] == YearlyStats(ys[i], SumOf(s, ys[i]) / n as real, n)
  {
    if ys != [] {
      SummariesAt(s, ys[1..]);
    }
  }

  /** aggregate_by_year applied to the scored rows. */
  function AggregateByYear(rows: seq<Sentiment.ScoredRecord>): seq<YearlyStats>
  {
    Aggregate(Samples(rows))
  }

  /** Some row of the table is about year y. */
  predicate InTable(stats: seq<YearlyStats>, y: int) {
    exists i :: 0 <= i < |stats| && stats[i].year == y
  }

  /** Some scored row has year y. */
  predicate InRows(rows: seq<Sentiment.ScoredRecord>, y: int) {
    exists j :: 0 <= j < |rows| && rows[j].year == y
  }

  /**
   * The table of aggregate_by_year in terms of the scored rows: one table row
   * per year that some scored row has and no other, ascending by year, with
   * that year's number of rows and the mean of their sentiment values.
   */
  lemma AggregateByYearRows(rows: seq<Sentiment.ScoredRecord>)
    ensures var stats := AggregateByYear(rows);
      && (forall i, j :: 0 <= i < j < |stats| ==> stats[i].year < stats[j].year)
      && (forall y :: InTable(stats, y) <==> InRows(rows, y))
      && (forall i :: 0 <= i < |stats| ==>
            && stats[i].comicCount == CountOf(Samples(rows), stats[i].year) > 0
            && stats[i].meanSentiment == SumOf(Samples(rows), stats[i].year) / stats[i].comicCount as real)
  {
    var s := Samples(rows);
    var stats := Aggregate(s);
    OccursExactlyWhenCounted(s);
    forall y
      ensures InTable(stats, y) <==> InRows(rows, y)
    {
      if InRows(rows, y) {
        var j :| 0 <= j < |rows| && rows[j].year == y;
        assert s[j].year == y;
      }
      if CountOf(s, y) > 0 {
        var j :| 0 <= j < |s| && s[j].year == y;
        assert rows[j].year == y;
      }
    }
  }

  /** A year has a positive count exactly when some sample has that year. */
  lemma {:induction false} OccursExactlyWhenCounted(s: seq<Sample>)
    ensures forall y :: CountOf(s, y) > 0 <==> exists j :: 0 <= j < |s| && s[j].year == y
  {
    if s != [] {
      var rest := s[1..];
      OccursExactlyWhenCounted(rest);
      forall y
        ensures CountOf(s, y) > 0 <==> exists j :: 0 <= j < |s| && s[j].year == y
      {
        if CountOf(s, y) > 0 && s[0].year != y {
          assert CountOf(rest, y) > 0;
          var j :| 0 <= j < |rest| && rest[j].year == y;
          assert s[j + 1].year == y;
        }
        if exists j :: 0 <= j < |s| && s[j].year == y {
          var j :| 0 <= j < |s| && s[j].year == y;
          if j > 0 {
            assert rest[j - 1].year == y;
          }
        }
      }
    }
  }

  /** The sum of the comic_count column. */
  function TotalCount(stats: seq<YearlyStats>): nat {
    if stats == [] then 0 else stats[0].comicCount + TotalCount(stats[1..])
  }

  // Counts add up to the number of rows.

  /** The sum of CountOf(s, y) over the years ys. */
  function CountsOver(s: seq<Sample>, ys: seq<int>): nat {
    if ys == [] then 0 else CountOf(s, ys[0]) + CountsOver(s, ys[1..])
  }

  function Occurrences(ys: seq<int>, x: int): nat {
    if ys == [] then 0 else (if ys[0] == x then 1 else 0) + Occurrences(ys[1..], x)
  }

  lemma {:induction false} OccurrencesInIncreasing(ys: seq<int>, x: int)
    requires StrictlyIncreasing(ys)
    ensures Occurrences(ys, x) == if x in ys then 1 else 0
  {
    if ys != [] {
      OccurrencesInIncreasing(ys[1..], x);
      if ys[0] == x {
        assert forall k :: 0 <= k < |ys[1..]| ==> ys[1..][k] > x;
      }
    }
  }

  lemma {:induction false} CountsOverCons(a: Sample, s: seq<Sample>, ys: seq<int>)
    ensures CountsOver([a] + s, ys) == Occurrences(ys, a.year) + CountsOver(s, ys)
  {
    if ys != [] {
      assert ([a] + s)[1..] == s;
      CountsOverCons(a, s, ys[1..]);
    }
  }

  lemma {:induction false} CountsOverNothing(ys: seq<int>)
    ensures CountsOver([], ys) == 0
  {
    if ys != [] {
      CountsOverNothing(ys[1..]);
    }
  }

  /** Summing the counts of a set of years that covers every sample counts every sample once. */
  lemma {:induction false} CountsOverCovering(s: seq<Sample>, ys: seq<int>)
    requires StrictlyIncreasing(ys)
    requires forall y :: CountOf(s, y) > 0 ==> y in ys
    ensures CountsOver(s, ys) == |s|
  {
    if s == [] {
      CountsOverNothing(ys);
    } else {
      var a, rest := s[0], s[1..];
      assert s == [a] + rest;
      assert CountOf(s, a.year) > 0;
      assert a.year in ys;
      forall y | CountOf(rest, y) > 0
        ensures y in ys
      {
        assert CountOf(s, y) == (if a.year == y then 1 else 0) + CountOf(rest, y);
      }
      CountsOverCovering(rest, ys);
      CountsOverCons(a, rest, ys);
      OccurrencesInIncreasing(ys, a.year);
      assert CountsOver(s, ys) == 1 + |rest|;
    }
  }

  lemma {:induction false} TotalOfSummaries(s: seq<Sample>, ys: seq<int>)
    requires forall y :: y in ys ==> CountOf(s, y) > 0
    ensures TotalCount(Summaries(s, ys)) == CountsOver(s, ys)
  {
    if ys != [] {
      TotalOfSummaries(s, ys[1..]);
    }
  }

  /** The comic_count column sums to the number of rows aggregated. */
  lemma CountsSumToTotal(rows: seq<Sentiment.ScoredRecord>)
    ensures TotalCount(AggregateByYear(rows)) == |rows|
  {
    var s := Samples(rows);
    var ys := Years(s);
    TotalOfSummaries(s, ys);
    CountsOverCovering(s, ys);
  }

  // Each mean lies within the range of its year's values.

  lemma SumWithinBounds(s: seq<Sample>, y: int, lo: real, hi: real)
    requires forall i :: 0 <= i < |s| && s[i].year == y ==> lo <= s[i].value <= hi
    ensures lo * CountOf(s, y) as real <= SumOf(s, y) <= hi * CountOf(s, y) as real
  {
    SumWithinRepeated(s, y, lo, hi);
    RepeatedIsProduct(lo, CountOf(s, y));
    RepeatedIsProduct(hi, CountOf(s, y));
  }

  /** `b` added to itself `n` times. */
  function Repeated(b: real, n: nat): real {
    if n == 0 then 0.0 else Repeated(b, n - 1) + b
  }

  lemma {:induction false} RepeatedIsProduct(b: real, n: nat)
    ensures Repeated(b, n) == b * n as real
  {
    if n > 0 {
      RepeatedIsProduct(b, n - 1);
      assert b * n as real == b * (n - 1) as real + b;
    }
  }

  lemma {:induction false} SumWithinRepeated(s: seq<Sample>, y: int, lo: real, hi: real)
    requires forall i :: 0 <= i < |s| && s[i].year == y ==> lo <= s[i].value <= hi
    ensures Repeated(lo, CountOf(s, y)) <= SumOf(s, y) <= Repeated(hi, CountOf(s, y))
  {
    if s != [] {
      var rest := s[1..];
      assert forall i :: 0 <= i < |rest| ==> rest[i] == s[i + 1];
      SumWithinRepeated(rest, y, lo, hi);
      if s[0].year == y {
        assert lo <= s[0].value <= hi;
      }
    }
  }

  lemma MeanWithinBounds(sum: real, n: nat, lo: real, hi: real)
    requires n > 0 && lo * n as real <= sum <= hi * n as real
    ensures lo <= sum / n as real <= hi
  {
    var m := n as real;
    assert sum / m * m == sum;
  }

  lemma YearMeanWithinBounds(s: seq<Sample>, y: int, lo: real, hi: real)
    requires CountOf(s, y) > 0
    requires forall i :: 0 <= i < |s| && s[i].year == y ==> lo <= s[i].value <= hi
    ensures lo <= SumOf(s, y) / CountOf(s, y) as real <= hi
  {
    SumWithinBounds(s, y, lo, hi);
    MeanWithinBounds(SumOf(s, y), CountOf(s, y), lo, hi);
  }

  /**
   * A year's mean_sentiment lies within any bounds that hold for every value
   * of that year, so between that year's smallest and largest value.
   */
  lemma YearMeanWithinValues(rows: seq<Sentiment.ScoredRecord>, k: nat, lo: real, hi: real)
    requires k < |AggregateByYear(rows)|
    requires forall i :: 0 <= i < |rows| && rows[i].year == AggregateByYear(rows)[k].year ==>
      lo <= rows[i].sentimentValue <= hi
    ensures lo <= AggregateByYear(rows)[k].meanSentiment <= hi
  {
    var s := Samples(rows);
    var stats := Aggregate(s);
    assert stats == AggregateByYear(rows);
    var y, n := stats[k].year, stats[k].comicCount;
    var sum := SumOf(s, y);
    assert n == CountOf(s, y) > 0;
    assert stats[k].meanSentiment == sum / n as real;
    assert forall i :: 0 <= i < |s| && s[i].year == y ==> lo <= s[i].value <= hi;
    YearMeanWithinBounds(s, y, lo, hi);
  }

  /** When every sentiment value lies in [-1, 1], so does every yearly mean. */
  lemma MeansWithinUnitRange(rows: seq<Sentiment.ScoredRecord>)
    requires forall i :: 0 <= i < |rows| ==> -1.0 <= rows[i].sentimentValue <= 1.0
    ensures forall k :: 0 <= k < |AggregateByYear(rows)| ==> -1.0 <= AggregateByYear(rows)[k].meanSentiment <= 1.0
  {
    forall k | 0 <= k < |AggregateByYear(rows)|
      ensures -1.0 <= AggregateByYear(rows)[k].meanSentiment <= 1.0
    {
      YearMeanWithinValues(rows, k, -1.0, 1.0);
    }
  }

  // The table depends only on the multiset of (year, value) pairs.

  lemma {:induction false} CountAndSumOfAppend(a: seq<Sample>, b: seq<Sample>, y: int)
    ensures CountOf(a + b, y) == CountOf(a, y) + CountOf(b, y)
    ensures SumOf(a + b, y) == SumOf(a, y) + SumOf(b, y)
  {
    if a == [] {
      assert a + b == b;
    } else {
      assert (a + b)[0] == a[0];
      assert (a + b)[1..] == a[1..] + b;
      CountAndSumOfAppend(a[1..], b, y);
    }
  }

  /** Taking out the sample at k removes its share from the count and the sum. */
  lemma CountAndSumWithout(t: seq<Sample>, k: nat, y: int)
    requires k < |t|
    ensures CountOf(t, y) == CountOf([t[k]], y) + CountOf(t[..k] + t[k + 1..], y)
    ensures SumOf(t, y) == SumOf([t[k]], y) + SumOf(t[..k] + t[k + 1..], y)
  {
    assert t == t[..k] + [t[k]] + t[k + 1..];
    CountAndSumOfAppend(t[..k] + [t[k]], t[k + 1..], y);
    CountAndSumOfAppend(t[..k], [t[k]], y);
    CountAndSumOfAppend(t[..k], t[k + 1..], y);
  }

  lemma MultisetWithout(s: seq<Sample>, t: seq<Sample>, k: nat)
    requires multiset(s) == multiset(t) && s != [] && k < |t| && t[k] == s[0]
    ensures multiset(s[1..]) == multiset(t[..k] + t[k + 1..])
  {
    var a, rest := s[0], t[..k] + t[k + 1..];
    assert t == t[..k] + [a] + t[k + 1..];
    assert multiset(t) == multiset(t[..k]) + multiset{a} + multiset(t[k + 1..]);
    assert multiset(rest) == multiset(t[..k]) + multiset(t[k + 1..]);
    assert multiset(rest) == multiset(t) - multiset{a};
    assert s == [a] + s[1..];
    assert multiset(s) == multiset{a} + multiset(s[1..]);
    assert multiset(s[1..]) == multiset(s) - multiset{a};
  }

  lemma {:induction false} CountAndSumOfPermutation(s: seq<Sample>, t: seq<Sample>, y: int)
    requires multiset(s) == multiset(t)
    ensures CountOf(s, y) == CountOf(t, y) && SumOf(s, y) == SumOf(t, y)
  {
    if s == [] {
      assert t == [];
    } else {
      assert s[0] in multiset(t);
      var k :| 0 <= k < |t| && t[k] == s[0];
      MultisetWithout(s, t, k);
      CountAndSumOfPermutation(s[1..], t[..k] + t[k + 1..], y);
      CountAndSumWithout(t, k, y);
    }
  }

  /** Two strictly increasing sequences with the same elements are equal. */
  lemma {:induction false} IncreasingUnique(a: seq<int>, b: seq<int>)
    requires StrictlyIncreasing(a) && StrictlyIncreasing(b)
    requires forall x :: x in a <==> x in b
    ensures a == b
  {
    assert a != [] ==> a[0] in a && a[0] in b;
    assert b != [] ==> b[0] in b && b[0] in a;
    if a != [] {
      assert a[0] in b && b[0] in a;
      assert a[0] == b[0];
      forall x
        ensures x in a[1..] <==> x in b[1..]
      {
        assert x in a[1..] <==> x in a && x != a[0];
        assert x in b[1..] <==> x in b && x != b[0];
      }
      IncreasingUnique(a[1..], b[1..]);
    }
  }

  lemma {:induction false} SummariesAgree(s: seq<Sample>, t: seq<Sample>, ys: seq<int>)
    requires forall y :: CountOf(s, y) == CountOf(t, y) && SumOf(s, y) == SumOf(t, y)
    requires forall y :: y in ys ==> CountOf(s, y) > 0
    ensures Summaries(s, ys) == Summaries(t, ys)
  {
    if ys != [] {
      SummariesAgree(s, t, ys[1..]);
    }
  }

  /**
   * aggregate_by_year does not depend on the order of its rows: rows with the
   * same multiset of (year, sentiment_value) pairs give the same table.
   */
  lemma AggregateIgnoresOrder(rows1: seq<Sentiment.ScoredRecord>, rows2: seq<Sentiment.ScoredRecord>)
    requires multiset(Samples(rows1)) == multiset(Samples(rows2))
    ensures AggregateByYear(rows1) == AggregateByYear(rows2)
  {
    var s, t := Samples(rows1), Samples(rows2);
    forall y
      ensures CountOf(s, y) == CountOf(t, y) && SumOf(s, y) == SumOf(t, y)
    {
      CountAndSumOfPermutation(s, t, y);
    }
    IncreasingUnique(Years(s), Years(t));
    SummariesAgree(s, t, Years(s));
  }

  /** The groups of the worked example below: its years, counts and sums. */
  lemma ExampleGroups(s: seq<Sample>)
    requires s == [Sample(1989, 0.9), Sample(1989, -0.4), Sample(1990, 0.2)]
    ensures Years(s) == [1989, 1990]
    ensures CountOf(s, 1989) == 2 && SumOf(s, 1989) == 0.5
    ensures CountOf(s, 1990) == 1 && SumOf(s, 1990) == 0.2
  {
    var c := [Sample(1990, 0.2)];
    var b := [Sample(1989, -0.4)] + c;
    assert s == [Sample(1989, 0.9)] + b;
    assert s[1..] == b && b[1..] == c && c[1..] == [];
    assert Years(c) == [1990];
    assert Years(b) == [1989, 1990];
    assert CountOf(c, 1989) == 0 && SumOf(c, 1989) == 0.0;
    assert CountOf(b, 1989) == 1 && SumOf(b, 1989) == -0.4;
    assert CountOf(c, 1990) == 1 && SumOf(c, 1990) == 0.2;
    assert CountOf(b, 1990) == 1 && SumOf(b, 1990) == 0.2;
  }

  /** Two comics of 1989 scored 0.9 and -0.4 and one of 1990 scored 0.2. */
  lemma WorkedExample(s: seq<Sample>)
    requires s == [Sample(1989, 0.9), Sample(1989, -0.4), Sample(1990, 0.2)]
    ensures Aggregate(s) == [YearlyStats(1989, 0.25, 2), YearlyStats(1990, 0.2, 1)]
  {
    ExampleGroups(s);
    var ys := [1989, 1990];
    SummariesAt(s, ys);
    var st := Summaries(s, ys);
    assert Aggregate(s) == st;
    assert |st| == 2;
    assert st[0] == YearlyStats(1989, 0.5 / 2.0, 2);
    assert st[1] == YearlyStats(1990, 0.2 / 1.0, 1);
  }
}
