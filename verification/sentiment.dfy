/** The sentiment command after scoring: each compound score goes into one
    of three buckets, and the mean score gets a label of its own. Scores
    are inputs, one per non-null text, each in [-1, 1]. */
module Sentiment {
  import opened Outcomes
  import Columns

  datatype Bucket = Positive | Neutral | Negative

  /** peek/main.py, lines 237-242: inclusive thresholds at plus and minus 0.05. */
  function BucketOf(score: real): Bucket {
    if score >= 0.05 then Positive
    else if score <= -0.05 then Negative
    else Neutral
  }

  /** peek/main.py, lines 247-252: strict thresholds at plus and minus 0.05. */
  function AverageLabel(avg: real): Bucket {
    if avg > 0.05 then Positive
    else if avg < -0.05 then Negative
    else Neutral
  }

  /** Number of scores that fall into bucket b. */
  function CountIn(scores: seq<real>, b: Bucket): (n: nat)
    ensures n <= |scores|
  {
    if |scores| == 0 then 0
    else CountIn(scores[..|scores| - 1], b) + (if BucketOf(scores[|scores| - 1]) == b then 1 else 0)
  }

  function Sum(scores: seq<real>): real {
    if |scores| == 0 then 0.0 else Sum(scores[..|scores| - 1]) + scores[|scores| - 1]
  }

  /** peek/main.py, line 244: the arithmetic mean, 0 for an empty sample. */
  function Mean(scores: seq<real>): real {
    if |scores| == 0 then 0.0 else Sum(scores) / |scores| as real
  }

  /** The texts scored: the first `limit` cells of the column (n_rows),
      nulls dropped, in column order. Each text is sampled exactly as often
      as it occurs among those cells. */
  function SampleTexts(column: seq<Option<string>>, limit: nat): (texts: seq<string>)
    ensures |texts| <= limit
    ensures |texts| == Columns.Min(limit, |column|) - Columns.Count(column[..Columns.Min(limit, |column|)], None)
    ensures forall i :: 0 <= i < |texts| ==> Some(texts[i]) in column[..Columns.Min(limit, |column|)]
    ensures forall v :: Columns.Count(texts, v) == Columns.Count(column[..Columns.Min(limit, |column|)], Some(v))
  {
    var head := column[..Columns.Min(limit, |column|)];
    assert forall v :: Columns.Count(Columns.DropNulls(head), v) == Columns.Count(head, Some(v)) by {
      forall v ensures Columns.Count(Columns.DropNulls(head), v) == Columns.Count(head, Some(v)) {
        Columns.CountDropNulls(head, v);
      }
    }
    Columns.DropNulls(head)
  }

  /** The sample is taken in row order: raising the limit keeps the texts
      already sampled, in place, and only appends the non-null cells of the
      further rows. */
  lemma SampleTextsExtend(column: seq<Option<string>>, limit: nat, more: nat)
    ensures var m := Columns.Min(limit, |column|);
            var m' := Columns.Min(limit + more, |column|);
            SampleTexts(column, limit + more) == SampleTexts(column, limit) + Columns.DropNulls(column[m..m'])
  {
    var m := Columns.Min(limit, |column|);
    var m' := Columns.Min(limit + more, |column|);
    assert column[..m'] == column[..m] + column[m..m'];
    Columns.DropNullsAppend(column[..m], column[m..m']);
  }

  datatype Summary = Summary(
    positive: nat, neutral: nat, negative: nat,
    average: real, verdict: Bucket, sampleSize: nat)

  /** peek/main.py, lines 233-252: tally the buckets while collecting the
      scores, then average them and label the average. */
  method Summarize(scores: seq<real>) returns (s: Summary)
    ensures s.positive == CountIn(scores, Positive)
    ensures s.neutral == CountIn(scores, Neutral)
    ensures s.negative == CountIn(scores, Negative)
    ensures s.positive + s.neutral + s.negative == |scores| == s.sampleSize
    ensures s.average == Mean(scores)
    ensures s.verdict == AverageLabel(Mean(scores))
  {
    var positive, neutral, negative := 0, 0, 0;
    var total := 0.0;
    var i := 0;
    while i < |scores|
      invariant 0 <= i <= |scores|
      invariant positive == CountIn(scores[..i], Positive)
      invariant neutral == CountIn(scores[..i], Neutral)
      invariant negative == CountIn(scores[..i], Negative)
      invariant total == Sum(scores[..i])
    {
      var score := scores[i];
      assert scores[..i + 1][..i] == scores[..i];
      total := total + score;
      if score >= 0.05 {
        positive := positive + 1;
      } else if score <= -0.05 {
        negative := negative + 1;
      } else {
        neutral := neutral + 1;
      }
      i := i + 1;
    }
    assert scores[..i] == scores;
    BucketsPartition(scores);
    var average := if |scores| > 0 then total / |scores| as real else 0.0;
    s := Summary(positive, neutral, negative, average, AverageLabel(average), |scores|);
  }

  /** Every score falls into exactly one bucket, so the bucket counts add
      up to the number of texts scored. */
  lemma {:induction false} BucketsPartition(scores: seq<real>)
    ensures CountIn(scores, Positive) + CountIn(scores, Neutral) + CountIn(scores, Negative) == |scores|
  {
    if |scores| > 0 {
      BucketsPartition(scores[..|scores| - 1]);
    }
  }

  /** The label of an average and the bucket of a single score agree
      except at exactly plus or minus 0.05. */
  lemma LabelAgreesOffBoundary(x: real)
    ensures x != 0.05 && x != -0.05 ==> AverageLabel(x) == BucketOf(x)
    ensures AverageLabel(0.05) == Neutral && BucketOf(0.05) == Positive
    ensures AverageLabel(-0.05) == Neutral && BucketOf(-0.05) == Negative
  {
  }

  /** Bounds on every score bound the sum. */
  lemma {:induction false} SumBounds(scores: seq<real>, lo: real, hi: real)
    requires forall i :: 0 <= i < |scores| ==> lo <= scores[i] <= hi
    ensures lo * |scores| as real <= Sum(scores) <= hi * |scores| as real
  {
    if |scores| > 0 {
      var n := |scores|;
      SumBounds(scores[..n - 1], lo, hi);
      assert lo * (n - 1) as real + lo == lo * n as real;
      assert hi * (n - 1) as real + hi == hi * n as real;
    }
  }

  /** Strict bounds on every score of a non-empty sample bound the sum strictly. */
  lemma {:induction false} SumStrictBounds(scores: seq<real>, lo: real, hi: real)
    requires |scores| > 0
    requires forall i :: 0 <= i < |scores| ==> lo < scores[i] < hi
    ensures lo * |scores| as real < Sum(scores) < hi * |scores| as real
  {
    var n := |scores|;
    if n > 1 {
      SumStrictBounds(scores[..n - 1], lo, hi);
    }
    assert lo * (n - 1) as real + lo == lo * n as real;
    assert hi * (n - 1) as real + hi == hi * n as real;
  }

  /** The mean of scores in [-1, 1] is in [-1, 1]. */
  lemma MeanInRange(scores: seq<real>)
    requires forall i :: 0 <= i < |scores| ==> -1.0 <= scores[i] <= 1.0
    ensures -1.0 <= Mean(scores) <= 1.0
  {
    if |scores| > 0 {
      SumBounds(scores, -1.0, 1.0);
      MeanTimesCount(scores);
      var m, n := Mean(scores), |scores| as real;
      CancelPositiveWeak(-1.0, m, n);
      CancelPositiveWeak(m, 1.0, n);
    }
  }

  /** A sample whose every text lands in the neutral bucket, the empty one
      included, has an average strictly inside (-0.05, 0.05), labelled
      neutral. */
  lemma NeutralSampleIsNeutral(scores: seq<real>)
    requires forall i :: 0 <= i < |scores| ==> BucketOf(scores[i]) == Neutral
    ensures -0.05 < Mean(scores) < 0.05
    ensures AverageLabel(Mean(scores)) == Neutral
  {
    if |scores| > 0 {
      SumStrictBounds(scores, -0.05, 0.05);
      MeanTimesCount(scores);
      var m, n := Mean(scores), |scores| as real;
      CancelPositive(m, 0.05, n);
      CancelPositive(-0.05, m, n);
    }
  }

  /** A non-empty sample whose every score is above 0.05 is labelled positive. */
  lemma StronglyPositiveSampleIsPositive(scores: seq<real>)
    requires |scores| > 0
    requires forall i :: 0 <= i < |scores| ==> 0.05 < scores[i] <= 1.0
    ensures AverageLabel(Mean(scores)) == Positive
  {
    SumStrictBounds(scores, 0.05, 1.01);
    MeanTimesCount(scores);
    CancelPositive(0.05, Mean(scores), |scores| as real);
  }

  /** The mean of a non-empty sample times its size is the sum. */
  lemma MeanTimesCount(scores: seq<real>)
    requires |scores| > 0
    ensures Mean(scores) * |scores| as real == Sum(scores)
  {
  }

  /** Dividing both sides of a weak inequality by a positive count. */
  lemma CancelPositiveWeak(a: real, b: real, n: real)
    requires n > 0.0 && a * n <= b * n
    ensures a <= b
  {
  }

  /** Dividing both sides of a strict inequality by a positive count. */
  lemma CancelPositive(a: real, b: real, n: real)
    requires n > 0.0 && a * n < b * n
    ensures a < b
  {
  }

  /** A single score of exactly 0.05 is bucketed positive while the
      average of that one-text sample is labelled neutral. */
  lemma BoundaryScoreDisagrees()
    ensures BucketOf(0.05) == Positive
    ensures CountIn([0.05], Positive) == 1
    ensures AverageLabel(Mean([0.05])) == Neutral
  {
    assert [0.05][..0] == [];
  }
}
