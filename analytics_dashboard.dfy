/**
 * The end-of-round figures of components/AnalyticsDashboard.tsx: the two
 * sums over the per-topic records, the overall accuracy, and the data the pie
 * chart is drawn from. The drawing, the colours and the rounding of
 * percentages are not modelled.
 */
module AnalyticsDashboard {
  import opened Types

  /** Sum of `correct` over the given topics. */
  function SumCorrect(perf: Performance, ts: seq<Topic>): (n: nat) {
    if ts == [] then 0 else perf.Get(ts[0]).correct + SumCorrect(perf, ts[1..])
  }

  /** Sum of `total` over the given topics. */
  function SumTotal(perf: Performance, ts: seq<Topic>): (n: nat) {
    if ts == [] then 0 else perf.Get(ts[0]).total + SumTotal(perf, ts[1..])
  }

  lemma {:induction false} SumCorrectAtMostSumTotal(perf: Performance, ts: seq<Topic>)
    ensures WellFormed(perf) ==> SumCorrect(perf, ts) <= SumTotal(perf, ts)
  {
    if ts != [] {
      SumCorrectAtMostSumTotal(perf, ts[1..]);
    }
  }

  /** `totalAnswered` (line 17): every answer given, over all topics. */
  function TotalAnswered(perf: Performance): (n: nat) {
    SumTotal(perf, Topics)
  }

  /** `totalCorrect` (line 16); never more than `totalAnswered`. */
  function TotalCorrect(perf: Performance): (n: nat)
    ensures WellFormed(perf) ==> n <= TotalAnswered(perf)
  {
    SumCorrectAtMostSumTotal(perf, Topics);
    SumCorrect(perf, Topics)
  }

  /**
   * Replacing one topic's record moves each sum by the difference between
   * the new record and the old one, provided the topic is listed once.
   */
  lemma {:induction false} SumsAfterSet(perf: Performance, t: Topic, v: Stat, ts: seq<Topic>)
    requires Distinct(ts)
    ensures SumTotal(perf.Set(t, v), ts)
      == SumTotal(perf, ts) + (if t in ts then v.total - perf.Get(t).total else 0)
    ensures SumCorrect(perf.Set(t, v), ts)
      == SumCorrect(perf, ts) + (if t in ts then v.correct - perf.Get(t).correct else 0)
  {
    if ts != [] {
      assert Distinct(ts[1..]) by {
        forall i, j | 0 <= i < j < |ts[1..]| ensures ts[1..][i] != ts[1..][j] {
          assert ts[1..][i] == ts[i + 1] && ts[1..][j] == ts[j + 1];
        }
      }
      SumsAfterSet(perf, t, v, ts[1..]);
      assert t in ts <==> ts[0] == t || t in ts[1..];
      assert ts[0] == t ==> t !in ts[1..];
    }
  }

  /** The two dashboard totals after one topic's record is replaced. */
  lemma TotalsAfterSet(perf: Performance, t: Topic, v: Stat)
    ensures TotalAnswered(perf.Set(t, v)) == TotalAnswered(perf) - perf.Get(t).total + v.total
    ensures TotalCorrect(perf.Set(t, v)) == TotalCorrect(perf) - perf.Get(t).correct + v.correct
  {
    assert Distinct(Topics);
    assert t in Topics by { assert Topics[TopicIndex(t)] == t; }
    SumsAfterSet(perf, t, v, Topics);
  }

  /** An exact fraction `numerator / denominator`. */
  datatype Fraction = Fraction(numerator: nat, denominator: nat)

  /**
   * `overallAccuracy` (line 18) as an exact percentage; the rounding of
   * `toFixed(0)` is not modelled.
   */
  function OverallAccuracy(perf: Performance): (r: Fraction)
    ensures r.denominator > 0
    ensures TotalAnswered(perf) == 0 ==> r.numerator == 0
    ensures TotalAnswered(perf) > 0 ==> r.denominator == TotalAnswered(perf)
    ensures TotalAnswered(perf) > 0 ==> r.numerator == 100 * TotalCorrect(perf)
    ensures WellFormed(perf) ==> r.numerator <= 100 * r.denominator
  {
    if TotalAnswered(perf) > 0 then Fraction(100 * TotalCorrect(perf), TotalAnswered(perf))
    else Fraction(0, 1)
  }

  /** One entry of `pieChartData`; its colour is presentation and left out. */
  datatype Slice = Slice(name: Topic, value: nat)

  /** What the `filter(item => item.value > 0)` of line 24 keeps. */
  function KeepAnswered(slices: seq<Slice>): (r: seq<Slice>) {
    if slices == [] then []
    else (if slices[0].value > 0 then [slices[0]] else []) + KeepAnswered(slices[1..])
  }

  function SliceSum(slices: seq<Slice>): (n: nat) {
    if slices == [] then 0 else slices[0].value + SliceSum(slices[1..])
  }

  /** The slices are listed in the order of `Topics`. */
  ghost predicate InTopicOrder(slices: seq<Slice>) {
    forall i, j :: 0 <= i < j < |slices| ==> TopicIndex(slices[i].name) < TopicIndex(slices[j].name)
  }

  lemma {:induction false} KeepAnsweredMembers(slices: seq<Slice>)
    ensures forall x :: x in KeepAnswered(slices) <==> x in slices && x.value > 0
  {
    if slices != [] {
      KeepAnsweredMembers(slices[1..]);
      assert slices == [slices[0]] + slices[1..];
    }
  }

  lemma {:induction false} KeepAnsweredSum(slices: seq<Slice>)
    ensures SliceSum(KeepAnswered(slices)) == SliceSum(slices)
  {
    if slices != [] {
      KeepAnsweredSum(slices[1..]);
      var rest := KeepAnswered(slices[1..]);
      if slices[0].value > 0 {
        assert KeepAnswered(slices) == [slices[0]] + rest;
        assert ([slices[0]] + rest)[1..] == rest;
      } else {
        assert KeepAnswered(slices) == rest;
      }
    }
  }

  lemma {:induction false} KeepAnsweredInOrder(slices: seq<Slice>)
    requires InTopicOrder(slices)
    ensures InTopicOrder(KeepAnswered(slices))
  {
    if slices != [] {
      var tail := slices[1..];
      assert InTopicOrder(tail) by {
        forall i, j | 0 <= i < j < |tail|
          ensures TopicIndex(tail[i].name) < TopicIndex(tail[j].name)
        {
          assert tail[i] == slices[i + 1] && tail[j] == slices[j + 1];
        }
      }
      KeepAnsweredInOrder(tail);
      KeepAnsweredMembers(tail);
      var rest := KeepAnswered(tail);
      if slices[0].value > 0 {
        var r := [slices[0]] + rest;
        assert KeepAnswered(slices) == r;
        forall i, j | 0 <= i < j < |r|
          ensures TopicIndex(r[i].name) < TopicIndex(r[j].name)
        {
          if i == 0 {
            assert r[j] == rest[j - 1];
            assert rest[j - 1] in tail;
            var m :| 0 <= m < |tail| && tail[m] == rest[j - 1];
            assert tail[m] == slices[m + 1];
          } else {
            assert r[i] == rest[i - 1] && r[j] == rest[j - 1];
          }
        }
      }
    }
  }

  /** The `TOPICS.map(...)` of line 20, before filtering. */
  function TopicSlices(perf: Performance, ts: seq<Topic>): (r: seq<Slice>) {
    seq(|ts|, i requires 0 <= i < |ts| => Slice(ts[i], perf.Get(ts[i]).total))
  }

  lemma {:induction false} TopicSlicesSum(perf: Performance, ts: seq<Topic>)
    ensures SliceSum(TopicSlices(perf, ts)) == SumTotal(perf, ts)
  {
    if ts != [] {
      assert TopicSlices(perf, ts)[1..] == TopicSlices(perf, ts[1..]);
      TopicSlicesSum(perf, ts[1..]);
    }
  }

  /**
   * `pieChartData` (lines 20-24): one slice per attempted topic and none
   * other, in the order of `Topics`, each valued at the topic's total; the
   * values add up to `totalAnswered`.
   */
  function PieChartData(perf: Performance): (r: seq<Slice>)
    ensures forall t :: (exists i :: 0 <= i < |r| && r[i].name == t) <==> perf.Get(t).total > 0
    ensures forall i :: 0 <= i < |r| ==> r[i].value == perf.Get(r[i].name).total && r[i].value > 0
    ensures InTopicOrder(r)
    ensures SliceSum(r) == TotalAnswered(perf)
  {
    var all := TopicSlices(perf, Topics);
    KeepAnsweredMembers(all);
    KeepAnsweredSum(all);
    TopicSlicesSum(perf, Topics);
    assert InTopicOrder(all);
    KeepAnsweredInOrder(all);
    var r := KeepAnswered(all);
    assert forall t :: perf.Get(t).total > 0 ==> Slice(t, perf.Get(t).total) in r by {
      forall t | perf.Get(t).total > 0 ensures Slice(t, perf.Get(t).total) in r {
        assert all[TopicIndex(t)] == Slice(t, perf.Get(t).total);
      }
    }
    assert forall i :: 0 <= i < |r| ==> r[i] in all;
    r
  }
}
