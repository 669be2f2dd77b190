/**
 * Per-variable statistics of the aggregated range query: minimum, maximum,
 * mean and sum over the days whose value is not null.
 */
module Aggregation {
  import opened Wrappers

  datatype Stat = Stat(min: real, max: real, mean: real, sum: real)

  /** The non-null values, in order (`[v for v in values if v is not None]`). */
  function NonNull(vals: seq<Option<real>>): (r: seq<real>)
    ensures |r| <= |vals|
    ensures forall x :: x in r <==> Some(x) in vals
  {
    if vals == [] then []
    else
      var rest := NonNull(vals[1..]);
      assert vals == [vals[0]] + vals[1..];
      if vals[0].Some? then [vals[0].value] + rest else rest
  }

  /** The filter keeps every non-null value as often as it occurs. */
  lemma {:induction false} NonNullCounts(vals: seq<Option<real>>, x: real)
    ensures multiset(NonNull(vals))[x] == multiset(vals)[Some(x)]
  {
    if vals != [] {
      NonNullCounts(vals[1..], x);
      assert vals == [vals[0]] + vals[1..];
    }
  }

  /**
   * The filter keeps order: filtering a concatenation concatenates the
   * filtered parts, so each value keeps its place among the non-null ones.
   */
  lemma {:induction false} NonNullAppend(a: seq<Option<real>>, b: seq<Option<real>>)
    ensures NonNull(a + b) == NonNull(a) + NonNull(b)
  {
    if a == [] {
      assert a + b == b;
    } else {
      assert (a + b)[1..] == a[1..] + b;
      NonNullAppend(a[1..], b);
    }
  }

  /** Python's `sum`: a left-to-right sum starting from zero. */
  function Sum(s: seq<real>): real {
    if s == [] then 0.0 else Sum(s[..|s| - 1]) + s[|s| - 1]
  }

  function Min(s: seq<real>): (r: real)
    requires |s| > 0
    ensures r in s
    ensures forall i :: 0 <= i < |s| ==> r <= s[i]
  {
    if |s| == 1 then s[0]
    else
      var m := Min(s[1..]);
      assert forall i :: 1 <= i < |s| ==> s[i] == s[1..][i - 1];
      if s[0] <= m then s[0] else m
  }

  function Max(s: seq<real>): (r: real)
    requires |s| > 0
    ensures r in s
    ensures forall i :: 0 <= i < |s| ==> s[i] <= r
  {
    if |s| == 1 then s[0]
    else
      var m := Max(s[1..]);
      assert forall i :: 1 <= i < |s| ==> s[i] == s[1..][i - 1];
      if s[0] >= m then s[0] else m
  }

  /** `total` lies between `n` times `lo` and `n` times `hi`. */
  predicate Between(total: real, n: nat, lo: real, hi: real) {
    n as real * lo <= total <= n as real * hi
  }

  /** A sum of `n` values lies between `n` times their least and `n` times their greatest. */
  lemma {:induction false} SumBetween(s: seq<real>, lo: real, hi: real)
    requires forall i :: 0 <= i < |s| ==> lo <= s[i] <= hi
    ensures Between(Sum(s), |s|, lo, hi)
  {
    if s != [] {
      var init := s[..|s| - 1];
      assert forall i :: 0 <= i < |init| ==> init[i] == s[i];
      SumBetween(init, lo, hi);
      assert |s| as real == |init| as real + 1.0;
    }
  }

  /** Every present value of `vals` is kept by `NonNull`. */
  lemma NonNullKeeps(vals: seq<Option<real>>, i: int)
    requires 0 <= i < |vals| && vals[i].Some?
    ensures vals[i].value in NonNull(vals)
  {
    assert Some(vals[i].value) in vals;
  }

  /** `st.sum` is `st.mean` times the number `n` of values summarised. */
  predicate SumIsMeanTimes(st: Stat, n: nat) {
    st.sum == st.mean * n as real
  }

  /** The statistics of `n` values bounded by `lo` and `hi` whose sum is `total`. */
  function MakeStat(lo: real, hi: real, total: real, n: nat): (r: Stat)
    requires n > 0
    requires Between(total, n, lo, hi)
    ensures r.min == lo && r.max == hi && r.sum == total && r.mean == total / n as real
    ensures lo <= r.mean <= hi
    ensures SumIsMeanTimes(r, n)
  {
    Stat(lo, hi, total / n as real, total)
  }

  /** The four statistics of a non-empty list of values. */
  function StatOf(valid: seq<real>): (r: Stat)
    requires |valid| > 0
    ensures r.min <= r.mean <= r.max
    ensures r.sum == Sum(valid) && r.mean == r.sum / |valid| as real
    ensures SumIsMeanTimes(r, |valid|)
    ensures r.min in valid && r.max in valid
    ensures forall i :: 0 <= i < |valid| ==> r.min <= valid[i] <= r.max
  {
    var lo, hi, total := Min(valid), Max(valid), Sum(valid);
    SumBetween(valid, lo, hi);
    MakeStat(lo, hi, total, |valid|)
  }

  /**
   * The statistics of one variable over one year's range; `None` when every
   * value is null, in which case no statistic is reported for the variable.
   */
  function Summarize(vals: seq<Option<real>>): (r: Option<Stat>)
    ensures r.None? <==> forall i :: 0 <= i < |vals| ==> vals[i].None?
    ensures r.Some? ==> r.value.min <= r.value.mean <= r.value.max
    ensures r.Some? ==> |NonNull(vals)| > 0 && r.value.sum == Sum(NonNull(vals))
    ensures r.Some? ==> r.value.mean == r.value.sum / |NonNull(vals)| as real
    ensures r.Some? ==> SumIsMeanTimes(r.value, |NonNull(vals)|)
    ensures r.Some? ==> Some(r.value.min) in vals && Some(r.value.max) in vals
    ensures r.Some? ==> forall i :: 0 <= i < |vals| && vals[i].Some? ==>
                          r.value.min <= vals[i].value <= r.value.max
  {
    var valid := NonNull(vals);
    if valid == [] then
      assert forall i :: 0 <= i < |vals| ==> vals[i].None? by {
        forall i | 0 <= i < |vals| ensures vals[i].None? {
          if vals[i].Some? {
            NonNullKeeps(vals, i);
          }
        }
      }
      None
    else
      var st := StatOf(valid);
      assert forall i :: 0 <= i < |vals| && vals[i].Some? ==> st.min <= vals[i].value <= st.max by {
        forall i | 0 <= i < |vals| && vals[i].Some?
          ensures st.min <= vals[i].value <= st.max
        {
          NonNullKeeps(vals, i);
        }
      }
      Some(st)
  }

  /** The worked example: nulls are excluded from all four statistics. */
  lemma SummarizeExample()
    ensures Summarize([Some(10.0), None, Some(20.0), Some(30.0)]) == Some(Stat(10.0, 30.0, 20.0, 60.0))
  {
    ExampleNonNull();
    ExampleStat();
  }

  lemma ExampleNonNull()
    ensures NonNull([Some(10.0), None, Some(20.0), Some(30.0)]) == [10.0, 20.0, 30.0]
  {
    var vals: seq<Option<real>> := [Some(10.0), None, Some(20.0), Some(30.0)];
    assert vals[1..] == [None, Some(20.0), Some(30.0)];
    assert vals[1..][1..] == [Some(20.0), Some(30.0)];
    assert vals[1..][1..][1..] == [Some(30.0)];
    assert |vals[1..][1..][1..][1..]| == 0;
  }

  lemma ExampleStat()
    ensures StatOf([10.0, 20.0, 30.0]) == Stat(10.0, 30.0, 20.0, 60.0)
  {
    var valid := [10.0, 20.0, 30.0];
    assert valid[..2] == [10.0, 20.0];
    assert valid[..2][..1] == [10.0];
    assert |valid[..2][..1][..0]| == 0;
    assert Sum([10.0]) == 10.0;
    assert Sum([10.0, 20.0]) == 30.0;
    assert Sum(valid) == 60.0;
    assert valid[1..] == [20.0, 30.0];
    assert valid[1..][1..] == [30.0];
    assert Min(valid) == 10.0;
    assert Max(valid) == 30.0;
  }

}
