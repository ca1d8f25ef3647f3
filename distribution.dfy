/** The probability pass and the sampler of LanguageModel.java
    (`calculateProbabilities`, `getRandomChar`) stated on record sequences. */
module Distribution {
  import opened FrequencyList

  /** The probability of record `i`: its count over the table's total. */
  function Prob(rs: seq<CharData>, i: int): real
    requires Positive(rs) && 0 <= i < |rs|
  {
    TotalAtLeastSize(rs);
    rs[i].count as real / Total(rs) as real
  }

  /** The sum of the first `k` probabilities, accumulated in list order. */
  function ProbSum(rs: seq<CharData>, k: int): real
    requires Positive(rs) && 0 <= k <= |rs|
    decreases k
  {
    if k == 0 then 0.0 else ProbSum(rs, k - 1) + Prob(rs, k - 1)
  }

  /** The records after `calculateProbabilities`: each gets its probability and
      the running sum of probabilities up to and including itself. */
  function Finalize(rs: seq<CharData>): (r: seq<CharData>)
    requires Positive(rs)
    ensures |r| == |rs|
    ensures forall i :: 0 <= i < |rs| ==> r[i].chr == rs[i].chr && r[i].count == rs[i].count
  {
    seq(|rs|, i requires 0 <= i < |rs| => rs[i].(p := Prob(rs, i), cp := ProbSum(rs, i + 1)))
  }

  /** The sum of the `p` fields of a record sequence. */
  function SumP(rs: seq<CharData>): real
    decreases |rs|
  {
    if rs == [] then 0.0 else SumP(rs[..|rs| - 1]) + rs[|rs| - 1].p
  }

  /** The character `getRandomChar` returns for the draw `r`: that of the first
      record whose cumulative probability exceeds `r`, or ' ' when none does. */
  function Sample(rs: seq<CharData>, r: real): (c: char)
    ensures (forall i :: 0 <= i < |rs| ==> rs[i].cp <= r) ==> c == ' '
    ensures forall i :: 0 <= i < |rs| && r < rs[i].cp && (forall j :: 0 <= j < i ==> rs[j].cp <= r) ==> c == rs[i].chr
    decreases |rs|
  {
    if rs == [] then ' '
    else if r < rs[0].cp then rs[0].chr
    else
      assert forall i :: 1 <= i < |rs| ==> rs[1..][i - 1] == rs[i];
      Sample(rs[1..], r)
  }

  // ---------------------------------------------------------------------------
  // Lemmas
  // ---------------------------------------------------------------------------

  /** Finalization keeps the total count. */
  lemma {:induction false} TotalSameCounts(a: seq<CharData>, b: seq<CharData>)
    requires |a| == |b| && forall i :: 0 <= i < |a| ==> a[i].count == b[i].count
    ensures Total(a) == Total(b)
    decreases |a|
  {
    if a != [] {
      TotalSameCounts(a[..|a| - 1], b[..|b| - 1]);
    }
  }

  /** Finalization keeps the count of every character. */
  lemma {:induction false} CountInSameCounts(a: seq<CharData>, b: seq<CharData>, d: char)
    requires |a| == |b| && forall i :: 0 <= i < |a| ==> a[i].chr == b[i].chr && a[i].count == b[i].count
    ensures CountIn(a, d) == CountIn(b, d)
    decreases |a|
  {
    if a != [] {
      CountInSameCounts(a[1..], b[1..], d);
    }
  }

  /** Finalization keeps every table invariant. */
  lemma FinalizeInvariants(rs: seq<CharData>)
    requires Positive(rs)
    ensures Positive(Finalize(rs))
    ensures Unique(rs) ==> Unique(Finalize(rs))
    ensures Total(Finalize(rs)) == Total(rs)
    ensures forall d :: CountIn(Finalize(rs), d) == CountIn(rs, d)
  {
    TotalSameCounts(Finalize(rs), rs);
    forall d ensures CountIn(Finalize(rs), d) == CountIn(rs, d) {
      CountInSameCounts(Finalize(rs), rs, d);
    }
  }

  /** Prefix totals are monotone and bounded by the whole total. */
  lemma TotalPrefix(rs: seq<CharData>, i: int, j: int)
    requires 0 <= i <= j <= |rs|
    ensures Total(rs[..i]) <= Total(rs[..j]) <= Total(rs)
  {
    assert rs[..j] == rs[..i] + rs[i..j];
    TotalConcat(rs[..i], rs[i..j]);
    assert rs == rs[..j] + rs[j..];
    TotalConcat(rs[..j], rs[j..]);
  }

  /** The accumulated probability after `k` records is the share of the total
      count held by those `k` records. */
  lemma {:induction false} ProbSumShare(rs: seq<CharData>, k: int)
    requires Positive(rs) && 0 <= k <= |rs|
    ensures Total(rs) > 0 || rs == []
    ensures rs != [] ==> ProbSum(rs, k) == Total(rs[..k]) as real / Total(rs) as real
    decreases k
  {
    TotalAtLeastSize(rs);
    if k == 0 {
      assert rs[..0] == [];
    } else {
      ProbSumShare(rs, k - 1);
      assert rs[..k][..k - 1] == rs[..k - 1];
      assert Total(rs[..k]) == Total(rs[..k - 1]) + rs[k - 1].count;
      AddShares(Total(rs[..k - 1]) as real, rs[k - 1].count as real, Total(rs) as real);
    }
  }

  lemma AddShares(a: real, b: real, t: real)
    requires t != 0.0
    ensures a / t + b / t == (a + b) / t
  {
  }

  /** `p` is count over total, and the `p` fields of a finalized list sum to 1. */
  lemma FinalizedShares(rs: seq<CharData>)
    requires Positive(rs) && rs != []
    ensures Total(rs) > 0
    ensures forall i :: 0 <= i < |rs| ==> Finalize(rs)[i].p == rs[i].count as real / Total(rs) as real
    ensures SumP(Finalize(rs)) == 1.0
  {
    TotalAtLeastSize(rs);
    var f := Finalize(rs);
    SumPIsProbSum(rs, |rs|);
    assert f[..|rs|] == f;
    ProbSumShare(rs, |rs|);
    assert rs[..|rs|] == rs;
    WholeShare(Total(rs) as real);
  }

  lemma WholeShare(t: real)
    requires t != 0.0
    ensures t / t == 1.0
  {
  }

  /** The `p` fields of the first `k` finalized records add up to the accumulated sum. */
  lemma {:induction false} SumPIsProbSum(rs: seq<CharData>, k: int)
    requires Positive(rs) && 0 <= k <= |rs|
    ensures SumP(Finalize(rs)[..k]) == ProbSum(rs, k)
    decreases k
  {
    var f := Finalize(rs);
    if k == 0 {
      assert f[..0] == [];
    } else {
      SumPIsProbSum(rs, k - 1);
      assert f[..k][..k - 1] == f[..k - 1];
    }
  }

  /** Each `cp` is the inclusive running sum of the `p` fields in list order. */
  lemma FinalizedRunningSum(rs: seq<CharData>, i: int)
    requires Positive(rs) && 0 <= i < |rs|
    ensures Finalize(rs)[i].cp == SumP(Finalize(rs)[..i + 1])
  {
    SumPIsProbSum(rs, i + 1);
  }

  /** Record `i` of the finalized table in terms of the accumulated sums. */
  lemma FinalizedAt(rs: seq<CharData>, i: int)
    requires Positive(rs) && 0 <= i < |rs|
    ensures Finalize(rs)[i].p == Prob(rs, i) && Finalize(rs)[i].cp == ProbSum(rs, i + 1)
  {
  }

  /** One iteration of the probability pass: with the total count and the sum
      so far, record `k` gets its probability and the new running sum. */
  lemma FinalizedStep(rs: seq<CharData>, k: int, total: int, sum: real)
    requires Positive(rs) && 0 <= k < |rs| && total == Total(rs) && sum == ProbSum(rs, k)
    ensures total > 0
    ensures sum + rs[k].count as real / total as real == ProbSum(rs, k + 1)
    ensures rs[k].(p := rs[k].count as real / total as real, cp := ProbSum(rs, k + 1)) == Finalize(rs)[k]
  {
    TotalAtLeastSize(rs);
    FinalizedAt(rs, k);
  }

  /** The cumulative probability of record `i` is the share of the total count
      held by records 0 through `i`. */
  lemma CumulativeShare(rs: seq<CharData>, i: int)
    requires Positive(rs) && 0 <= i < |rs|
    ensures Total(rs) > 0
    ensures Finalize(rs)[i].cp == Total(rs[..i + 1]) as real / Total(rs) as real
    ensures 0.0 < Finalize(rs)[i].cp <= 1.0
  {
    var prefix := rs[..i + 1];
    assert 1 <= Total(prefix) <= Total(rs) by {
      TotalPrefix(rs, i + 1, |rs|);
      assert Positive(prefix);
      TotalAtLeastSize(prefix);
    }
    assert Finalize(rs)[i].cp == Total(prefix) as real / Total(rs) as real by {
      FinalizedAt(rs, i);
      ProbSumShare(rs, i + 1);
    }
    CumulativeBounds(Total(prefix) as real, Total(rs) as real);
  }

  /** On a non-empty table the cumulative probabilities are non-decreasing, lie in
      (0, 1], and the last one is exactly 1. */
  lemma FinalizedCumulative(rs: seq<CharData>)
    requires Positive(rs) && rs != []
    ensures forall i, j :: 0 <= i <= j < |rs| ==> Finalize(rs)[i].cp <= Finalize(rs)[j].cp
    ensures forall i :: 0 <= i < |rs| ==> 0.0 < Finalize(rs)[i].cp <= 1.0
    ensures Finalize(rs)[|rs| - 1].cp == 1.0
  {
    var f := Finalize(rs);
    forall i | 0 <= i < |rs| ensures 0.0 < f[i].cp <= 1.0 {
      CumulativeShare(rs, i);
    }
    forall i, j | 0 <= i <= j < |rs| ensures f[i].cp <= f[j].cp {
      CumulativeMonotone(rs, i, j);
    }
    assert f[|rs| - 1].cp == 1.0 by {
      CumulativeShare(rs, |rs| - 1);
      assert rs[..|rs|] == rs;
      WholeShare(Total(rs) as real);
    }
  }

  /** A later record's cumulative probability is at least an earlier one's. */
  lemma CumulativeMonotone(rs: seq<CharData>, i: int, j: int)
    requires Positive(rs) && 0 <= i <= j < |rs|
    ensures Finalize(rs)[i].cp <= Finalize(rs)[j].cp
  {
    CumulativeShare(rs, i);
    CumulativeShare(rs, j);
    TotalPrefix(rs, i + 1, j + 1);
    DivMonotone(Total(rs[..i + 1]) as real, Total(rs[..j + 1]) as real, Total(rs) as real);
  }

  lemma CumulativeBounds(a: real, t: real)
    requires 1.0 <= a <= t
    ensures 0.0 < a / t <= 1.0
  {
  }

  lemma BelowWhole(a: real, t: real)
    requires 0.0 <= a < t
    ensures a / t < 1.0
  {
  }

  lemma DivMonotone(a: real, b: real, t: real)
    requires a <= b && 0.0 < t
    ensures a / t <= b / t
  {
  }

  /** When some record's `cp` exceeds `r`, a first such record exists. */
  lemma {:induction false} FirstCover(rs: seq<CharData>, r: real, k: int)
    requires 0 <= k < |rs| && r < rs[k].cp
    ensures exists i :: 0 <= i <= k && r < rs[i].cp && forall j :: 0 <= j < i ==> rs[j].cp <= r
    decreases k
  {
    if !(forall j :: 0 <= j < k ==> rs[j].cp <= r) {
      var j :| 0 <= j < k && r < rs[j].cp;
      FirstCover(rs, r, j);
    }
  }

  /** On a finalized non-empty table every draw below 1 selects a record: the
      first one whose cumulative probability exceeds the draw, so the ' '
      fallback is never reached. */
  lemma SampleFinalized(rs: seq<CharData>, r: real)
    requires Positive(rs) && rs != [] && r < 1.0
    ensures exists i :: 0 <= i < |rs| && r < Finalize(rs)[i].cp
                        && (forall j :: 0 <= j < i ==> Finalize(rs)[j].cp <= r)
                        && Sample(Finalize(rs), r) == rs[i].chr
  {
    FinalizedCumulative(rs);
    FirstCover(Finalize(rs), r, |rs| - 1);
  }

  /** A draw of 0 selects the first record. */
  lemma SampleZero(rs: seq<CharData>)
    requires Positive(rs) && rs != []
    ensures Sample(Finalize(rs), 0.0) == rs[0].chr
  {
    var f := Finalize(rs);
    CumulativeShare(rs, 0);
    assert 0.0 < f[0].cp;
  }

  /** A draw at or above the second-to-last cumulative probability (and below 1)
      selects the last record. */
  lemma SampleLast(rs: seq<CharData>, r: real)
    requires Positive(rs) && rs != [] && r < 1.0
    requires |rs| == 1 || Finalize(rs)[|rs| - 2].cp <= r
    ensures Sample(Finalize(rs), r) == rs[|rs| - 1].chr
    ensures |rs| >= 2 ==> Finalize(rs)[|rs| - 2].cp < 1.0
  {
    if |rs| >= 2 {
      CumulativeShare(rs, |rs| - 2);
      assert rs[..|rs| - 2 + 1] == rs[..|rs| - 1];
      BelowWhole(Total(rs[..|rs| - 1]) as real, Total(rs) as real);
    }
    FinalizedCumulative(rs);
    var f := Finalize(rs);
    assert forall j :: 0 <= j < |rs| - 1 ==> f[j].cp <= f[|rs| - 2].cp;
  }
}
