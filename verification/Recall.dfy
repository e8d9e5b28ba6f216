/**
 Recall of a result against a gold standard: a two-pointer merge of sorted rows of
 distances that gives up when the result is nearer than the gold row allows.
 */
module Recalls {
  import opened Wrappers

  datatype RecallError =
    | Unverified          // a BOOST_VERIFY on the dimensions failed
    | DistanceIsUnstable  // the runtime error of the merge

  ghost predicate Ascending(s: seq<real>) {
    forall i, j :: 0 <= i <= j < |s| ==> s[i] <= s[j]
  }

  /** The merge of two rows from these positions on; None is the exception. */
  function Merge(gs: seq<real>, re: seq<real>, g: nat, r: nat): Option<nat>
    requires g <= |gs| && r <= |re|
    decreases |gs| - g + |re| - r
  {
    if g == |gs| || r == |re| then Some(0)
    else if gs[g] < re[r] then Merge(gs, re, g + 1, r)
    else if gs[g] == re[r] then
      match Merge(gs, re, g + 1, r + 1)
      case Some(found) => Some(found + 1)
      case None => None
    else None
  }

  /** No distance below the last gold one occurs more often in the result than in the gold row. */
  ghost predicate Stable(gs: seq<real>, re: seq<real>) {
    forall v: real :: gs != [] && v < gs[|gs| - 1] ==> multiset(re)[v] <= multiset(gs)[v]
  }

  ghost predicate Merged(gs: seq<real>, re: seq<real>, g: nat, r: nat) {
    && g <= |gs| && r <= |re|
    && multiset(re[..r]) <= multiset(gs[..g])
    && (r < |re| ==> forall v :: v >= re[r] ==> multiset(gs[..g])[v] == multiset(re[..r])[v])
    && (r < |re| && g > 0 ==> gs[g - 1] <= re[r])
  }

  lemma {:induction false} PrefixCount(s: seq<real>, n: nat, v: real)
    requires n < |s|
    ensures multiset(s[..n + 1])[v] == multiset(s[..n])[v] + if s[n] == v then 1 else 0
  {
    assert s[..n + 1] == s[..n] + [s[n]];
  }

  lemma {:induction false} SplitCount(s: seq<real>, n: nat, v: real)
    requires n <= |s|
    ensures multiset(s)[v] == multiset(s[..n])[v] + multiset(s[n..])[v]
  {
    assert s == s[..n] + s[n..];
  }

  lemma {:induction false} MergeStep(gs: seq<real>, re: seq<real>, g: nat, r: nat)
    requires Merged(gs, re, g, r) && Ascending(gs) && Ascending(re) && g < |gs| && r < |re|
    ensures gs[g] < re[r] ==> Merged(gs, re, g + 1, r)
    ensures gs[g] == re[r] ==> Merged(gs, re, g + 1, r + 1)
  {
    assert gs[..g + 1] == gs[..g] + [gs[g]];
    assert re[..r + 1] == re[..r] + [re[r]];
    if gs[g] == re[r] {
      forall v {:trigger multiset(re[..r + 1])[v]}
        ensures multiset(re[..r + 1])[v] <= multiset(gs[..g + 1])[v]
        ensures r + 1 < |re| && v >= re[r + 1] ==> multiset(gs[..g + 1])[v] == multiset(re[..r + 1])[v]
      {
        PrefixCount(gs, g, v);
        PrefixCount(re, r, v);
        assert r + 1 < |re| ==> re[r] <= re[r + 1];
        assert multiset(re[..r])[v] <= multiset(gs[..g])[v];
      }
    }
  }

  /** A result distance below every gold one left is one too many of its kind. */
  lemma {:induction false} UnstableWitness(gs: seq<real>, re: seq<real>, g: nat, r: nat)
    requires Merged(gs, re, g, r) && Ascending(gs) && g < |gs| && r < |re| && gs[g] > re[r]
    ensures !Stable(gs, re)
  {
    var v := re[r];
    SplitCount(gs, g, v);
    SplitCount(re, r, v);
    assert v !in gs[g..];
    assert v in re[r..] by { assert re[r..][0] == v; }
    assert multiset(re)[v] > multiset(gs)[v];
  }

  /** A finished merge matched the whole multiset intersection, and the result was stable. */
  lemma {:induction false} MergeDone(gs: seq<real>, re: seq<real>, g: nat, r: nat)
    requires Merged(gs, re, g, r) && Ascending(gs) && Ascending(re) && (g == |gs| || r == |re|)
    ensures Stable(gs, re) && r == |multiset(gs) * multiset(re)|
  {
    assert gs[..g] == gs || g < |gs|;
    forall v
      ensures gs != [] && v < gs[|gs| - 1] ==> multiset(re)[v] <= multiset(gs)[v]
      ensures (multiset(gs) * multiset(re))[v] == multiset(re[..r])[v]
    {
      SplitCount(gs, g, v);
      SplitCount(re, r, v);
      if r < |re| {
        if v < re[r] {
          assert v !in re[r..];
        }
      } else {
        assert re[r..] == [];
      }
    }
    assert multiset(gs) * multiset(re) == multiset(re[..r]);
  }

  /** On sorted rows the merge counts the multiset intersection, and it fails exactly when the row is not stable. */
  lemma {:induction false} MergeFrom(gs: seq<real>, re: seq<real>, g: nat, r: nat)
    requires g <= |gs| && r <= |re| && Merged(gs, re, g, r) && Ascending(gs) && Ascending(re)
    ensures Merge(gs, re, g, r) == if Stable(gs, re) then Some(|multiset(gs) * multiset(re)| - r) else None
    decreases |gs| - g + |re| - r
  {
    hide Merged, Ascending, Stable;
    if g == |gs| || r == |re| {
      MergeDone(gs, re, g, r);
    } else if gs[g] <= re[r] {
      MergeStep(gs, re, g, r);
      MergeFrom(gs, re, g + 1, if gs[g] < re[r] then r else r + 1);
    } else {
      UnstableWitness(gs, re, g, r);
    }
  }

  lemma {:induction false} MergeCorrect(gs: seq<real>, re: seq<real>)
    requires Ascending(gs) && Ascending(re)
    ensures Merge(gs, re, 0, 0) == if Stable(gs, re) then Some(|multiset(gs) * multiset(re)|) else None
  {
    assert Merged(gs, re, 0, 0);
    MergeFrom(gs, re, 0, 0);
  }

  /** A result distance of 1 where the nearest gold one is 2. */
  lemma UnstableRow()
    ensures !Stable([2.0], [1.0]) && Merge([2.0], [1.0], 0, 0) == None
  {
    MergeCorrect([2.0], [1.0]);
  }

  /** One row: on sorted rows the number of gold distances found, or the error exactly when the row is not stable. */
  method CountFound(gs: seq<real>, re: seq<real>) returns (r: Result<nat, RecallError>)
    ensures r == match Merge(gs, re, 0, 0) case Some(found) => Ok(found) case None => Err(DistanceIsUnstable)
    ensures Ascending(gs) && Ascending(re) ==>
      r == if Stable(gs, re) then Ok(|multiset(gs) * multiset(re)|) else Err(DistanceIsUnstable)
  {
    if Ascending(gs) && Ascending(re) {
      MergeCorrect(gs, re);
    }
    var found, gsN, reN := 0, 0, 0;
    while gsN < |gs| && reN < |re|
      invariant gsN <= |gs| && reN <= |re|
      invariant match Merge(gs, re, gsN, reN)
                case Some(more) => Merge(gs, re, 0, 0) == Some(found + more)
                case None => Merge(gs, re, 0, 0) == None
      decreases |gs| - gsN + |re| - reN
    {
      if gs[gsN] < re[reN] {
        gsN := gsN + 1;
      } else if gs[gsN] == re[reN] {
        found := found + 1;
        gsN := gsN + 1;
        reN := reN + 1;
      } else {
        return Err(DistanceIsUnstable);
      }
    }
    return Ok(found);
  }

  /** Distances of K distinct points against the K smallest of all: the merge cannot fail. */
  lemma {:induction false} TrueResultStable(all: multiset<real>, gs: seq<real>, re: seq<real>)
    requires Ascending(gs) && multiset(gs) <= all && multiset(re) <= all
    requires forall v :: gs != [] && v in all - multiset(gs) ==> v >= gs[|gs| - 1]
    ensures Stable(gs, re)
  {
    forall v: real | gs != [] && v < gs[|gs| - 1]
      ensures multiset(re)[v] <= multiset(gs)[v]
    {
      assert v !in all - multiset(gs);
      assert (all - multiset(gs))[v] == all[v] - multiset(gs)[v];
    }
  }

  /** A float that may be the result of dividing zero by zero. */
  datatype Float = NaN | Number(value: real)

  function Add(x: Float, y: Float): Float {
    if x.NaN? || y.NaN? then NaN else Number(x.value + y.value)
  }

  /** Division; here only zero is ever divided by zero. */
  function Divide(x: Float, y: Float): Float {
    if x.NaN? || y.NaN? || y.value == 0.0 then NaN else Number(x.value / y.value)
  }

  ghost predicate Rows(m: seq<seq<real>>, dim: nat) {
    forall i :: 0 <= i < |m| ==> |m[i]| == dim
  }

  function Fraction(found: nat, K: nat): real
    requires 0 < K
  {
    found as real / K as real
  }

  /** The merge of the first K distances of row i. */
  function RowMerge(gs: seq<seq<real>>, result: seq<seq<real>>, K: nat, i: nat): Option<nat>
    requires i < |result| <= |gs| && |gs[i]| >= K && |result[i]| >= K
  {
    Merge(gs[i][..K], result[i][..K], 0, 0)
  }

  /** The fractions of the first K gold distances found in the first n rows, added up. */
  ghost function SumFound(gs: seq<seq<real>>, result: seq<seq<real>>, K: nat, n: nat): real
    requires 0 < K && n <= |result| <= |gs|
    requires forall i :: 0 <= i < |result| ==> |gs[i]| >= K && |result[i]| >= K
  {
    if n == 0 then 0.0
    else
      SumFound(gs, result, K, n - 1) +
      match RowMerge(gs, result, K, n - 1) case Some(found) => Fraction(found, K) case None => 0.0
  }

  /** Every one of the first n rows can be merged. */
  ghost predicate AllMerge(gs: seq<seq<real>>, result: seq<seq<real>>, K: nat, n: nat)
    requires n <= |result| <= |gs|
    requires forall i :: 0 <= i < |result| ==> |gs[i]| >= K && |result[i]| >= K
  {
    forall i :: 0 <= i < n ==> RowMerge(gs, result, K, i).Some?
  }

  /** What AverageRecall returns for K columns: with no row, or no column, a mean of nothing. */
  ghost function Recall(gs: seq<seq<real>>, result: seq<seq<real>>, K: nat): Result<Float, RecallError>
    requires |result| <= |gs|
    requires forall i :: 0 <= i < |result| ==> |gs[i]| >= K && |result[i]| >= K
  {
    if K == 0 || |result| == 0 then Ok(NaN)
    else if AllMerge(gs, result, K, |result|) then Ok(Number(SumFound(gs, result, K, |result|) / |result| as real))
    else Err(DistanceIsUnstable)
  }

  ghost predicate AllStable(gs: seq<seq<real>>, result: seq<seq<real>>, K: nat, n: nat)
    requires n <= |result| <= |gs|
    requires forall i :: 0 <= i < |result| ==> |gs[i]| >= K && |result[i]| >= K
  {
    forall i :: 0 <= i < n ==> Stable(gs[i][..K], result[i][..K])
  }

  /** The fractions of common distances in the first n rows, added up. */
  ghost function SumOfCommon(gs: seq<seq<real>>, result: seq<seq<real>>, K: nat, n: nat): real
    requires 0 < K && n <= |result| <= |gs|
    requires forall i :: 0 <= i < |result| ==> |gs[i]| >= K && |result[i]| >= K
  {
    if n == 0 then 0.0
    else SumOfCommon(gs, result, K, n - 1) + Fraction(|multiset(gs[n - 1][..K]) * multiset(result[n - 1][..K])|, K)
  }

  /** On sorted rows the recall is the mean fraction of common distances, and the error means an unstable row. */
  lemma {:induction false} RecallOfSorted(gs: seq<seq<real>>, result: seq<seq<real>>, K: nat)
    requires 0 < K && 0 < |result| <= |gs|
    requires forall i :: 0 <= i < |result| ==> |gs[i]| >= K && |result[i]| >= K
    requires forall i :: 0 <= i < |result| ==> Ascending(gs[i]) && Ascending(result[i])
    ensures Recall(gs, result, K) ==
      if AllStable(gs, result, K, |result|) then Ok(Number(SumOfCommon(gs, result, K, |result|) / |result| as real))
      else Err(DistanceIsUnstable)
  {
    hide AllStable, AllMerge, SumFound, SumOfCommon;
    MergesIffStable(gs, result, K);
    if AllMerge(gs, result, K, |result|) {
      SumOfSorted(gs, result, K, |result|);
    }
  }

  lemma {:induction false} MergesIffStable(gs: seq<seq<real>>, result: seq<seq<real>>, K: nat)
    requires |result| <= |gs|
    requires forall i :: 0 <= i < |result| ==> |gs[i]| >= K && |result[i]| >= K
    requires forall i :: 0 <= i < |result| ==> Ascending(gs[i]) && Ascending(result[i])
    ensures AllMerge(gs, result, K, |result|) <==> AllStable(gs, result, K, |result|)
  {
    forall i | 0 <= i < |result|
      ensures RowMerge(gs, result, K, i).Some? <==> Stable(gs[i][..K], result[i][..K])
    {
      MergeCorrect(gs[i][..K], result[i][..K]);
    }
  }

  lemma {:induction false} SumOfSorted(gs: seq<seq<real>>, result: seq<seq<real>>, K: nat, n: nat)
    requires 0 < K && n <= |result| <= |gs|
    requires forall i :: 0 <= i < |result| ==> |gs[i]| >= K && |result[i]| >= K
    requires forall i :: 0 <= i < |result| ==> Ascending(gs[i]) && Ascending(result[i])
    requires AllMerge(gs, result, K, |result|)
    ensures SumFound(gs, result, K, n) == SumOfCommon(gs, result, K, n)
  {
    hide Merge, Stable, Fraction;
    if n > 0 {
      SumOfSorted(gs, result, K, n - 1);
      MergeCorrect(gs[n - 1][..K], result[n - 1][..K]);
      assert RowMerge(gs, result, K, n - 1).Some?;
    }
  }

  method AverageRecall(gs: seq<seq<real>>, gsDim: nat, result: seq<seq<real>>, resultDim: nat, k: nat)
    returns (r: Result<Float, RecallError>)
    requires Rows(gs, gsDim) && Rows(result, resultDim)
    ensures var K := if k == 0 then resultDim else k;
      r == if gsDim < K || resultDim < K || |gs| < |result| then Err(Unverified) else Recall(gs, result, K)
  {
    var K := if k == 0 then resultDim else k;
    if gsDim < K || resultDim < K || |gs| < |result| {
      return Err(Unverified);
    }
    var sum := Number(0.0);
    var i := 0;
    while i < |result|
      invariant 0 <= i <= |result| && AllMerge(gs, result, K, i)
      invariant sum == if i > 0 && K == 0 then NaN else Number(if K == 0 then 0.0 else SumFound(gs, result, K, i))
    {
      var found := CountFound(gs[i][..K], result[i][..K]);
      if found.Err? {
        assert !RowMerge(gs, result, K, i).Some?;
        return Err(DistanceIsUnstable);
      }
      sum := Add(sum, Divide(Number(found.value as real), Number(K as real)));
      i := i + 1;
    }
    return Ok(Divide(sum, Number(|result| as real)));
  }
}
