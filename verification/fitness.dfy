/** Reading the result store back: `read_result_json` (one row per
    candidate), `evaluate` (L1 error against the target) and
    `check_result` (which candidates died). */
module Fitness {
  import opened Common
  import opened TaskKey
  import opened TaskGrid
  import opened ResultStore

  /** Every task of the grid has an entry in the store. */
  predicate Present(store: Store, num: nat, popsize: nat)
  {
    forall i, j :: 0 <= i < num && 0 <= j < popsize ==> Key(i, j) in store
  }

  /** Every task of the grid has a measurement list in the store. */
  predicate AllMeasured(store: Store, num: nat, popsize: nat)
  {
    forall i, j :: 0 <= i < num && 0 <= j < popsize ==>
      Key(i, j) in store && store[Key(i, j)].Measured?
  }

  /** Candidate `j` died in some scenario. */
  predicate ColumnDead(store: Store, num: nat, j: nat)
  {
    exists i :: 0 <= i < num && Key(i, j) in store && store[Key(i, j)].Dead?
  }

  predicate AnyDead(store: Store, num: nat, popsize: nat)
  {
    exists j :: 0 <= j < popsize && ColumnDead(store, num, j)
  }

  lemma PresentAliveIsMeasured(store: Store, num: nat, popsize: nat)
    requires Present(store, num, popsize) && !AnyDead(store, num, popsize)
    ensures AllMeasured(store, num, popsize)
  {
    forall i, j | 0 <= i < num && 0 <= j < popsize
      ensures store[Key(i, j)].Measured?
    {
      assert !ColumnDead(store, num, j);
    }
  }

  /** `temp2 += ...` over a list of lists: their concatenation in order. */
  function Concat(vs: seq<Vec>): Vec
  {
    if |vs| == 0 then [] else Concat(vs[..|vs| - 1]) + vs[|vs| - 1]
  }

  /** Candidate `j`'s measurement lists, scenario by scenario. */
  function Column(store: Store, num: nat, j: nat): (c: seq<Vec>)
    requires forall i :: 0 <= i < num ==> Key(i, j) in store && store[Key(i, j)].Measured?
    ensures |c| == num && forall i :: 0 <= i < num ==> c[i] == store[Key(i, j)].values
  {
    seq(num, i requires 0 <= i < num => store[Key(i, j)].values)
  }

  /** Candidate `j`'s row: its measurement lists for scenarios
      `0 .. num-1`, concatenated in scenario order. */
  function Row(store: Store, num: nat, j: nat): Vec
    requires forall i :: 0 <= i < num ==> Key(i, j) in store && store[Key(i, j)].Measured?
  {
    Concat(Column(store, num, j))
  }

  /** When every scenario contributes `m` measurements, scenario `i`'s
      list is the slice `i*m .. (i+1)*m` of the row: the row lines up
      with a target laid out scenario by scenario. */
  lemma RowSlices(store: Store, num: nat, j: nat, m: nat)
    requires forall i :: 0 <= i < num ==> Key(i, j) in store && store[Key(i, j)].Measured?
    requires forall i :: 0 <= i < num ==> |store[Key(i, j)].values| == m
    ensures |Row(store, num, j)| == num * m
    ensures forall i :: 0 <= i < num ==>
      0 <= i * m <= i * m + m <= |Row(store, num, j)| &&
      Row(store, num, j)[i * m..i * m + m] == store[Key(i, j)].values
  {
    var c := Column(store, num, j);
    ConcatLength(c, m);
    forall i | 0 <= i < num
      ensures 0 <= i * m <= i * m + m <= |Concat(c)| && Concat(c)[i * m..i * m + m] == c[i]
    {
      ConcatSliceAt(c, m, i);
    }
  }

  lemma {:induction false} ConcatLength(vs: seq<Vec>, m: nat)
    requires forall i :: 0 <= i < |vs| ==> |vs[i]| == m
    ensures |Concat(vs)| == |vs| * m
    decreases |vs|
  {
    if |vs| > 0 {
      ConcatLength(vs[..|vs| - 1], m);
      assert |vs| * m == (|vs| - 1) * m + m;
    }
  }

  lemma {:induction false} ConcatAppend(a: seq<Vec>, b: seq<Vec>)
    ensures Concat(a + b) == Concat(a) + Concat(b)
    decreases |b|
  {
    if |b| > 0 {
      var b' := b[..|b| - 1];
      assert (a + b)[..|a + b| - 1] == a + b';
      ConcatAppend(a, b');
    } else {
      assert a + b == a;
    }
  }

  lemma ConcatSliceAt(vs: seq<Vec>, m: nat, i: nat)
    requires forall i :: 0 <= i < |vs| ==> |vs[i]| == m
    requires i < |vs|
    ensures 0 <= i * m <= i * m + m <= |Concat(vs)|
    ensures Concat(vs)[i * m..i * m + m] == vs[i]
  {
    var before := vs[..i];
    var after := vs[i + 1..];
    assert vs == before + ([vs[i]] + after);
    ConcatAppend(before, [vs[i]] + after);
    ConcatAppend([vs[i]], after);
    assert Concat([vs[i]]) == vs[i] by {
      assert [vs[i]][..0] == [];
    }
    ConcatLength(before, m);
    var p := Concat(before);
    assert Concat(vs) == p + (vs[i] + Concat(after));
    assert Concat(vs)[|p|..|p| + m] == vs[i];
  }

  /** `read_result_json`: one row per candidate, in candidate order. */
  function Rows(store: Store, num: nat, popsize: nat): (rows: seq<Vec>)
    requires AllMeasured(store, num, popsize)
    ensures |rows| == popsize
    ensures forall j :: 0 <= j < popsize ==> rows[j] == Row(store, num, j)
  {
    seq(popsize, j requires 0 <= j < popsize => Row(store, num, j))
  }

  function Abs(x: real): real
  {
    if x < 0.0 then -x else x
  }

  /** Whether numpy can subtract a `(1, targetLen)` target from rows of
      length `rowLen`: equal lengths, or one side of length 1. */
  predicate Broadcastable(rowLen: nat, targetLen: nat)
  {
    rowLen == targetLen || rowLen == 1 || targetLen == 1
  }

  /** `row - target` with numpy broadcasting. */
  function Residual(row: Vec, target: Vec): (d: Vec)
    requires Broadcastable(|row|, |target|)
    ensures |row| == |target| ==> |d| == |row| && forall k :: 0 <= k < |d| ==> d[k] == row[k] - target[k]
  {
    if |row| == |target| then seq(|row|, k requires 0 <= k < |row| => row[k] - target[k])
    else if |target| == 1 then seq(|row|, k requires 0 <= k < |row| => row[k] - target[0])
    else seq(|target|, k requires 0 <= k < |target| => row[0] - target[k])
  }

  /** `np.sum(abs(d))` over one row. */
  function SumAbs(d: Vec): real
  {
    if |d| == 0 then 0.0 else SumAbs(d[..|d| - 1]) + Abs(d[|d| - 1])
  }

  /** A sum of absolute values is non-negative, and zero exactly when
      every term is zero. */
  lemma {:induction false} SumAbsZero(d: Vec)
    ensures SumAbs(d) >= 0.0
    ensures SumAbs(d) == 0.0 <==> forall k :: 0 <= k < |d| ==> d[k] == 0.0
    decreases |d|
  {
    if |d| > 0 {
      var init := d[..|d| - 1];
      SumAbsZero(init);
      if SumAbs(d) == 0.0 {
        forall k | 0 <= k < |d|
          ensures d[k] == 0.0
        {
          if k < |d| - 1 {
            assert d[k] == init[k];
          }
        }
      }
    }
  }

  /** The L1 distance, summed from the front: a reference definition of
      the fitness independent of how `SumAbs` accumulates. */
  function L1(a: Vec, b: Vec): real
    requires |a| == |b|
  {
    if |a| == 0 then 0.0 else Abs(a[0] - b[0]) + L1(a[1..], b[1..])
  }

  lemma {:induction false} L1Snoc(a: Vec, b: Vec)
    requires |a| == |b| && |a| > 0
    ensures L1(a, b) == L1(a[..|a| - 1], b[..|b| - 1]) + Abs(a[|a| - 1] - b[|b| - 1])
    decreases |a|
  {
    if |a| > 1 {
      L1Snoc(a[1..], b[1..]);
      assert a[1..][..|a| - 2] == a[..|a| - 1][1..];
      assert b[1..][..|b| - 2] == b[..|b| - 1][1..];
    }
  }

  /** For equal lengths the broadcast residual's absolute sum is the L1
      distance between row and target. */
  lemma {:induction false} SumAbsResidualIsL1(row: Vec, target: Vec)
    requires |row| == |target|
    ensures SumAbs(Residual(row, target)) == L1(row, target)
    decreases |row|
  {
    if |row| > 0 {
      var n := |row|;
      var d := Residual(row, target);
      SumAbsResidualIsL1(row[..n - 1], target[..n - 1]);
      assert d[..n - 1] == Residual(row[..n - 1], target[..n - 1]);
      L1Snoc(row, target);
    }
  }

  /** `evaluate`: one error per candidate, the L1 distance between its
      row and the target. It raises on a missing key, on any `'dead'`
      entry, on rows of different lengths, and on shapes numpy cannot
      broadcast. */
  function Evaluate(store: Store, num: nat, popsize: nat, target: Vec): (r: Result<seq<real>>)
    requires popsize > 0
    ensures !Present(store, num, popsize) ==> r == Failure(MissingKey)
    ensures Present(store, num, popsize) && AnyDead(store, num, popsize) ==> r == Failure(DeadEntry)
    ensures r.Success? ==> AllMeasured(store, num, popsize)
    ensures r.Success? ==> |r.value| == popsize && forall j :: 0 <= j < popsize ==> r.value[j] >= 0.0
    ensures AllMeasured(store, num, popsize) ==>
      && (r.Success? <==>
            && (forall j :: 0 <= j < popsize ==> |Row(store, num, j)| == |Row(store, num, 0)|)
            && Broadcastable(|Row(store, num, 0)|, |target|))
      && (r.Failure? ==> r == Failure(ShapeMismatch))
    ensures AllMeasured(store, num, popsize)
              && (forall j :: 0 <= j < popsize ==> |Row(store, num, j)| == |target|) ==>
      && r.Success?
      && forall j :: 0 <= j < popsize ==>
           && r.value[j] == L1(Row(store, num, j), target)
           && (r.value[j] == 0.0 <==> Row(store, num, j) == target)
  {
    if !Present(store, num, popsize) then Failure(MissingKey)
    else if AnyDead(store, num, popsize) then Failure(DeadEntry)
    else
      PresentAliveIsMeasured(store, num, popsize);
      var rows := Rows(store, num, popsize);
      if (exists j :: 0 <= j < popsize && |rows[j]| != |rows[0]|)
         || !Broadcastable(|rows[0]|, |target|)
      then Failure(ShapeMismatch)
      else
        var errors := seq(popsize, j requires 0 <= j < popsize => SumAbs(Residual(rows[j], target)));
        assert forall j :: 0 <= j < popsize ==> errors[j] == SumAbs(Residual(rows[j], target));
        EvaluateFacts(rows, target, errors);
        Success(errors)
  }

  lemma EvaluateFacts(rows: seq<Vec>, target: Vec, errors: seq<real>)
    requires forall j :: 0 <= j < |rows| ==> Broadcastable(|rows[j]|, |target|)
    requires |errors| == |rows|
    requires forall j :: 0 <= j < |rows| ==> errors[j] == SumAbs(Residual(rows[j], target))
    ensures forall j :: 0 <= j < |rows| ==> errors[j] >= 0.0
    ensures forall j :: 0 <= j < |rows| && |rows[j]| == |target| ==>
      errors[j] == L1(rows[j], target) && (errors[j] == 0.0 <==> rows[j] == target)
  {
    forall j | 0 <= j < |rows|
      ensures errors[j] >= 0.0
      ensures |rows[j]| == |target| ==>
        errors[j] == L1(rows[j], target) && (errors[j] == 0.0 <==> rows[j] == target)
    {
      RowError(rows[j], target);
    }
  }

  /** One row's error: non-negative, and for equal lengths the L1
      distance, zero exactly when the row equals the target. */
  lemma RowError(row: Vec, target: Vec)
    requires Broadcastable(|row|, |target|)
    ensures SumAbs(Residual(row, target)) >= 0.0
    ensures |row| == |target| ==>
      && SumAbs(Residual(row, target)) == L1(row, target)
      && (SumAbs(Residual(row, target)) == 0.0 <==> row == target)
  {
    var d := Residual(row, target);
    SumAbsZero(d);
    if |row| == |target| {
      SumAbsResidualIsL1(row, target);
      if SumAbs(d) == 0.0 {
        assert forall k :: 0 <= k < |d| ==> row[k] == target[k];
      }
    }
  }

  /** The candidates that died in some scenario, in increasing order
      (what `np.unique` makes of the loop's hits). */
  function DeadColumns(store: Store, num: nat, popsize: nat): (ind: seq<nat>)
    ensures StrictlyIncreasing(ind)
    ensures forall k :: 0 <= k < |ind| ==> ind[k] < popsize
    ensures forall j :: 0 <= j < popsize ==> (j in ind <==> ColumnDead(store, num, j))
  {
    if popsize == 0 then []
    else
      var last := if ColumnDead(store, num, popsize - 1) then [popsize - 1] else [];
      DeadColumns(store, num, popsize - 1) + last
  }

  /** `check_result`: the dead candidates `ind` and the repair tasks
      `ind2`, every scenario paired with every dead candidate,
      scenario-major. It raises when a grid key is missing. */
  function CheckResult(store: Store, num: nat, popsize: nat): (r: Result<(seq<nat>, seq<Task>)>)
    ensures r.Success? <==> Present(store, num, popsize)
    ensures r.Failure? ==> r.error == MissingKey
    ensures r.Success? ==> StrictlyIncreasing(r.value.0)
    ensures r.Success? ==> forall k :: 0 <= k < |r.value.0| ==> r.value.0[k] < popsize
    ensures r.Success? ==> forall j :: 0 <= j < popsize ==> (j in r.value.0 <==> ColumnDead(store, num, j))
    ensures r.Success? ==> r.value.1 == Pairs(num, r.value.0) && |r.value.1| == num * |r.value.0|
  {
    if !Present(store, num, popsize) then Failure(MissingKey)
    else
      var ind := DeadColumns(store, num, popsize);
      Success((ind, Pairs(num, ind)))
  }
}
