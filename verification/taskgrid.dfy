/** The (scenario, candidate) task lists `step` dispatches: the full grid
    `[[i, j] for i in range(num) for j in range(popsize)]` and, for repair,
    the same comprehension over the dead candidate indices only. */
module TaskGrid {
  import opened Common

  /** One simulation task: (scenario index, candidate index). */
  type Task = (nat, nat)

  /** The tasks of scenario `i` for the listed candidates, in list order. */
  function Block(i: nat, cols: seq<nat>): (r: seq<Task>)
    ensures |r| == |cols|
    ensures forall k :: 0 <= k < |cols| ==> r[k] == (i, cols[k])
  {
    seq(|cols|, k requires 0 <= k < |cols| => (i, cols[k]))
  }

  /** `[[i, j] for i in range(num) for j in cols]`: scenario-major. */
  function Pairs(num: nat, cols: seq<nat>): (r: seq<Task>)
    ensures |r| == num * |cols|
    ensures forall t: Task :: t in r <==> t.0 < num && t.1 in cols
  {
    if num == 0 then [] else Pairs(num - 1, cols) + Block(num - 1, cols)
  }

  predicate Distinct<T(==)>(xs: seq<T>)
  {
    forall a, b :: 0 <= a < b < |xs| ==> xs[a] != xs[b]
  }

  /** Candidate indices `0 .. n-1` in order. */
  function Range(n: nat): (r: seq<nat>)
    ensures |r| == n && forall j :: 0 <= j < n ==> r[j] == j
  {
    seq(n, j requires 0 <= j < n => j)
  }

  /** The full task grid of one generation. */
  function Grid(num: nat, popsize: nat): seq<Task>
  {
    Pairs(num, Range(popsize))
  }

  /** Task `(i, cols[k])` sits at position `i * |cols| + k`: the list is
      scenario-major, and within a scenario follows `cols`. */
  lemma {:induction false} PairsIndex(num: nat, cols: seq<nat>, i: nat, k: nat)
    requires i < num && k < |cols|
    ensures 0 <= i * |cols| + k < |Pairs(num, cols)|
    ensures Pairs(num, cols)[i * |cols| + k] == (i, cols[k])
    decreases num
  {
    var prefix := Pairs(num - 1, cols);
    if i < num - 1 {
      PairsIndex(num - 1, cols, i, k);
      SliceIndexBound(i, num - 1, |cols|, k);
    } else {
      assert i * |cols| == |prefix|;
    }
  }

  /** Offset `i * c + k` of a row-major layout stays inside `n` rows. */
  lemma SliceIndexBound(i: nat, n: nat, c: nat, k: nat)
    requires i < n && k < c
    ensures 0 <= i * c + k < n * c
  {
    assert (i + 1) * c <= n * c by {
      assert n * c == (i + 1) * c + (n - 1 - i) * c;
    }
  }

  /** Where task `(i, cols[k])` sits, without exposing the arithmetic. */
  lemma PairsPosition(num: nat, cols: seq<nat>, i: nat, k: nat) returns (m: nat)
    requires i < num && k < |cols|
    ensures m < |Pairs(num, cols)| && Pairs(num, cols)[m] == (i, cols[k])
  {
    PairsIndex(num, cols, i, k);
    m := i * |cols| + k;
  }

  /** No task occurs twice when no candidate index is listed twice. */
  lemma {:induction false} PairsDistinct(num: nat, cols: seq<nat>)
    requires Distinct(cols)
    ensures Distinct(Pairs(num, cols))
    decreases num
  {
    if num > 0 {
      PairsDistinct(num - 1, cols);
      var p := Pairs(num - 1, cols);
      var b := Block(num - 1, cols);
      var r := p + b;
      forall x, y | 0 <= x < y < |r|
        ensures r[x] != r[y]
      {
        if y < |p| {
        } else if x >= |p| {
          assert r[x] == b[x - |p|] && r[y] == b[y - |p|];
        } else {
          assert r[x] in p;
          assert r[x].0 < num - 1;
          assert r[y] == b[y - |p|];
        }
      }
    }
  }

  /** `step` dispatches exactly `num * popsize` tasks, scenario-major,
      and every (scenario, candidate) in range appears exactly once. */
  lemma GridCoverage(num: nat, popsize: nat)
    ensures |Grid(num, popsize)| == num * popsize
    ensures forall i, j :: 0 <= i < num && 0 <= j < popsize ==>
      i * popsize + j < num * popsize && Grid(num, popsize)[i * popsize + j] == (i, j)
    ensures forall t: Task :: t in Grid(num, popsize) <==> t.0 < num && t.1 < popsize
    ensures Distinct(Grid(num, popsize))
  {
    var cols := Range(popsize);
    forall i, j | 0 <= i < num && 0 <= j < popsize
      ensures i * popsize + j < num * popsize && Grid(num, popsize)[i * popsize + j] == (i, j)
    {
      PairsIndex(num, cols, i, j);
    }
    forall t: Task | t.0 < num && t.1 < popsize
      ensures t in Grid(num, popsize)
    {
      assert cols[t.1] == t.1;
    }
    PairsDistinct(num, cols);
  }
}
