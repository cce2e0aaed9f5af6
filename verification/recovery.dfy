/** One generation's evaluation (`step`): dispatch the full grid,
    evaluate, and — only if that raised — resample the dead candidates,
    re-run every scenario for them once, and evaluate again. */
module Recovery {
  import opened Common
  import opened TaskKey
  import opened TaskGrid
  import opened ResultStore
  import opened Fitness

  /** `pop[ind] = uniform(low, high, size=(len(ind), dim))`: row `k` of
      the fresh sample, `draw(k)`, replaces candidate `ind[k]`. The
      assignments happen in list order from position `k` on. */
  function Assign(pop: seq<Vec>, ind: seq<nat>, draw: nat -> Vec, k: nat): (r: seq<Vec>)
    requires k <= |ind|
    requires forall m :: 0 <= m < |ind| ==> ind[m] < |pop|
    ensures |r| == |pop|
    ensures forall j :: 0 <= j < |pop| && j !in ind[k..] ==> r[j] == pop[j]
    ensures StrictlyIncreasing(ind) ==> forall m :: k <= m < |ind| ==> r[ind[m]] == draw(m)
    decreases |ind| - k
  {
    if k == |ind| then pop
    else
      var r := Assign(pop[ind[k] := draw(k)], ind, draw, k + 1);
      assert forall j :: j in ind[k + 1..] ==> j in ind[k..];
      assert ind[k] in ind[k..];
      assert StrictlyIncreasing(ind) ==> ind[k] !in ind[k + 1..];
      r
  }

  /** The repaired population: candidates outside `ind` keep their
      vectors, and the candidate at position `k` of `ind` gets `draw(k)`. */
  function Resample(pop: seq<Vec>, ind: seq<nat>, draw: nat -> Vec): (r: seq<Vec>)
    requires forall m :: 0 <= m < |ind| ==> ind[m] < |pop|
    ensures |r| == |pop|
    ensures forall j :: 0 <= j < |pop| && j !in ind ==> r[j] == pop[j]
    ensures StrictlyIncreasing(ind) ==> forall m :: 0 <= m < |ind| ==> r[ind[m]] == draw(m)
  {
    assert ind[0..] == ind;
    Assign(pop, ind, draw, 0)
  }

  /** Key `key` addresses some task of the `num` by `popsize` grid. */
  predicate GridKey(key: string, num: nat, popsize: nat)
  {
    exists i, j :: 0 <= i < num && 0 <= j < popsize && key == Key(i, j)
  }

  /** Lines 193-195 of `step`: find the dead candidates, resample each of
      them as a whole, and re-run all scenarios for them. Candidates that
      did not die keep their vectors and their stored results; every
      scenario of a dead candidate is re-simulated with its new vector,
      including the scenarios in which it had converged; keys outside the
      grid are untouched. It raises when a grid key is missing. */
  function Repair(cfg: Config, sim: Simulator, store: Store, pop: seq<Vec>, draw: nat -> Vec)
    : (r: Result<(seq<Vec>, Store)>)
    ensures r.Success? <==> Present(store, |cfg.scenarios|, |pop|)
    ensures r.Success? ==> |r.value.0| == |pop| && r.value.1.Keys == store.Keys
    ensures r.Success? ==> forall j :: 0 <= j < |pop| ==>
      if ColumnDead(store, |cfg.scenarios|, j)
      then exists k :: 0 <= k < |pop| && r.value.0[j] == draw(k)
      else r.value.0[j] == pop[j]
    ensures r.Success? ==> var ind := DeadColumns(store, |cfg.scenarios|, |pop|);
      forall m :: 0 <= m < |ind| ==> r.value.0[ind[m]] == draw(m)
    ensures r.Success? ==> forall i, j :: 0 <= i < |cfg.scenarios| && 0 <= j < |pop| ==>
      r.value.1[Key(i, j)] ==
        if ColumnDead(store, |cfg.scenarios|, j)
        then Simulate(cfg, sim, i, r.value.0[j])
        else store[Key(i, j)]
    ensures r.Success? ==> forall key :: key in store && !GridKey(key, |cfg.scenarios|, |pop|) ==>
      r.value.1[key] == store[key]
  {
    var num := |cfg.scenarios|;
    match CheckResult(store, num, |pop|)
    case Failure(e) => Failure(e)
    case Success((ind, ind2)) =>
      var pop' := Resample(pop, ind, draw);
      RepairTasksInRange(num, |pop|, ind);
      var store' := Dispatch(cfg, sim, pop', store, ind2);
      RepairEffect(cfg, sim, store, pop, pop', ind, draw);
      Success((pop', store'))
  }

  lemma RepairTasksInRange(num: nat, popsize: nat, ind: seq<nat>)
    requires forall k :: 0 <= k < |ind| ==> ind[k] < popsize
    ensures TasksInRange(Pairs(num, ind), num, popsize)
  {
    var ind2 := Pairs(num, ind);
    forall m | 0 <= m < |ind2|
      ensures ind2[m].0 < num && ind2[m].1 < popsize
    {
      assert ind2[m] in ind2;
    }
  }

  lemma RepairEffect(cfg: Config, sim: Simulator, store: Store, pop: seq<Vec>, pop': seq<Vec>,
                     ind: seq<nat>, draw: nat -> Vec)
    requires Present(store, |cfg.scenarios|, |pop|)
    requires StrictlyIncreasing(ind)
    requires forall k :: 0 <= k < |ind| ==> ind[k] < |pop|
    requires forall j :: 0 <= j < |pop| ==> (j in ind <==> ColumnDead(store, |cfg.scenarios|, j))
    requires pop' == Resample(pop, ind, draw)
    requires TasksInRange(Pairs(|cfg.scenarios|, ind), |cfg.scenarios|, |pop'|)
    ensures Dispatch(cfg, sim, pop', store, Pairs(|cfg.scenarios|, ind)).Keys == store.Keys
    ensures forall j :: 0 <= j < |pop| ==>
      if ColumnDead(store, |cfg.scenarios|, j)
      then exists k :: 0 <= k < |pop| && pop'[j] == draw(k)
      else pop'[j] == pop[j]
    ensures forall i, j :: 0 <= i < |cfg.scenarios| && 0 <= j < |pop| ==>
      Dispatch(cfg, sim, pop', store, Pairs(|cfg.scenarios|, ind))[Key(i, j)] ==
        if ColumnDead(store, |cfg.scenarios|, j)
        then Simulate(cfg, sim, i, pop'[j])
        else store[Key(i, j)]
    ensures forall key :: key in store && !GridKey(key, |cfg.scenarios|, |pop|) ==>
      Dispatch(cfg, sim, pop', store, Pairs(|cfg.scenarios|, ind))[key] == store[key]
  {
    RepairKeys(cfg, sim, store, pop', ind, |pop|);
    RepairPopulation(store, |cfg.scenarios|, pop, ind, draw);
    RepairOutside(cfg, sim, store, pop', ind, |pop|);
    RepairEntries(cfg, sim, store, pop', ind);
  }

  /** The repair batch only rewrites keys already in the store. */
  lemma RepairKeys(cfg: Config, sim: Simulator, store: Store, pop': seq<Vec>, ind: seq<nat>, popsize: nat)
    requires Present(store, |cfg.scenarios|, popsize)
    requires forall k :: 0 <= k < |ind| ==> ind[k] < popsize
    requires TasksInRange(Pairs(|cfg.scenarios|, ind), |cfg.scenarios|, |pop'|)
    ensures Dispatch(cfg, sim, pop', store, Pairs(|cfg.scenarios|, ind)).Keys == store.Keys
  {
    RepairKeysOnGrid(store, |cfg.scenarios|, popsize, ind);
  }

  /** Every grid entry after the repair batch: re-simulated for a dead
      candidate, as before for a live one. */
  lemma RepairEntries(cfg: Config, sim: Simulator, store: Store, pop': seq<Vec>, ind: seq<nat>)
    requires Present(store, |cfg.scenarios|, |pop'|)
    requires forall j :: 0 <= j < |pop'| ==> (j in ind <==> ColumnDead(store, |cfg.scenarios|, j))
    requires TasksInRange(Pairs(|cfg.scenarios|, ind), |cfg.scenarios|, |pop'|)
    ensures forall i, j :: 0 <= i < |cfg.scenarios| && 0 <= j < |pop'| ==>
      Dispatch(cfg, sim, pop', store, Pairs(|cfg.scenarios|, ind))[Key(i, j)] ==
        if ColumnDead(store, |cfg.scenarios|, j)
        then Simulate(cfg, sim, i, pop'[j])
        else store[Key(i, j)]
  {
    forall i, j | 0 <= i < |cfg.scenarios| && 0 <= j < |pop'|
      ensures Dispatch(cfg, sim, pop', store, Pairs(|cfg.scenarios|, ind))[Key(i, j)] ==
        if ColumnDead(store, |cfg.scenarios|, j) then Simulate(cfg, sim, i, pop'[j]) else store[Key(i, j)]
    {
      RepairEntryAt(cfg, sim, store, pop', ind, i, j);
    }
  }

  /** Keys off the grid are not touched by the repair batch. */
  lemma RepairOutside(cfg: Config, sim: Simulator, store: Store, pop': seq<Vec>, ind: seq<nat>, popsize: nat)
    requires Present(store, |cfg.scenarios|, popsize)
    requires forall k :: 0 <= k < |ind| ==> ind[k] < popsize
    requires TasksInRange(Pairs(|cfg.scenarios|, ind), |cfg.scenarios|, |pop'|)
    ensures forall key :: key in store && !GridKey(key, |cfg.scenarios|, popsize) ==>
      Dispatch(cfg, sim, pop', store, Pairs(|cfg.scenarios|, ind))[key] == store[key]
  {
    DispatchKeeps(cfg, sim, pop', store, Pairs(|cfg.scenarios|, ind));
    RepairKeysOnGrid(store, |cfg.scenarios|, popsize, ind);
  }

  /** Every repair task addresses a grid key already in the store. */
  lemma RepairKeysOnGrid(store: Store, num: nat, popsize: nat, ind: seq<nat>)
    requires Present(store, num, popsize)
    requires forall k :: 0 <= k < |ind| ==> ind[k] < popsize
    ensures forall key :: key in TaskKeys(Pairs(num, ind)) ==> key in store && GridKey(key, num, popsize)
  {
    var ind2 := Pairs(num, ind);
    forall key | key in TaskKeys(ind2)
      ensures key in store && GridKey(key, num, popsize)
    {
      var m :| 0 <= m < |ind2| && key == Key(ind2[m].0, ind2[m].1);
      assert ind2[m] in ind2;
    }
  }

  lemma RepairPopulation(store: Store, num: nat, pop: seq<Vec>, ind: seq<nat>, draw: nat -> Vec)
    requires StrictlyIncreasing(ind)
    requires forall k :: 0 <= k < |ind| ==> ind[k] < |pop|
    requires forall j :: 0 <= j < |pop| ==> (j in ind <==> ColumnDead(store, num, j))
    ensures forall j :: 0 <= j < |pop| ==>
      if ColumnDead(store, num, j)
      then exists k :: 0 <= k < |pop| && Resample(pop, ind, draw)[j] == draw(k)
      else Resample(pop, ind, draw)[j] == pop[j]
  {
    var pop' := Resample(pop, ind, draw);
    IncreasingBelowIsShort(ind, |pop|);
    forall j | 0 <= j < |pop| && ColumnDead(store, num, j)
      ensures exists k :: 0 <= k < |pop| && pop'[j] == draw(k)
    {
      var k :| 0 <= k < |ind| && ind[k] == j;
      assert pop'[ind[k]] == draw(k);
    }
  }

  lemma RepairEntryAt(cfg: Config, sim: Simulator, store: Store, pop': seq<Vec>, ind: seq<nat>, i: nat, j: nat)
    requires i < |cfg.scenarios| && j < |pop'|
    requires Key(i, j) in store
    requires j in ind <==> ColumnDead(store, |cfg.scenarios|, j)
    requires TasksInRange(Pairs(|cfg.scenarios|, ind), |cfg.scenarios|, |pop'|)
    ensures Dispatch(cfg, sim, pop', store, Pairs(|cfg.scenarios|, ind))[Key(i, j)] ==
      if ColumnDead(store, |cfg.scenarios|, j) then Simulate(cfg, sim, i, pop'[j]) else store[Key(i, j)]
  {
    if j in ind {
      RepairEntryDead(cfg, sim, store, pop', ind, i, j);
    } else {
      RepairEntryLive(cfg, sim, store, pop', ind, i, j);
    }
  }

  /** A dead candidate's entry holds the simulation of its new vector. */
  lemma RepairEntryDead(cfg: Config, sim: Simulator, store: Store, pop': seq<Vec>, ind: seq<nat>, i: nat, j: nat)
    requires i < |cfg.scenarios| && j < |pop'| && j in ind && Key(i, j) in store
    requires TasksInRange(Pairs(|cfg.scenarios|, ind), |cfg.scenarios|, |pop'|)
    ensures Dispatch(cfg, sim, pop', store, Pairs(|cfg.scenarios|, ind))[Key(i, j)] == Simulate(cfg, sim, i, pop'[j])
  {
    var k :| 0 <= k < |ind| && ind[k] == j;
    var m := PairsPosition(|cfg.scenarios|, ind, i, k);
    DispatchRecordAt(cfg, sim, pop', store, Pairs(|cfg.scenarios|, ind), m);
  }

  /** A live candidate's entry is not touched by the repair batch. */
  lemma RepairEntryLive(cfg: Config, sim: Simulator, store: Store, pop': seq<Vec>, ind: seq<nat>, i: nat, j: nat)
    requires Key(i, j) in store && j !in ind
    requires TasksInRange(Pairs(|cfg.scenarios|, ind), |cfg.scenarios|, |pop'|)
    ensures Dispatch(cfg, sim, pop', store, Pairs(|cfg.scenarios|, ind))[Key(i, j)] == store[Key(i, j)]
  {
    var ind2 := Pairs(|cfg.scenarios|, ind);
    DispatchKeeps(cfg, sim, pop', store, ind2);
    if Key(i, j) in TaskKeys(ind2) {
      var m :| 0 <= m < |ind2| && Key(i, j) == Key(ind2[m].0, ind2[m].1);
      assert ind2[m].1 in ind by {
        assert ind2[m] in ind2;
      }
      KeyInjective(i, j, ind2[m].0, ind2[m].1);
    }
  }

  /** A strictly increasing list of indices below `n` has at most `n`
      entries. */
  lemma {:induction false} IncreasingBelowIsShort(ind: seq<nat>, n: nat)
    requires StrictlyIncreasing(ind)
    requires forall k :: 0 <= k < |ind| ==> ind[k] < n
    ensures |ind| <= n
    decreases n
  {
    if |ind| > 0 {
      var init := ind[..|ind| - 1];
      assert forall k :: 0 <= k < |init| ==> init[k] < ind[|ind| - 1] < n;
      IncreasingBelowIsShort(init, n - 1);
    }
  }

  /** What one generation leaves behind: the population told to the
      optimizer, the result store, and the error of every candidate. */
  datatype StepOutcome = StepOutcome(pop: seq<Vec>, store: Store, eval: seq<real>)

  /** The store after the generation's first batch over the full grid. */
  function FirstPass(cfg: Config, sim: Simulator, store: Store, pop: seq<Vec>): (r: Store)
    ensures forall i, j :: 0 <= i < |cfg.scenarios| && 0 <= j < |pop| ==>
      Key(i, j) in r && r[Key(i, j)] == Simulate(cfg, sim, i, pop[j])
  {
    DispatchGridCovers(cfg, sim, pop, store);
    Dispatch(cfg, sim, pop, store, Grid(|cfg.scenarios|, |pop|))
  }

  /** `step` after `ask`: evaluate the population; on failure repair it
      once and evaluate again, letting a second failure propagate. On
      success every candidate has an error, every stored grid result is
      the simulation of the candidate now in the population (so the
      optimizer is told matching pairs), only candidates that died in the
      first batch were replaced, and the replacements respect the
      bounds whenever the sampler does. */
  function Step(cfg: Config, sim: Simulator, store: Store, pop: seq<Vec>, draw: nat -> Vec)
    : (r: Result<StepOutcome>)
    requires |pop| > 0
    ensures r.Success? ==> |r.value.pop| == |pop| && |r.value.eval| == |pop|
    ensures r.Success? ==> forall j :: 0 <= j < |pop| ==> r.value.eval[j] >= 0.0
    ensures r.Success? ==> AllMeasured(r.value.store, |cfg.scenarios|, |pop|)
    ensures r.Success? ==> forall i, j :: 0 <= i < |cfg.scenarios| && 0 <= j < |pop| ==>
      r.value.store[Key(i, j)] == Simulate(cfg, sim, i, r.value.pop[j])
    ensures r.Success? ==> forall j :: 0 <= j < |pop| ==>
      !ColumnDead(FirstPass(cfg, sim, store, pop), |cfg.scenarios|, j) ==> r.value.pop[j] == pop[j]
    ensures r.Success? && (forall j :: 0 <= j < |pop| ==> InBounds(pop[j], cfg.low, cfg.high))
                       && (forall k :: InBounds(draw(k), cfg.low, cfg.high)) ==>
      forall j :: 0 <= j < |pop| ==> InBounds(r.value.pop[j], cfg.low, cfg.high)
    ensures r.Success? ==> Evaluate(r.value.store, |cfg.scenarios|, |pop|, cfg.target) == Success(r.value.eval)
    ensures Evaluate(FirstPass(cfg, sim, store, pop), |cfg.scenarios|, |pop|, cfg.target).Success? ==>
      r.Success? && r.value.pop == pop && r.value.store == FirstPass(cfg, sim, store, pop)
    ensures var s1 := FirstPass(cfg, sim, store, pop);
      Evaluate(s1, |cfg.scenarios|, |pop|, cfg.target).Failure? ==>
        var rep := Repair(cfg, sim, s1, pop, draw);
        && (rep.Failure? ==> r == Failure(rep.error))
        && (rep.Success? ==>
              var again := Evaluate(rep.value.1, |cfg.scenarios|, |pop|, cfg.target);
              && (again.Failure? ==> r == Failure(again.error))
              && (again.Success? ==> r == Success(StepOutcome(rep.value.0, rep.value.1, again.value)))
              && (r.Success? ==> r.value.pop == rep.value.0 && r.value.store == rep.value.1))
  {
    var num := |cfg.scenarios|;
    var s1 := FirstPass(cfg, sim, store, pop);
    match Evaluate(s1, num, |pop|, cfg.target)
    case Success(e) => Success(StepOutcome(pop, s1, e))
    case Failure(_) =>
      match Repair(cfg, sim, s1, pop, draw)
      case Failure(err) => Failure(err)
      case Success((pop', s2)) =>
        match Evaluate(s2, num, |pop|, cfg.target)
        case Success(e) =>
          RepairedStep(cfg, sim, s1, pop, draw, pop', s2);
          Success(StepOutcome(pop', s2, e))
        case Failure(err) => Failure(err)
  }

  /** After a successful repair, the stored grid results are those of the
      repaired population, and the replacements keep the bounds. */
  lemma RepairedStep(cfg: Config, sim: Simulator, s1: Store, pop: seq<Vec>, draw: nat -> Vec,
                     pop': seq<Vec>, s2: Store)
    requires forall i, j :: 0 <= i < |cfg.scenarios| && 0 <= j < |pop| ==>
      Key(i, j) in s1 && s1[Key(i, j)] == Simulate(cfg, sim, i, pop[j])
    requires Repair(cfg, sim, s1, pop, draw) == Success((pop', s2))
    ensures forall i, j :: 0 <= i < |cfg.scenarios| && 0 <= j < |pop| ==>
      s2[Key(i, j)] == Simulate(cfg, sim, i, pop'[j])
    ensures (forall j :: 0 <= j < |pop| ==> InBounds(pop[j], cfg.low, cfg.high))
            && (forall k :: InBounds(draw(k), cfg.low, cfg.high)) ==>
      forall j :: 0 <= j < |pop| ==> InBounds(pop'[j], cfg.low, cfg.high)
  {
    var num := |cfg.scenarios|;
    forall i, j | 0 <= i < num && 0 <= j < |pop|
      ensures s2[Key(i, j)] == Simulate(cfg, sim, i, pop'[j])
    {
      if !ColumnDead(s1, num, j) {
        assert pop'[j] == pop[j];
      }
    }
    if (forall j :: 0 <= j < |pop| ==> InBounds(pop[j], cfg.low, cfg.high))
       && (forall k :: InBounds(draw(k), cfg.low, cfg.high)) {
      forall j | 0 <= j < |pop|
        ensures InBounds(pop'[j], cfg.low, cfg.high)
      {
        if ColumnDead(s1, num, j) {
          var k :| 0 <= k < |pop| && pop'[j] == draw(k);
        }
      }
    }
  }

  /** Repair happens once: when the simulator never converges, the
      repaired batch is as dead as the first and `step` raises the
      dead-entry error instead of trying again. */
  lemma StepGivesUpAfterOneRepair(cfg: Config, sim: Simulator, store: Store, pop: seq<Vec>, draw: nat -> Vec)
    requires |pop| > 0 && |cfg.scenarios| > 0
    requires forall n :: sim(n).state != 1
    ensures Step(cfg, sim, store, pop, draw) == Failure(DeadEntry)
  {
    var num := |cfg.scenarios|;
    var s1 := FirstPass(cfg, sim, store, pop);
    DeadColumnFails(s1, num, |pop|, cfg.target, 0, 0);
    var rep := Repair(cfg, sim, s1, pop, draw);
    var s2 := rep.value.1;
    assert ColumnDead(s1, num, 0);
    assert s2[Key(0, 0)] == Simulate(cfg, sim, 0, rep.value.0[0]);
    DeadColumnFails(s2, num, |pop|, cfg.target, 0, 0);
  }

  /** A store holding every grid key cannot be evaluated as soon as one
      of the grid's entries is `'dead'`. */
  lemma DeadColumnFails(store: Store, num: nat, popsize: nat, target: Vec, i: nat, j: nat)
    requires i < num && j < popsize
    requires Present(store, num, popsize)
    requires store[Key(i, j)].Dead?
    ensures Evaluate(store, num, popsize, target) == Failure(DeadEntry)
  {
    assert ColumnDead(store, num, j);
  }
}
