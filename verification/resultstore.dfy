/** The keyed result store `result_json` and one batch of simulations
    (`multi_simu` over `simu`), modelled as a sequential update of the
    store over the task list. */
module ResultStore {
  import opened Common
  import opened TaskKey
  import opened Network
  import opened TaskGrid

  /** What `simu` records for one task: the measurement list of a
      converged run, or the marker `'dead'`. */
  datatype Entry = Measured(values: Vec) | Dead

  /** `result_json`: entries under the keys `"<s>_<j>"`. */
  type Store = map<string, Entry>

  /** The hydraulic simulator, run on a merged network description. */
  type Simulator = Network -> SimOutput

  /** The fixed inputs of a calibration run: the base network, the
      scenarios in order (their count is `num`), the target vector and
      the componentwise parameter bounds. */
  datatype Config = Config(
    base: Network,
    scenarios: seq<Scenario>,
    target: Vec,
    low: Vec,
    high: Vec)

  /** `simu` for task (s, candidate): the entry it records. A run whose
      state is 1 is recorded as its measurement vector, from which the
      per-user pressures can be read back; any other state is recorded as
      `'dead'`. */
  function Simulate(cfg: Config, sim: Simulator, s: nat, candidate: Vec): (e: Entry)
    requires s < |cfg.scenarios|
    ensures var out := sim(Merge(cfg.base, cfg.scenarios[s], candidate));
      && (e.Dead? <==> out.state != 1)
      && (e.Measured? ==> |e.values| == 2 * |out.users| && SplitResult(e.values) == out.users)
  {
    var out := sim(Merge(cfg.base, cfg.scenarios[s], candidate));
    ResultVectorRoundTrip(out.users);
    if out.state == 1 then Measured(ResultVector(out.users)) else Dead
  }

  /** The keys of a task list. */
  function TaskKeys(tasks: seq<Task>): set<string>
  {
    set k | 0 <= k < |tasks| :: Key(tasks[k].0, tasks[k].1)
  }

  predicate TasksInRange(tasks: seq<Task>, num: nat, popsize: nat)
  {
    forall k :: 0 <= k < |tasks| ==> tasks[k].0 < num && tasks[k].1 < popsize
  }

  /** One batch: every task's outcome recorded under its own key, in
      list order. */
  function Dispatch(cfg: Config, sim: Simulator, pop: seq<Vec>, store: Store, tasks: seq<Task>): (r: Store)
    requires TasksInRange(tasks, |cfg.scenarios|, |pop|)
    ensures r.Keys == store.Keys + TaskKeys(tasks)
    decreases |tasks|
  {
    if |tasks| == 0 then store
    else
      var t := tasks[0];
      TaskKeysCons(tasks);
      Dispatch(cfg, sim, pop, store[Key(t.0, t.1) := Simulate(cfg, sim, t.0, pop[t.1])], tasks[1..])
  }

  lemma TaskKeysCons(tasks: seq<Task>)
    requires |tasks| > 0
    ensures TaskKeys(tasks) == {Key(tasks[0].0, tasks[0].1)} + TaskKeys(tasks[1..])
  {
    var rest := tasks[1..];
    forall key | key in TaskKeys(tasks)
      ensures key in {Key(tasks[0].0, tasks[0].1)} + TaskKeys(rest)
    {
      var k :| 0 <= k < |tasks| && key == Key(tasks[k].0, tasks[k].1);
      if k > 0 {
        assert tasks[k] == rest[k - 1];
      }
    }
    forall key | key in TaskKeys(rest)
      ensures key in TaskKeys(tasks)
    {
      var k :| 0 <= k < |rest| && key == Key(rest[k].0, rest[k].1);
      assert rest[k] == tasks[k + 1];
    }
  }

  /** What a batch does to the store: each task's key holds the entry
      `simu` computes for that task (a later task never clobbers an
      earlier one, because keys are injective), and every key outside
      the batch keeps its entry. */
  lemma DispatchRecords(cfg: Config, sim: Simulator, pop: seq<Vec>, store: Store, tasks: seq<Task>)
    requires TasksInRange(tasks, |cfg.scenarios|, |pop|)
    ensures forall k :: 0 <= k < |tasks| ==>
      Dispatch(cfg, sim, pop, store, tasks)[Key(tasks[k].0, tasks[k].1)]
        == Simulate(cfg, sim, tasks[k].0, pop[tasks[k].1])
  {
    forall k | 0 <= k < |tasks|
      ensures Dispatch(cfg, sim, pop, store, tasks)[Key(tasks[k].0, tasks[k].1)]
        == Simulate(cfg, sim, tasks[k].0, pop[tasks[k].1])
    {
      DispatchRecordAt(cfg, sim, pop, store, tasks, k);
    }
  }

  /** Task `k`'s entry after the batch: whichever task with the same key
      runs last wrote it, and equal keys mean the same task. */
  lemma {:induction false} DispatchRecordAt(cfg: Config, sim: Simulator, pop: seq<Vec>, store: Store,
                                            tasks: seq<Task>, k: nat)
    requires TasksInRange(tasks, |cfg.scenarios|, |pop|)
    requires k < |tasks|
    ensures Dispatch(cfg, sim, pop, store, tasks)[Key(tasks[k].0, tasks[k].1)]
      == Simulate(cfg, sim, tasks[k].0, pop[tasks[k].1])
    decreases |tasks|
  {
    var t := tasks[0];
    var rest := tasks[1..];
    var s1 := store[Key(t.0, t.1) := Simulate(cfg, sim, t.0, pop[t.1])];
    assert Dispatch(cfg, sim, pop, store, tasks) == Dispatch(cfg, sim, pop, s1, rest);
    if k > 0 {
      assert tasks[k] == rest[k - 1];
      DispatchRecordAt(cfg, sim, pop, s1, rest, k - 1);
    } else if Key(t.0, t.1) in TaskKeys(rest) {
      var m :| 0 <= m < |rest| && Key(t.0, t.1) == Key(rest[m].0, rest[m].1);
      DispatchRecordAt(cfg, sim, pop, s1, rest, m);
      KeyInjective(t.0, t.1, rest[m].0, rest[m].1);
    } else {
      DispatchKeeps(cfg, sim, pop, s1, rest);
    }
  }

  /** Entries outside the batch's keys are left as they were. */
  lemma {:induction false} DispatchKeeps(cfg: Config, sim: Simulator, pop: seq<Vec>, store: Store, tasks: seq<Task>)
    requires TasksInRange(tasks, |cfg.scenarios|, |pop|)
    ensures forall key :: key in store && key !in TaskKeys(tasks) ==>
      Dispatch(cfg, sim, pop, store, tasks)[key] == store[key]
    decreases |tasks|
  {
    if |tasks| > 0 {
      var t := tasks[0];
      var s1 := store[Key(t.0, t.1) := Simulate(cfg, sim, t.0, pop[t.1])];
      assert Dispatch(cfg, sim, pop, store, tasks) == Dispatch(cfg, sim, pop, s1, tasks[1..]);
      DispatchKeeps(cfg, sim, pop, s1, tasks[1..]);
      TaskKeysCons(tasks);
    }
  }

  /** A batch over the full grid leaves an entry for every task of the
      generation, so no later lookup of a grid key can fail. */
  lemma DispatchGridCovers(cfg: Config, sim: Simulator, pop: seq<Vec>, store: Store)
    ensures TasksInRange(Grid(|cfg.scenarios|, |pop|), |cfg.scenarios|, |pop|)
    ensures forall i, j :: 0 <= i < |cfg.scenarios| && 0 <= j < |pop| ==>
      var r := Dispatch(cfg, sim, pop, store, Grid(|cfg.scenarios|, |pop|));
      Key(i, j) in r && r[Key(i, j)] == Simulate(cfg, sim, i, pop[j])
  {
    var num := |cfg.scenarios|;
    var tasks := Grid(num, |pop|);
    GridInRange(num, |pop|);
    DispatchRecords(cfg, sim, pop, store, tasks);
    var r := Dispatch(cfg, sim, pop, store, tasks);
    forall i, j | 0 <= i < num && 0 <= j < |pop|
      ensures Key(i, j) in r && r[Key(i, j)] == Simulate(cfg, sim, i, pop[j])
    {
      var k := GridPosition(num, |pop|, i, j);
      assert Key(tasks[k].0, tasks[k].1) in TaskKeys(tasks);
    }
  }

  lemma GridInRange(num: nat, popsize: nat)
    ensures TasksInRange(Grid(num, popsize), num, popsize)
  {
    var tasks := Grid(num, popsize);
    forall k | 0 <= k < |tasks|
      ensures tasks[k].0 < num && tasks[k].1 < popsize
    {
      assert tasks[k] in Pairs(num, Range(popsize));
    }
  }

  lemma GridPosition(num: nat, popsize: nat, i: nat, j: nat) returns (k: nat)
    requires i < num && j < popsize
    ensures k < |Grid(num, popsize)| && Grid(num, popsize)[k] == (i, j)
  {
    PairsIndex(num, Range(popsize), i, j);
    k := i * popsize + j;
  }
}
