/** The generation loop of `run`: ask the optimizer for a population,
    evaluate it with `step`, tell the optimizer, record the generation
    with `save`, and restart with a doubled population whenever the
    optimizer reports that it should stop. */
module Driver {
  import opened Common
  import opened ResultStore
  import opened Recovery

  /** The step size every optimizer instance is built with. */
  const Sigma: real := 1250.0

  /** Population growth factor at a restart (`inc_popsize`). */
  const Growth: nat := 2

  /** A separable CMA-ES instance as far as the loop sees it: what it was
      built with, and an internal state only `ask` and `tell` interpret. */
  datatype Optimizer = Optimizer(
    mean: Vec,
    sigma: real,
    low: Vec,
    high: Vec,
    seed: nat,
    populationSize: nat,
    state: seq<real>)

  /** The optimizer's own operations, which the loop treats as given:
      the `k`-th `ask` of a generation, `tell`, and `should_stop`. */
  type Ask = (Optimizer, nat) -> Vec
  type Tell = (Optimizer, seq<(Vec, real)>) -> Optimizer
  type ShouldStop = Optimizer -> bool

  /** The generation record kept by `save`: all errors of each
      generation, the best error, and the index of the best candidate. */
  datatype RunRecord = RunRecord(evalRecord: seq<seq<real>>, bestEval: seq<real>, bestOne: seq<nat>)

  /** `np.argmin`: the first position of a smallest element. */
  function ArgMin(xs: seq<real>): (r: nat)
    requires |xs| > 0
    ensures r < |xs|
    ensures forall k :: 0 <= k < |xs| ==> xs[r] <= xs[k]
    ensures forall k :: 0 <= k < r ==> xs[k] > xs[r]
  {
    if |xs| == 1 then 0
    else
      var m := ArgMin(xs[..|xs| - 1]);
      if xs[|xs| - 1] < xs[m] then |xs| - 1 else m
  }

  /** Generation `g` of the record names its first smallest error. */
  predicate BestOf(rec: RunRecord, g: nat)
    requires g < |rec.evalRecord| && g < |rec.bestEval| && g < |rec.bestOne|
  {
    var e := rec.evalRecord[g];
    && rec.bestOne[g] < |e|
    && e[rec.bestOne[g]] == rec.bestEval[g]
    && (forall k :: 0 <= k < |e| ==> rec.bestEval[g] <= e[k])
    && (forall k :: 0 <= k < rec.bestOne[g] ==> e[k] > rec.bestEval[g])
  }

  /** The three lists have one entry per generation, and each generation's
      best entries describe its errors. */
  predicate WellFormed(rec: RunRecord)
  {
    && |rec.evalRecord| == |rec.bestEval| == |rec.bestOne|
    && forall g :: 0 <= g < |rec.evalRecord| ==> BestOf(rec, g)
  }

  /** `save` (list bookkeeping): append the generation's errors, their
      minimum and the first index attaining it. Earlier generations are
      left as they were, so a well-formed record stays well-formed. */
  function Save(rec: RunRecord, eval: seq<real>): (r: RunRecord)
    requires |eval| > 0
    ensures r.evalRecord == rec.evalRecord + [eval]
    ensures |r.bestEval| == |rec.bestEval| + 1 && r.bestEval[..|rec.bestEval|] == rec.bestEval
    ensures |r.bestOne| == |rec.bestOne| + 1 && r.bestOne[..|rec.bestOne|] == rec.bestOne
    ensures var n := |rec.bestOne|;
      && r.bestOne[n] < |eval|
      && r.bestEval[|rec.bestEval|] == eval[r.bestOne[n]]
      && (forall k :: 0 <= k < |eval| ==> eval[r.bestOne[n]] <= eval[k])
      && (forall k :: 0 <= k < r.bestOne[n] ==> eval[k] > eval[r.bestOne[n]])
    ensures WellFormed(rec) ==> WellFormed(r)
  {
    var best := ArgMin(eval);
    var r := RunRecord(rec.evalRecord + [eval], rec.bestEval + [eval[best]], rec.bestOne + [best]);
    assert WellFormed(rec) ==> WellFormed(r) by {
      if WellFormed(rec) {
        forall g | 0 <= g < |r.evalRecord|
          ensures BestOf(r, g)
        {
          if g < |rec.evalRecord| {
            assert BestOf(rec, g);
            assert r.evalRecord[g] == rec.evalRecord[g];
          }
        }
      }
    }
    r
  }

  /** The population of one generation: `population_size` calls of `ask`. */
  function AskAll(ask: Ask, opt: Optimizer): (pop: seq<Vec>)
    ensures |pop| == opt.populationSize
  {
    seq(opt.populationSize, k requires 0 <= k < opt.populationSize => ask(opt, k))
  }

  /** The (candidate, error) pairs handed to `tell`, in population order. */
  function Solutions(pop: seq<Vec>, eval: seq<real>): (s: seq<(Vec, real)>)
    requires |pop| == |eval|
    ensures |s| == |pop| && forall i :: 0 <= i < |s| ==> s[i].0 == pop[i] && s[i].1 == eval[i]
  {
    seq(|pop|, i requires 0 <= i < |pop| => (pop[i], eval[i]))
  }

  /** What `run` is given and keeps fixed across generations: the
      inputs, the solver, the optimizer's operations, the sampler of
      replacements (`draw(g, k)` is the `k`-th replacement sampled during
      generation `g`) and the mean drawn after reseeding with `s`
      (`restartMean(s)`). */
  datatype Env = Env(
    cfg: Config,
    sim: Simulator,
    ask: Ask,
    tell: Tell,
    shouldStop: ShouldStop,
    draw: (nat, nat) -> Vec,
    restartMean: nat -> Vec)

  /** The replacements sampled during generation `g`. */
  function GenDraw(draw: (nat, nat) -> Vec, g: nat): nat -> Vec
  {
    (k: nat) => draw(g, k)
  }

  /** What the loop holds at the start of a generation: the seed, the
      optimizer to ask, and the result store. */
  datatype Generation = Generation(seed: nat, opt: Optimizer, store: Store)

  /** Generation `g`'s call of `step` on the population asked from the
      generation's optimizer. */
  function Attempt(env: Env, g: nat, gen: Generation): Result<StepOutcome>
    requires gen.opt.populationSize > 0
  {
    Step(env.cfg, env.sim, gen.store, AskAll(env.ask, gen.opt), GenDraw(env.draw, g))
  }

  /** The optimizer after `tell` with the evaluated population. */
  function Told(env: Env, gen: Generation, out: StepOutcome): Optimizer
    requires |out.pop| == |out.eval|
  {
    env.tell(gen.opt, Solutions(out.pop, out.eval))
  }

  /** The restart check: a fresh optimizer with the next seed and twice
      the population when `should_stop` fires, the told one otherwise. */
  function Successor(env: Env, gen: Generation, out: StepOutcome): Generation
    requires |out.pop| == |out.eval|
  {
    var told := Told(env, gen, out);
    if env.shouldStop(told) then
      var seed := gen.seed + 1;
      Generation(seed, Optimizer(env.restartMean(seed), Sigma, env.cfg.low, env.cfg.high, seed,
                                 told.populationSize * Growth, []), out.store)
    else Generation(gen.seed, told, out.store)
  }

  /** Generation `g` started from `gen`, its `step` succeeded with errors
      `eval`, `should_stop` answered `stop` after `tell`, and the next
      generation started from `next`. */
  predicate GenerationRan(env: Env, g: nat, gen: Generation, eval: seq<real>, stop: bool, next: Generation)
  {
    && gen.opt.populationSize > 0
    && var r := Attempt(env, g, gen);
       && r.Success?
       && r.value.eval == eval
       && stop == env.shouldStop(Told(env, gen, r.value))
       && next == Successor(env, gen, r.value)
  }

  /** What the loop holds between generations, with the history of the
      states every generation so far started from. */
  datatype RunState = RunState(
    iter: nat,
    seed: nat,
    opt: Optimizer,
    rec: RunRecord,
    restarts: seq<bool>,
    store: Store,
    history: seq<Generation>)

  /** The state the next generation starts from. */
  function Current(st: RunState): Generation
  {
    Generation(st.seed, st.opt, st.store)
  }

  /** The first generation's state: seed 0, the initial mean and
      `popsize1` candidates. */
  function Start(env: Env, mean0: Vec, popsize1: nat, store0: Store): Generation
  {
    Generation(0, Optimizer(mean0, Sigma, env.cfg.low, env.cfg.high, 0, popsize1, []), store0)
  }

  lemma CountTrueSnoc(bs: seq<bool>, b: bool)
    ensures CountTrue(bs + [b]) == CountTrue(bs) + (if b then 1 else 0)
  {
    assert (bs + [b])[..|bs|] == bs;
  }

  /** The record has one entry per generation, each well-formed, with
      non-negative errors. */
  predicate RecordInvariant(st: RunState)
  {
    && |st.rec.evalRecord| == st.iter && |st.restarts| == st.iter
    && WellFormed(st.rec)
    && (forall g, j :: 0 <= g < st.iter && 0 <= j < |st.rec.evalRecord[g]| ==> st.rec.evalRecord[g][j] >= 0.0)
  }

  /** Population sizes: the first generation has `popsize1` candidates,
      each later one as many as the one before, or twice as many after a
      restart; the seed counts the restarts. */
  predicate SizeInvariant(st: RunState, popsize1: nat)
    requires |st.rec.evalRecord| == st.iter && |st.restarts| == st.iter
  {
    && (st.iter > 0 ==> |st.rec.evalRecord[0]| == popsize1)
    && (forall g :: 0 <= g < st.iter - 1 ==>
          |st.rec.evalRecord[g + 1]| == if st.restarts[g] then Growth * |st.rec.evalRecord[g]| else |st.rec.evalRecord[g]|)
    && (st.iter > 0 ==>
          st.opt.populationSize ==
            if st.restarts[st.iter - 1] then Growth * |st.rec.evalRecord[st.iter - 1]| else |st.rec.evalRecord[st.iter - 1]|)
    && st.seed == CountTrue(st.restarts)
    && st.opt.populationSize == popsize1 * Pow2(CountTrue(st.restarts))
  }

  /** The history starts at `start`, ends at the current state, and every
      generation so far ran `step` successfully from its own state, with
      the recorded errors and restart decision. */
  predicate HistoryInvariant(env: Env, st: RunState, start: Generation)
  {
    && |st.history| == st.iter + 1 && |st.rec.evalRecord| == st.iter && |st.restarts| == st.iter
    && st.history[0] == start
    && st.history[st.iter] == Current(st)
    && forall g :: 0 <= g < st.iter ==>
         GenerationRan(env, g, st.history[g], st.rec.evalRecord[g], st.restarts[g], st.history[g + 1])
  }

  /** What holds of the loop state after every generation of `run`. */
  predicate RunInvariant(env: Env, st: RunState, popsize1: nat, start: Generation)
  {
    RecordInvariant(st) && SizeInvariant(st, popsize1) && HistoryInvariant(env, st, start)
  }

  /** The end of one generation, after `step` and `tell`: `save`, then
      the restart check, then `iter += 1`. The errors are appended to the
      record and the decision to the restart log; a restart moves to the
      next seed and starts a fresh optimizer at the resampled mean with
      the initial step size, the bounds and twice the population, and
      otherwise the told optimizer carries on with the same seed. */
  function EndGeneration(env: Env, st: RunState, out: StepOutcome): (r: RunState)
    requires |out.eval| > 0 && |out.pop| == |out.eval|
    ensures var told := Told(env, Current(st), out);
      var stop := env.shouldStop(told);
      && r.iter == st.iter + 1
      && r.rec == Save(st.rec, out.eval)
      && r.restarts == st.restarts + [stop]
      && r.store == out.store
      && r.history == st.history + [Current(r)]
      && (stop ==> r.seed == st.seed + 1 && r.opt.seed == r.seed && r.opt.mean == env.restartMean(r.seed)
                   && r.opt.sigma == Sigma && r.opt.low == env.cfg.low && r.opt.high == env.cfg.high
                   && r.opt.populationSize == Growth * told.populationSize && r.opt.state == [])
      && (!stop ==> r.seed == st.seed && r.opt == told)
  {
    var next := Successor(env, Current(st), out);
    var stop := env.shouldStop(Told(env, Current(st), out));
    RunState(st.iter + 1, next.seed, next.opt, Save(st.rec, out.eval), st.restarts + [stop], next.store,
             st.history + [next])
  }

  /** A generation whose `step` succeeded on the asked-for number of
      candidates keeps the loop invariant. */
  lemma EndGenerationKeepsInvariant(env: Env, st: RunState, popsize1: nat, start: Generation, out: StepOutcome)
    requires RunInvariant(env, st, popsize1, start)
    requires st.opt.populationSize > 0
    requires Attempt(env, st.iter, Current(st)) == Success(out)
    requires Told(env, Current(st), out).populationSize == st.opt.populationSize
    ensures RunInvariant(env, EndGeneration(env, st, out), popsize1, start)
  {
    RecordKept(env, st, out);
    SizesKept(env, st, popsize1, out);
    HistoryKept(env, st, start, out);
  }

  lemma RecordKept(env: Env, st: RunState, out: StepOutcome)
    requires RecordInvariant(st)
    requires |out.eval| > 0 && |out.pop| == |out.eval|
    requires forall j :: 0 <= j < |out.eval| ==> out.eval[j] >= 0.0
    ensures RecordInvariant(EndGeneration(env, st, out))
  {
    var st' := EndGeneration(env, st, out);
    forall g, j | 0 <= g < st'.iter && 0 <= j < |st'.rec.evalRecord[g]|
      ensures st'.rec.evalRecord[g][j] >= 0.0
    {
      if g < st.iter {
        assert st'.rec.evalRecord[g] == st.rec.evalRecord[g];
      }
    }
  }

  lemma SizesKept(env: Env, st: RunState, popsize1: nat, out: StepOutcome)
    requires |st.rec.evalRecord| == st.iter && |st.restarts| == st.iter
    requires SizeInvariant(st, popsize1)
    requires |out.eval| == st.opt.populationSize > 0 && |out.pop| == |out.eval|
    requires Told(env, Current(st), out).populationSize == st.opt.populationSize
    ensures var st' := EndGeneration(env, st, out);
      |st'.rec.evalRecord| == st'.iter && |st'.restarts| == st'.iter && SizeInvariant(st', popsize1)
  {
    var st' := EndGeneration(env, st, out);
    var stop := st'.restarts[st.iter];
    var n := st.iter;
    forall g | 0 <= g < st'.iter - 1
      ensures |st'.rec.evalRecord[g + 1]| == if st'.restarts[g] then Growth * |st'.rec.evalRecord[g]| else |st'.rec.evalRecord[g]|
    {
      assert st'.restarts[g] == st.restarts[g];
      assert st'.rec.evalRecord[g] == st.rec.evalRecord[g];
      if g + 1 < n {
        assert st'.rec.evalRecord[g + 1] == st.rec.evalRecord[g + 1];
      }
    }
    CountTrueSnoc(st.restarts, stop);
    PopulationAfterRestart(popsize1, CountTrue(st.restarts), st.opt.populationSize, stop, st'.opt.populationSize);
  }

  lemma HistoryKept(env: Env, st: RunState, start: Generation, out: StepOutcome)
    requires HistoryInvariant(env, st, start)
    requires st.opt.populationSize > 0
    requires Attempt(env, st.iter, Current(st)) == Success(out)
    ensures HistoryInvariant(env, EndGeneration(env, st, out), start)
  {
    var st' := EndGeneration(env, st, out);
    HistoryExtended(env, st.iter, st.history, st.rec.evalRecord, st.restarts,
                    Current(st'), out.eval, st'.restarts[st.iter]);
    assert st'.history[st.iter] == Current(st);
  }

  /** Appending a generation that ran keeps every earlier one as it ran. */
  lemma HistoryExtended(env: Env, n: nat, history: seq<Generation>, evals: seq<seq<real>>, stops: seq<bool>,
                        next: Generation, eval: seq<real>, stop: bool)
    requires |history| == n + 1 && |evals| == n && |stops| == n
    requires forall g :: 0 <= g < n ==> GenerationRan(env, g, history[g], evals[g], stops[g], history[g + 1])
    requires GenerationRan(env, n, history[n], eval, stop, next)
    ensures var history', evals', stops' := history + [next], evals + [eval], stops + [stop];
      forall g :: 0 <= g < n + 1 ==> GenerationRan(env, g, history'[g], evals'[g], stops'[g], history'[g + 1])
  {
    var history', evals', stops' := history + [next], evals + [eval], stops + [stop];
    forall g | 0 <= g < n + 1
      ensures GenerationRan(env, g, history'[g], evals'[g], stops'[g], history'[g + 1])
    {
      if g < n {
        assert history'[g] == history[g] && history'[g + 1] == history[g + 1];
        assert evals'[g] == evals[g] && stops'[g] == stops[g];
      }
    }
  }

  lemma PopulationAfterRestart(popsize1: nat, restarts: nat, size: nat, stop: bool, size': nat)
    requires size == popsize1 * Pow2(restarts)
    requires size' == if stop then size * Growth else size
    ensures size' == popsize1 * Pow2(restarts + (if stop then 1 else 0))
  {
  }

  /** `run`: exactly `maxiter` generations unless a `step` raises. Every
      generation asks the current optimizer for the current population
      size, runs `step` on it, tells the optimizer the candidates `step`
      kept paired with their errors, appends the errors to the record and
      the `should_stop` answer to `restarts`; when `should_stop` fires,
      the seed goes up by one and the next generation asks for twice as
      many candidates, from a fresh optimizer. A run that stops early
      does so because the `step` of generation `st.iter` failed. */
  method Run(env: Env, mean0: Vec, popsize1: nat, maxiter: nat, store0: Store)
    returns (completed: bool, st: RunState)
    requires popsize1 > 0
    requires forall o, sols :: env.tell(o, sols).populationSize == o.populationSize
    ensures completed ==> st.iter == maxiter
    ensures !completed ==> st.iter < maxiter && st.opt.populationSize > 0
                           && Attempt(env, st.iter, Current(st)).Failure?
    ensures |st.history| == st.iter + 1 && st.history[0] == Start(env, mean0, popsize1, store0)
    ensures st.history[st.iter] == Current(st)
    ensures |st.rec.evalRecord| == st.iter && |st.restarts| == st.iter
    ensures forall g :: 0 <= g < st.iter ==>
      GenerationRan(env, g, st.history[g], st.rec.evalRecord[g], st.restarts[g], st.history[g + 1])
    ensures WellFormed(st.rec)
    ensures forall g, j :: 0 <= g < st.iter && 0 <= j < |st.rec.evalRecord[g]| ==> st.rec.evalRecord[g][j] >= 0.0
    ensures st.iter > 0 ==> |st.rec.evalRecord[0]| == popsize1
    ensures forall g :: 0 <= g < st.iter - 1 ==>
      |st.rec.evalRecord[g + 1]| == if st.restarts[g] then Growth * |st.rec.evalRecord[g]| else |st.rec.evalRecord[g]|
    ensures st.iter > 0 ==>
      st.opt.populationSize ==
        if st.restarts[st.iter - 1] then Growth * |st.rec.evalRecord[st.iter - 1]| else |st.rec.evalRecord[st.iter - 1]|
    ensures st.seed == CountTrue(st.restarts)
    ensures st.opt.populationSize == popsize1 * Pow2(CountTrue(st.restarts))
  {
    var start := Start(env, mean0, popsize1, store0);
    st := RunState(0, 0, start.opt, RunRecord([], [], []), [], store0, [start]);
    completed := true;
    while st.iter < maxiter
      invariant st.iter <= maxiter
      invariant RunInvariant(env, st, popsize1, start)
      decreases maxiter - st.iter
    {
      PopulationPositive(popsize1, CountTrue(st.restarts));
      var outcome := Attempt(env, st.iter, Current(st));
      if outcome.Failure? {
        completed := false;
        assert RecordInvariant(st) && SizeInvariant(st, popsize1) && HistoryInvariant(env, st, start);
        return;
      }
      EndGenerationKeepsInvariant(env, st, popsize1, start, outcome.value);
      st := EndGeneration(env, st, outcome.value);
    }
    assert RecordInvariant(st) && SizeInvariant(st, popsize1) && HistoryInvariant(env, st, start);
  }

  lemma PopulationPositive(popsize1: nat, restarts: nat)
    requires popsize1 > 0
    ensures popsize1 * Pow2(restarts) > 0
  {
  }
}
