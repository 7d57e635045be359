/** Interpreter loans on top of the thread item pool: a loan is an item on its busy list. */
module InterpPool {
  import opened Wrappers
  import opened InterpSpec
  import InterpRuns
  import T = TipoolSpec
  import P = TipoolProtocol

  datatype World = World(state: State, pool: T.Pool)

  /**
   * A selection, which pops an interpreter if it finds none and waits if there is none to pop; the
   * same selection woken, to look at the pool again; or one of the other steps.
   */
  datatype Act =
    | Ask(r: Option<ReqId>, c: Option<ConnId>, scope: Scope, woken: bool)
    | Other(step: Step)

  /** What modperl_tipool_pop does with the pool, from the start or from its wait. */
  function Pop(cfg: T.Config, canGrow: bool, p: T.Pool, woken: bool): (T.Pool, T.PopOutcome<nat>) {
    if woken then T.Retest(p) else T.EnterPop(cfg, canGrow, p)
  }

  /** The interpreter that this step takes the last reference from, if there is one. */
  function Returned(s: State, step: Step): Option<InterpId> {
    if step.RunCleanup? && step.interp in s.interps && s.interps[step.interp].refcnt == 0
    then Some(step.interp)
    else if step.EndPool? && step.pool in s.stash && s.stash[step.pool] in s.interps
            && s.interps[s.stash[step.pool]].refcnt == 0
    then Some(s.stash[step.pool])
    else None
  }

  ghost predicate Enabled(w: World, act: Act) {
    && Woven(w.state)
    && match act
       case Ask(r, c, scope, _) => Asks(w.state, r, c, scope)
       case Other(step) => !step.Select? && InterpSpec.Enabled(w.state, step)
  }

  /** modperl_interp_get pops, and modperl_interp_unselect at count 0 puts back with num_requests. */
  ghost function Next(cfg: T.Config, canGrow: bool, w: World, act: Act): World
    requires Enabled(w, act)
  {
    match act
    case Ask(r, c, scope, woken) =>
      var (found, p) := Lookup(w.state, r, c, scope);
      if found.Some? then w
      else
        var (pool, out) := Pop(cfg, canGrow, w.pool, woken);
        if out.Took? then World(Lent(w.state, p, out.item), pool) else World(w.state, pool)
    case Other(step) =>
      var back := Returned(w.state, step);
      World(InterpSpec.Next(w.state, step),
            if back.Some?
            then T.Putback(cfg, canGrow, w.pool, back.value, w.state.interps[back.value].served)
            else w.pool)
  }

  /** The interpreters on loan are the items on the busy list, and all is in order on both sides. */
  ghost predicate Matched(cfg: T.Config, w: World) {
    && Sound(w.state) && P.Accounted(w.pool) && P.Bounded(cfg, w.pool)
    && forall i :: i in w.pool.busy <==> InterpRuns.Loaned(w.state, i)
  }

  /** A pop never panics, and what it hands out nobody has: the selection it is for is enabled. */
  lemma PopIsFree(cfg: T.Config, canGrow: bool, w: World, woken: bool)
    requires Matched(cfg, w)
    ensures var (pool, out) := Pop(cfg, canGrow, w.pool, woken);
            && P.Accounted(pool) && P.Bounded(cfg, pool) && !out.Panic?
            && (out.MustWait? ==> pool == w.pool)
            && (out.Took? ==> !InterpRuns.Loaned(w.state, out.item) && pool.busy == w.pool.busy + [out.item])
  {
    if woken {
      P.RetestKeeps(cfg, w.pool);
    } else {
      P.EnterPopKeeps(cfg, canGrow, w.pool);
    }
    var (pool, out) := Pop(cfg, canGrow, w.pool, woken);
    if out.Took? {
      P.OnePlace(w.pool, out.item);
      assert P.Census(w.pool, w.pool.grown) == 0;
    }
  }

  /**
   * So a selection of the composed system is one of InterpSpec, with what the pop hands out; one
   * that finds an interpreter pops nothing, and one that has to wait leaves everything as it is.
   */
  lemma AskIsSelect(cfg: T.Config, canGrow: bool, w: World, r: Option<ReqId>, c: Option<ConnId>,
                    scope: Scope, woken: bool)
    requires Matched(cfg, w) && Enabled(w, Ask(r, c, scope, woken))
    ensures var now, found := Next(cfg, canGrow, w, Ask(r, c, scope, woken)), Lookup(w.state, r, c, scope).0;
            var out := Pop(cfg, canGrow, w.pool, woken).1;
            if found.Some? then
              && now == w
              && forall idle :: InterpSpec.Enabled(w.state, Select(r, c, scope, idle)) ==>
                   && InterpSpec.Next(w.state, Select(r, c, scope, idle)) == w.state
                   && Chosen(w.state, r, c, scope, idle) == found.value
            else if out.Took? then
              && InterpSpec.Enabled(w.state, Select(r, c, scope, out.item))
              && now.state == InterpSpec.Next(w.state, Select(r, c, scope, out.item))
              && Chosen(w.state, r, c, scope, out.item) == out.item
            else out.MustWait? && now == w
  {
    PopIsFree(cfg, canGrow, w, woken);
  }

  lemma AskKeeps(cfg: T.Config, canGrow: bool, w: World, r: Option<ReqId>, c: Option<ConnId>,
                 scope: Scope, woken: bool)
    requires Matched(cfg, w) && Enabled(w, Ask(r, c, scope, woken))
    ensures Matched(cfg, Next(cfg, canGrow, w, Ask(r, c, scope, woken)))
  {
    PopIsFree(cfg, canGrow, w, woken);
    LookupIn(w.state, r, c, scope);
    var (found, p) := Lookup(w.state, r, c, scope);
    var (pool, out) := Pop(cfg, canGrow, w.pool, woken);
    if found.None? && out.Took? {
      LentKeeps(w.state, p, out.item);
    }
  }

  /** Of all interpreters only the one that loses its last reference goes back. */
  lemma LoanedAfter(s: State, step: Step, i: InterpId)
    requires Sound(s) && InterpSpec.Enabled(s, step) && !step.Select?
    ensures InterpRuns.Loaned(InterpSpec.Next(s, step), i)
            <==> InterpRuns.Loaned(s, i) && Returned(s, step) != Some(i)
  {
    if InterpRuns.Loaned(s, i) {
      InterpRuns.StepCounts(s, step, i);
    } else if i in s.interps {
      InterpRuns.NeverBackTwice(s, step, i);
    } else if step.EndPool? {
      EndPoolAddsNone(s, step.pool);
    }
  }

  lemma EndPoolAddsNone(s: State, p: PoolId)
    requires Woven(s) && InterpSpec.Enabled(s, EndPool(p))
    ensures InterpSpec.Next(s, EndPool(p)).interps.Keys == s.interps.Keys
  {
  }

  lemma OtherKeeps(cfg: T.Config, canGrow: bool, w: World, step: Step)
    requires Matched(cfg, w) && Enabled(w, Other(step))
    ensures Matched(cfg, Next(cfg, canGrow, w, Other(step)))
  {
    StepKeeps(w.state, step);
    var back := Returned(w.state, step);
    var now := Next(cfg, canGrow, w, Other(step));
    if back.Some? {
      P.PutbackKeeps(cfg, canGrow, w.pool, back.value, w.state.interps[back.value].served);
    }
    forall i ensures i in now.pool.busy <==> InterpRuns.Loaned(now.state, i) {
      LoanedAfter(w.state, step, i);
    }
  }

  lemma ActKeeps(cfg: T.Config, canGrow: bool, w: World, act: Act)
    requires Matched(cfg, w) && Enabled(w, act)
    ensures Matched(cfg, Next(cfg, canGrow, w, act))
  {
    match act
    case Ask(r, c, scope, woken) => AskKeeps(cfg, canGrow, w, r, c, scope, woken);
    case Other(step) => OtherKeeps(cfg, canGrow, w, step);
  }

  /**
   * The cleanup or the end of a pool that takes the last reference from an interpreter takes it off
   * the busy list; the pool then judges it by how many selections it was lent for.
   */
  lemma BackAfterItsLoans(cfg: T.Config, canGrow: bool, w: World, step: Step, a: seq<nat>, i: InterpId, b: seq<nat>)
    requires Matched(cfg, w) && Enabled(w, Other(step)) && w.pool.busy == a + [i] + b
    requires i in w.state.interps && w.state.interps[i].refcnt == 0
    requires step == RunCleanup(i) || (step.EndPool? && step.pool in w.state.stash && w.state.stash[step.pool] == i)
    ensures var now := Next(cfg, canGrow, w, Other(step));
            var n := w.state.interps[i].served;
            && now.pool.busy == a + b && !InterpRuns.Loaned(now.state, i)
            && (P.LetGo(cfg, w.pool, n) ==> now.pool.destroyed == w.pool.destroyed + [i])
            && (!P.LetGo(cfg, w.pool, n) ==>
                  now.pool.destroyed == w.pool.destroyed && now.pool.idle == [i] + w.pool.idle)
  {
    P.PutbackDoes(cfg, canGrow, w.pool, a, i, b, w.state.interps[i].served);
  }

  ghost predicate Legal(cfg: T.Config, canGrow: bool, w: World, acts: seq<Act>)
    decreases |acts|
  {
    acts == [] || (Enabled(w, acts[0]) && Legal(cfg, canGrow, Next(cfg, canGrow, w, acts[0]), acts[1..]))
  }

  ghost function Run(cfg: T.Config, canGrow: bool, w: World, acts: seq<Act>): World
    requires Legal(cfg, canGrow, w, acts)
    decreases |acts|
  {
    if acts == [] then w else Run(cfg, canGrow, Next(cfg, canGrow, w, acts[0]), acts[1..])
  }

  function Start(cfg: T.Config): World {
    World(InterpRuns.Start(), P.Initial(cfg).pool)
  }

  lemma StartMatches(cfg: T.Config)
    ensures Matched(cfg, Start(cfg))
  {
    P.EveryRunIsSafe(cfg, true, []);
    P.StartedAccounted(if cfg.start > 0 then cfg.start else 0);
  }

  lemma {:induction false} RunMatches(cfg: T.Config, canGrow: bool, w: World, acts: seq<Act>)
    requires Matched(cfg, w) && Legal(cfg, canGrow, w, acts)
    ensures Matched(cfg, Run(cfg, canGrow, w, acts))
    decreases |acts|
  {
    if acts != [] {
      ActKeeps(cfg, canGrow, w, acts[0]);
      RunMatches(cfg, canGrow, Next(cfg, canGrow, w, acts[0]), acts[1..]);
    }
  }

  /**
   * Over every run from the start, with any configuration of the pool: an interpreter is on loan
   * exactly while it is on the pool's busy list, and both keep all their invariants.
   */
  lemma EveryRunMatches(cfg: T.Config, canGrow: bool, acts: seq<Act>)
    requires Legal(cfg, canGrow, Start(cfg), acts)
    ensures Matched(cfg, Run(cfg, canGrow, Start(cfg), acts))
  {
    StartMatches(cfg);
    RunMatches(cfg, canGrow, Start(cfg), acts);
  }
}
