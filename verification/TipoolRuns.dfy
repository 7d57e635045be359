/** The linked-list pool, driven through an interleaving, stays in step with the protocol. */
module TipoolRuns {
  import opened TipoolSpec
  import opened TipoolProtocol
  import Tipool
  import TipoolList

  /**
   * After any legal run both lists are well-formed, disjoint doubly linked lists whose data,
   * like the counters, are those the protocol computes; so everything EveryRunIsSafe says
   * holds of the linked lists.
   */
  method Execute(cfg: Config, canGrow: bool, steps: seq<Step>) returns (pool: Tipool.Pool)
    requires Legal(cfg, canGrow, steps)
    ensures pool.Valid() && pool.Abs() == Run(cfg, canGrow, steps).pool
    ensures Safe(cfg, Run(cfg, canGrow, steps))
  {
    pool := new Tipool.Pool(cfg, canGrow);
    pool.Init();
    for k := 0 to |steps|
      invariant pool.Valid() && fresh(pool) && fresh(pool.nodes)
      invariant pool.cfg == cfg && pool.canGrow == canGrow
      invariant pool.Abs() == Run(cfg, canGrow, steps[..k]).pool
    {
      RunNext(cfg, canGrow, steps, k);
      Do(pool, steps[k], Run(cfg, canGrow, steps[..k]));
    }
    assert steps[..|steps|] == steps;
    EveryRunIsSafe(cfg, canGrow, steps);
  }

  method Do(pool: Tipool.Pool, step: Step, ghost w: World)
    requires pool.Valid() && pool.Abs() == w.pool && Safe(pool.cfg, w)
    modifies pool, pool.nodes
    ensures pool.Valid() && fresh(pool.nodes - old(pool.nodes))
    ensures pool.Abs() == Next(pool.cfg, pool.canGrow, w, step).pool
  {
    match step
    case Enter(_) =>
      EnterPopKeeps(pool.cfg, pool.canGrow, pool.Abs());
      var _ := pool.Pop();
    case Wake(_) =>
      RetestKeeps(pool.cfg, pool.Abs());
      var _ := pool.Retake();
    case GiveBack(_, item, n) =>
      pool.PutbackData(item, n);
  }

  /** A prefix of a legal run is a legal run, so its end is safe and the next step starts there. */
  lemma RunNext(cfg: Config, canGrow: bool, steps: seq<Step>, k: nat)
    requires Legal(cfg, canGrow, steps) && k < |steps|
    ensures Safe(cfg, Run(cfg, canGrow, steps[..k]))
    ensures Run(cfg, canGrow, steps[..k + 1])
            == Next(cfg, canGrow, Run(cfg, canGrow, steps[..k]), steps[k])
  {
    assert forall i :: 0 <= i < k ==> steps[..k][..i] == steps[..i];
    EveryRunIsSafe(cfg, canGrow, steps[..k]);
    assert steps[..k + 1][..k] == steps[..k];
  }
}
