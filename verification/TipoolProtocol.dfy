/**
 * Any number of threads using one item pool. A step is one stretch of a thread between
 * taking tiplock and giving it up, in modperl_tipool_pop, in the modperl_tipool_wait loop
 * or in modperl_tipool_putback_base; a run is any interleaving of such steps.
 */
module TipoolProtocol {
  import opened TipoolSpec

  datatype World = World(pool: Pool, loans: map<nat, set<nat>>, waiting: set<nat>, panicked: bool) {
    /** The items thread t has popped and not put back. */
    function Held(t: nat): set<nat> {
      if t in loans then loans[t] else {}
    }
  }

  datatype Step =
    | Enter(t: nat)                                  // modperl_tipool_pop takes the lock
    | Wake(t: nat)                                   // COND_WAIT returns, for any reason
    | GiveBack(t: nat, item: nat, numRequests: int)  // modperl_tipool_putback_data

  /** A blocked thread does nothing but wake; nobody puts back what another thread holds. */
  predicate Enabled(w: World, s: Step) {
    match s
    case Enter(t) => t !in w.waiting
    case Wake(t) => t in w.waiting
    case GiveBack(t, item, _) => t !in w.waiting && (item in w.Held(t) || item !in w.pool.busy)
  }

  function Popped(w: World, t: nat, r: (Pool, PopOutcome<nat>)): World {
    match r.1
    case Took(x) => World(r.0, w.loans[t := w.Held(t) + {x}], w.waiting - {t}, w.panicked)
    case MustWait => w.(pool := r.0, waiting := w.waiting + {t})
    case Panic => w.(panicked := true)
  }

  function Next(cfg: Config, canGrow: bool, w: World, s: Step): World {
    match s
    case Enter(t) => Popped(w, t, EnterPop(cfg, canGrow, w.pool))
    case Wake(t) => Popped(w, t, Retest(w.pool))
    case GiveBack(t, item, n) =>
      w.(pool := Putback(cfg, canGrow, w.pool, item, n), loans := w.loans[t := w.Held(t) - {item}])
  }

  function Initial(cfg: Config): World {
    World(Started(if cfg.start > 0 then cfg.start else 0), map[], {}, false)
  }

  function Run(cfg: Config, canGrow: bool, steps: seq<Step>): World {
    if steps == [] then Initial(cfg)
    else Next(cfg, canGrow, Run(cfg, canGrow, steps[..|steps| - 1]), steps[|steps| - 1])
  }

  /** Every step was enabled when it was taken. */
  ghost predicate Legal(cfg: Config, canGrow: bool, steps: seq<Step>) {
    forall k :: 0 <= k < |steps| ==> Enabled(Run(cfg, canGrow, steps[..k]), steps[k])
  }

  function Max(a: int, b: int): int { if a >= b then a else b }

  function SizeBound(cfg: Config): int { Max(0, Max(cfg.start, cfg.max)) }

  function SpareBound(cfg: Config): int { Max(Max(cfg.start, cfg.maxSpare), Max(cfg.minSpare, 1)) }

  /** How often item x occurs among the idle, the lent and the destroyed items together. */
  function Census(p: Pool, x: nat): nat {
    multiset(p.idle)[x] + multiset(p.busy)[x] + multiset(p.destroyed)[x]
  }

  /** Every item ever grown is in exactly one place, once; the counters count the lists. */
  ghost predicate Accounted(p: Pool) {
    && (forall x: nat :: Census(p, x) == if x < p.grown then 1 else 0)
    && |p.idle| + |p.busy| == p.size
    && |p.busy| == p.inUse
  }

  ghost predicate Bounded(cfg: Config, p: Pool) {
    p.size <= SizeBound(cfg) && |p.idle| <= SpareBound(cfg)
  }

  /** The lent items are the held ones, and no item is held by two threads. */
  ghost predicate Exclusive(w: World) {
    && (forall t, x :: x in w.Held(t) ==> x in w.pool.busy)
    && (forall x :: x in w.pool.busy ==> exists t :: x in w.Held(t))
    && (forall t, u, x :: x in w.Held(t) && x in w.Held(u) ==> t == u)
  }

  ghost predicate Safe(cfg: Config, w: World) {
    Accounted(w.pool) && Bounded(cfg, w.pool) && Exclusive(w) && !w.panicked
  }

  // ----- the lists -----

  lemma {:induction false} WithoutIsRemoval(s: seq<nat>, x: nat)
    ensures multiset(Without(s, x)) == multiset(s) - multiset{x}
    ensures |Without(s, x)| == if x in s then |s| - 1 else |s|
  {
    if s != [] {
      assert s == [s[0]] + s[1..];
      if s[0] != x {
        WithoutIsRemoval(s[1..], x);
      }
    }
  }

  lemma OnePlace(p: Pool, x: nat)
    requires Accounted(p)
    ensures x in p.busy ==> x !in p.idle && x !in p.destroyed && multiset(p.busy)[x] == 1
    ensures x in p.idle ==> x !in p.busy && x !in p.destroyed
  {
    assert Census(p, x) <= 1;
  }

  // ----- what each locked stretch keeps -----

  lemma AddedAccounted(p: Pool)
    requires Accounted(p)
    ensures Accounted(Added(p))
  {
    forall x: nat
      ensures Census(Added(p), x) == if x < p.grown + 1 then 1 else 0
    {
      assert Census(p, x) == if x < p.grown then 1 else 0;
    }
  }

  lemma {:induction false} StartedAccounted(n: nat)
    ensures Accounted(Started(n)) && Started(n).size == n && Started(n).busy == [] && |Started(n).idle| == n
  {
    if n > 0 {
      StartedAccounted(n - 1);
      AddedAccounted(Started(n - 1));
    }
  }

  lemma TakeAccounted(p: Pool)
    requires Accounted(p) && p.idle != []
    ensures Accounted(Take(p).0)
  {
    assert p.idle == [p.idle[0]] + p.idle[1..];
    forall x: nat
      ensures Census(Take(p).0, x) == if x < p.grown then 1 else 0
    {
      assert Census(p, x) == if x < p.grown then 1 else 0;
    }
  }

  /** A thread that leaves the wait loop finds an idle item: the panic cannot happen. */
  lemma RetestKeeps(cfg: Config, p: Pool)
    requires Accounted(p) && Bounded(cfg, p)
    ensures var (q, r) := Retest(p);
            && Accounted(q) && Bounded(cfg, q) && !r.Panic?
            && (r.MustWait? <==> p.idle == [])
            && (r.Took? ==> r.item in p.idle && q.busy == p.busy + [r.item])
  {
    if p.idle != [] {
      TakeAccounted(p);
    }
  }

  /** A pop blocks exactly when everything is on loan and the pool may not grow. */
  lemma EnterPopKeeps(cfg: Config, canGrow: bool, p: Pool)
    requires Accounted(p) && Bounded(cfg, p)
    ensures var (q, r) := EnterPop(cfg, canGrow, p);
            && Accounted(q) && Bounded(cfg, q) && !r.Panic?
            && (r.MustWait? <==> p.idle == [] && !(p.size < cfg.max && canGrow))
            && (r.Took? ==> (r.item in p.idle || r.item == p.grown) && q.busy == p.busy + [r.item])
            && (r.MustWait? ==> q == p)
  {
    if p.size == p.inUse && p.size < cfg.max && canGrow {
      AddedAccounted(p);
      RetestKeeps(cfg, Added(p));
    } else {
      RetestKeeps(cfg, p);
    }
  }

  lemma ShelvedAccounted(p: Pool, item: nat)
    requires Accounted(p) && item in p.busy
    ensures Accounted(p.(busy := Without(p.busy, item), idle := [item] + p.idle, inUse := p.inUse - 1))
  {
    var q := p.(busy := Without(p.busy, item), idle := [item] + p.idle, inUse := p.inUse - 1);
    WithoutIsRemoval(p.busy, item);
    forall x: nat
      ensures Census(q, x) == Census(p, x)
    {
    }
  }

  lemma DiscardedAccounted(p: Pool, item: nat)
    requires Accounted(p) && item in p.idle
    ensures Accounted(p.(idle := Without(p.idle, item), size := p.size - 1, destroyed := p.destroyed + [item]))
  {
    var q := p.(idle := Without(p.idle, item), size := p.size - 1, destroyed := p.destroyed + [item]);
    WithoutIsRemoval(p.idle, item);
    forall x: nat
      ensures Census(q, x) == Census(p, x)
    {
    }
  }

  lemma SettleKeeps(cfg: Config, canGrow: bool, p: Pool, item: nat, n: int)
    requires Accounted(p) && item in p.idle && p.size <= SizeBound(cfg) && |p.idle| <= SpareBound(cfg) + 1
    ensures var q := Settle(cfg, canGrow, p, item, n); Accounted(q) && Bounded(cfg, q) && q.busy == p.busy
  {
    var q := p.(idle := Without(p.idle, item), size := p.size - 1, destroyed := p.destroyed + [item]);
    DiscardedAccounted(p, item);
    AddedAccounted(q);
  }

  /** Putting back what is not on loan changes nothing; otherwise the item just leaves the busy list. */
  lemma PutbackKeeps(cfg: Config, canGrow: bool, p: Pool, item: nat, n: int)
    requires Accounted(p) && Bounded(cfg, p)
    ensures var q := Putback(cfg, canGrow, p, item, n);
            && Accounted(q) && Bounded(cfg, q)
            && (forall x :: x in q.busy <==> x in p.busy && x != item)
            && (item !in p.busy ==> q == p)
  {
    if item in p.busy {
      OnePlace(p, item);
      ShelvedAccounted(p, item);
      WithoutIsRemoval(p.busy, item);
      var q := p.(busy := Without(p.busy, item), idle := [item] + p.idle, inUse := p.inUse - 1);
      assert forall x :: x in q.busy <==> x in multiset(q.busy);
      assert forall x :: x in p.busy <==> x in multiset(p.busy);
      SettleKeeps(cfg, canGrow, q, item, n);
    }
  }

  // ----- every step, every run -----

  lemma PoppedKeeps(cfg: Config, w: World, t: nat, r: (Pool, PopOutcome<nat>))
    requires Safe(cfg, w) && Accounted(r.0) && Bounded(cfg, r.0) && !r.1.Panic?
    requires r.1.Took? ==> r.1.item !in w.pool.busy && r.0.busy == w.pool.busy + [r.1.item]
    requires r.1.MustWait? ==> r.0 == w.pool
    ensures Safe(cfg, Popped(w, t, r))
  {
    var v := Popped(w, t, r);
    if r.1.MustWait? {
      assert forall u: nat :: v.Held(u) == w.Held(u);
    } else {
      assert forall u: nat :: v.Held(u) == if u == t then w.Held(t) + {r.1.item} else w.Held(u);
      assert r.1.item in v.Held(t);
      forall x | x in v.pool.busy
        ensures exists u :: x in v.Held(u)
      {
        if x != r.1.item {
          var u :| x in w.Held(u);
          assert x in v.Held(u);
        }
      }
    }
  }

  lemma StepKeeps(cfg: Config, canGrow: bool, w: World, s: Step)
    requires Safe(cfg, w) && Enabled(w, s)
    ensures Safe(cfg, Next(cfg, canGrow, w, s))
  {
    match s
    case Enter(t) =>
      EnterPopKeeps(cfg, canGrow, w.pool);
      var r := EnterPop(cfg, canGrow, w.pool);
      if r.1.Took? {
        OnePlace(w.pool, r.1.item);
        assert Census(w.pool, w.pool.grown) == 0;
      }
      PoppedKeeps(cfg, w, t, r);
    case Wake(t) =>
      RetestKeeps(cfg, w.pool);
      var r := Retest(w.pool);
      if r.1.Took? {
        OnePlace(w.pool, r.1.item);
      }
      PoppedKeeps(cfg, w, t, r);
    case GiveBack(t, item, n) =>
      PutbackKeeps(cfg, canGrow, w.pool, item, n);
      var v := Next(cfg, canGrow, w, s);
      assert forall u: nat :: v.Held(u) == if u == t then w.Held(t) - {item} else w.Held(u);
      forall x | x in v.pool.busy
        ensures exists u :: x in v.Held(u)
      {
        var u :| x in w.Held(u);
        assert x in v.Held(u);
      }
  }

  /**
   * The pool's safety over every interleaving: at each release of the lock the two lists and
   * the destroyed items partition everything ever grown, the counters are exact, the size and
   * the number of idle items keep their bounds, no item has two holders and no pop panics.
   */
  lemma {:induction false} EveryRunIsSafe(cfg: Config, canGrow: bool, steps: seq<Step>)
    requires Legal(cfg, canGrow, steps)
    ensures Safe(cfg, Run(cfg, canGrow, steps))
  {
    if steps == [] {
      StartedAccounted(if cfg.start > 0 then cfg.start else 0);
    } else {
      var before := steps[..|steps| - 1];
      assert forall k :: 0 <= k < |before| ==> before[..k] == steps[..k];
      EveryRunIsSafe(cfg, canGrow, before);
      StepKeeps(cfg, canGrow, Run(cfg, canGrow, before), steps[|steps| - 1]);
    }
  }

  /** modperl_tipool_destroy after any run: nothing idle is left, and size counts the items still lent. */
  lemma DestroyEnds(cfg: Config, canGrow: bool, steps: seq<Step>)
    requires Legal(cfg, canGrow, steps)
    ensures var p := Destroyed(Run(cfg, canGrow, steps).pool);
            && Accounted(p) && p.idle == [] && p.size == p.inUse == |p.busy|
            && var was := Run(cfg, canGrow, steps).pool;
               p.destroyed == was.destroyed + was.idle && p.busy == was.busy
  {
    EveryRunIsSafe(cfg, canGrow, steps);
    var p := Run(cfg, canGrow, steps).pool;
    forall x: nat
      ensures Census(Destroyed(p), x) == Census(p, x)
    {
    }
  }

  /** Given the node, the putback does what it does given the data exactly if that is on loan. */
  lemma NodeFormIsDataForm(cfg: Config, canGrow: bool, p: Pool, item: nat, n: int)
    ensures PutbackListed(cfg, canGrow, p, item, n) == Putback(cfg, canGrow, p, item, n) <==> item in p.busy
    ensures PutbackListed(cfg, canGrow, p, item, n).inUse == p.inUse - 1
  {
  }

  /** A worn-out item put back twice: the second time it is counted as returned, and destroyed again. */
  lemma NodePutBackTwice()
    ensures var cfg := Config(1, 0, 3, 3, 10);
            var p := Take(Started(1)).0;
            var once := PutbackListed(cfg, false, p, 0, 11);
            var twice := PutbackListed(cfg, false, once, 0, 11);
            && Putback(cfg, false, once, 0, 11) == once && once.destroyed == [0] && Accounted(once)
            && twice.destroyed == [0, 0] && twice.inUse == -1 && !Accounted(twice)
  {
    var cfg := Config(1, 0, 3, 3, 10);
    assert Started(1) == Added(Started(0)) == Pool([0], [], 0, 1, 1, []);
    var p := Take(Started(1)).0;
    assert p == Pool([], [0], 1, 1, 1, []);
    var once := PutbackListed(cfg, false, p, 0, 11);
    assert once == Pool([], [], 0, 0, 1, [0]);
    StartedAccounted(1);
    TakeAccounted(Started(1));
    PutbackListedAccounted(cfg, p);
  }

  lemma PutbackListedAccounted(cfg: Config, p: Pool)
    requires Accounted(p) && 0 in p.busy && cfg == Config(1, 0, 3, 3, 10) && Bounded(cfg, p)
    ensures Accounted(PutbackListed(cfg, false, p, 0, 11))
  {
    PutbackKeeps(cfg, false, p, 0, 11);
  }

  // ----- what the operations do, in the pool's own terms -----

  lemma {:induction false} WithoutMiddle(a: seq<nat>, x: nat, b: seq<nat>)
    requires x !in a
    ensures Without(a + [x] + b, x) == a + b
  {
    if a == [] {
      assert a + [x] + b == [x] + b && a + b == b;
    } else {
      assert (a + [x] + b)[1..] == a[1..] + [x] + b;
      WithoutMiddle(a[1..], x, b);
      assert a + b == [a[0]] + (a[1..] + b);
    }
  }

  /** A pop takes the first idle item, or a new one if all is lent and it may grow, or it waits. */
  lemma PopTakesTheHead(cfg: Config, canGrow: bool, p: Pool)
    requires Accounted(p)
    ensures var (q, out) := EnterPop(cfg, canGrow, p);
            if p.idle != [] then
              && out == Took(p.idle[0])
              && q == Pool(p.idle[1..], p.busy + [p.idle[0]], p.inUse + 1, p.size, p.grown, p.destroyed)
            else if p.size < cfg.max && canGrow then
              && out == Took(p.grown)
              && q == Pool([], p.busy + [p.grown], p.inUse + 1, p.size + 1, p.grown + 1, p.destroyed)
            else out == MustWait && q == p
  {
  }

  /** A woken pop takes the first idle item, or waits again; it does not grow. */
  lemma WokenPopTakesTheHead(p: Pool)
    requires Accounted(p)
    ensures var (q, out) := Retest(p);
            if p.idle != [] then
              && out == Took(p.idle[0])
              && q == Pool(p.idle[1..], p.busy + [p.idle[0]], p.inUse + 1, p.size, p.grown, p.destroyed)
            else out == MustWait && q == p
  {
  }

  /** A returned item is let go: not if a thread may be blocked, else if it is one too many or worn out. */
  predicate LetGo(cfg: Config, p: Pool, numRequests: int) {
    && p.inUse - 1 != cfg.max - 1
    && (p.size - (p.inUse - 1) > cfg.maxSpare || (numRequests > 0 && numRequests > cfg.maxRequests))
  }

  /** A new item takes its place: it was worn out, and too few are left to spare. */
  predicate Replaced(cfg: Config, canGrow: bool, p: Pool, numRequests: int) {
    && LetGo(cfg, p, numRequests) && numRequests > 0 && numRequests > cfg.maxRequests
    && (p.size - 1) - (p.inUse - 1) < cfg.minSpare && canGrow
  }

  /**
   * Putting back an item on loan, between a and b on the busy list. It is destroyed exactly if it
   * is let go; otherwise it is at the front of the idle list. The rest of idle keeps its order, and
   * a new item is grown behind it exactly if the old one is replaced.
   */
  lemma PutbackDoes(cfg: Config, canGrow: bool, p: Pool, a: seq<nat>, item: nat, b: seq<nat>, n: int)
    requires Accounted(p) && p.busy == a + [item] + b
    ensures var q := Putback(cfg, canGrow, p, item, n);
            && q.busy == a + b && q.inUse == p.inUse - 1
            && (item in q.destroyed <==> LetGo(cfg, p, n))
            && (LetGo(cfg, p, n) ==> q.destroyed == p.destroyed + [item])
            && (!LetGo(cfg, p, n) ==>
                  q.idle == [item] + p.idle && q.destroyed == p.destroyed
                  && q.size == p.size && q.grown == p.grown)
            && (LetGo(cfg, p, n) && !Replaced(cfg, canGrow, p, n) ==>
                  q.idle == p.idle && q.size == p.size - 1 && q.grown == p.grown)
            && (Replaced(cfg, canGrow, p, n) ==>
                  q.idle == p.idle + [p.grown] && q.size == p.size && q.grown == p.grown + 1)
  {
    assert p.busy[|a|] == item;
    OnePlace(p, item);
    assert multiset(p.busy) == multiset(a) + multiset{item} + multiset(b);
    WithoutMiddle(a, item, b);
    assert Without([item] + p.idle, item) == p.idle;
  }
}
