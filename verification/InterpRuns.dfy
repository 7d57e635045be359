/** What holds of interpreter loans over every run of selections, cleanups and pools' ends. */
module InterpRuns {
  import opened Wrappers
  import opened InterpSpec

  function Start(): State {
    State(map[], map[], map[], map[], map[], map[], multiset{})
  }

  ghost predicate Legal(s: State, steps: seq<Step>)
    decreases |steps|
  {
    steps == [] || (Woven(s) && Enabled(s, steps[0]) && Legal(Next(s, steps[0]), steps[1..]))
  }

  ghost function Run(s: State, steps: seq<Step>): State
    requires Legal(s, steps)
    decreases |steps|
  {
    if steps == [] then s else Run(Next(s, steps[0]), steps[1..])
  }

  lemma {:induction false} EveryRunIsSound(s: State, steps: seq<Step>)
    requires Sound(s) && Legal(s, steps)
    ensures Sound(Run(s, steps))
    decreases |steps|
  {
    if steps != [] {
      StepKeeps(s, steps[0]);
      EveryRunIsSound(Next(s, steps[0]), steps[1..]);
    }
  }

  // ----- when an interpreter goes back -----

  predicate Loaned(s: State, i: InterpId) {
    i in s.interps && s.interps[i].loaned
  }

  predicate Unselects(s: State, step: Step, i: InterpId) {
    step == RunCleanup(i) || (step.EndPool? && step.pool in s.stash && s.stash[step.pool] == i)
  }

  /** The increments of the reference count of i in a run. */
  ghost function Ups(s: State, steps: seq<Step>, i: InterpId): nat
    requires Legal(s, steps)
    decreases |steps|
  {
    if steps == [] then 0
    else (if steps[0] == Register(i) then 1 else 0) + Ups(Next(s, steps[0]), steps[1..], i)
  }

  /** The unselects of i in a run. */
  ghost function Downs(s: State, steps: seq<Step>, i: InterpId): nat
    requires Legal(s, steps)
    decreases |steps|
  {
    if steps == [] then 0
    else (if Unselects(s, steps[0], i) then 1 else 0) + Downs(Next(s, steps[0]), steps[1..], i)
  }

  /** i is on loan before every step of the run. */
  ghost predicate LoanedBefore(s: State, steps: seq<Step>, i: InterpId)
    requires Legal(s, steps)
    decreases |steps|
  {
    steps == [] || (Loaned(s, i) && LoanedBefore(Next(s, steps[0]), steps[1..], i))
  }

  /** What one step does to the reference count of an interpreter on loan. */
  lemma StepCounts(s: State, step: Step, i: InterpId)
    requires Sound(s) && Enabled(s, step) && Loaned(s, i)
    ensures i in Next(s, step).interps
    ensures var was, now := s.interps[i], Next(s, step).interps[i];
            if Unselects(s, step, i)
            then if was.refcnt == 0 then !now.loaned else now == was.(refcnt := was.refcnt - 1)
            else now == was.(refcnt := was.refcnt + if step == Register(i) then 1 else 0)
  {
    if step.EndPool? {
      EndPoolCounts(s, step.pool, i);
    }
  }

  lemma EndPoolCounts(s: State, p: PoolId, i: InterpId)
    requires Sound(s) && Enabled(s, EndPool(p)) && i in s.interps
    ensures Next(s, EndPool(p)).interps.Keys == s.interps.Keys
    ensures !Unselects(s, EndPool(p), i) ==> Next(s, EndPool(p)).interps[i] == s.interps[i]
    ensures Unselects(s, EndPool(p), i) ==>
              Next(s, EndPool(p)).interps == Unselected(s, i).interps
  {
  }

  /**
   * From any moment of a loan on, in whatever order references come and go: the interpreter
   * goes back exactly at the unselect that is one more than the references there were and came.
   */
  lemma {:induction false} BackAtLastUnselect(s: State, steps: seq<Step>, i: InterpId)
    requires Sound(s) && Legal(s, steps) && Loaned(s, i) && LoanedBefore(s, steps, i)
    ensures i in Run(s, steps).interps
    ensures var refs, downs := s.interps[i].refcnt + Ups(s, steps, i), Downs(s, steps, i);
            if Loaned(Run(s, steps), i) then downs + Run(s, steps).interps[i].refcnt == refs
            else downs == refs + 1
    decreases |steps|
  {
    if steps != [] {
      StepKeeps(s, steps[0]);
      StepCounts(s, steps[0], i);
      if steps[1..] != [] {
        BackAtLastUnselect(Next(s, steps[0]), steps[1..], i);
      }
    }
  }

  /** Once it is back, nothing unselects it again before it is lent anew. */
  lemma NeverBackTwice(s: State, step: Step, i: InterpId)
    requires Sound(s) && Enabled(s, step) && i in s.interps && !Loaned(s, i)
    ensures !Unselects(s, step, i)
    ensures Loaned(Next(s, step), i) ==> step.Select? && step.idle == i
  {
    if step.Select? {
      LookupIn(s, step.r, step.c, step.scope);
    }
  }

  // ----- one interpreter for a request tree -----

  /** The request at the top of the main requests. */
  function Top(s: State, r: ReqId): (t: ReqId)
    requires Woven(s) && r in s.requests
    ensures t in s.requests && s.requests[t].main.None?
    ensures s.requests[t].conn == s.requests[r].conn
    decreases r
  {
    var main := s.requests[r].main;
    if main.None? then r else Top(s, main.value)
  }

  function TopPool(s: State, r: ReqId): PoolId
    requires Woven(s) && r in s.requests
  {
    s.requests[Top(s, r)].pool
  }

  /** Of the tree of requests below the pool p, no subrequest has an interpreter of its own. */
  ghost predicate OnlyTop(s: State, p: PoolId)
    requires Woven(s)
  {
    forall r :: r in s.requests && s.requests[r].main.Some? && TopPool(s, r) == p ==>
      s.requests[r].pool !in s.stash
  }

  /** A tree that has just begun, with a pool of its own, is in that state. */
  lemma TreeBegins(s: State, r: ReqId, conn: ConnId, p: PoolId)
    requires Sound(s) && Enabled(s, Begin(r, Request(None, conn, p))) && Unused(s, p)
    ensures var now := Next(s, Begin(r, Request(None, conn, p)));
            Sound(now) && TopPool(now, r) == p && OnlyTop(now, p)
  {
    var step := Begin(r, Request(None, conn, p));
    StepKeeps(s, step);
    var now := Next(s, step);
    forall q | q in now.requests && now.requests[q].main.Some? ensures TopPool(now, q) != p {
      TopKept(s, step, q);
    }
  }

  lemma {:induction false} WalkToTop(s: State, m: ReqId, p: PoolId)
    requires Woven(s) && m in s.requests && OnlyTop(s, TopPool(s, m))
    ensures Walk(s, Some(m), p) == (Userdata(s, TopPool(s, m)), TopPool(s, m))
    decreases m
  {
    var main := s.requests[m].main;
    if main.Some? {
      WalkToTop(s, main.value, s.requests[m].pool);
    }
  }

  /** With per-request scope a selection looks at the top request's pool, then the connection's. */
  lemma LookupAtTop(s: State, r: ReqId, c: Option<ConnId>)
    requires Woven(s) && Asks(s, Some(r), c, PerRequest) && OnlyTop(s, TopPool(s, r))
    ensures var top := TopPool(s, r);
            Lookup(s, Some(r), c, PerRequest)
            == (if top in s.stash then Userdata(s, top) else Userdata(s, s.conns[s.requests[r].conn]),
                top)
  {
    var main := s.requests[r].main;
    if main.Some? {
      WalkToTop(s, main.value, s.requests[r].pool);
    }
  }

  /** The requests of the tree below p ask with per-request scope; others ask as they like. */
  predicate TreeScoped(s: State, step: Step, p: PoolId)
    requires Woven(s)
  {
    step.Select? && step.r.Some? && step.r.value in s.requests && TopPool(s, step.r.value) == p ==>
      step.scope == PerRequest
  }

  /** A request that goes on does not change. */
  lemma RequestKept(s: State, step: Step, r: ReqId)
    requires Sound(s) && Enabled(s, step) && r in s.requests && r in Next(s, step).requests
    ensures Next(s, step).requests[r] == s.requests[r]
  {
  }

  /** A step leaves the tops of the requests that go on as they were. */
  lemma {:induction false} TopKept(s: State, step: Step, r: ReqId)
    requires Sound(s) && Enabled(s, step) && r in s.requests
    requires Woven(Next(s, step)) && r in Next(s, step).requests
    ensures Top(Next(s, step), r) == Top(s, r) && TopPool(Next(s, step), r) == TopPool(s, r)
    decreases r
  {
    RequestKept(s, step, r);
    var main := s.requests[r].main;
    if main.Some? {
      TopKept(s, step, main.value);
    }
  }

  /** Where a selection puts an interpreter, if it finds none. */
  lemma SelectedPool(s: State, step: Step, r: ReqId)
    requires Sound(s) && step.Select? && Enabled(s, step) && r in s.requests && s.requests[r].main.Some?
    requires OnlyTop(s, TopPool(s, r)) && TreeScoped(s, step, TopPool(s, r))
    ensures var (found, p) := Lookup(s, step.r, step.c, step.scope);
            found.None? ==> p != s.requests[r].pool
  {
    var (found, p) := Lookup(s, step.r, step.c, step.scope);
    if found.None? && p == s.requests[r].pool {
      LookupEndsInTree(s, step.r, step.c, step.scope);
      if step.c.Some? && step.scope == PerConnection {
        assert false;
      } else {
        LookupAtTop(s, step.r.value, step.c);
        assert false;
      }
    }
  }

  /** A search that starts in one tree ends in it, or at the connection. */
  lemma LookupEndsInTree(s: State, r: Option<ReqId>, c: Option<ConnId>, scope: Scope)
    requires Sound(s) && Asks(s, r, c, scope) && !(c.Some? && scope == PerConnection)
    ensures var (_, p) := Lookup(s, r, c, scope);
            forall q :: q in s.requests && s.requests[q].pool == p ==> TopPool(s, q) == TopPool(s, r.value)
  {
    var request := s.requests[r.value];
    if request.main.Some? && scope == PerRequest {
      WalkInTree(s, request.main.value, request.pool);
    }
    SamePoolSameTop(s, r.value);
  }

  lemma SamePoolSameTop(s: State, r: ReqId)
    requires Sound(s) && r in s.requests
    ensures forall q :: q in s.requests && s.requests[q].pool == s.requests[r].pool ==> TopPool(s, q) == TopPool(s, r)
  {
    forall q | q in s.requests && s.requests[q].pool == s.requests[r].pool
      ensures TopPool(s, q) == TopPool(s, r)
    {
      assert s.requests[q] == s.requests[r];
    }
  }

  lemma {:induction false} WalkInTree(s: State, m: ReqId, p: PoolId)
    requires Sound(s) && m in s.requests
    ensures var q := Walk(s, Some(m), p).1;
            forall x :: x in s.requests && s.requests[x].pool == q ==> TopPool(s, x) == TopPool(s, m)
    decreases m
  {
    SamePoolSameTop(s, m);
    var request := s.requests[m];
    if request.pool !in s.stash && request.main.Some? {
      WalkInTree(s, request.main.value, request.pool);
    }
  }

  /** A subrequest of the tree gets no interpreter of its own. */
  lemma NoneOfItsOwn(s: State, step: Step, r: ReqId)
    requires Sound(s) && Enabled(s, step) && r in s.requests && s.requests[r].main.Some?
    requires OnlyTop(s, TopPool(s, r)) && TreeScoped(s, step, TopPool(s, r))
    ensures s.requests[r].pool !in Next(s, step).stash
  {
    assert s.requests[r].pool !in s.stash;
    if step.Select? {
      SelectedPool(s, step, r);
    }
  }

  lemma OnlyTopKeptAt(s: State, step: Step, r: ReqId, p: PoolId)
    requires Sound(s) && Enabled(s, step) && OnlyTop(s, p) && TreeScoped(s, step, p)
    requires Woven(Next(s, step)) && r in Next(s, step).requests
    requires Next(s, step).requests[r].main.Some? && TopPool(Next(s, step), r) == p
    ensures Next(s, step).requests[r].pool !in Next(s, step).stash
  {
    if r in s.requests {
      RequestKept(s, step, r);
      TopKept(s, step, r);
      NoneOfItsOwn(s, step, r);
    } else {
      assert step.Begin? && r == step.id;
      TopOfNew(s, r, step.request, p);
    }
  }

  lemma OnlyTopKept(s: State, step: Step, p: PoolId)
    requires Sound(s) && Enabled(s, step) && OnlyTop(s, p) && TreeScoped(s, step, p)
    ensures Woven(Next(s, step)) && OnlyTop(Next(s, step), p)
  {
    StepKeeps(s, step);
    var now := Next(s, step);
    forall r | r in now.requests && now.requests[r].main.Some? && TopPool(now, r) == p
      ensures now.requests[r].pool !in now.stash
    {
      OnlyTopKeptAt(s, step, r, p);
    }
  }

  /** A request that begins in the tree has a pool of its own, or that of the one it redirects. */
  lemma TopOfNew(s: State, r: ReqId, request: Request, p: PoolId)
    requires Sound(s) && Enabled(s, Begin(r, request)) && OnlyTop(s, p) && request.main.Some?
    requires Woven(Next(s, Begin(r, request))) && TopPool(Next(s, Begin(r, request)), r) == p
    ensures request.pool !in s.stash
  {
    TopKept(s, Begin(r, request), request.main.value);
    if prev :| prev in s.requests && s.requests[prev] == request {
      assert TopPool(s, prev) == p;
    }
  }

  /** Whoever of the tree below t asks gets i, from the pool of t or from its connection. */
  ghost predicate Settled(s: State, t: ReqId, i: InterpId)
    requires Woven(s)
  {
    && t in s.requests
    && Some(i) == if s.requests[t].pool in s.stash then Userdata(s, s.requests[t].pool)
                  else Userdata(s, s.conns[s.requests[t].conn])
  }

  lemma SettledKept(s: State, step: Step, t: ReqId, i: InterpId)
    requires Sound(s) && Enabled(s, step) && Settled(s, t, i) && step != EndPool(s.requests[t].pool)
    ensures Woven(Next(s, step)) && Settled(Next(s, step), t, i)
    ensures Next(s, step).requests[t] == s.requests[t]
  {
    StepKeeps(s, step);
    if step.Select? {
      LookupIn(s, step.r, step.c, step.scope);
    }
  }

  /** In the run the pool p goes on, and the requests of its tree ask with per-request scope. */
  ghost predicate Peaceful(s: State, steps: seq<Step>, p: PoolId)
    requires Legal(s, steps)
    decreases |steps|
  {
    steps == [] || (&& TreeScoped(s, steps[0], p) && steps[0] != EndPool(p)
                    && Peaceful(Next(s, steps[0]), steps[1..], p))
  }

  lemma {:induction false} SettledOverRun(s: State, steps: seq<Step>, t: ReqId, i: InterpId)
    requires Sound(s) && Legal(s, steps) && Settled(s, t, i) && OnlyTop(s, s.requests[t].pool)
    requires Peaceful(s, steps, s.requests[t].pool)
    ensures var later := Run(s, steps);
            && Sound(later) && Settled(later, t, i) && later.requests[t] == s.requests[t]
            && OnlyTop(later, s.requests[t].pool)
    decreases |steps|
  {
    if steps != [] {
      StepKeeps(s, steps[0]);
      OnlyTopKept(s, steps[0], s.requests[t].pool);
      SettledKept(s, steps[0], t, i);
      SettledOverRun(Next(s, steps[0]), steps[1..], t, i);
    }
  }

  /** After a selection the tree is settled on what it returned. */
  lemma SelectSettles(s: State, r: ReqId, c: Option<ConnId>, idle: InterpId)
    requires Sound(s) && Enabled(s, Select(Some(r), c, PerRequest, idle)) && OnlyTop(s, TopPool(s, r))
    ensures var now := Next(s, Select(Some(r), c, PerRequest, idle));
            && Sound(now) && now.requests == s.requests && OnlyTop(now, TopPool(s, r))
            && Settled(now, Top(s, r), Chosen(s, Some(r), c, PerRequest, idle))
  {
    var step := Select(Some(r), c, PerRequest, idle);
    StepKeeps(s, step);
    OnlyTopKept(s, step, TopPool(s, r));
    LookupAtTop(s, r, c);
  }

  /**
   * PerlInterpScope request: from the first selection in a tree of requests until the top
   * request's pool ends, every selection in it returns the same interpreter, and lends no other,
   * whatever scopes the requests of other trees have.
   */
  lemma OneInterpreterPerTree(s: State, r: ReqId, c: Option<ConnId>, idle: InterpId,
                              steps: seq<Step>, r': ReqId, c': Option<ConnId>, idle': InterpId)
    requires Sound(s) && Enabled(s, Select(Some(r), c, PerRequest, idle)) && OnlyTop(s, TopPool(s, r))
    requires var now := Next(s, Select(Some(r), c, PerRequest, idle));
             Legal(now, steps) && Peaceful(now, steps, TopPool(s, r))
    requires var later := Run(Next(s, Select(Some(r), c, PerRequest, idle)), steps);
             Woven(later) && Enabled(later, Select(Some(r'), c', PerRequest, idle'))
             && TopPool(later, r') == TopPool(s, r)
    ensures var later := Run(Next(s, Select(Some(r), c, PerRequest, idle)), steps);
            Chosen(later, Some(r'), c', PerRequest, idle') == Chosen(s, Some(r), c, PerRequest, idle)
            && Next(later, Select(Some(r'), c', PerRequest, idle')) == later
  {
    SelectSettles(s, r, c, idle);
    var now := Next(s, Select(Some(r), c, PerRequest, idle));
    var i := Chosen(s, Some(r), c, PerRequest, idle);
    SettledOverRun(now, steps, Top(s, r), i);
    var later := Run(now, steps);
    LookupAtTop(later, r', c');
    assert later.requests[Top(later, r')] == later.requests[Top(s, r)];
  }

  lemma {:induction false} OnlyTopOverRun(s: State, steps: seq<Step>, p: PoolId)
    requires Sound(s) && Legal(s, steps) && OnlyTop(s, p) && Peaceful(s, steps, p)
    ensures Sound(Run(s, steps)) && OnlyTop(Run(s, steps), p)
    decreases |steps|
  {
    if steps != [] {
      StepKeeps(s, steps[0]);
      OnlyTopKept(s, steps[0], p);
      OnlyTopOverRun(Next(s, steps[0]), steps[1..], p);
    }
  }

  /** A selection for a request of the tree below p, which asks per request. */
  ghost predicate AsksInTree(s: State, r: ReqId, c: Option<ConnId>, idle: InterpId, p: PoolId) {
    && Woven(s) && Enabled(s, Select(Some(r), c, PerRequest, idle)) && TopPool(s, r) == p
  }

  /**
   * The whole life of a tree of requests that asks per request, from any sound state: after its
   * top request has begun in a pool of its own, and anything has happened that leaves that pool
   * there, the first selection settles the interpreter that all later ones return.
   */
  lemma TreeKeepsItsInterpreter(s: State, t: ReqId, conn: ConnId, p: PoolId, before: seq<Step>,
                                r: ReqId, c: Option<ConnId>, idle: InterpId, between: seq<Step>,
                                r': ReqId, c': Option<ConnId>, idle': InterpId)
    requires Sound(s) && Enabled(s, Begin(t, Request(None, conn, p))) && Unused(s, p)
    requires var begun := Next(s, Begin(t, Request(None, conn, p)));
             && Legal(begun, before) && Peaceful(begun, before, p)
             && var first := Run(begun, before);
             && AsksInTree(first, r, c, idle, p)
             && var now := Next(first, Select(Some(r), c, PerRequest, idle));
             && Legal(now, between) && Peaceful(now, between, p)
             && AsksInTree(Run(now, between), r', c', idle', p)
    ensures var first := Run(Next(s, Begin(t, Request(None, conn, p))), before);
            var later := Run(Next(first, Select(Some(r), c, PerRequest, idle)), between);
            && Chosen(later, Some(r'), c', PerRequest, idle') == Chosen(first, Some(r), c, PerRequest, idle)
            && Next(later, Select(Some(r'), c', PerRequest, idle')) == later
  {
    TreeBegins(s, t, conn, p);
    var begun := Next(s, Begin(t, Request(None, conn, p)));
    OnlyTopOverRun(begun, before, p);
    OneInterpreterPerTree(Run(begun, before), r, c, idle, between, r', c', idle');
  }

  /** No request from m up to the top, the top excepted, has an interpreter of its own. */
  predicate ClearToTop(s: State, m: ReqId)
    requires Woven(s) && m in s.requests
    decreases m
  {
    var request := s.requests[m];
    request.main.None? || (request.pool !in s.stash && ClearToTop(s, request.main.value))
  }

  /** A search up the main requests reaches the top exactly if they are clear. */
  lemma {:induction false} WalkReachesTop(s: State, m: ReqId, p: PoolId)
    requires Sound(s) && m in s.requests
    ensures Walk(s, Some(m), p).1 == TopPool(s, m) <==> ClearToTop(s, m)
    ensures !ClearToTop(s, m) ==> Walk(s, Some(m), p).0.Some?
    decreases m
  {
    var request := s.requests[m];
    if request.main.Some? && request.pool !in s.stash {
      WalkReachesTop(s, request.main.value, request.pool);
    }
  }

  /**
   * In any mix of scopes, once the top request has an interpreter: a subrequest that asks per
   * request gets it exactly if no request between the two has one of its own.
   */
  lemma SharesWithTop(s: State, r: ReqId, c: Option<ConnId>, idle: InterpId)
    requires Sound(s) && Enabled(s, Select(Some(r), c, PerRequest, idle))
    requires s.requests[r].main.Some? && TopPool(s, r) in s.stash
    ensures Chosen(s, Some(r), c, PerRequest, idle) == s.stash[TopPool(s, r)]
            <==> ClearToTop(s, s.requests[r].main.value)
  {
    var request := s.requests[r];
    var m := request.main.value;
    WalkReachesTop(s, m, request.pool);
    WalkIn(s, request.main, request.pool, request.conn);
  }

  /** A run: three nested requests, of which the middle one asks per subrequest. */
  function MixedSteps(): seq<Step> {
    [Connect(0, 0), Begin(1, Request(None, 0, 1)), Begin(2, Request(Some(1), 0, 2)),
     Begin(3, Request(Some(2), 0, 3)), Select(Some(1), None, PerRequest, 10),
     Select(Some(2), None, PerSubrequest, 20)]
  }

  /** The state before its k-th step. */
  function MixedState(k: nat): State {
    if k == 0 then Start()
    else if k == 1 then State(map[], map[0 := 0], map[0 := 0], map[], map[], map[], multiset{})
    else if k == 2 then
      State(map[1 := Request(None, 0, 1)], map[0 := 0], map[0 := 0, 1 := 0],
            map[], map[], map[], multiset{})
    else if k == 3 then
      State(map[1 := Request(None, 0, 1), 2 := Request(Some(1), 0, 2)], map[0 := 0],
            map[0 := 0, 1 := 0, 2 := 0], map[], map[], map[], multiset{})
    else
      Nested(if k == 4 then map[] else if k == 5 then map[1 := 10] else map[1 := 10, 2 := 20],
             if k == 4 then map[] else if k == 5 then map[10 := 1] else map[10 := 1, 20 := 2],
             if k == 4 then map[]
             else if k == 5 then map[10 := Interp(true, 0, 1)]
             else map[10 := Interp(true, 0, 1), 20 := Interp(true, 0, 1)])
  }

  /** Three nested requests, with these interpreters. */
  function Nested(stash: map<PoolId, InterpId>, homes: map<InterpId, PoolId>,
                  interps: map<InterpId, Interp>): State {
    State(map[1 := Request(None, 0, 1), 2 := Request(Some(1), 0, 2), 3 := Request(Some(2), 0, 3)],
          map[0 := 0], map[0 := 0, 1 := 0, 2 := 0, 3 := 0], stash, homes, interps, multiset{})
  }

  lemma MixedBegins(k: nat)
    requires k < 4
    ensures var s, step := MixedState(k), MixedSteps()[k];
            Woven(s) && Enabled(s, step) && Next(s, step) == MixedState(k + 1)
  {
  }

  lemma MixedSelects(k: nat)
    requires 4 <= k < 6
    ensures var s, step := MixedState(k), MixedSteps()[k];
            Woven(s) && Enabled(s, step) && Next(s, step) == MixedState(k + 1)
  {
    var s := MixedState(k);
    assert Woven(s);
    if k == 4 {
      assert Lookup(s, Some(1), None, PerRequest) == (None, 1);
    } else {
      assert Lookup(s, Some(2), None, PerSubrequest) == (None, 2);
    }
  }

  lemma {:induction false} MixedRun(k: nat)
    requires k <= 6
    ensures Legal(MixedState(k), MixedSteps()[k..])
    ensures Run(MixedState(k), MixedSteps()[k..]) == MixedState(6)
    decreases 6 - k
  {
    if k < 6 {
      if k < 4 {
        MixedBegins(k);
      } else {
        MixedSelects(k);
      }
      MixedRun(k + 1);
      assert MixedSteps()[k..][1..] == MixedSteps()[k + 1..];
    }
  }

  /** At its end the innermost request gets the middle one's interpreter, and not the top one's. */
  lemma MixedScopesPartATree()
    ensures Legal(Start(), MixedSteps())
    ensures var s := Run(Start(), MixedSteps());
            && Sound(s) && {1, 3} <= s.requests.Keys && TopPool(s, 3) == TopPool(s, 1)
            && Chosen(s, Some(1), None, PerRequest, 30) == 10
            && Chosen(s, Some(3), None, PerRequest, 30) == 20
  {
    MixedRun(0);
    assert MixedSteps()[0..] == MixedSteps() && MixedState(0) == Start();
    EveryRunIsSound(Start(), MixedSteps());
    MixedEnd();
  }

  lemma MixedEnd()
    ensures var s := MixedState(6);
            && Woven(s) && TopPool(s, 3) == TopPool(s, 1)
            && Chosen(s, Some(1), None, PerRequest, 30) == 10
            && Chosen(s, Some(3), None, PerRequest, 30) == 20
  {
    var s := MixedState(6);
    assert Woven(s);
    assert Top(s, 1) == 1 && Top(s, 2) == 1 && Top(s, 3) == 1;
    assert LookFirst(s, 1, PerRequest) == (Some(10), 1);
    assert LookFirst(s, 3, PerRequest) == (Some(20), 2);
  }

  // ----- the other scopes -----

  /** A selection that finds nothing puts an interpreter into this pool, and counts it there. */
  ghost predicate LendsInto(s: State, step: Step, p: PoolId)
    requires Woven(s) && step.Select? && Enabled(s, step)
  {
    var now := Next(s, step);
    && now.stash == s.stash[p := step.idle] && now.homes == s.homes[step.idle := p]
    && step.idle in now.interps && now.interps[step.idle].loaned
    && now.interps[step.idle].served
       == (if step.idle in s.interps then s.interps[step.idle].served else 0) + 1
    && (forall i :: i in s.interps && i != step.idle ==> i in now.interps && now.interps[i] == s.interps[i])
    && now.requests == s.requests && now.conns == s.conns && now.pools == s.pools
    && now.pending == s.pending && now.interps.Keys == s.interps.Keys + {step.idle}
  }

  /**
   * With per-connection scope a selection that is given the connection looks in the connection's
   * pool, whatever request it is for, and fills that pool if it is empty.
   */
  lemma SelectPerConnection(s: State, r: Option<ReqId>, c: ConnId, idle: InterpId)
    requires Sound(s) && Enabled(s, Select(r, Some(c), PerConnection, idle))
    ensures var step, p := Select(r, Some(c), PerConnection, idle), s.conns[c];
            if p in s.stash then
              Chosen(s, r, Some(c), PerConnection, idle) == s.stash[p] && Next(s, step) == s
            else
              Chosen(s, r, Some(c), PerConnection, idle) == idle && LendsInto(s, step, p)
  {
  }

  /**
   * With per-subrequest scope, and with per-connection scope if only the request is given, a
   * selection looks in the request's own pool, then in the connection's, and fills the former if
   * both are empty.
   */
  lemma SelectPerSubrequest(s: State, r: ReqId, c: Option<ConnId>, scope: Scope, idle: InterpId)
    requires Sound(s) && Enabled(s, Select(Some(r), c, scope, idle))
    requires scope == PerSubrequest || (scope == PerConnection && c.None?)
    ensures var step := Select(Some(r), c, scope, idle);
            var p, above := s.requests[r].pool, s.conns[s.requests[r].conn];
            var chosen := Chosen(s, Some(r), c, scope, idle);
            if p in s.stash then chosen == s.stash[p] && Next(s, step) == s
            else if above in s.stash then chosen == s.stash[above] && Next(s, step) == s
            else chosen == idle && LendsInto(s, step, p)
  {
  }

  /** With per-request scope in a clear tree the top request's pool takes the place of its own. */
  lemma SelectPerRequest(s: State, r: ReqId, c: Option<ConnId>, idle: InterpId)
    requires Sound(s) && Enabled(s, Select(Some(r), c, PerRequest, idle)) && OnlyTop(s, TopPool(s, r))
    ensures var step := Select(Some(r), c, PerRequest, idle);
            var p, above := TopPool(s, r), s.conns[s.requests[r].conn];
            var chosen := Chosen(s, Some(r), c, PerRequest, idle);
            if p in s.stash then chosen == s.stash[p] && Next(s, step) == s
            else if above in s.stash then chosen == s.stash[above] && Next(s, step) == s
            else chosen == idle && LendsInto(s, step, p)
  {
    LookupAtTop(s, r, c);
  }

  lemma StashedStays(s: State, step: Step, c: ConnId, i: InterpId)
    requires Sound(s) && Enabled(s, step) && c in s.conns && step != EndPool(s.conns[c])
    requires Userdata(s, s.conns[c]) == Some(i)
    ensures var now := Next(s, step);
            c in now.conns && now.conns[c] == s.conns[c] && Userdata(now, s.conns[c]) == Some(i)
  {
    if step.Select? {
      LookupIn(s, step.r, step.c, step.scope);
    }
  }

  lemma {:induction false} StashedOverRun(s: State, steps: seq<Step>, c: ConnId, i: InterpId)
    requires Sound(s) && Legal(s, steps) && c in s.conns && Userdata(s, s.conns[c]) == Some(i)
    requires forall k :: 0 <= k < |steps| ==> steps[k] != EndPool(s.conns[c])
    ensures var later := Run(s, steps);
            && Sound(later) && c in later.conns && later.conns[c] == s.conns[c]
            && Userdata(later, s.conns[c]) == Some(i)
    decreases |steps|
  {
    if steps != [] {
      StepKeeps(s, steps[0]);
      StashedStays(s, steps[0], c, i);
      StashedOverRun(Next(s, steps[0]), steps[1..], c, i);
    }
  }

  /**
   * PerlInterpScope connection: from the first selection with the connection until its pool ends,
   * every such selection, for whatever request, returns the same interpreter and lends no other.
   */
  lemma OneInterpreterPerConnection(s: State, r: Option<ReqId>, c: ConnId, idle: InterpId,
                                    steps: seq<Step>, r': Option<ReqId>, idle': InterpId)
    requires Sound(s) && Enabled(s, Select(r, Some(c), PerConnection, idle))
    requires Legal(Next(s, Select(r, Some(c), PerConnection, idle)), steps)
    requires forall k :: 0 <= k < |steps| ==> steps[k] != EndPool(s.conns[c])
    requires var later := Run(Next(s, Select(r, Some(c), PerConnection, idle)), steps);
             Woven(later) && Enabled(later, Select(r', Some(c), PerConnection, idle'))
    ensures var later := Run(Next(s, Select(r, Some(c), PerConnection, idle)), steps);
            && Chosen(later, r', Some(c), PerConnection, idle') == Chosen(s, r, Some(c), PerConnection, idle)
            && Next(later, Select(r', Some(c), PerConnection, idle')) == later
  {
    var step := Select(r, Some(c), PerConnection, idle);
    StepKeeps(s, step);
    SelectPerConnection(s, r, c, idle);
    StashedOverRun(Next(s, step), steps, c, Chosen(s, r, Some(c), PerConnection, idle));
    SelectPerConnection(Run(Next(s, step), steps), r', c, idle');
  }

  // ----- connections never share -----

  /** On loan, and if it is still in a pool, then in one of this connection. */
  ghost predicate LentTo(s: State, i: InterpId, conn: ConnId) {
    Loaned(s, i) && (i in s.homes ==> s.homes[i] in s.pools && s.pools[s.homes[i]] == conn)
  }

  lemma SelectLendsTo(s: State, r: Option<ReqId>, c: Option<ConnId>, scope: Scope, idle: InterpId)
    requires Sound(s) && Enabled(s, Select(r, c, scope, idle))
    ensures LentTo(Next(s, Select(r, c, scope, idle)), Chosen(s, r, c, scope, idle), Asking(s, r, c))
  {
    LookupIn(s, r, c, scope);
  }

  lemma {:induction false} LentToStays(s: State, steps: seq<Step>, i: InterpId, conn: ConnId)
    requires Sound(s) && Legal(s, steps) && LoanedBefore(s, steps, i) && LentTo(s, i, conn)
    requires Loaned(Run(s, steps), i)
    ensures Sound(Run(s, steps)) && LentTo(Run(s, steps), i, conn)
    decreases |steps|
  {
    if steps != [] {
      StepKeeps(s, steps[0]);
      StepCounts(s, steps[0], i);
      if steps[1..] == [] {
        assert Run(Next(s, steps[0]), steps[1..]) == Next(s, steps[0]);
      }
      LentToStep(s, steps[0], i, conn);
      LentToStays(Next(s, steps[0]), steps[1..], i, conn);
    }
  }

  lemma LentToStep(s: State, step: Step, i: InterpId, conn: ConnId)
    requires Sound(s) && Enabled(s, step) && LentTo(s, i, conn) && Loaned(Next(s, step), i)
    ensures LentTo(Next(s, step), i, conn)
  {
    StepKeeps(s, step);
    if step.Select? {
      LookupIn(s, step.r, step.c, step.scope);
    }
  }

  /** While it is on loan to one connection, no selection for another returns it. */
  lemma ConnectionsNeverShare(s: State, r: Option<ReqId>, c: Option<ConnId>, scope: Scope,
                              idle: InterpId, steps: seq<Step>, r': Option<ReqId>,
                              c': Option<ConnId>, scope': Scope, idle': InterpId)
    requires Sound(s) && Enabled(s, Select(r, c, scope, idle))
    requires var now, i := Next(s, Select(r, c, scope, idle)), Chosen(s, r, c, scope, idle);
             Legal(now, steps) && LoanedBefore(now, steps, i) && Loaned(Run(now, steps), i)
             && Woven(Run(now, steps)) && Enabled(Run(now, steps), Select(r', c', scope', idle'))
             && Asking(Run(now, steps), r', c') != Asking(s, r, c)
    ensures var now := Next(s, Select(r, c, scope, idle));
            Chosen(Run(now, steps), r', c', scope', idle') != Chosen(s, r, c, scope, idle)
  {
    var now, i := Next(s, Select(r, c, scope, idle)), Chosen(s, r, c, scope, idle);
    StepKeeps(s, Select(r, c, scope, idle));
    SelectLendsTo(s, r, c, scope, idle);
    LentToStays(now, steps, i, Asking(s, r, c));
    LookupIn(Run(now, steps), r', c', scope');
  }
}
