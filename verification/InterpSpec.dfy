/** Which Perl interpreter serves a request tree, and until when, as a value. */
module InterpSpec {
  import opened Wrappers

  type InterpId = nat
  type PoolId = nat
  type ReqId = nat
  type ConnId = nat

  /** PerlInterpScope, without handler. */
  datatype Scope = PerConnection | PerRequest | PerSubrequest

  /** An internal redirect makes a request with the main request and the pool of the old one. */
  datatype Request = Request(main: Option<ReqId>, conn: ConnId, pool: PoolId)

  datatype Interp = Interp(loaned: bool, refcnt: nat, served: nat)

  /**
   * The live requests, connections (with their pools) and pools (with the connection they belong
   * to); the interpreter in each pool's userdata, and the converse; the cleanups still to run
   * that will unselect an interpreter, in whatever pools they are registered.
   */
  datatype State = State(
    requests: map<ReqId, Request>,
    conns: map<ConnId, PoolId>,
    pools: map<PoolId, ConnId>,
    stash: map<PoolId, InterpId>,
    homes: map<InterpId, PoolId>,
    interps: map<InterpId, Interp>,
    pending: multiset<InterpId>)

  datatype Step =
    | Connect(conn: ConnId, pool: PoolId)
    | Begin(id: ReqId, request: Request)
    | Select(r: Option<ReqId>, c: Option<ConnId>, scope: Scope, idle: InterpId)
    | Register(interp: InterpId)
    | RunCleanup(interp: InterpId)
    | EndPool(pool: PoolId)

  // ----- the steps -----

  function Userdata(s: State, p: PoolId): Option<InterpId> {
    if p in s.stash then Some(s.stash[p]) else None
  }

  /** modperl_interp_unselect: a reference less, or the interpreter goes back. */
  function Unselected(s: State, i: InterpId): State
    requires i in s.interps
  {
    var interp := s.interps[i];
    s.(interps := s.interps[i := if interp.refcnt != 0 then interp.(refcnt := interp.refcnt - 1)
                                 else interp.(loaned := false)])
  }

  /** Up the main requests from m on, to the first whose pool has an interpreter. */
  function Walk(s: State, m: Option<ReqId>, p: PoolId): (Option<InterpId>, PoolId)
    requires Woven(s) && (m.Some? ==> m.value in s.requests)
    decreases m.Some?, if m.Some? then m.value else 0
  {
    if m.None? then (None, p)
    else
      var main := s.requests[m.value];
      if main.pool in s.stash then (Some(s.stash[main.pool]), main.pool)
      else Walk(s, main.main, main.pool)
  }

  /** Where the selection looks first, and puts an interpreter if there is none. */
  function LookFirst(s: State, r: ReqId, scope: Scope): (Option<InterpId>, PoolId)
    requires Woven(s) && r in s.requests
  {
    var request := s.requests[r];
    if request.main.Some? && scope == PerRequest then Walk(s, request.main, request.pool)
    else (Userdata(s, request.pool), request.pool)
  }

  /** Who asks: a request, or a connection on its own, which is always per connection. */
  predicate Asks(s: State, r: Option<ReqId>, c: Option<ConnId>, scope: Scope) {
    && (r.Some? ==> r.value in s.requests)
    && (c.Some? ==> c.value in s.conns)
    && (r.Some? && c.Some? ==> c.value == s.requests[r.value].conn)
    && (r.None? ==> c.Some? && scope == PerConnection)
  }

  /** The interpreter modperl_interp_select finds, or the pool it will put one in. */
  function Lookup(s: State, r: Option<ReqId>, c: Option<ConnId>, scope: Scope)
    : (Option<InterpId>, PoolId)
    requires Woven(s) && Asks(s, r, c, scope)
  {
    if c.Some? && scope == PerConnection then (Userdata(s, s.conns[c.value]), s.conns[c.value])
    else
      var (found, p) := LookFirst(s, r.value, scope);
      if found.Some? then (found, p) else (Userdata(s, s.conns[s.requests[r.value].conn]), p)
  }

  /** An interpreter that the tipool hands out, perhaps grown for that, and not counted yet. */
  function Popped(s: State, i: InterpId): Interp {
    if i in s.interps then s.interps[i].(loaned := true) else Interp(true, 0, 0)
  }

  /** modperl_interp_get, and the count of its caller. */
  function Taken(s: State, i: InterpId): map<InterpId, Interp> {
    s.interps[i := Popped(s, i).(served := Popped(s, i).served + 1)]
  }

  /** That, and set_interp in the pool. */
  function Lent(s: State, p: PoolId, i: InterpId): State {
    s.(interps := Taken(s, i),
       stash := s.stash[p := i], homes := s.homes[i := p])
  }

  /** What is found is left where it is; otherwise an interpreter is lent. */
  function Selected(s: State, found: Option<InterpId>, p: PoolId, idle: InterpId): State {
    if found.Some? then s else Lent(s, p, idle)
  }

  /** The interpreter a selection returns. */
  function Chosen(s: State, r: Option<ReqId>, c: Option<ConnId>, scope: Scope, idle: InterpId)
    : InterpId
    requires Woven(s) && Asks(s, r, c, scope)
  {
    var (found, _) := Lookup(s, r, c, scope);
    if found.Some? then found.value else idle
  }

  /** Nobody else uses this pool. */
  predicate Unused(s: State, p: PoolId) {
    p !in s.pools
  }

  predicate Enabled(s: State, step: Step)
    requires Woven(s)
  {
    match step
    case Connect(c, p) => c !in s.conns && Unused(s, p)
    case Begin(r, request) =>
      && (forall q :: q in s.requests ==> q < r)
      && request.conn in s.conns
      && (request.main.Some? ==>
            && request.main.value in s.requests
            && s.requests[request.main.value].conn == request.conn)
      && (Unused(s, request.pool) || exists prev :: prev in s.requests && s.requests[prev] == request)
    case Select(r, c, scope, idle) =>
      Asks(s, r, c, scope) && (idle in s.interps ==> !s.interps[idle].loaned)
    case Register(i) => i in s.interps && s.interps[i].loaned
    case RunCleanup(i) => i in s.pending && i in s.interps
    case EndPool(p) =>
      && p in s.pools
      && (p in s.stash ==> s.stash[p] in s.interps)
      && (forall q :: q in s.requests && s.requests[q].pool != p ==>
            && s.conns[s.requests[q].conn] != p
            && (s.requests[q].main.Some? ==> s.requests[s.requests[q].main.value].pool != p))
  }

  function RequestsOutside(requests: map<ReqId, Request>, p: PoolId): map<ReqId, Request> {
    map q | q in requests && requests[q].pool != p :: requests[q]
  }

  function ConnsOutside(conns: map<ConnId, PoolId>, p: PoolId): map<ConnId, PoolId> {
    map c | c in conns && conns[c] != p :: conns[c]
  }

  /** The pool and what lived in it are gone; its interpreter, if it has one, is unselected. */
  function Ended(s: State, p: PoolId): State {
    s.(requests := RequestsOutside(s.requests, p), conns := ConnsOutside(s.conns, p),
       pools := s.pools - {p}, stash := s.stash - {p},
       homes := if p in s.stash then s.homes - {s.stash[p]} else s.homes)
  }

  function Next(s: State, step: Step): State
    requires Woven(s) && Enabled(s, step)
  {
    match step
    case Connect(c, p) => s.(conns := s.conns[c := p], pools := s.pools[p := c])
    case Begin(r, request) =>
      s.(requests := s.requests[r := request], pools := s.pools[request.pool := request.conn])
    case Select(r, c, scope, idle) =>
      var (found, p) := Lookup(s, r, c, scope);
      Selected(s, found, p, idle)
    case Register(i) =>
      s.(interps := s.interps[i := s.interps[i].(refcnt := s.interps[i].refcnt + 1)],
         pending := s.pending + multiset{i})
    case RunCleanup(i) => Unselected(s.(pending := s.pending - multiset{i}), i)
    case EndPool(p) =>
      if p in s.stash then Unselected(Ended(s, p), s.stash[p]) else Ended(s, p)
  }

  // ----- what every step keeps -----

  /** Requests, connections and pools belong together. */
  ghost predicate Woven(s: State) {
    && (forall r {:trigger s.requests[r].main} :: r in s.requests && s.requests[r].main.Some? ==>
          var m := s.requests[r].main.value;
          m < r && m in s.requests && s.requests[m].conn == s.requests[r].conn)
    && (forall r {:trigger s.requests[r].pool} :: r in s.requests ==>
          var request := s.requests[r];
          request.conn in s.conns && request.pool in s.pools && s.pools[request.pool] == request.conn)
    && (forall c {:trigger s.conns[c]} :: c in s.conns ==>
          s.conns[c] in s.pools && s.pools[s.conns[c]] == c)
    && (forall p {:trigger s.stash[p]} :: p in s.stash ==> p in s.pools)
  }

  /** Requests that share a pool are the same but for the redirect; no connection shares one. */
  ghost predicate Separate(s: State) {
    && (forall q, r :: q in s.requests && r in s.requests && s.requests[q].pool == s.requests[r].pool
          ==> s.requests[q] == s.requests[r])
    && (forall r, c :: r in s.requests && c in s.conns ==> s.requests[r].pool != s.conns[c])
  }

  /** Pools and interpreters name each other. */
  ghost predicate Paired(s: State) {
    && (forall p {:trigger s.stash[p]} :: p in s.stash ==>
          s.stash[p] in s.homes && s.homes[s.stash[p]] == p)
    && (forall i {:trigger s.homes[i]} :: i in s.homes ==>
          s.homes[i] in s.stash && s.stash[s.homes[i]] == i)
  }

  function Home(s: State, i: InterpId): nat {
    if i in s.homes then 1 else 0
  }

  /**
   * The reference count is one less than the unselects to come: those of the cleanups and that
   * of the pool it is in. An interpreter that is not on loan is not referred to at all.
   */
  ghost predicate Balanced(s: State) {
    && (forall i :: i in s.homes || i in s.pending ==> i in s.interps)
    && (forall i {:trigger s.interps[i].refcnt} {:trigger s.interps[i].loaned} :: i in s.interps ==>
          if s.interps[i].loaned then s.interps[i].refcnt + 1 == s.pending[i] + Home(s, i)
          else s.interps[i].refcnt == 0 && s.pending[i] == 0 && i !in s.homes)
  }

  ghost predicate Sound(s: State) {
    Woven(s) && Separate(s) && Paired(s) && Balanced(s)
  }

  lemma ConnectKeeps(s: State, c: ConnId, p: PoolId)
    requires Sound(s) && Enabled(s, Connect(c, p))
    ensures Sound(Next(s, Connect(c, p)))
  {
  }

  lemma BeginKeeps(s: State, r: ReqId, request: Request)
    requires Sound(s) && Enabled(s, Begin(r, request))
    ensures Sound(Next(s, Begin(r, request)))
  {
  }

  lemma {:induction false} WalkIn(s: State, m: Option<ReqId>, p: PoolId, conn: ConnId)
    requires Woven(s) && p in s.pools && s.pools[p] == conn
    requires m.Some? ==> m.value in s.requests && s.requests[m.value].conn == conn
    ensures var (found, q) := Walk(s, m, p);
            && q in s.pools && s.pools[q] == conn
            && (found.Some? || m.Some? ==> found == Userdata(s, q))
    decreases m.Some?, if m.Some? then m.value else 0
  {
    if m.Some? && s.requests[m.value].pool !in s.stash {
      WalkIn(s, s.requests[m.value].main, s.requests[m.value].pool, conn);
    }
  }

  /** The connection a selection is made for. */
  function Asking(s: State, r: Option<ReqId>, c: Option<ConnId>): ConnId
    requires (r.Some? ==> r.value in s.requests) && (r.Some? || c.Some?)
  {
    if r.Some? then s.requests[r.value].conn else c.value
  }

  /** The search never leaves the pools of its connection, and ends at a pool without interpreter. */
  lemma LookupIn(s: State, r: Option<ReqId>, c: Option<ConnId>, scope: Scope)
    requires Woven(s) && Paired(s) && Asks(s, r, c, scope)
    ensures var (found, p) := Lookup(s, r, c, scope);
            && p in s.pools && s.pools[p] == Asking(s, r, c)
            && (found.None? ==> p !in s.stash)
            && (found.Some? ==> found.value in s.homes && s.homes[found.value] in s.pools
                                && s.pools[s.homes[found.value]] == Asking(s, r, c))
  {
    if r.Some? && s.requests[r.value].main.Some? {
      var request := s.requests[r.value];
      WalkIn(s, request.main, request.pool, request.conn);
    }
  }

  /** An idle interpreter put into an empty pool. */
  lemma LentKeeps(s: State, p: PoolId, i: InterpId)
    requires Sound(s) && p in s.pools && p !in s.stash && (i in s.interps ==> !s.interps[i].loaned)
    ensures Sound(Lent(s, p, i))
  {
    assert i in s.interps ==> s.interps[i].refcnt == 0;
    LentBalanced(s, p, i);
  }

  lemma LentBalanced(s: State, p: PoolId, i: InterpId)
    requires Balanced(s) && i !in s.homes && s.pending[i] == 0 && Popped(s, i).refcnt == 0
    ensures Balanced(Lent(s, p, i))
  {
  }

  lemma SelectKeeps(s: State, r: Option<ReqId>, c: Option<ConnId>, scope: Scope, idle: InterpId)
    requires Sound(s) && Enabled(s, Select(r, c, scope, idle))
    ensures Sound(Next(s, Select(r, c, scope, idle)))
  {
    LookupIn(s, r, c, scope);
    var (found, p) := Lookup(s, r, c, scope);
    if found.None? {
      LentKeeps(s, p, idle);
    }
  }

  lemma RegisterKeeps(s: State, i: InterpId)
    requires Sound(s) && Enabled(s, Register(i))
    ensures Sound(Next(s, Register(i)))
  {
  }

  /** An unselect for which something that referred to the interpreter is gone. */
  lemma UnselectBalances(was: State, now: State, i: InterpId)
    requires Balanced(was) && now.interps == was.interps && i in was.interps
    requires now.pending[i] + Home(now, i) + 1 == was.pending[i] + Home(was, i)
    requires forall j :: j != i ==> now.pending[j] == was.pending[j] && Home(now, j) == Home(was, j)
    ensures was.interps[i].loaned && Balanced(Unselected(now, i))
  {
  }

  lemma CleanupKeeps(s: State, i: InterpId)
    requires Sound(s) && Enabled(s, RunCleanup(i))
    ensures Sound(Next(s, RunCleanup(i)))
  {
    UnselectBalances(s, s.(pending := s.pending - multiset{i}), i);
  }

  lemma EndedWoven(s: State, p: PoolId)
    requires Woven(s) && Separate(s) && Paired(s) && Enabled(s, EndPool(p))
    ensures Woven(Ended(s, p)) && Separate(Ended(s, p)) && Paired(Ended(s, p))
  {
  }

  lemma EndPoolKeeps(s: State, p: PoolId)
    requires Sound(s) && Enabled(s, EndPool(p))
    ensures Sound(Next(s, EndPool(p)))
  {
    EndedWoven(s, p);
    if p in s.stash {
      UnselectBalances(s, Ended(s, p), s.stash[p]);
    }
  }

  lemma StepKeeps(s: State, step: Step)
    requires Sound(s) && Enabled(s, step)
    ensures Sound(Next(s, step))
  {
    match step
    case Connect(c, p) => ConnectKeeps(s, c, p);
    case Begin(r, request) => BeginKeeps(s, r, request);
    case Select(r, c, scope, idle) => SelectKeeps(s, r, c, scope, idle);
    case Register(i) => RegisterKeeps(s, i);
    case RunCleanup(i) => CleanupKeeps(s, i);
    case EndPool(p) => EndPoolKeeps(s, p);
  }
}
