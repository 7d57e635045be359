/**
 * modperl_interp.c on linked objects: interpreters with their counts, pools with an interpreter in
 * their userdata, requests linked to their main requests. Each operation is a step of InterpSpec.
 */
module InterpLoans {
  import opened Wrappers
  import opened InterpSpec
  import InterpRuns

  /** modperl_interp_t. */
  class InterpNode {
    const id: InterpId
    var loaned: bool
    var refcnt: nat
    var served: nat

    /** An interpreter grown by the tipool. */
    constructor (id: InterpId)
      ensures this.id == id && !loaned && refcnt == 0 && served == 0
    {
      this.id, loaned, refcnt, served := id, false, 0, 0;
    }

    ghost function View(): Interp
      reads this
    {
      Interp(loaned, refcnt, served)
    }
  }

  /** An apr_pool_t, as far as MP_INTERP_KEY goes. */
  class PoolNode {
    const id: PoolId
    const conn: ConnId
    var userdata: InterpNode?

    constructor (id: PoolId, conn: ConnId)
      ensures this.id == id && this.conn == conn && userdata == null
    {
      this.id, this.conn, userdata := id, conn, null;
    }
  }

  /** conn_rec. */
  class ConnNode {
    const id: ConnId
    const pool: PoolNode

    constructor (id: ConnId, pool: PoolNode)
      ensures this.id == id && this.pool == pool
    {
      this.id, this.pool := id, pool;
    }
  }

  /** request_rec. */
  class RequestNode {
    const id: ReqId
    const main: RequestNode?
    const conn: ConnNode
    const pool: PoolNode

    constructor (id: ReqId, main: RequestNode?, conn: ConnNode, pool: PoolNode)
      ensures this.id == id && this.main == main && this.conn == conn && this.pool == pool
    {
      this.id, this.main, this.conn, this.pool := id, main, conn, pool;
    }

    ghost function View(): Request {
      Request(if main == null then None else Some(main.id), conn.id, pool.id)
    }
  }

  function IdOf(i: InterpNode?): Option<InterpId> {
    if i == null then None else Some(i.id)
  }

  ghost predicate RequestsLinked(requests: map<ReqId, RequestNode>, conns: map<ConnId, ConnNode>,
                                 pools: map<PoolId, PoolNode>) {
    forall r {:trigger requests[r]} :: r in requests ==>
      var node := requests[r];
      && node.id == r && node.pool.id in pools && pools[node.pool.id] == node.pool
      && node.conn.id in conns && conns[node.conn.id] == node.conn
      && (node.main != null ==> node.main.id in requests && requests[node.main.id] == node.main)
  }

  ghost predicate ConnsLinked(conns: map<ConnId, ConnNode>, pools: map<PoolId, PoolNode>) {
    forall c {:trigger conns[c]} :: c in conns ==>
      conns[c].id == c && conns[c].pool.id in pools && pools[conns[c].pool.id] == conns[c].pool
  }

  lemma RequestAdded(requests: map<ReqId, RequestNode>, conns: map<ConnId, ConnNode>,
                     pools: map<PoolId, PoolNode>, r: RequestNode)
    requires RequestsLinked(requests, conns, pools) && r.id !in requests
    requires r.pool.id in pools && pools[r.pool.id] == r.pool
    requires r.conn.id in conns && conns[r.conn.id] == r.conn
    requires r.main != null ==> r.main.id in requests && requests[r.main.id] == r.main
    ensures RequestsLinked(requests[r.id := r], conns, pools)
  {
  }

  /** The live objects; what C code reaches from each other through the pointers in them. */
  class Server {
    var requests: map<ReqId, RequestNode>
    var conns: map<ConnId, ConnNode>
    var pools: map<PoolId, PoolNode>
    var interps: map<InterpId, InterpNode>
    ghost var pending: multiset<InterpId>
    ghost var homes: map<InterpId, PoolId>

    twostate predicate PoolsOldOrNew()
      reads this`pools
    {
      forall p {:trigger pools[p]} :: p in pools ==>
        fresh(pools[p]) || (p in old(pools) && pools[p] == old(pools)[p])
    }

    twostate predicate InterpsOldOrNew()
      reads this`interps
    {
      forall i {:trigger interps[i]} :: i in interps ==>
        fresh(interps[i]) || (i in old(interps) && interps[i] == old(interps)[i])
    }

    twostate predicate OnlyAdded(node: InterpNode)
      reads this`interps
    {
      forall i {:trigger interps[i]} :: i in interps ==>
        interps[i] == node || (i in old(interps) && interps[i] == old(interps)[i])
    }

    ghost predicate Knows(p: PoolNode)
      reads this`pools
    {
      p.id in pools && pools[p.id] == p
    }

    ghost predicate KnowsInterp(i: InterpNode)
      reads this`interps
    {
      i.id in interps && interps[i.id] == i
    }

    ghost predicate KnowsRequest(r: RequestNode)
      reads this`requests
    {
      r.id in requests && requests[r.id] == r
    }

    ghost predicate KnowsConn(c: ConnNode)
      reads this`conns
    {
      c.id in conns && conns[c.id] == c
    }

    /** What requests and connections point to is alive, and known by its number. */
    ghost predicate Linked()
      reads this`requests, this`conns, this`pools
    {
      RequestsLinked(requests, conns, pools) && ConnsLinked(conns, pools)
    }

    /** So are the interpreters that pools point to. */
    ghost predicate Stashed()
      reads this`pools, this`interps, pools.Values
    {
      && (forall p {:trigger pools[p]} :: p in pools ==>
            pools[p].id == p && (pools[p].userdata != null ==> KnowsInterp(pools[p].userdata)))
      && (forall i {:trigger interps[i]} :: i in interps ==> interps[i].id == i)
    }

    ghost predicate Valid()
      reads this, pools.Values
    {
      Linked() && Stashed()
    }

    ghost function Requests(): map<ReqId, Request>
      reads this`requests
    {
      map r | r in requests :: requests[r].View()
    }

    ghost function Conns(): map<ConnId, PoolId>
      reads this`conns
    {
      map c | c in conns :: conns[c].pool.id
    }

    ghost function Pools(): map<PoolId, ConnId>
      reads this`pools
    {
      map p | p in pools :: pools[p].conn
    }

    ghost function Stash(): map<PoolId, InterpId>
      reads this`pools, pools.Values
    {
      map p | p in pools && pools[p].userdata != null :: pools[p].userdata.id
    }

    ghost function Interps(): map<InterpId, Interp>
      reads this`interps, interps.Values
    {
      map i | i in interps :: interps[i].View()
    }

    ghost function View(): State
      reads this, pools.Values, interps.Values
    {
      State(Requests(), Conns(), Pools(), Stash(), homes, Interps(), pending)
    }

    constructor ()
      ensures Valid() && View() == InterpRuns.Start() && Sound(View())
      ensures pools == map[] && interps == map[]
    {
      requests, conns, pools, interps, pending, homes := map[], map[], map[], map[], multiset{}, map[];
    }

    /** get_interp. */
    method PoolGet(p: PoolNode) returns (interp: InterpNode?)
      requires Valid() && Knows(p)
      ensures IdOf(interp) == Userdata(View(), p.id) && (interp != null ==> KnowsInterp(interp))
      ensures Valid() && View() == old(View())
    {
      interp := p.userdata;
    }

    /** A change of one interpreter is seen in its entry only. */
    twostate lemma OnlyOneChanged(i: InterpNode)
      requires old(Stashed()) && Stashed() && interps == old(interps)[i.id := i]
      requires forall j :: j in interps && j != i.id ==> unchanged(interps[j])
      ensures Interps() == old(Interps())[i.id := i.View()]
    {
    }

    /** modperl_interp_unselect. */
    method Unselect(i: InterpNode)
      requires Valid() && KnowsInterp(i)
      modifies i
      ensures Valid() && View() == Unselected(old(View()), i.id)
    {
      label before:
      if i.refcnt != 0 {
        i.refcnt := i.refcnt - 1;
      } else {
        i.loaned := false;
      }
      OnlyOneChanged@before(i);
    }

    /** modperl_interp_get with its caller's count. */
    method Get(idle: InterpNode)
      requires Valid() && (idle.id in interps ==> KnowsInterp(idle))
      requires idle.id !in interps ==> idle.View() == Interp(false, 0, 0)
      modifies this`interps, idle
      ensures Valid() && interps == old(interps)[idle.id := idle]
      ensures View() == old(View()).(interps := Taken(old(View()), idle.id))
    {
      label before:
      idle.loaned := true;
      idle.served := idle.served + 1;
      interps := interps[idle.id := idle];
      OnlyOneChanged@before(idle);
    }

    /** set_interp. */
    method PoolSet(p: PoolNode, i: InterpNode)
      requires Valid() && Knows(p) && KnowsInterp(i)
      modifies this`homes, p
      ensures Valid()
      ensures View() == old(View()).(stash := old(View()).stash[p.id := i.id],
                                     homes := old(View()).homes[i.id := p.id])
    {
      p.userdata := i;
      homes := homes[i.id := p.id];
      assert Stash() == old(Stash())[p.id := i.id];
    }

    /** The search through the main requests of a subrequest. */
    method SearchMains(r: RequestNode, ghost s: State) returns (interp: InterpNode?, p: PoolNode)
      requires Valid() && s == View() && Woven(s) && KnowsRequest(r) && r.main != null
      ensures (IdOf(interp), p.id) == LookFirst(s, r.id, PerRequest) && Valid() && s == View()
      ensures Knows(p) && (interp != null ==> KnowsInterp(interp))
    {
      var main := r.main;
      interp, p := null, r.pool;
      ghost var m := Some(main.id);
      while main != null && interp == null
        invariant m == (if main == null then None else Some(main.id))
        invariant Valid() && s == View() && Knows(p) && (main != null ==> KnowsRequest(main))
        invariant interp != null ==> KnowsInterp(interp)
        invariant LookFirst(s, r.id, PerRequest)
                  == if interp != null then (IdOf(interp), p.id) else Walk(s, m, p.id)
        decreases main != null, if main != null then main.id else 0
      {
        assert s.requests[main.id] == main.View();
        p := main.pool;
        interp := PoolGet(p);
        main := main.main;
        m := if main == null then None else Some(main.id);
      }
    }

    /** What a request finds: an interpreter, or the pool to put one in. */
    method SearchFor(r: RequestNode, scope: Scope, ghost s: State) returns (interp: InterpNode?, p: PoolNode)
      requires Valid() && s == View() && Woven(s) && KnowsRequest(r)
      ensures (IdOf(interp), p.id) == Lookup(s, Some(r.id), None, scope) && Valid() && s == View()
      ensures Knows(p) && (interp != null ==> KnowsInterp(interp))
    {
      assert s.requests[r.id] == r.View();
      if r.main != null && scope == PerRequest {
        interp, p := SearchMains(r, s);
      } else {
        p := r.pool;
        interp := PoolGet(p);
      }
      if interp == null {
        interp := PoolGet(r.conn.pool);
      }
    }

    ghost predicate KnowsCaller(r: RequestNode?, c: ConnNode?)
      reads this`requests, this`conns
    {
      (r != null ==> KnowsRequest(r)) && (c != null ==> KnowsConn(c))
    }

    /** The pools modperl_interp_select looks in, in its order. */
    method Search(r: RequestNode?, c: ConnNode?, scope: Scope, ghost s: State)
      returns (interp: InterpNode?, p: PoolNode)
      requires Valid() && s == View() && Woven(s) && KnowsCaller(r, c)
      requires Asks(s, RequestId(r), ConnIdOf(c), scope)
      ensures (IdOf(interp), p.id) == Lookup(s, RequestId(r), ConnIdOf(c), scope) && Valid() && s == View()
      ensures Knows(p) && (interp != null ==> KnowsInterp(interp))
    {
      if c != null && scope == PerConnection {
        p := c.pool;
        interp := PoolGet(p);
      } else {
        interp, p := SearchFor(r, scope, s);
      }
    }

    /** modperl_interp_select, given the interpreter that the tipool would hand out. */
    method Select(r: RequestNode?, c: ConnNode?, scope: Scope, idle: InterpNode,
                  ghost s: State, ghost step: Step)
      returns (interp: InterpNode)
      requires Valid() && s == View() && Woven(s) && KnowsCaller(r, c)
      requires step == Step.Select(RequestId(r), ConnIdOf(c), scope, idle.id) && Enabled(s, step)
      requires idle.id in interps ==> KnowsInterp(idle)
      requires idle.id !in interps ==> idle.View() == Interp(false, 0, 0)
      modifies this`interps, this`homes, pools.Values, idle
      ensures Valid() && View() == Next(s, step)
      ensures interp.id == Chosen(s, step.r, step.c, scope, idle.id)
      ensures OnlyAdded(idle)
    {
      var found, p := Search(r, c, scope, s);
      SelectResult(s, step, IdOf(found), p.id);
      interp := UseOrLend(found, p, idle);
    }

    method UseOrLend(found: InterpNode?, p: PoolNode, idle: InterpNode) returns (interp: InterpNode)
      requires Valid() && Knows(p) && (idle.id in interps ==> KnowsInterp(idle))
      requires idle.id !in interps ==> idle.View() == Interp(false, 0, 0)
      modifies this`interps, this`homes, p, idle
      ensures Valid() && OnlyAdded(idle)
      ensures interp == if found != null then found else idle
      ensures View() == Selected(old(View()), IdOf(found), p.id, idle.id)
    {
      if found != null {
        interp := found;
      } else {
        interp := idle;
        Lend(p, idle);
      }
    }

    /** The interpreter lent, put into the pool. */
    method Lend(p: PoolNode, idle: InterpNode)
      requires Valid() && Knows(p) && (idle.id in interps ==> KnowsInterp(idle))
      requires idle.id !in interps ==> idle.View() == Interp(false, 0, 0)
      modifies this`interps, this`homes, p, idle
      ensures Valid() && interps == old(interps)[idle.id := idle]
      ensures View() == Lent(old(View()), p.id, idle.id)
    {
      Get(idle);
      PoolSet(p, idle);
    }

    /** A cleanup is registered that will need the interpreter, which is kept until it has run. */
    method Register(i: InterpNode)
      requires Valid() && KnowsInterp(i) && Woven(View()) && Enabled(View(), Step.Register(i.id))
      modifies this`pending, i`refcnt
      ensures Valid() && View() == Next(old(View()), Step.Register(i.id))
    {
      label before:
      i.refcnt := i.refcnt + 1;
      pending := pending + multiset{i.id};
      OnlyOneChanged@before(i);
    }

    /** Such a cleanup has run. */
    method RunCleanup(i: InterpNode)
      requires Valid() && KnowsInterp(i) && Woven(View()) && Enabled(View(), Step.RunCleanup(i.id))
      modifies this`pending, i
      ensures Valid() && View() == Next(old(View()), Step.RunCleanup(i.id))
    {
      pending := pending - multiset{i.id};
      Unselect(i);
    }

    /** No request that stays points into the pool, nor to what lives in it. */
    ghost predicate Detached(p: PoolNode)
      reads this`requests
    {
      forall r {:trigger requests[r]} :: r in requests && requests[r].pool != p ==>
        requests[r].conn.pool != p && (requests[r].main != null ==> requests[r].main.pool != p)
    }

    lemma DetachedIfEnabled(p: PoolNode)
      requires Valid() && Knows(p) && Woven(View()) && Enabled(View(), Step.EndPool(p.id))
      ensures Detached(p)
    {
      forall r | r in requests && requests[r].pool != p
        ensures requests[r].conn.pool != p && (requests[r].main != null ==> requests[r].main.pool != p)
      {
        assert View().requests[r] == requests[r].View();
        var main := requests[r].main;
        assert main != null ==> KnowsRequest(main) && View().requests[main.id] == main.View();
      }
    }

    method DropRequests(p: PoolNode)
      requires Valid() && Knows(p) && Detached(p)
      modifies this`requests
      ensures Valid() && forall r :: r in requests ==> requests[r].pool != p && requests[r].conn.pool != p
      ensures View() == old(View()).(requests := RequestsOutside(old(View()).requests, p.id))
    {
      requests := map r | r in requests && requests[r].pool != p :: requests[r];
      assert Requests() == RequestsOutside(old(Requests()), p.id);
    }

    method DropConns(p: PoolNode)
      requires Valid() && Knows(p)
      requires forall r :: r in requests ==> requests[r].pool != p && requests[r].conn.pool != p
      modifies this`conns
      ensures Valid() && forall c :: c in conns ==> conns[c].pool != p
      ensures View() == old(View()).(conns := ConnsOutside(old(View()).conns, p.id))
    {
      conns := map c | c in conns && conns[c].pool != p :: conns[c];
      assert Conns() == ConnsOutside(old(Conns()), p.id);
    }

    method DropPool(p: PoolNode)
      requires Valid() && Knows(p) && forall r :: r in requests ==> requests[r].pool != p
      requires forall c :: c in conns ==> conns[c].pool != p
      modifies this`pools
      ensures Valid() && pools == old(pools) - {p.id}
      ensures View() == old(View()).(pools := old(View()).pools - {p.id}, stash := old(View()).stash - {p.id})
    {
      pools := pools - {p.id};
      assert Pools() == old(Pools()) - {p.id} && Stash() == old(Stash()) - {p.id};
    }

    /** The pool and what lives in it are gone. */
    method Remove(p: PoolNode)
      requires Valid() && Knows(p) && Detached(p)
      modifies this`requests, this`conns, this`pools, this`homes
      ensures Valid() && View() == Ended(old(View()), p.id) && pools == old(pools) - {p.id}
    {
      ForgetHome(p);
      DropRequests(p);
      DropConns(p);
      DropPool(p);
    }

    ghost method ForgetHome(p: PoolNode)
      requires Valid() && Knows(p)
      modifies this`homes
      ensures Valid()
      ensures View() == old(View()).(homes := if p.id in old(View()).stash
                                              then old(View()).homes - {old(View()).stash[p.id]}
                                              else old(View()).homes)
    {
      homes := if p.userdata != null then homes - {p.userdata.id} else homes;
    }

    /** A pool ends, and the cleanup of its userdata runs. */
    method EndPool(p: PoolNode)
      requires Valid() && Knows(p) && Woven(View()) && Enabled(View(), Step.EndPool(p.id))
      modifies this`requests, this`conns, this`pools, this`homes, interps.Values
      ensures Valid() && View() == Next(old(View()), Step.EndPool(p.id)) && pools == old(pools) - {p.id}
    {
      DetachedIfEnabled(p);
      RemoveAndUnselect(p);
    }

    method RemoveAndUnselect(p: PoolNode)
      requires Valid() && Knows(p) && Detached(p)
      modifies this`requests, this`conns, this`pools, this`homes, interps.Values
      ensures Valid() && pools == old(pools) - {p.id} && Userdata(old(View()), p.id) == old(IdOf(p.userdata))
      ensures View() == if old(p.userdata) != null then Unselected(Ended(old(View()), p.id), old(p.userdata).id)
                        else Ended(old(View()), p.id)
    {
      var interp := PoolGet(p);
      Remove(p);
      if interp != null {
        Unselect(interp);
      }
    }

    /** The pool with this number, a new one if there is none. */
    method PoolFor(p: PoolId, conn: ConnId) returns (pool: PoolNode)
      requires Valid() && (p in pools ==> pools[p].conn == conn)
      modifies this`pools
      ensures Valid() && Knows(pool) && pool.id == p && PoolsOldOrNew()
      ensures View() == old(View()).(pools := old(View()).pools[p := conn])
    {
      if p in pools {
        pool := pools[p];
        assert Pools() == old(Pools())[p := conn];
      } else {
        pool := new PoolNode(p, conn);
        pools := pools[p := pool];
        assert Stash() == old(Stash()) && Pools() == old(Pools())[p := conn];
      }
    }

    method AddConn(c: ConnNode)
      requires Valid() && c.id !in conns && Knows(c.pool)
      modifies this`conns
      ensures Valid() && View() == old(View()).(conns := old(View()).conns[c.id := c.pool.id])
    {
      conns := conns[c.id := c];
      assert Conns() == old(Conns())[c.id := c.pool.id];
    }

    method ConnectNew(c: ConnId, p: PoolId)
      requires Valid() && c !in conns && p !in pools
      modifies this`pools, this`conns
      ensures Valid() && PoolsOldOrNew()
      ensures View() == old(View()).(conns := old(View()).conns[c := p], pools := old(View()).pools[p := c])
    {
      var pool := PoolFor(p, c);
      var conn := new ConnNode(c, pool);
      AddConn(conn);
    }

    /** A new connection. */
    method Connect(c: ConnId, p: PoolId)
      requires Valid() && Woven(View()) && Enabled(View(), Step.Connect(c, p))
      modifies this`pools, this`conns
      ensures Valid() && View() == Next(old(View()), Step.Connect(c, p))
      ensures PoolsOldOrNew()
    {
      assert c !in View().conns && p !in View().pools;
      ConnectNew(c, p);
    }

    method MakeRequest(id: ReqId, main: RequestNode?, conn: ConnNode, pool: PoolNode) returns (r: RequestNode)
      requires Valid()
      ensures Valid() && View() == old(View())
      ensures r.id == id && r.main == main && r.conn == conn && r.pool == pool
    {
      r := new RequestNode(id, main, conn, pool);
    }

    method AddRequest(r: RequestNode)
      requires Valid() && r.id !in requests && Knows(r.pool) && KnowsConn(r.conn)
      requires r.main != null ==> KnowsRequest(r.main)
      modifies this`requests
      ensures Valid() && View() == old(View()).(requests := old(View()).requests[r.id := r.View()])
    {
      RequestAdded(requests, conns, pools, r);
      requests := requests[r.id := r];
      assert Requests() == old(Requests())[r.id := r.View()];
    }

    method BeginNew(id: ReqId, request: Request)
      requires Valid() && id !in requests && request.conn in conns
      requires request.main.Some? ==> request.main.value in requests
      requires request.pool in pools ==> pools[request.pool].conn == request.conn
      modifies this`pools, this`requests
      ensures Valid() && PoolsOldOrNew()
      ensures View() == old(View()).(requests := old(View()).requests[id := request],
                                     pools := old(View()).pools[request.pool := request.conn])
    {
      var main := if request.main.Some? then requests[request.main.value] else null;
      var conn := conns[request.conn];
      var pool := PoolFor(request.pool, request.conn);
      var r := MakeRequest(id, main, conn, pool);
      AddRequest(r);
    }

    lemma MayBegin(id: ReqId, request: Request)
      requires Woven(View()) && Enabled(View(), Step.Begin(id, request))
      ensures id !in requests && request.conn in conns
      ensures request.main.Some? ==> request.main.value in requests
      ensures request.pool in pools ==> pools[request.pool].conn == request.conn
    {
      assert id !in View().requests && request.conn in View().conns;
      if request.pool in pools {
        assert request.pool in View().pools;
        var prev :| prev in View().requests && View().requests[prev] == request;
        assert View().pools[request.pool] == request.conn;
      }
    }

    /** A new request: a main one, a subrequest, or a redirect in the pool of the old one. */
    method Begin(id: ReqId, request: Request)
      requires Valid() && Woven(View()) && Enabled(View(), Step.Begin(id, request))
      modifies this`pools, this`requests
      ensures Valid() && View() == Next(old(View()), Step.Begin(id, request))
      ensures PoolsOldOrNew()
    {
      MayBegin(id, request);
      BeginNew(id, request);
    }

    /** The interpreter with this number, a new one if there is none. */
    method InterpFor(i: InterpId) returns (node: InterpNode)
      requires Valid()
      ensures Valid() && View() == old(View()) && node.id == i && (i in interps ==> node == interps[i])
      ensures i !in interps ==> fresh(node) && node.View() == Interp(false, 0, 0)
    {
      if i in interps {
        node := interps[i];
      } else {
        node := new InterpNode(i);
      }
    }

    /** The selection of a step, which names request, connection and interpreter by number. */
    method SelectById(r: Option<ReqId>, c: Option<ConnId>, scope: Scope, idle: InterpId, ghost s: State)
      requires Valid() && s == View() && Woven(s) && Enabled(s, Step.Select(r, c, scope, idle))
      requires (r.Some? ==> r.value in requests) && (c.Some? ==> c.value in conns)
      modifies this`interps, this`homes, pools.Values, interps.Values
      ensures Valid() && View() == Next(s, Step.Select(r, c, scope, idle))
      ensures InterpsOldOrNew()
    {
      var request := if r.Some? then requests[r.value] else null;
      var conn := if c.Some? then conns[c.value] else null;
      var node := InterpFor(idle);
      var _ := Select(request, conn, scope, node, s, Step.Select(r, c, scope, idle));
    }

    /** What a step names is there. */
    lemma StepNames(step: Step)
      requires Woven(View()) && Enabled(View(), step)
      ensures step.Select? && step.r.Some? ==> step.r.value in requests
      ensures step.Select? && step.c.Some? ==> step.c.value in conns
      ensures step.Register? || step.RunCleanup? ==> step.interp in interps
      ensures step.EndPool? ==> step.pool in pools
    {
    }

    method Do(step: Step, ghost s: State)
      requires Valid() && s == View() && Woven(s) && Enabled(s, step)
      modifies this, pools.Values, interps.Values
      ensures Valid() && View() == Next(s, step)
      ensures PoolsOldOrNew() && InterpsOldOrNew()
    {
      StepNames(step);
      if step.Select? {
        SelectById(step.r, step.c, step.scope, step.idle, s);
      } else if step.Connect? || step.Begin? {
        Open(step, s);
      } else {
        Release(step);
      }
    }

    method Open(step: Step, ghost s: State)
      requires Valid() && s == View() && Woven(s) && Enabled(s, step) && (step.Connect? || step.Begin?)
      modifies this`requests, this`conns, this`pools
      ensures Valid() && View() == Next(s, step) && PoolsOldOrNew()
    {
      match step {
        case Connect(c, p) => Connect(c, p);
        case Begin(id, request) => Begin(id, request);
      }
    }

    method Release(step: Step)
      requires Valid() && Woven(View()) && Enabled(View(), step)
      requires step.Register? || step.RunCleanup? || step.EndPool?
      requires step.Register? || step.RunCleanup? ==> step.interp in interps
      requires step.EndPool? ==> step.pool in pools
      modifies this`requests, this`conns, this`pools, this`homes, this`pending, interps.Values
      ensures Valid() && View() == Next(old(View()), step)
      ensures forall p {:trigger pools[p]} :: p in pools ==> p in old(pools) && pools[p] == old(pools)[p]
    {
      match step {
        case Register(i) => Register(interps[i]);
        case RunCleanup(i) => RunCleanup(interps[i]);
        case EndPool(p) => EndPool(pools[p]);
      }
    }
  }

  lemma RunNext(s: State, steps: seq<Step>)
    requires steps != [] && InterpRuns.Legal(s, steps) && Sound(s)
    ensures Enabled(s, steps[0]) && Sound(Next(s, steps[0]))
    ensures InterpRuns.Legal(Next(s, steps[0]), steps[1..])
    ensures InterpRuns.Run(Next(s, steps[0]), steps[1..]) == InterpRuns.Run(s, steps)
  {
    StepKeeps(s, steps[0]);
  }

  /** The rest of a run, from any sound state of the objects. */
  method Continue(server: Server, steps: seq<Step>, ghost s: State)
    requires server.Valid() && s == server.View() && Sound(s) && InterpRuns.Legal(s, steps)
    modifies server, server.pools.Values, server.interps.Values
    ensures server.Valid() && server.View() == InterpRuns.Run(s, steps)
    decreases |steps|
  {
    if steps != [] {
      RunNext(s, steps);
      server.Do(steps[0], s);
      Continue(server, steps[1..], Next(s, steps[0]));
    }
  }

  /** Every legal run can be carried out on the objects, and ends as the specification says. */
  method Execute(steps: seq<Step>) returns (server: Server)
    requires InterpRuns.Legal(InterpRuns.Start(), steps)
    ensures server.Valid() && server.View() == InterpRuns.Run(InterpRuns.Start(), steps)
    ensures Sound(server.View())
  {
    server := new Server();
    InterpRuns.EveryRunIsSound(InterpRuns.Start(), steps);
    Continue(server, steps, InterpRuns.Start());
  }

  lemma SelectResult(s: State, step: Step, found: Option<InterpId>, p: PoolId)
    requires Woven(s) && step.Select? && Enabled(s, step)
    requires (found, p) == Lookup(s, step.r, step.c, step.scope)
    ensures Next(s, step) == Selected(s, found, p, step.idle)
    ensures Chosen(s, step.r, step.c, step.scope, step.idle) == if found.Some? then found.value else step.idle
  {
  }

  ghost function RequestId(r: RequestNode?): Option<ReqId> {
    if r == null then None else Some(r.id)
  }

  ghost function ConnIdOf(c: ConnNode?): Option<ConnId> {
    if c == null then None else Some(c.id)
  }
}
