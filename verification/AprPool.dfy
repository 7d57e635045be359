/** The tree of APR pools and the Perl objects that own some of them, as values. */
module AprPoolSpec {
  import opened Wrappers

  type Addr = nat
  type Id = nat

  /**
   * A live pool: the number it was created with, its parent (None is the global pool), and the
   * object named in the cleanup that takes away its ownership.
   */
  datatype Pool = Pool(serial: nat, parent: Option<Addr>, account: Option<Id>)

  /**
   * A Perl object: the address in its integer slot (None is 0), whether it has the magic that
   * means ownership, the parent object held by that magic, and the pool it was made for.
   */
  datatype Sv = Sv(iv: Option<Addr>, owns: bool, dep: Option<Id>, born: nat)

  type Pools = map<Addr, Pool>
  type Svs = map<Id, Sv>

  /** For every pool ever created where it lives, None once it is destroyed. */
  type Fates = seq<Option<Addr>>

  /** Live pools are where they should be, and so are their parents, which are older. */
  ghost predicate Forest(pools: Pools, fates: Fates) {
    && (forall a {:trigger pools[a].serial} :: a in pools ==>
          pools[a].serial < |fates| && fates[pools[a].serial] == Some(a))
    && (forall n :: 0 <= n < |fates| && fates[n].Some? ==>
          fates[n].value in pools && pools[fates[n].value].serial == n)
    && (forall a {:trigger pools[a].parent} :: a in pools && pools[a].parent.Some? ==>
          pools[a].parent.value in pools && pools[pools[a].parent.value].serial < pools[a].serial)
  }

  /**
   * Owners and accounts name each other, and an owner's pool is the one it was made for; what an
   * owner's magic holds is the owner of the pool above.
   */
  ghost predicate Owned(pools: Pools, svs: Svs) {
    && (forall a {:trigger pools[a].account} :: a in pools && pools[a].account.Some? ==>
          var id := pools[a].account.value;
          id in svs && svs[id].owns && svs[id].iv == Some(a))
    && (forall id {:trigger svs[id].owns} :: id in svs && svs[id].owns ==>
          var iv := svs[id].iv;
          iv.Some? && iv.value in pools && pools[iv.value].account == Some(id)
          && pools[iv.value].serial == svs[id].born)
    && (forall id {:trigger svs[id].dep} :: id in svs && svs[id].owns && svs[id].dep.Some? ==>
          var above := pools[svs[id].iv.value].parent;
          above.Some? && above.value in pools && pools[above.value].account == svs[id].dep)
  }

  /**
   * An address in an object is that of the pool the object was made for, as long as that pool
   * lives. Afterwards it is stale, and another pool may come to live there.
   */
  ghost predicate Named(fates: Fates, svs: Svs) {
    forall id {:trigger svs[id].iv} :: id in svs && svs[id].iv.Some? ==>
      svs[id].born < |fates| && (fates[svs[id].born].None? || fates[svs[id].born] == svs[id].iv)
  }

  /** The magic of one of the first n objects holds this one. */
  predicate Held(svs: Svs, id: Id, n: nat) {
    n > 0 && ((n - 1 in svs && svs[n - 1].dep == Some(id)) || Held(svs, id, n - 1))
  }

  /** The references from Perl variables, and the mortals, which go at the next FREETMPS. */
  datatype Refs = Refs(handles: multiset<Id>, temps: seq<Id>)

  predicate Reachable(svs: Svs, refs: Refs, next: nat, id: Id) {
    id in refs.handles || id in refs.temps || Held(svs, id, next)
  }

  /**
   * Nothing refers to an object that is gone, and every object is referred to unless it is the
   * one being freed. Only ownership magic holds a parent object.
   */
  ghost predicate Referenced(svs: Svs, refs: Refs, dying: set<Id>, next: nat) {
    && (forall id :: id in svs ==> id < next)
    && (forall id {:trigger svs[id].dep} :: id in svs && svs[id].dep.Some? ==>
          svs[id].owns && svs[id].dep.value in svs && svs[id].dep.value < id)
    && (forall id :: id in refs.handles || id in refs.temps ==> id in svs)
    && (forall id :: id in svs ==> (Reachable(svs, refs, next, id) <==> id !in dying))
  }

  /** b is a or below it; a parent is older. */
  ghost predicate Under(pools: Pools, b: Addr, a: Addr)
    decreases if b in pools then pools[b].serial else 0
  {
    && b in pools
    && (b == a
        || (var parent := pools[b].parent;
            && parent.Some? && parent.value in pools && pools[parent.value].serial < pools[b].serial
            && Under(pools, parent.value, a)))
  }

  lemma {:induction false} UnderSerial(pools: Pools, fates: Fates, b: Addr, a: Addr)
    requires Forest(pools, fates) && b in pools && Under(pools, b, a)
    ensures a in pools && pools[a].serial <= pools[b].serial
    decreases pools[b].serial
  {
    if b != a {
      UnderSerial(pools, fates, pools[b].parent.value, a);
    }
  }

  lemma {:induction false} UnderStep(pools: Pools, fates: Fates, b: Addr, c: Addr, a: Addr)
    requires Forest(pools, fates) && b in pools && c in pools && pools[c].parent == Some(a)
    requires Under(pools, b, c)
    ensures Under(pools, b, a) && b != a
    decreases pools[b].serial
  {
    UnderSerial(pools, fates, b, c);
    if b == c {
      assert Under(pools, a, a);
    } else {
      UnderStep(pools, fates, pools[b].parent.value, c, a);
    }
  }

  /** These pools are among those, unchanged. */
  ghost predicate Among(now: Pools, was: Pools) {
    now.Keys <= was.Keys && forall b :: b in now ==> now[b] == was[b]
  }

  /** Pools that go leave the ancestry of the others as it was. */
  lemma {:induction false} UnderSame(was: Pools, fates: Fates, now: Pools, fates': Fates,
                                     b: Addr, a: Addr)
    requires Forest(was, fates) && Forest(now, fates') && b in now && Among(now, was)
    ensures Under(now, b, a) <==> Under(was, b, a)
    decreases was[b].serial
  {
    if b != a && was[b].parent.Some? {
      UnderSame(was, fates, now, fates', was[b].parent.value, a);
    }
  }

  /** Some of the tree below a gone, and nothing else. */
  ghost predicate Thinned(was: Pools, now: Pools, a: Addr) {
    Among(now, was) && forall b :: b in was && b !in now ==> b != a && Under(was, b, a)
  }

  /** The tree below a gone, and nothing else. */
  ghost predicate Cut(was: Pools, now: Pools, a: Addr) {
    Among(now, was) && forall b :: b in was ==> (b in now <==> b == a || !Under(was, b, a))
  }

  /** a and its tree gone, and nothing else. */
  ghost predicate Gone(was: Pools, now: Pools, a: Addr) {
    Among(now, was) && forall b :: b in was ==> (b in now <==> !Under(was, b, a))
  }

  /** The tree below a gone, a with another account, and nothing else. */
  ghost predicate Cleared(was: Pools, now: Pools, a: Addr, account: Option<Id>) {
    && a in was && a in now && now[a] == was[a].(account := account)
    && Gone(was, now - {a}, a)
  }

  lemma CutToCleared(was: Pools, fates: Fates, now: Pools, a: Addr)
    requires Forest(was, fates) && Cut(was, now, a) && a in was
    ensures a in now && Cleared(was, WithAccount(now, a, None), a, None)
  {
    CutToGone(was, fates, now, a);
    assert WithAccount(now, a, None) - {a} == now - {a};
  }

  lemma ClearedAgain(was: Pools, fates: Fates, now: Pools, a: Addr, account: Option<Id>)
    requires Forest(was, fates) && Cleared(was, now, a, None)
    ensures Cleared(was, WithAccount(now, a, account), a, account)
  {
    assert WithAccount(now, a, account) - {a} == now - {a};
  }

  /** Nothing is a child of a. */
  ghost predicate Leaf(pools: Pools, a: Addr) {
    forall c :: c in pools ==> pools[c].parent != Some(a)
  }

  /** When no child of a is left, its whole tree is gone. */
  lemma {:induction false} NoneLeft(now: Pools, fates: Fates, b: Addr, a: Addr)
    requires Forest(now, fates) && b in now && b != a && Leaf(now, a)
    ensures !Under(now, b, a)
    decreases now[b].serial
  {
    if now[b].parent.Some? {
      NoneLeft(now, fates, now[b].parent.value, a);
    }
  }

  lemma ThinnedToCut(was: Pools, fates: Fates, now: Pools, fates': Fates, a: Addr)
    requires Forest(was, fates) && Forest(now, fates') && Thinned(was, now, a)
    requires a in was && Leaf(now, a)
    ensures Cut(was, now, a)
  {
    forall b | b in was ensures b in now <==> b == a || !Under(was, b, a) {
      if b in now && b != a {
        NoneLeft(now, fates', b, a);
        UnderSame(was, fates, now, fates', b, a);
      }
    }
  }

  /** Destroying one child more. */
  lemma ThinnedMore(was: Pools, fates: Fates, now: Pools, fates': Fates, less: Pools,
                    a: Addr, c: Addr)
    requires Forest(was, fates) && Forest(now, fates') && Thinned(was, now, a)
    requires c in now && now[c].parent == Some(a) && Gone(now, less, c)
    ensures Thinned(was, less, a)
  {
    forall b | b in was && b !in less ensures b != a && Under(was, b, a) {
      if b in now {
        UnderSame(was, fates, now, fates', b, c);
        UnderStep(was, fates, b, c, a);
      }
    }
  }

  lemma CutToGone(was: Pools, fates: Fates, now: Pools, a: Addr)
    requires Forest(was, fates) && Cut(was, now, a) && a in was
    ensures Gone(was, now - {a}, a) && a in now
  {
  }

  // ----- ownership -----

  /** What objects become when only these pools stay. */
  ghost function Released(svs: Svs, live: set<Addr>): Svs {
    map id | id in svs ::
      if svs[id].owns && svs[id].iv.Some? && svs[id].iv.value !in live
      then Sv(None, false, None, svs[id].born) else svs[id]
  }

  lemma ReleasedTwice(svs: Svs, live: set<Addr>, less: set<Addr>)
    requires less <= live
    ensures Released(Released(svs, live), less) == Released(svs, less)
  {
  }

  lemma ReleasedNothing(pools: Pools, svs: Svs)
    requires Owned(pools, svs)
    ensures Released(svs, pools.Keys) == svs
  {
  }

  /** The object loses its ownership, and with it the hold on its parent object. */
  function Disowned(svs: Svs, id: Id): Svs
    requires id in svs
  {
    svs[id := Sv(None, false, None, svs[id].born)]
  }

  /** Of all objects only the owner of a is touched when the pool at a goes. */
  lemma DisownedIsReleased(pools: Pools, svs: Svs, a: Addr)
    requires Owned(pools, svs) && a in pools
    ensures var account := pools[a].account;
            Released(svs, pools.Keys - {a})
            == if account.Some? then Disowned(svs, account.value) else svs
  {
  }

  function WithAccount(pools: Pools, a: Addr, account: Option<Id>): Pools
    requires a in pools
  {
    pools[a := pools[a].(account := account)]
  }

  lemma WithAccountForest(pools: Pools, fates: Fates, a: Addr, account: Option<Id>)
    requires Forest(pools, fates) && a in pools
    ensures Forest(WithAccount(pools, a, account), fates)
  {
  }

  lemma CleanupKeepsOwned(pools: Pools, svs: Svs, a: Addr)
    requires Owned(pools, svs) && a in pools && pools[a].account.Some? && Leaf(pools, a)
    ensures Owned(WithAccount(pools, a, None), Disowned(svs, pools[a].account.value))
  {
  }

  /** A pool without children and without account can go. */
  lemma LeafGoes(pools: Pools, fates: Fates, svs: Svs, a: Addr)
    requires Forest(pools, fates) && Owned(pools, svs) && a in pools
    requires pools[a].account.None? && Leaf(pools, a)
    ensures Forest(pools - {a}, fates[pools[a].serial := None]) && Owned(pools - {a}, svs)
  {
  }

  /**
   * What an operation through an object acts on: the pool it was made for exactly if the object
   * owns it or that pool still lives where the object says; otherwise on a pool that has come to
   * live at the stale address, or on no pool at all.
   */
  lemma ActsOnOwnPool(pools: Pools, fates: Fates, svs: Svs, id: Id)
    requires Forest(pools, fates) && Owned(pools, svs) && Named(fates, svs)
    requires id in svs && svs[id].iv.Some?
    ensures var a := svs[id].iv.value;
            a in pools && pools[a].serial == svs[id].born
            <==> svs[id].owns || fates[svs[id].born] == Some(a)
    ensures var a := svs[id].iv.value;
            a in pools && pools[a].serial != svs[id].born ==> !svs[id].owns && fates[svs[id].born].None?
  {
    var a, n := svs[id].iv.value, svs[id].born;
    assert a in pools ==> fates[pools[a].serial] == Some(a);
    assert fates[n].Some? ==> fates[n].value in pools;
  }

  /** A new pool. */
  lemma BirthKeeps(pools: Pools, fates: Fates, svs: Svs, at: Addr, parent: Option<Addr>)
    requires Forest(pools, fates) && Owned(pools, svs)
    requires at !in pools && (parent.Some? ==> parent.value in pools)
    ensures var now := pools[at := Pool(|fates|, parent, None)];
            Forest(now, fates + [Some(at)]) && Owned(now, svs)
  {
  }

  function Owning(svs: Svs, id: Id, a: Addr): Svs
    requires id in svs
  {
    svs[id := svs[id].(iv := Some(a), owns := true)]
  }

  /** The object owns the pool at a again, if it did before. */
  function Reowned(svs: Svs, id: Id, a: Addr, owned: bool): Svs
    requires id in svs
  {
    if owned then Owning(svs, id, a) else svs
  }

  lemma TakingKeepsOwned(pools: Pools, svs: Svs, id: Id, a: Addr)
    requires Owned(pools, svs) && a in pools && pools[a].account.None?
    requires id in svs && !svs[id].owns && svs[id].dep.None? && svs[id].born == pools[a].serial
    ensures Owned(WithAccount(pools, a, Some(id)), Owning(svs, id, a))
  {
  }

  lemma OwnerMade(pools: Pools, svs: Svs, at: Addr, above: Option<Addr>, id: Id, n: nat)
    ensures WithAccount(pools[at := Pool(n, above, None)], at, Some(id))
            == pools[at := Pool(n, above, Some(id))]
    ensures Owning(svs[id := Sv(Some(at), false, None, n)], id, at)
            == svs[id := Sv(Some(at), true, None, n)]
  {
  }

  /** No pool of before has got another owner: the older ones live on as they were, or disowned. */
  ghost predicate NoneClaimed(was: Pools, fates: Fates, now: Pools) {
    forall b {:trigger now[b].account} :: b in now && now[b].serial < |fates| ==>
      b in was && was[b].serial == now[b].serial && (was[b].account.None? ==> now[b].account.None?)
  }

  /** What is destroyed stays so, and a pool without owner stays without one until it is destroyed. */
  ghost predicate Later(fates: Fates, pools: Pools, fates': Fates, pools': Pools) {
    |fates| <= |fates'| && forall n :: 0 <= n < |fates| ==>
      fates'[n].Some? ==>
        && fates'[n] == fates[n] && fates[n].value in pools && fates[n].value in pools'
        && (pools[fates[n].value].account.None? ==> pools'[fates[n].value].account.None?)
  }

  lemma NoneClaimedIsLater(pools: Pools, fates: Fates, pools': Pools, fates': Fates)
    requires Forest(pools, fates) && Forest(pools', fates') && |fates| <= |fates'|
    requires NoneClaimed(pools, fates, pools')
    ensures Later(fates, pools, fates', pools')
  {
    forall n | 0 <= n < |fates| && fates'[n].Some?
      ensures fates'[n] == fates[n]
    {
      var b := fates'[n].value;
      assert pools'[b].serial == n;
      assert pools'[b].account.None? || pools'[b].account.Some?;
      assert pools[b].serial == n;
    }
  }

  lemma LaterStill(fates: Fates, pools: Pools, fates': Fates, pools': Pools,
                   fates'': Fates, pools'': Pools)
    requires Later(fates, pools, fates', pools') && Later(fates', pools', fates'', pools'')
    ensures Later(fates, pools, fates'', pools'')
  {
  }

  /** A pool of which nothing is left at its address is destroyed. */
  lemma GoneIsDestroyed(was: Pools, fates: Fates, now: Pools, fates': Fates, a: Addr)
    requires Forest(was, fates) && Forest(now, fates') && Among(now, was) && a in was && a !in now
    requires |fates| == |fates'|
    ensures fates'[was[a].serial].None?
  {
  }

  // ----- references -----

  lemma {:induction false} HeldIff(svs: Svs, id: Id, n: nat)
    ensures Held(svs, id, n) <==> exists child :: 0 <= child < n && child in svs && svs[child].dep == Some(id)
  {
    if n > 0 {
      HeldIff(svs, id, n - 1);
    }
  }

  lemma HeldByChild(svs: Svs, id: Id, child: Id, n: nat)
    requires child < n && child in svs && svs[child].dep == Some(id)
    ensures Held(svs, id, n)
  {
    HeldIff(svs, id, n);
  }

  /** One object's magic changed. */
  lemma {:induction false} HeldChanged(was: Svs, now: Svs, id: Id, child: Id, n: nat)
    requires forall x :: x != child ==> (x in was <==> x in now) && (x in was ==> was[x].dep == now[x].dep)
    ensures Held(was, id, n) && !(child in was && was[child].dep == Some(id)) ==> Held(now, id, n)
    ensures Held(now, id, n) && !(child in now && now[child].dep == Some(id)) ==> Held(was, id, n)
  {
    if n > 0 {
      HeldChanged(was, now, id, child, n - 1);
    }
  }

  lemma CleanupKeepsReferenced(svs: Svs, id: Id, refs: Refs, dying: set<Id>, next: nat)
    requires Referenced(svs, refs, dying, next) && id in svs
    requires svs[id].dep.Some? ==> svs[id].dep.value in refs.temps
    ensures Referenced(Disowned(svs, id), refs, dying, next)
  {
    var now := Disowned(svs, id);
    forall x | x in now ensures Reachable(now, refs, next, x) <==> x !in dying {
      HeldChanged(svs, now, x, id, next);
    }
  }

  /** The parent object that the magic of the owner of the pool at a holds. */
  function HeldBy(pools: Pools, svs: Svs, a: Addr): Option<Id>
    requires a in pools
  {
    var account := pools[a].account;
    if account.Some? && account.value in svs then svs[account.value].dep else None
  }

  /** The object has become mortal too. */
  function WithMortal(refs: Refs, id: Option<Id>): Refs {
    if id.Some? then refs.(temps := refs.temps + [id.value]) else refs
  }

  /** Another reference to an object that has one. */
  lemma MoreReferenced(svs: Svs, refs: Refs, more: Refs, id: Id, dying: set<Id>, next: nat)
    requires Referenced(svs, refs, dying, next) && id in svs && id !in dying
    requires refs.handles <= more.handles && forall x :: x in more.handles ==> x in refs.handles || x == id
    requires forall x :: x in more.temps <==> x in refs.temps || (x == id && x in more.temps)
    ensures Referenced(svs, more, dying, next)
  {
    assert Reachable(svs, refs, next, id);
  }

  /** Ownership magic comes without a hold on a parent object. */
  lemma TakingKeepsReferenced(svs: Svs, refs: Refs, dying: set<Id>, next: nat, id: Id, a: Addr)
    requires Referenced(svs, refs, dying, next) && id in svs && !svs[id].owns
    ensures Referenced(Owning(svs, id, a), refs, dying, next)
  {
    var now := Owning(svs, id, a);
    forall x | x in now ensures Reachable(now, refs, next, x) <==> x !in dying {
      HeldChanged(svs, now, x, id, next);
    }
  }

  /** A new object, with one reference. */
  lemma NewReferenced(svs: Svs, refs: Refs, dying: set<Id>, next: nat, sv: Sv)
    requires Referenced(svs, refs, dying, next) && sv.dep.None? && dying <= svs.Keys
    ensures Referenced(svs[next := sv], refs.(handles := refs.handles + multiset{next}), dying, next + 1)
  {
    var now, more := svs[next := sv], refs.(handles := refs.handles + multiset{next});
    forall x | x in now ensures Reachable(now, more, next + 1, x) <==> x !in dying {
      HeldChanged(svs, now, x, next, next);
      assert x in svs ==> (Reachable(svs, refs, next, x) <==> x !in dying);
    }
  }

  lemma NewOwned(pools: Pools, svs: Svs, id: Id, sv: Sv)
    requires Owned(pools, svs) && id !in svs && !sv.owns
    ensures Owned(pools, svs[id := sv])
  {
  }

  /** A child's magic gets hold of its parent object. */
  function Depending(svs: Svs, id: Id, parent: Id): Svs
    requires id in svs
  {
    svs[id := svs[id].(dep := Some(parent))]
  }

  lemma DependingKeeps(pools: Pools, svs: Svs, refs: Refs, dying: set<Id>, next: nat, id: Id, parent: Id)
    requires Referenced(svs, refs, dying, next) && Owned(pools, svs)
    requires id in svs && svs[id].owns && svs[id].dep.None?
    requires parent in svs && parent !in dying && parent < id
    requires svs[parent].owns && pools[svs[id].iv.value].parent == svs[parent].iv
    ensures Referenced(Depending(svs, id, parent), refs, dying, next)
    ensures Owned(pools, Depending(svs, id, parent))
  {
    var now := Depending(svs, id, parent);
    forall x | x in now ensures Reachable(now, refs, next, x) <==> x !in dying {
      HeldChanged(svs, now, x, id, next);
      assert Reachable(svs, refs, next, x) <==> x !in dying;
    }
  }

  /** One reference to id less: id may have lost its last one. */
  lemma FewerReferenced(svs: Svs, refs: Refs, less: Refs, id: Id, next: nat)
    requires Referenced(svs, refs, {}, next) && id in svs
    requires forall x :: x in less.handles ==> x in refs.handles
    requires forall x :: x in less.temps ==> x in refs.temps
    requires forall x :: x != id ==> (x in refs.handles ==> x in less.handles)
    requires forall x :: x != id ==> (x in refs.temps ==> x in less.temps)
    ensures Referenced(svs, less, if Reachable(svs, less, next, id) then {} else {id}, next)
  {
    forall x | x in svs && x != id ensures Reachable(svs, less, next, x) {
      assert Reachable(svs, refs, next, x);
    }
  }

  /** An object without references and without magic can go. */
  lemma FreeingKeeps(pools: Pools, svs: Svs, refs: Refs, id: Id, next: nat)
    requires Owned(pools, svs) && Referenced(svs, refs, {id}, next) && id in svs && !svs[id].owns
    ensures Owned(pools, svs - {id}) && Referenced(svs - {id}, refs, {}, next)
  {
    assert !Reachable(svs, refs, next, id);
    var now := svs - {id};
    forall x | x in now ensures Reachable(now, refs, next, x) {
      HeldChanged(svs, now, x, id, next);
      assert Reachable(svs, refs, next, x);
    }
    forall x | x in now && now[x].dep.Some? ensures now[x].dep.value in now {
      if svs[x].dep == Some(id) {
        HeldByChild(svs, id, x, next);
      }
    }
  }

  lemma {:induction false} NothingHeld(svs: Svs, next: nat, id: Id)
    requires Referenced(svs, Refs(multiset{}, []), {}, next) && id in svs
    ensures false
    decreases next - id
  {
    assert Reachable(svs, Refs(multiset{}, []), next, id);
    HeldIff(svs, id, next);
    var child :| 0 <= child < next && child in svs && svs[child].dep == Some(id);
    NothingHeld(svs, next, child);
  }

  /** No variable and no mortal left: no object is left, and no pool has an owner to wait for. */
  lemma NothingLeaks(pools: Pools, svs: Svs, next: nat)
    requires Owned(pools, svs) && Referenced(svs, Refs(multiset{}, []), {}, next)
    ensures svs == map[] && forall a :: a in pools ==> pools[a].account.None?
  {
    if id :| id in svs {
      NothingHeld(svs, next, id);
    }
  }

  /** What freeing this object does to the pools. */
  ghost predicate Freed(was: Pools, sv: Sv, now: Pools) {
    if sv.owns && sv.iv.Some? then sv.iv.value !in now && Gone(was, now, sv.iv.value) else now == was
  }

  /**
   * The pools left are as they were, and so are the objects left, but for those whose pool is
   * gone; the pools that are gone are those of the objects that are, and what was below them.
   */
  ghost predicate Survived(was: Pools, svs: Svs, now: Pools, svs': Svs) {
    && Among(now, was) && svs'.Keys <= svs.Keys
    && (forall id :: id in svs' ==> svs'[id] == Released(svs, now.Keys)[id])
    && (forall a :: a in was && a !in now ==> TakenAlong(was, svs, svs', a))
    && (forall id :: id in svs && id !in svs' && svs[id].owns && svs[id].iv.Some? ==>
          svs[id].iv.value !in now)
  }

  ghost predicate TakenAlong(was: Pools, svs: Svs, svs': Svs, a: Addr) {
    exists id :: id in svs && id !in svs' && svs[id].owns && svs[id].iv.Some?
              && Under(was, a, svs[id].iv.value)
  }

  lemma SurvivedAll(pools: Pools, svs: Svs)
    requires Released(svs, pools.Keys) == svs
    ensures Survived(pools, svs, pools, svs)
  {
  }

  lemma SurvivedMore(was: Pools, fates: Fates, svs: Svs, mid: Pools, fates': Fates, svs': Svs,
                     now: Pools, svs'': Svs, id: Id)
    requires Forest(was, fates) && Forest(mid, fates') && Survived(was, svs, mid, svs')
    requires id in svs' && Freed(mid, svs'[id], now) && svs'' == Released(svs', now.Keys) - {id}
    ensures Survived(was, svs, now, svs'')
  {
    var sv := svs'[id];
    assert now.Keys <= mid.Keys;
    forall a | a in was && a !in now ensures TakenAlong(was, svs, svs'', a) {
      if a in mid {
        assert sv.owns && Under(mid, a, sv.iv.value);
        assert svs[id] == sv;
        UnderSame(was, fates, mid, fates', a, sv.iv.value);
      } else {
        assert TakenAlong(was, svs, svs', a);
      }
    }
    forall x | x in svs'' ensures svs''[x] == Released(svs, now.Keys)[x] {
      assert svs'[x] == Released(svs, mid.Keys)[x];
    }
  }

  lemma SurvivedTwice(was: Pools, fates: Fates, svs: Svs, mid: Pools, fates': Fates, svs': Svs,
                      now: Pools, svs'': Svs)
    requires Forest(was, fates) && Forest(mid, fates')
    requires Survived(was, svs, mid, svs') && Survived(mid, svs', now, svs'')
    ensures Survived(was, svs, now, svs'')
  {
    forall x | x in svs'' ensures svs''[x] == Released(svs, now.Keys)[x] {
      assert svs'[x] == Released(svs, mid.Keys)[x];
    }
    forall a | a in was && a !in now ensures TakenAlong(was, svs, svs'', a) {
      if a in mid {
        assert TakenAlong(mid, svs', svs'', a);
        var id :| id in svs' && id !in svs'' && svs'[id].owns && svs'[id].iv.Some?
                  && Under(mid, a, svs'[id].iv.value);
        assert svs[id] == svs'[id];
        UnderSame(was, fates, mid, fates', a, svs[id].iv.value);
      } else {
        assert TakenAlong(was, svs, svs', a);
      }
    }
  }

  // ----- what an object keeps alive -----

  /** The object x is id, or is held by the magic of id, or of an object that is so held. */
  ghost predicate Holds(svs: Svs, id: Id, x: Id)
    decreases id
  {
    && id in svs
    && (x == id || (svs[id].dep.Some? && svs[id].dep.value < id && Holds(svs, svs[id].dep.value, x)))
  }

  /** The object owns a pool, and it holds whatever owns a pool above that one. */
  ghost predicate KeepsPools(pools: Pools, svs: Svs, id: Id) {
    && id in svs && svs[id].owns && svs[id].iv.Some?
    && forall y :: y in svs && svs[y].owns && svs[y].iv.Some? ==>
         (Under(pools, svs[id].iv.value, svs[y].iv.value) ==> Holds(svs, id, y))
  }

  /** What id holds, owns a pool at or above that of id; what it holds, id holds too. */
  lemma {:induction false} HoldsUp(pools: Pools, fates: Fates, svs: Svs, id: Id, x: Id)
    requires Forest(pools, fates) && Owned(pools, svs) && Holds(svs, id, x) && svs[id].owns
    ensures x in svs && svs[x].owns && Under(pools, svs[id].iv.value, svs[x].iv.value)
    decreases id
  {
    var a := svs[id].iv.value;
    if x != id {
      HoldsUp(pools, fates, svs, svs[id].dep.value, x);
      assert pools[pools[a].parent.value].account == svs[id].dep;
    }
  }

  lemma {:induction false} UnderTwice(pools: Pools, c: Addr, b: Addr, a: Addr)
    requires Under(pools, c, b) && Under(pools, b, a)
    ensures Under(pools, c, a)
    decreases if c in pools then pools[c].serial else 0
  {
    if c != b {
      UnderTwice(pools, pools[c].parent.value, b, a);
    }
  }

  /** What an object that is referred to holds, is referred to. */
  lemma {:induction false} HoldsReachable(svs: Svs, refs: Refs, next: nat, id: Id, x: Id)
    requires Holds(svs, id, x) && Reachable(svs, refs, next, id) && forall i :: i in svs ==> i < next
    ensures Reachable(svs, refs, next, x)
    decreases id
  {
    if x != id {
      HeldByChild(svs, svs[id].dep.value, id, next);
      HoldsReachable(svs, refs, next, svs[id].dep.value, x);
    }
  }

  /** An object that nothing refers to takes none of the pools that others keep. */
  lemma FreedSpares(pools: Pools, fates: Fates, svs: Svs, refs: Refs, next: nat, y: Id, id: Id, x: Id)
    requires Forest(pools, fates) && Owned(pools, svs) && Referenced(svs, refs, {y}, next) && y in svs
    requires KeepsPools(pools, svs, id) && id in refs.handles && Holds(svs, id, x)
    ensures x in svs && x != y && svs[x].owns
    ensures svs[y].owns ==> !Under(pools, svs[x].iv.value, svs[y].iv.value)
  {
    assert !Reachable(svs, refs, next, y);
    HoldsUp(pools, fates, svs, id, x);
    HoldsReachable(svs, refs, next, id, x);
    if svs[y].owns && Under(pools, svs[x].iv.value, svs[y].iv.value) {
      UnderTwice(pools, svs[id].iv.value, svs[x].iv.value, svs[y].iv.value);
      HoldsReachable(svs, refs, next, id, y);
    }
  }

  lemma FreedElsewhere(pools: Pools, sv: Sv, pools': Pools, a: Addr)
    requires Freed(pools, sv, pools') && a in pools
    requires sv.owns && sv.iv.Some? ==> !Under(pools, a, sv.iv.value)
    ensures a in pools' && pools'[a] == pools[a]
  {
  }

  /** What an object holds is there as it was: the objects, and their pools. */
  ghost predicate Untouched(pools: Pools, svs: Svs, pools': Pools, svs': Svs, id: Id) {
    forall x :: Holds(svs, id, x) ==> Same(pools, svs, pools', svs', x)
  }

  ghost predicate Same(pools: Pools, svs: Svs, pools': Pools, svs': Svs, x: Id) {
    && x in svs && x in svs' && svs'[x] == svs[x]
    && (svs[x].iv.Some? ==>
          var a := svs[x].iv.value;
          a in pools && a in pools' && pools'[a] == pools[a])
  }

  /** Then it holds the same objects. */
  lemma {:induction false} HoldsSame(pools: Pools, svs: Svs, pools': Pools, svs': Svs, id: Id, x: Id)
    requires Owned(pools, svs) && id in svs && svs[id].owns && Untouched(pools, svs, pools', svs', id)
    ensures Holds(svs, id, x) <==> Holds(svs', id, x)
    decreases id
  {
    assert Holds(svs, id, id);
    var dep := svs[id].dep;
    if dep.Some? && dep.value < id {
      assert pools[pools[svs[id].iv.value].parent.value].account == dep;
      assert forall y :: Holds(svs, dep.value, y) ==> Holds(svs, id, y);
      HoldsSame(pools, svs, pools', svs', dep.value, x);
    }
  }

  /** What it held it keeps, if no pool above its own has a new owner. */
  lemma StillKeeps(pools: Pools, fates: Fates, svs: Svs, pools': Pools, fates': Fates, svs': Svs, id: Id)
    requires Forest(pools, fates) && Owned(pools, svs) && Forest(pools', fates') && Owned(pools', svs')
    requires KeepsPools(pools, svs, id) && Untouched(pools, svs, pools', svs', id)
    requires Among(pools', pools) || Among(pools, pools')
    ensures KeepsPools(pools', svs', id)
  {
    assert Holds(svs, id, id) && Same(pools, svs, pools', svs', id);
    var a := svs[id].iv.value;
    forall y | y in svs' && svs'[y].owns && Under(pools', a, svs'[y].iv.value)
      ensures Holds(svs', id, y)
    {
      var b := svs'[y].iv.value;
      if Among(pools', pools) {
        UnderSame(pools, fates, pools', fates', a, b);
      } else {
        UnderSame(pools', fates', pools, fates, a, b);
        UnderSerial(pools, fates, a, b);
      }
      assert pools[b].account == Some(y);
      HoldsSame(pools, svs, pools', svs', id, y);
    }
  }

  /** So freeing an object that nothing refers to leaves what the others keep. */
  lemma FreedKeeps(pools: Pools, fates: Fates, svs: Svs, refs: Refs, next: nat, y: Id,
                   pools': Pools, fates': Fates, id: Id)
    requires Forest(pools, fates) && Owned(pools, svs) && Referenced(svs, refs, {y}, next) && y in svs
    requires Forest(pools', fates') && Owned(pools', Released(svs, pools'.Keys) - {y}) && Among(pools', pools)
    requires Freed(pools, svs[y], pools') && KeepsPools(pools, svs, id) && id in refs.handles
    ensures Spared(pools, svs, pools', Released(svs, pools'.Keys) - {y}, id)
  {
    var svs' := Released(svs, pools'.Keys) - {y};
    forall x | Holds(svs, id, x) ensures Same(pools, svs, pools', svs', x) {
      FreedSpares(pools, fates, svs, refs, next, y, id, x);
      FreedElsewhere(pools, svs[y], pools', svs[x].iv.value);
    }
    StillKeeps(pools, fates, svs, pools', fates', svs', id);
  }

  /** An object that keeps its pools goes on keeping them. */
  ghost predicate Spared(pools: Pools, svs: Svs, pools': Pools, svs': Svs, id: Id) {
    KeepsPools(pools, svs, id) ==>
      KeepsPools(pools', svs', id) && Untouched(pools, svs, pools', svs', id)
  }

  ghost predicate AllSpared(pools: Pools, svs: Svs, pools': Pools, svs': Svs, handles: multiset<Id>) {
    forall id :: id in handles ==> Spared(pools, svs, pools', svs', id)
  }

  lemma FreedSparesAll(pools: Pools, fates: Fates, svs: Svs, refs: Refs, next: nat, y: Id,
                       pools': Pools, fates': Fates)
    requires Forest(pools, fates) && Owned(pools, svs) && Referenced(svs, refs, {y}, next) && y in svs
    requires Forest(pools', fates') && Owned(pools', Released(svs, pools'.Keys) - {y})
    requires Freed(pools, svs[y], pools')
    ensures AllSpared(pools, svs, pools', Released(svs, pools'.Keys) - {y}, refs.handles)
  {
    var svs' := Released(svs, pools'.Keys) - {y};
    forall id | id in refs.handles && KeepsPools(pools, svs, id)
      ensures Spared(pools, svs, pools', svs', id)
    {
      FreedKeeps(pools, fates, svs, refs, next, y, pools', fates', id);
    }
  }

  lemma SparedTwice(pools: Pools, svs: Svs, pools': Pools, svs': Svs, pools'': Pools, svs'': Svs, id: Id)
    requires Owned(pools, svs)
    requires Spared(pools, svs, pools', svs', id) && Spared(pools', svs', pools'', svs'', id)
    ensures Spared(pools, svs, pools'', svs'', id)
  {
    if KeepsPools(pools, svs, id) {
      forall x | Holds(svs, id, x) ensures Same(pools, svs, pools'', svs'', x) {
        HoldsSame(pools, svs, pools', svs', id, x);
        assert Same(pools, svs, pools', svs', x) && Same(pools', svs', pools'', svs'', x);
      }
    }
  }

  lemma AllSparedTwice(pools: Pools, svs: Svs, pools': Pools, svs': Svs, pools'': Pools, svs'': Svs,
                       handles: multiset<Id>)
    requires Owned(pools, svs)
    requires AllSpared(pools, svs, pools', svs', handles) && AllSpared(pools', svs', pools'', svs'', handles)
    ensures AllSpared(pools, svs, pools'', svs'', handles)
  {
    forall id | id in handles ensures Spared(pools, svs, pools'', svs'', id) {
      SparedTwice(pools, svs, pools', svs', pools'', svs'', id);
    }
  }

  /** Where nothing goes and nothing changes, everything is spared. */
  lemma GrowthSparesAll(pools: Pools, fates: Fates, svs: Svs, pools': Pools, fates': Fates, svs': Svs,
                        handles: multiset<Id>)
    requires Forest(pools, fates) && Owned(pools, svs) && Forest(pools', fates') && Owned(pools', svs')
    requires forall x :: x in svs ==> x in svs' && svs'[x] == svs[x]
    requires Among(pools, pools')
    ensures AllSpared(pools, svs, pools', svs', handles)
  {
    forall id | id in handles && KeepsPools(pools, svs, id) ensures Spared(pools, svs, pools', svs', id) {
      forall x | Holds(svs, id, x) ensures Same(pools, svs, pools', svs', x) {
        HoldsUp(pools, fates, svs, id, x);
      }
      StillKeeps(pools, fates, svs, pools', fates', svs', id);
    }
  }

  lemma SparesItself(pools: Pools, fates: Fates, svs: Svs, id: Id)
    requires Forest(pools, fates) && Owned(pools, svs)
    ensures Spared(pools, svs, pools, svs, id)
  {
    GrowthSparesAll(pools, fates, svs, pools, fates, svs, multiset{id});
  }

  // ----- and that it keeps no more -----

  lemma {:induction false} HoldsStep(svs: Svs, id: Id, child: Id, x: Id)
    requires Holds(svs, id, child) && child in svs && svs[child].dep == Some(x) && x < child && x in svs
    ensures Holds(svs, id, x)
    decreases id
  {
    if child == id {
      assert Holds(svs, x, x);
    } else {
      HoldsStep(svs, svs[id].dep.value, child, x);
    }
  }

  /** When variables refer to one object only, every object left is held by it. */
  lemma {:induction false} OnlyHeldLeft(svs: Svs, refs: Refs, next: nat, id: Id, x: Id)
    requires Referenced(svs, refs, {}, next) && refs.temps == [] && x in svs
    requires forall h :: h in refs.handles ==> h == id
    ensures Holds(svs, id, x)
    decreases next - x
  {
    assert Reachable(svs, refs, next, x);
    if x !in refs.handles {
      HeldIff(svs, x, next);
      var child :| 0 <= child < next && child in svs && svs[child].dep == Some(x);
      OnlyHeldLeft(svs, refs, next, id, child);
      HoldsStep(svs, id, child, x);
    }
  }

  lemma {:induction false} HeldBefore(svs: Svs, svs': Svs, live: set<Addr>, id: Id, x: Id)
    requires forall y :: y in svs' ==> y in svs && svs'[y] == Released(svs, live)[y]
    requires Holds(svs', id, x)
    ensures Holds(svs, id, x)
    decreases id
  {
    if x != id {
      HeldBefore(svs, svs', live, svs'[id].dep.value, x);
    }
  }

  /** Its pool is among those left only if it kept its pools before the others went. */
  lemma LeftOnlyIfKept(pools: Pools, fates: Fates, svs: Svs, pools': Pools, fates': Fates, svs': Svs,
                       refs: Refs, next: nat, id: Id)
    requires Forest(pools, fates) && Owned(pools, svs) && Forest(pools', fates')
    requires Referenced(svs', refs, {}, next) && Survived(pools, svs, pools', svs')
    requires refs.temps == [] && forall h :: h in refs.handles ==> h == id
    requires id in svs && svs[id].owns && svs[id].iv.value in pools'
    ensures KeepsPools(pools, svs, id)
  {
    var a := svs[id].iv.value;
    forall y | y in svs && svs[y].owns && Under(pools, a, svs[y].iv.value) ensures Holds(svs, id, y) {
      UnderSame(pools, fates, pools', fates', a, svs[y].iv.value);
      UnderSerial(pools', fates', a, svs[y].iv.value);
      OnlyHeldLeft(svs', refs, next, id, y);
      HeldBefore(svs, svs', pools'.Keys, id, y);
    }
  }

  // ----- the record of destructions -----

  ghost predicate Logged(fates: Fates, destroyed: seq<nat>) {
    && (forall i, j :: 0 <= i < j < |destroyed| ==> destroyed[i] != destroyed[j])
    && (forall i :: 0 <= i < |destroyed| ==> destroyed[i] < |fates| && fates[destroyed[i]].None?)
    && (forall n :: 0 <= n < |fates| && fates[n].None? ==> n in destroyed)
  }

  lemma LoggedDestroy(fates: Fates, destroyed: seq<nat>, n: nat)
    requires Logged(fates, destroyed) && n < |fates| && fates[n].Some?
    ensures Logged(fates[n := None], destroyed + [n])
  {
  }

  /** Destroying a pool without children whose cleanups have run keeps everything. */
  lemma LeafDestroyed(pools: Pools, fates: Fates, svs: Svs, destroyed: seq<nat>, a: Addr)
    requires Forest(pools, fates) && Owned(pools, svs) && Named(fates, svs) && Logged(fates, destroyed)
    requires a in pools && pools[a].account.None? && Leaf(pools, a)
    ensures var n := pools[a].serial;
            && Forest(pools - {a}, fates[n := None]) && Owned(pools - {a}, svs)
            && Named(fates[n := None], svs) && Logged(fates[n := None], destroyed + [n])
  {
    LoggedDestroy(fates, destroyed, pools[a].serial);
    LeafGoes(pools, fates, svs, a);
  }
}

/** APR::Pool: Perl objects over APR pools. */
module AprPool {
  import opened Wrappers
  import opened AprPoolSpec

  /** What becomes of a clear: refused by the typemap, a stale address followed, or done. */
  datatype Outcome = Refused | Stray | Done

  class Perl {
    var pools: Pools
    var svs: Svs
    var refs: Refs
    var nextId: nat
    var fates: Fates
    ghost var destroyed: seq<nat>
    ghost var dying: set<Id>

    ghost predicate Valid()
      reads this
    {
      && Forest(pools, fates)
      && Owned(pools, svs)
      && Named(fates, svs)
      && Referenced(svs, refs, dying, nextId)
      && Logged(fates, destroyed)
    }

    constructor ()
      ensures Valid() && pools == map[] && svs == map[] && dying == {}
      ensures fates == [] && refs == Refs(multiset{}, [])
    {
      pools, svs, refs, nextId := map[], map[], Refs(multiset{}, []), 0;
      fates, destroyed, dying := [], [], {};
    }

    /** sv_2mortal of the parent object that the magic of id holds, given up at FREETMPS only. */
    method MakeMortal(id: Id)
      requires Valid() && id in svs
      modifies this`refs
      ensures Valid() && refs == WithMortal(old(refs), svs[id].dep)
      ensures svs[id].dep.Some? ==> svs[id].dep.value in refs.temps
    {
      if svs[id].dep.Some? {
        var parent := svs[id].dep.value;
        HeldByChild(svs, parent, id, nextId);
        var more := refs.(temps := refs.temps + [parent]);
        MoreReferenced(svs, refs, more, parent, dying, nextId);
        refs := more;
      }
    }

    /** The magic and the address go, and the cleanup with them. */
    method Disown(a: Addr, id: Id)
      requires Valid() && a in pools && pools[a].account == Some(id) && Leaf(pools, a)
      requires svs[id].dep.Some? ==> svs[id].dep.value in refs.temps
      modifies this`pools, this`svs
      ensures Valid()
      ensures pools == WithAccount(old(pools), a, None)
      ensures svs == Disowned(old(svs), id)
    {
      CleanupKeepsOwned(pools, svs, a);
      CleanupKeepsReferenced(svs, id, refs, dying, nextId);
      WithAccountForest(pools, fates, a, None);
      svs := Disowned(svs, id);
      pools := WithAccount(pools, a, None);
    }

    /**
     * The cleanups of the pool at a, and with them mpxs_apr_pool_cleanup if it is there: the
     * parent object that the owner's magic holds outlives the destruction under way.
     */
    method RunCleanups(a: Addr)
      requires Valid() && a in pools && Leaf(pools, a)
      modifies this`pools, this`svs, this`refs
      ensures Valid()
      ensures pools == WithAccount(old(pools), a, None)
      ensures svs == Released(old(svs), old(pools).Keys - {a})
      ensures refs == WithMortal(old(refs), HeldBy(old(pools), old(svs), a))
    {
      DisownedIsReleased(pools, svs, a);
      if pools[a].account.Some? {
        var id := pools[a].account.value;
        MakeMortal(id);
        Disown(a, id);
      } else {
        assert pools == WithAccount(pools, a, None);
      }
    }

    /** The end of apr_pool_destroy, when no child is left. */
    method DestroyLeaf(a: Addr)
      requires Valid() && a in pools && Leaf(pools, a)
      modifies this`pools, this`svs, this`refs, this`destroyed, this`fates
      ensures Valid() && pools == old(pools) - {a}
      ensures svs == Released(old(svs), pools.Keys)
      ensures refs == WithMortal(old(refs), HeldBy(old(pools), old(svs), a))
      ensures destroyed == old(destroyed) + [old(pools)[a].serial]
      ensures |fates| == |old(fates)|
    {
      RunCleanups(a);
      assert pools - {a} == old(pools) - {a};
      LeafDestroyed(pools, fates, svs, destroyed, a);
      destroyed := destroyed + [pools[a].serial];
      fates := fates[pools[a].serial := None];
      pools := pools - {a};
    }

    /** apr_pool_destroy of every child. */
    method DestroyChildren(a: Addr)
      requires Valid() && a in pools
      modifies this`pools, this`svs, this`refs, this`destroyed, this`fates
      ensures Valid() && Cut(old(pools), pools, a) && Leaf(pools, a)
      ensures svs == Released(old(svs), pools.Keys)
      ensures refs.handles == old(refs).handles
      ensures old(destroyed) <= destroyed && |fates| == |old(fates)|
      decreases |fates| - pools[a].serial, 0
    {
      ReleasedNothing(pools, svs);
      while exists c :: c in pools && pools[c].parent == Some(a)
        invariant Valid() && a in pools && Thinned(old(pools), pools, a)
        invariant svs == Released(old(svs), pools.Keys)
        invariant refs.handles == old(refs).handles
        invariant old(destroyed) <= destroyed && |fates| == |old(fates)|
        decreases pools.Keys
      {
        var c :| c in pools && pools[c].parent == Some(a);
        ghost var was, fates' := pools, fates;
        DestroyPool(c);
        ThinnedMore(old(pools), old(fates), was, fates', pools, a, c);
        ReleasedTwice(old(svs), was.Keys, pools.Keys);
      }
      ThinnedToCut(old(pools), old(fates), pools, fates, a);
    }

    /** apr_pool_destroy. */
    method DestroyPool(a: Addr)
      requires Valid() && a in pools
      modifies this`pools, this`svs, this`refs, this`destroyed, this`fates
      ensures Valid() && Gone(old(pools), pools, a)
      ensures svs == Released(old(svs), pools.Keys)
      ensures refs.handles == old(refs).handles
      ensures old(destroyed) <= destroyed && |fates| == |old(fates)|
      decreases |fates| - pools[a].serial, 1
    {
      DestroyChildren(a);
      ghost var left := pools;
      CutToGone(old(pools), old(fates), left, a);
      DestroyLeaf(a);
      ReleasedTwice(old(svs), left.Keys, pools.Keys);
    }

    /** apr_pool_create: the allocator gives any address where no live pool is. */
    method CreatePool(at: Addr, parent: Option<Addr>)
      requires Valid() && at !in pools && (parent.Some? ==> parent.value in pools)
      modifies this`pools, this`fates
      ensures Valid() && fates == old(fates) + [Some(at)]
      ensures pools == old(pools)[at := Pool(|old(fates)|, parent, None)]
    {
      BirthKeeps(pools, fates, svs, at, parent);
      pools := pools[at := Pool(|fates|, parent, None)];
      fates := fates + [Some(at)];
    }

    /** apr_pool_clear: the pool itself stays. */
    method ClearPool(a: Addr)
      requires Valid() && a in pools
      modifies this`pools, this`svs, this`refs, this`destroyed, this`fates
      ensures Valid() && Cleared(old(pools), pools, a, None)
      ensures svs == Released(old(svs), pools.Keys - {a})
      ensures refs.handles == old(refs).handles && old(destroyed) <= destroyed && |fates| == |old(fates)|
    {
      DestroyChildren(a);
      ghost var left := pools;
      CutToCleared(old(pools), old(fates), left, a);
      ReleasedTwice(old(svs), left.Keys, left.Keys - {a});
      RunCleanups(a);
      assert pools.Keys == left.Keys;
    }

    /** MP_APR_POOL_SV_TAKES_OWNERSHIP. */
    method TakeOwnership(id: Id, a: Addr)
      requires Valid() && a in pools && pools[a].account.None?
      requires id in svs && !svs[id].owns && svs[id].dep.None? && svs[id].born == pools[a].serial
      modifies this`svs, this`pools
      ensures Valid() && svs == Owning(old(svs), id, a)
      ensures pools == WithAccount(old(pools), a, Some(id))
    {
      TakingKeepsOwned(pools, svs, id, a);
      TakingKeepsReferenced(svs, refs, dying, nextId, id, a);
      WithAccountForest(pools, fates, a, Some(id));
      svs := Owning(svs, id, a);
      pools := WithAccount(pools, a, Some(id));
    }

    /** sv_setref_pv: a new object that names the pool at a, and does not own it. */
    method Wrap(a: Addr) returns (id: Id)
      requires Valid() && a in pools && dying == {}
      modifies this`svs, this`refs, this`nextId
      ensures Valid() && id == old(nextId)
      ensures svs == old(svs)[id := Sv(Some(a), false, None, pools[a].serial)]
      ensures refs == old(refs).(handles := old(refs).handles + multiset{id})
    {
      id := nextId;
      var sv := Sv(Some(a), false, None, pools[a].serial);
      NewOwned(pools, svs, id, sv);
      NewReferenced(svs, refs, dying, id, sv);
      svs := svs[id := sv];
      refs := refs.(handles := refs.handles + multiset{id});
      nextId := nextId + 1;
    }

    /** mpxs_add_pool_magic: the child's magic holds the parent object. */
    method AddPoolMagic(id: Id, parent: Id)
      requires Valid() && id in svs && svs[id].owns && svs[id].dep.None?
      requires parent in svs && parent < id && dying == {}
      requires svs[parent].owns && pools[svs[id].iv.value].parent == svs[parent].iv
      modifies this`svs
      ensures Valid() && svs == Depending(old(svs), id, parent)
    {
      DependingKeeps(pools, svs, refs, dying, nextId, id, parent);
      svs := Depending(svs, id, parent);
    }

    /** A new pool, and the new object that owns it. */
    method NewOwner(at: Addr, above: Option<Addr>) returns (id: Id)
      requires Valid() && dying == {} && at !in pools && (above.Some? ==> above.value in pools)
      modifies this
      ensures Valid() && dying == {} && destroyed == old(destroyed)
      ensures id == old(nextId) && refs == old(refs).(handles := old(refs).handles + multiset{id})
      ensures pools == old(pools)[at := Pool(|old(fates)|, above, Some(id))]
      ensures svs == old(svs)[id := Sv(Some(at), true, None, |old(fates)|)]
      ensures fates == old(fates) + [Some(at)]
    {
      CreatePool(at, above);
      id := Wrap(at);
      TakeOwnership(id, at);
      OwnerMade(old(pools), old(svs), at, above, id, |old(fates)|);
    }

    /** The pool an object, or no object, stands for as a parent. */
    ghost function Above(parent: Option<Id>): Option<Addr>
      reads this`svs
      requires parent.Some? ==> parent.value in svs
    {
      if parent.Some? then svs[parent.value].iv else None
    }

    /** The object a child made from it will hold. */
    ghost function Holding(parent: Option<Id>): Option<Id>
      reads this`svs
      requires parent.Some? ==> parent.value in svs
    {
      if parent.Some? && svs[parent.value].owns then parent else None
    }

    /** The object names an address where no pool lives any more. */
    predicate Astray(id: Id)
      reads this`svs, this`pools
      requires id in svs
    {
      svs[id].iv.Some? && svs[id].iv.value !in pools
    }

    method CreateBelow(parent: Option<Id>, at: Addr) returns (id: Id)
      requires Valid() && dying == {} && at !in pools
      requires parent.Some? ==> parent.value in svs && !Astray(parent.value)
      modifies this
      ensures Valid() && dying == {} && destroyed == old(destroyed) && fates == old(fates) + [Some(at)]
      ensures id !in old(svs) && refs.handles == old(refs).handles + multiset{id}
      ensures pools == old(pools)[at := Pool(|old(fates)|, old(Above(parent)), Some(id))]
      ensures svs == old(svs)[id := Sv(Some(at), true, old(Holding(parent)), |old(fates)|)]
    {
      var above := if parent.Some? then svs[parent.value].iv else None;
      ghost var holding := Holding(parent);
      id := NewOwner(at, above);
      if above.Some? && svs[parent.value].owns {
        AddPoolMagic(id, parent.value);
        assert holding == parent;
      } else {
        assert holding == None;
      }
    }

    /**
     * mpxs_apr_pool_create. A class name and an object that has lost its pool both stand for the
     * global pool. Only an owner is held. A parent that has gone astray makes the program follow a
     * stale address; here nothing is created then.
     */
    method Create(parent: Option<Id>, at: Addr) returns (made: Option<Id>)
      requires Valid() && dying == {} && at !in pools
      requires parent.Some? ==> parent.value in svs
      modifies this
      ensures Valid() && dying == {} && destroyed == old(destroyed)
      ensures made.None? <==> parent.Some? && old(Astray(parent.value))
      ensures made.None? ==> pools == old(pools) && svs == old(svs) && refs == old(refs) && fates == old(fates)
      ensures made.Some? ==>
                && made.value !in old(svs) && refs.handles == old(refs).handles + multiset{made.value}
                && fates == old(fates) + [Some(at)]
                && pools == old(pools)[at := Pool(|old(fates)|, old(Above(parent)), made)]
                && svs == old(svs)[made.value := Sv(Some(at), true, old(Holding(parent)), |old(fates)|)]
      ensures made.Some? ==>
                && (parent.None? ==> pools[at].parent.None? && svs[made.value].dep.None?)
                && (parent.Some? ==> pools[at].parent == old(svs)[parent.value].iv)
                && (parent.Some? && old(svs)[parent.value].owns ==> svs[made.value].dep == parent)
                && (parent.Some? && !old(svs)[parent.value].owns ==> svs[made.value].dep.None?)
    {
      if parent.Some? && Astray(parent.value) {
        return None;
      }
      var id := CreateBelow(parent, at);
      return Some(id);
    }

    /** APR::Pool's destroy and DESTROY: exactly the pool the object was made for, if it owns it. */
    method Destroy(id: Id)
      requires Valid() && id in svs
      modifies this`pools, this`svs, this`refs, this`destroyed, this`fates
      ensures Valid() && refs.handles == old(refs).handles && old(destroyed) <= destroyed
      ensures id in svs && !svs[id].owns
      ensures svs == Released(old(svs), pools.Keys)
      ensures if old(svs)[id].owns
              then var a := old(svs)[id].iv.value;
                   && old(pools)[a].serial == old(svs)[id].born && a !in pools
                   && Gone(old(pools), pools, a) && old(svs)[id].born in destroyed
              else pools == old(pools) && destroyed == old(destroyed)
      ensures |fates| == |old(fates)|
    {
      if svs[id].owns {
        assert Under(pools, svs[id].iv.value, svs[id].iv.value);
        DestroyPool(svs[id].iv.value);
        GoneIsDestroyed(old(pools), old(fates), pools, fates, old(svs)[id].iv.value);
      } else {
        ReleasedNothing(pools, svs);
      }
    }

    method ClearNamed(id: Id, a: Addr)
      requires Valid() && id in svs && svs[id].iv == Some(a) && a in pools
      modifies this`pools, this`svs, this`refs, this`destroyed, this`fates
      ensures Valid() && refs.handles == old(refs).handles && old(destroyed) <= destroyed
      ensures |fates| == |old(fates)|
      ensures Cleared(old(pools), pools, a, if old(svs)[id].owns then Some(id) else None)
      ensures svs == Reowned(Released(old(svs), pools.Keys - {a}), id, a, old(svs)[id].owns)
    {
      if svs[id].owns {
        ClearOwned(id, a);
      } else {
        ClearPool(a);
      }
    }

    /** Clearing takes the ownership away, and gives it back. */
    method ClearOwned(id: Id, a: Addr)
      requires Valid() && id in svs && svs[id].owns && svs[id].iv == Some(a) && a in pools
      modifies this`pools, this`svs, this`refs, this`destroyed, this`fates
      ensures Valid() && refs.handles == old(refs).handles && old(destroyed) <= destroyed
      ensures |fates| == |old(fates)| && Cleared(old(pools), pools, a, Some(id))
      ensures svs == Owning(Released(old(svs), pools.Keys - {a}), id, a)
    {
      assert svs[id].born == pools[a].serial;
      ClearPool(a);
      ClearedAgain(old(pools), old(fates), pools, a, Some(id));
      ghost var keys := pools.Keys;
      TakeOwnership(id, a);
      assert pools.Keys == keys;
    }

    /**
     * APR::Pool's clear: the typemap refuses an object without a pool. What an object that has
     * gone astray makes the program do is undefined; here nothing is done then.
     */
    method Clear(id: Id) returns (outcome: Outcome)
      requires Valid() && id in svs
      modifies this`pools, this`svs, this`refs, this`destroyed, this`fates
      ensures Valid() && refs.handles == old(refs).handles && old(destroyed) <= destroyed
      ensures |fates| == |old(fates)|
      ensures outcome == if old(svs)[id].iv.None? then Refused else if old(Astray(id)) then Stray else Done
      ensures outcome != Done ==> pools == old(pools) && svs == old(svs)
      ensures outcome == Done ==>
                var a, owned := old(svs)[id].iv.value, old(svs)[id].owns;
                && Cleared(old(pools), pools, a, if owned then Some(id) else None)
                && svs == Reowned(Released(old(svs), pools.Keys - {a}), id, a, owned)
                && (pools[a].serial == old(svs)[id].born
                    <==> owned || old(fates)[old(svs)[id].born] == Some(a))
                && (owned ==> svs[id].owns && svs[id].iv == Some(a) && svs[id].dep.None?)
    {
      if svs[id].iv.None? {
        return Refused;
      }
      if Astray(id) {
        return Stray;
      }
      ActsOnOwnPool(pools, fates, svs, id);
      ClearNamed(id, svs[id].iv.value);
      return Done;
    }

    /** Perl frees an object whose last reference went: DESTROY, and then it is gone. */
    method Free(id: Id)
      requires Valid() && id in svs && dying == {id}
      modifies this`pools, this`svs, this`refs, this`destroyed, this`fates, this`dying
      ensures Valid() && dying == {} && svs.Keys == old(svs).Keys - {id}
      ensures refs.handles == old(refs).handles && old(destroyed) <= destroyed && |fates| == |old(fates)|
      ensures svs == Released(old(svs), pools.Keys) - {id}
      ensures Freed(old(pools), old(svs)[id], pools)
    {
      Destroy(id);
      FreeingKeeps(pools, svs, refs, id, nextId);
      svs := svs - {id};
      dying := {};
    }

    /** A reference to the object is gone. */
    method LoseReference(id: Id, less: Refs)
      requires Valid() && dying == {} && id in svs
      requires forall x :: x in less.handles ==> x in refs.handles
      requires forall x :: x in less.temps ==> x in refs.temps
      requires forall x :: x != id ==> (x in refs.handles ==> x in less.handles)
      requires forall x :: x != id ==> (x in refs.temps ==> x in less.temps)
      modifies this`pools, this`svs, this`refs, this`destroyed, this`fates, this`dying
      ensures Valid() && dying == {} && refs.handles == less.handles
      ensures old(destroyed) <= destroyed && |fates| == |old(fates)|
      ensures if Reachable(old(svs), less, nextId, id)
              then svs == old(svs) && refs == less && pools == old(pools)
              else
                && svs.Keys == old(svs).Keys - {id} && svs == Released(old(svs), pools.Keys) - {id}
                && Freed(old(pools), old(svs)[id], pools)
      ensures AllSpared(old(pools), old(svs), pools, svs, refs.handles)
    {
      FewerReferenced(svs, refs, less, id, nextId);
      refs := less;
      if !Reachable(svs, refs, nextId, id) {
        dying := {id};
        Free(id);
        FreedSparesAll(old(pools), old(fates), old(svs), less, nextId, id, pools, fates);
      } else {
        GrowthSparesAll(pools, fates, svs, pools, fates, svs, refs.handles);
      }
    }

    /** A variable that referred to the object goes out of scope, or is given another value. */
    method Forget(id: Id)
      requires Valid() && dying == {} && id in refs.handles
      modifies this`pools, this`svs, this`refs, this`destroyed, this`fates, this`dying
      ensures Valid() && dying == {} && refs.handles == old(refs).handles - multiset{id}
      ensures old(destroyed) <= destroyed && |fates| == |old(fates)|
      ensures id in svs <==> Reachable(old(svs), old(refs).(handles := refs.handles), nextId, id)
      ensures id in svs ==> svs == old(svs) && pools == old(pools)
      ensures id !in svs ==> svs == Released(old(svs), pools.Keys) - {id}
      ensures id !in svs ==> Freed(old(pools), old(svs)[id], pools)
      ensures AllSpared(old(pools), old(svs), pools, svs, refs.handles)
    {
      LoseReference(id, refs.(handles := refs.handles - multiset{id}));
    }

    /** Another variable refers to the object. */
    method Copy(id: Id)
      requires Valid() && dying == {} && id in refs.handles
      modifies this`refs
      ensures Valid() && refs == old(refs).(handles := old(refs).handles + multiset{id})
    {
      var more := refs.(handles := refs.handles + multiset{id});
      MoreReferenced(svs, refs, more, id, dying, nextId);
      refs := more;
    }

    /** The last mortal is released. */
    method FreeTop(ghost was: Pools, ghost fates0: Fates, ghost svs0: Svs)
      requires Valid() && dying == {} && refs.temps != [] && Forest(was, fates0) && Owned(was, svs0)
      requires Survived(was, svs0, pools, svs) && AllSpared(was, svs0, pools, svs, refs.handles)
      modifies this`pools, this`svs, this`refs, this`destroyed, this`fates, this`dying
      ensures Valid() && dying == {} && refs.handles == old(refs).handles
      ensures old(destroyed) <= destroyed && |fates| == |old(fates)|
      ensures Survived(was, svs0, pools, svs) && AllSpared(was, svs0, pools, svs, refs.handles)
      ensures svs.Keys < old(svs).Keys || (svs.Keys == old(svs).Keys && |refs.temps| < |old(refs).temps|)
    {
      var top := refs.temps[|refs.temps| - 1];
      var less := refs.(temps := refs.temps[..|refs.temps| - 1]);
      assert refs.temps == less.temps + [top];
      ghost var pools', fates', svs' := pools, fates, svs;
      LoseReference(top, less);
      AllSparedTwice(was, svs0, pools', svs', pools, svs, refs.handles);
      if top !in svs {
        SurvivedMore(was, fates0, svs0, pools', fates', svs', pools, svs, top);
      }
    }

    /**
     * FREETMPS: an object freed on the way may leave more mortals. In the end every object is
     * referred to by a variable or by a child's magic, and only what the freed ones owned is gone.
     */
    method FreeTemps()
      requires Valid() && dying == {}
      modifies this`pools, this`svs, this`refs, this`destroyed, this`fates, this`dying
      ensures Valid() && dying == {} && refs.temps == [] && refs.handles == old(refs).handles
      ensures old(destroyed) <= destroyed && |fates| == |old(fates)|
      ensures forall id :: id in svs ==> id in refs.handles || Held(svs, id, nextId)
      ensures Survived(old(pools), old(svs), pools, svs)
      ensures AllSpared(old(pools), old(svs), pools, svs, refs.handles)
    {
      ReleasedNothing(pools, svs);
      SurvivedAll(pools, svs);
      GrowthSparesAll(pools, fates, svs, pools, fates, svs, refs.handles);
      while refs.temps != []
        invariant Valid() && dying == {} && refs.handles == old(refs).handles
        invariant old(destroyed) <= destroyed && |fates| == |old(fates)|
        invariant Survived(old(pools), old(svs), pools, svs)
        invariant AllSpared(old(pools), old(svs), pools, svs, refs.handles)
        decreases svs.Keys, |refs.temps|
      {
        FreeTop(old(pools), old(fates), old(svs));
      }
      assert forall id :: id in svs ==> Reachable(svs, refs, nextId, id);
    }
  }

  /**
   * What Perl code, and C code beside it, can do. Perl code uses the objects it has variables
   * for; C code creates, clears and destroys any live pools, whoever made them.
   */
  datatype Op =
    | New(parent: Option<Id>, at: Addr)
    | ClearObject(id: Id)
    | DestroyObject(id: Id)
    | CopyHandle(id: Id)
    | ScopeExit(id: Id)
    | FreeTmps
    | ParentGet(id: Id)
    | PoolCreate(at: Addr, above: Option<Addr>)
    | PoolClear(a: Addr)
    | PoolDestroy(a: Addr)

  /** One operation, by whoever can do it. */
  method Do(perl: Perl, op: Op)
    requires perl.Valid() && perl.dying == {}
    modifies perl
    ensures perl.Valid() && perl.dying == {} && old(perl.destroyed) <= perl.destroyed
    ensures |old(perl.fates)| <= |perl.fates|
    ensures NoneClaimed(old(perl.pools), old(perl.fates), perl.pools)
  {
    if op.FreeTmps? {
      perl.FreeTemps();
    } else if op.PoolClear? {
      if op.a in perl.pools {
        perl.ClearPool(op.a);
      }
    } else if op.PoolDestroy? {
      if op.a in perl.pools {
        perl.DestroyPool(op.a);
      }
    } else if op.New? || op.CopyHandle? || op.ParentGet? || op.PoolCreate? {
      Grow(perl, op);
    } else if op.id in perl.refs.handles {
      UseUp(perl, op);
    }
  }

  /** The operations on an object in a variable that may take something away. */
  method UseUp(perl: Perl, op: Op)
    requires perl.Valid() && perl.dying == {}
    requires (op.ClearObject? || op.DestroyObject? || op.ScopeExit?) && op.id in perl.refs.handles
    modifies perl
    ensures perl.Valid() && perl.dying == {} && old(perl.destroyed) <= perl.destroyed
    ensures |old(perl.fates)| <= |perl.fates|
    ensures NoneClaimed(old(perl.pools), old(perl.fates), perl.pools)
  {
    match op {
      case ClearObject(id) =>
        var _ := perl.Clear(id);
      case DestroyObject(id) =>
        perl.Destroy(id);
      case ScopeExit(id) =>
        perl.Forget(id);
    }
  }

  /** The operations that only add. */
  method Grow(perl: Perl, op: Op)
    requires perl.Valid() && perl.dying == {}
    requires op.New? || op.CopyHandle? || op.ParentGet? || op.PoolCreate?
    modifies perl
    ensures perl.Valid() && perl.dying == {} && old(perl.refs.handles) <= perl.refs.handles
    ensures forall x :: x in old(perl.svs) ==> x in perl.svs && perl.svs[x] == old(perl.svs)[x]
    ensures forall a :: a in old(perl.pools) ==> a in perl.pools && perl.pools[a] == old(perl.pools)[a]
    ensures perl.destroyed == old(perl.destroyed) && |old(perl.fates)| <= |perl.fates|
    ensures NoneClaimed(old(perl.pools), old(perl.fates), perl.pools)
  {
    if op.New? || op.PoolCreate? {
      AddPool(perl, op);
    } else if op.id in perl.refs.handles {
      AddReference(perl, op);
    }
  }

  method AddPool(perl: Perl, op: Op)
    requires perl.Valid() && perl.dying == {} && (op.New? || op.PoolCreate?)
    modifies perl
    ensures perl.Valid() && perl.dying == {} && old(perl.refs.handles) <= perl.refs.handles
    ensures forall x :: x in old(perl.svs) ==> x in perl.svs && perl.svs[x] == old(perl.svs)[x]
    ensures forall a :: a in old(perl.pools) ==> a in perl.pools && perl.pools[a] == old(perl.pools)[a]
    ensures perl.destroyed == old(perl.destroyed) && |old(perl.fates)| <= |perl.fates|
    ensures NoneClaimed(old(perl.pools), old(perl.fates), perl.pools)
  {
    if op.New? {
      if op.at !in perl.pools && (op.parent.Some? ==> op.parent.value in perl.refs.handles) {
        var _ := perl.Create(op.parent, op.at);
      }
    } else {
      AddCorePool(perl, op.at, op.above);
    }
  }

  method AddCorePool(perl: Perl, at: Addr, above: Option<Addr>)
    requires perl.Valid() && perl.dying == {}
    modifies perl`pools, perl`fates
    ensures perl.Valid() && |old(perl.fates)| <= |perl.fates|
    ensures forall a :: a in old(perl.pools) ==> a in perl.pools && perl.pools[a] == old(perl.pools)[a]
    ensures NoneClaimed(old(perl.pools), old(perl.fates), perl.pools)
  {
    if at !in perl.pools && (above.Some? ==> above.value in perl.pools) {
      perl.CreatePool(at, above);
    }
  }

  method AddReference(perl: Perl, op: Op)
    requires perl.Valid() && perl.dying == {} && (op.CopyHandle? || op.ParentGet?)
    requires op.id in perl.refs.handles
    modifies perl
    ensures perl.Valid() && perl.dying == {} && old(perl.refs.handles) <= perl.refs.handles
    ensures forall x :: x in old(perl.svs) ==> x in perl.svs && perl.svs[x] == old(perl.svs)[x]
    ensures unchanged(perl`pools, perl`fates, perl`destroyed)
  {
    if op.CopyHandle? {
      perl.Copy(op.id);
    } else if perl.svs[op.id].iv.Some? && !perl.Astray(op.id) {
      var parent := perl.pools[perl.svs[op.id].iv.value].parent;
      if parent.Some? {
        var _ := perl.Wrap(parent.value);
      }
    }
  }

  /**
   * From any valid state on: what is destroyed stays so, and a pool that has no owner, or has lost
   * it to a clear through another object, never gets one again.
   */
  method Continue(perl: Perl, ops: seq<Op>)
    requires perl.Valid() && perl.dying == {}
    modifies perl
    ensures perl.Valid() && perl.dying == {}
    ensures Later(old(perl.fates), old(perl.pools), perl.fates, perl.pools)
  {
    for i := 0 to |ops|
      invariant perl.Valid() && perl.dying == {}
      invariant Later(old(perl.fates), old(perl.pools), perl.fates, perl.pools)
    {
      ghost var fates, pools := perl.fates, perl.pools;
      Do(perl, ops[i]);
      NoneClaimedIsLater(pools, fates, perl.pools, perl.fates);
      LaterStill(old(perl.fates), old(perl.pools), fates, pools, perl.fates, perl.pools);
    }
  }

  /**
   * Over every run, from nothing: an object that owns names a live pool, the very one made for
   * it, and is its only owner; and no pool is destroyed twice, whatever addresses come again.
   */
  method Run(ops: seq<Op>) returns (perl: Perl)
    ensures fresh(perl) && perl.Valid()
    ensures forall id :: id in perl.svs && perl.svs[id].owns ==>
              var iv := perl.svs[id].iv;
              iv.Some? && iv.value in perl.pools && perl.pools[iv.value].serial == perl.svs[id].born
              && perl.pools[iv.value].account == Some(id)
    ensures forall i, j :: 0 <= i < j < |perl.destroyed| ==> perl.destroyed[i] != perl.destroyed[j]
    ensures forall n :: 0 <= n < |perl.fates| ==> (perl.fates[n].None? <==> n in perl.destroyed)
  {
    perl := new Perl();
    Continue(perl, ops);
  }

  /** Whether Perl code that does this destroys and clears nothing itself. */
  predicate Harmless(op: Op) {
    op.New? || op.CopyHandle? || op.ScopeExit? || op.FreeTmps? || op.ParentGet? || op.PoolCreate?
  }

  /** A variable stays that refers to the object. */
  predicate Stays(perl: Perl, op: Op, id: Id)
    reads perl
  {
    op.ScopeExit? && op.id == id ==> perl.refs.handles[id] > 1
  }

  /**
   * As long as a variable refers to an object that keeps its pools, no other variables' going out
   * of scope, and no release of mortals, takes its pool or one above it.
   */
  method KeepAlive(perl: Perl, id: Id, ops: seq<Op>)
    requires perl.Valid() && perl.dying == {} && id in perl.refs.handles
    requires KeepsPools(perl.pools, perl.svs, id)
    requires forall i :: 0 <= i < |ops| ==> Harmless(ops[i])
    modifies perl
    ensures perl.Valid() && perl.dying == {} && id in perl.refs.handles
    ensures Spared(old(perl.pools), old(perl.svs), perl.pools, perl.svs, id)
  {
    SparesItself(perl.pools, perl.fates, perl.svs, id);
    for i := 0 to |ops|
      invariant perl.Valid() && perl.dying == {} && id in perl.refs.handles
      invariant Spared(old(perl.pools), old(perl.svs), perl.pools, perl.svs, id)
    {
      if Stays(perl, ops[i], id) {
        ghost var pools, svs := perl.pools, perl.svs;
        DoHarmless(perl, ops[i], id);
        SparedTwice(old(perl.pools), old(perl.svs), pools, svs, perl.pools, perl.svs, id);
      }
    }
  }

  method DoHarmless(perl: Perl, op: Op, id: Id)
    requires perl.Valid() && perl.dying == {} && id in perl.refs.handles
    requires Harmless(op) && Stays(perl, op, id)
    modifies perl
    ensures perl.Valid() && perl.dying == {} && id in perl.refs.handles
    ensures Spared(old(perl.pools), old(perl.svs), perl.pools, perl.svs, id)
  {
    SparesItself(perl.pools, perl.fates, perl.svs, id);
    if op.ScopeExit? {
      if op.id in perl.refs.handles {
        perl.Forget(op.id);
      }
    } else if op.FreeTmps? {
      perl.FreeTemps();
    } else {
      Grow(perl, op);
      GrowthSparesAll(old(perl.pools), old(perl.fates), old(perl.svs),
                      perl.pools, perl.fates, perl.svs, multiset{id});
      assert Spared(old(perl.pools), old(perl.svs), perl.pools, perl.svs, id);
    }
  }

  /**
   * Exactly what an object keeps alive: when the variables that refer to any other object are
   * gone, and the mortals, its pool is still there if and only if it held every object that owned
   * a pool above that one.
   */
  method LetOthersGo(perl: Perl, id: Id)
    requires perl.Valid() && perl.dying == {} && id in perl.refs.handles && perl.svs[id].owns
    modifies perl
    ensures perl.Valid() && perl.dying == {} && perl.refs.temps == []
    ensures forall x :: x in perl.refs.handles <==> x == id
    ensures Spared(old(perl.pools), old(perl.svs), perl.pools, perl.svs, id)
    ensures var a := old(perl.svs)[id].iv.value;
            a in perl.pools && perl.pools[a] == old(perl.pools)[a]
            <==> KeepsPools(old(perl.pools), old(perl.svs), id)
  {
    ForgetOthers(perl, id);
    ghost var pools, fates, svs := perl.pools, perl.fates, perl.svs;
    perl.FreeTemps();
    SparedTwice(old(perl.pools), old(perl.svs), pools, svs, perl.pools, perl.svs, id);
    SurvivedTwice(old(perl.pools), old(perl.fates), old(perl.svs), pools, fates, svs, perl.pools, perl.svs);
    var a := old(perl.svs)[id].iv.value;
    if a in perl.pools {
      LeftOnlyIfKept(old(perl.pools), old(perl.fates), old(perl.svs), perl.pools, perl.fates, perl.svs,
                     perl.refs, perl.nextId, id);
    }
    if KeepsPools(old(perl.pools), old(perl.svs), id) {
      KeptPool(old(perl.pools), old(perl.svs), perl.pools, perl.svs, id);
    }
  }

  method ForgetOthers(perl: Perl, id: Id)
    requires perl.Valid() && perl.dying == {} && id in perl.refs.handles
    modifies perl
    ensures perl.Valid() && perl.dying == {}
    ensures forall x :: x in perl.refs.handles <==> x == id
    ensures Spared(old(perl.pools), old(perl.svs), perl.pools, perl.svs, id)
    ensures Survived(old(perl.pools), old(perl.svs), perl.pools, perl.svs)
  {
    SparesItself(perl.pools, perl.fates, perl.svs, id);
    ReleasedNothing(perl.pools, perl.svs);
    SurvivedAll(perl.pools, perl.svs);
    while exists x :: x in perl.refs.handles && x != id
      invariant perl.Valid() && perl.dying == {} && id in perl.refs.handles
      invariant Spared(old(perl.pools), old(perl.svs), perl.pools, perl.svs, id)
      invariant Survived(old(perl.pools), old(perl.svs), perl.pools, perl.svs)
      decreases |perl.refs.handles|
    {
      var x :| x in perl.refs.handles && x != id;
      ghost var pools, fates, svs := perl.pools, perl.fates, perl.svs;
      perl.Forget(x);
      SparedTwice(old(perl.pools), old(perl.svs), pools, svs, perl.pools, perl.svs, id);
      if x !in perl.svs {
        SurvivedMore(old(perl.pools), old(perl.fates), old(perl.svs), pools, fates, svs,
                     perl.pools, perl.svs, x);
      }
    }
  }

  lemma KeptPool(pools: Pools, svs: Svs, pools': Pools, svs': Svs, id: Id)
    requires Spared(pools, svs, pools', svs', id) && KeepsPools(pools, svs, id)
    ensures Same(pools, svs, pools', svs', id)
  {
    assert Holds(svs, id, id);
  }

  /**
   * A pool made from an owner: the two live on when all variables but those for the new object are
   * gone, and the mortals, if and only if that owner held whatever owned a pool above its own.
   */
  method ChildKeepsParent(perl: Perl, parent: Id, at: Addr) returns (child: Id)
    requires perl.Valid() && perl.dying == {} && at !in perl.pools
    requires parent in perl.refs.handles && perl.svs[parent].owns
    modifies perl
    ensures perl.Valid() && perl.dying == {} && perl.refs.temps == []
    ensures forall x :: x in perl.refs.handles <==> x == child
    ensures var above := old(perl.svs)[parent].iv;
            var both := at in perl.pools && perl.pools[at] == Pool(|old(perl.fates)|, above, Some(child))
                        && above.value in perl.pools
                        && perl.pools[above.value] == old(perl.pools)[above.value];
            both <==> KeepsPools(old(perl.pools), old(perl.svs), parent)
  {
    child := MakeChild(perl, parent, at);
    ghost var pools, svs := perl.pools, perl.svs;
    LetOthersGo(perl, child);
    if KeepsPools(pools, svs, child) {
      KeptParent(pools, svs, perl.pools, perl.svs, child, parent);
    }
  }

  /** Nothing but the variables for the parent has to go for that: any other may. */
  method ParentGoes(perl: Perl, parent: Id, child: Id)
    requires perl.Valid() && perl.dying == {} && child in perl.refs.handles && child != parent
    requires KeepsPools(perl.pools, perl.svs, child) && perl.svs[child].dep == Some(parent) && parent < child
    modifies perl
    ensures perl.Valid() && perl.dying == {} && child in perl.refs.handles && parent !in perl.refs.handles
    ensures Same(old(perl.pools), old(perl.svs), perl.pools, perl.svs, child)
    ensures Same(old(perl.pools), old(perl.svs), perl.pools, perl.svs, parent)
    ensures parent in perl.svs && perl.svs[parent].owns
  {
    SparesItself(perl.pools, perl.fates, perl.svs, child);
    while parent in perl.refs.handles
      invariant perl.Valid() && perl.dying == {} && child in perl.refs.handles
      invariant Spared(old(perl.pools), old(perl.svs), perl.pools, perl.svs, child)
      decreases perl.refs.handles[parent]
    {
      ghost var pools, svs := perl.pools, perl.svs;
      perl.Forget(parent);
      SparedTwice(old(perl.pools), old(perl.svs), pools, svs, perl.pools, perl.svs, child);
    }
    ghost var pools, svs := perl.pools, perl.svs;
    perl.FreeTemps();
    SparedTwice(old(perl.pools), old(perl.svs), pools, svs, perl.pools, perl.svs, child);
    KeptParent(old(perl.pools), old(perl.svs), perl.pools, perl.svs, child, parent);
  }

  lemma KeptParent(pools: Pools, svs: Svs, pools': Pools, svs': Svs, child: Id, parent: Id)
    requires KeepsPools(pools, svs, child) && Spared(pools, svs, pools', svs', child)
    requires svs[child].dep == Some(parent) && parent < child && Owned(pools, svs)
    ensures Same(pools, svs, pools', svs', child) && Same(pools, svs, pools', svs', parent)
    ensures svs[parent].owns
  {
    assert pools[pools[svs[child].iv.value].parent.value].account == svs[child].dep;
    assert Holds(svs, child, child) && Holds(svs, parent, parent) && Holds(svs, child, parent);
  }

  /** The new owner keeps its pools if and only if its parent does. */
  method MakeChild(perl: Perl, parent: Id, at: Addr) returns (child: Id)
    requires perl.Valid() && perl.dying == {} && at !in perl.pools
    requires parent in perl.refs.handles && perl.svs[parent].owns
    modifies perl
    ensures perl.Valid() && perl.dying == {} && child in perl.refs.handles && parent < child
    ensures KeepsPools(perl.pools, perl.svs, child) <==> KeepsPools(old(perl.pools), old(perl.svs), parent)
    ensures var above := old(perl.svs)[parent].iv;
            && perl.svs[child] == Sv(Some(at), true, Some(parent), |old(perl.fates)|)
            && perl.pools[at] == Pool(|old(perl.fates)|, above, Some(child))
            && perl.svs[parent] == old(perl.svs)[parent]
            && above.value in perl.pools && perl.pools[above.value] == old(perl.pools)[above.value]
  {
    var made := perl.Create(Some(parent), at);
    child := made.value;
    ChildKeepsAsParent(old(perl.pools), old(perl.fates), old(perl.svs), perl.pools, perl.fates, perl.svs,
                       parent, child, at);
  }

  lemma ChildKeepsAsParent(pools: Pools, fates: Fates, svs: Svs, pools': Pools, fates': Fates, svs': Svs,
                           parent: Id, child: Id, at: Addr)
    requires Forest(pools, fates) && Owned(pools, svs) && Forest(pools', fates') && Owned(pools', svs')
    requires parent in svs && svs[parent].owns && child !in svs && parent < child && at !in pools
    requires svs' == svs[child := Sv(Some(at), true, Some(parent), |fates|)]
    requires pools' == pools[at := Pool(|fates|, svs[parent].iv, Some(child))]
    ensures KeepsPools(pools', svs', child) <==> KeepsPools(pools, svs, parent)
  {
    var a := svs[parent].iv.value;
    forall b ensures Under(pools', at, b) <==> b == at || Under(pools, a, b) {
      UnderSame(pools', fates', pools, fates, a, b);
    }
    forall x | Holds(svs, parent, x) ensures Same(pools, svs, pools', svs', x) {
      HoldsUp(pools, fates, svs, parent, x);
    }
    forall x ensures Holds(svs', child, x) <==> x == child || Holds(svs, parent, x) {
      HoldsSame(pools, svs, pools', svs', parent, x);
    }
  }
  /** Three pools, one below the other; the middle one was cleared before the last one was made. */
  method ChildOfCleared() returns (perl: Perl, top: Id, child: Id)
    ensures fresh(perl) && perl.Valid() && perl.dying == {} && top != child
    ensures perl.refs.handles[top] == 1 && child in perl.refs.handles
    ensures perl.pools.Keys == {1, 2, 3} && perl.pools[3].parent == Some(2) && perl.pools[2].parent == Some(1)
    ensures top in perl.svs && perl.svs[top].owns && perl.svs[top].iv == Some(1)
    ensures forall x :: x in perl.svs ==> perl.svs[x].dep != Some(top)
    ensures perl.svs[child].iv == Some(3) && perl.svs[child].owns
  {
    var middle;
    perl, top, middle := TwoPools();
    ClearBelow(perl, top, middle);
    child := Third(perl, top, middle);
  }

  method Third(perl: Perl, top: Id, middle: Id) returns (child: Id)
    requires perl.Valid() && perl.dying == {} && top != middle && perl.refs.handles == multiset{top, middle}
    requires perl.pools.Keys == {1, 2} && perl.pools[2].parent == Some(1)
    requires perl.svs == map[top := Sv(Some(1), true, None, 0), middle := Sv(Some(2), true, None, 1)]
    modifies perl
    ensures perl.Valid() && perl.dying == {} && perl.refs.handles == multiset{top, middle, child}
    ensures child != top && child != middle
    ensures perl.pools.Keys == {1, 2, 3} && perl.pools[3].parent == Some(2) && perl.pools[2].parent == Some(1)
    ensures perl.svs.Keys == {top, middle, child} && perl.svs[top] == old(perl.svs)[top]
    ensures perl.svs[middle] == old(perl.svs)[middle]
    ensures perl.svs[child].iv == Some(3) && perl.svs[child].owns && perl.svs[child].dep == Some(middle)
  {
    var third := perl.Create(Some(middle), 3);
    child := third.value;
  }

  method TwoPools() returns (perl: Perl, top: Id, middle: Id)
    ensures fresh(perl) && perl.Valid() && perl.dying == {} && top != middle
    ensures perl.refs.handles == multiset{top, middle}
    ensures perl.pools == map[1 := Pool(0, None, Some(top)), 2 := Pool(1, Some(1), Some(middle))]
    ensures perl.svs == map[top := Sv(Some(1), true, None, 0), middle := Sv(Some(2), true, Some(top), 1)]
  {
    perl := new Perl();
    var first := perl.Create(None, 1);
    var second := perl.Create(first, 2);
    top, middle := first.value, second.value;
  }

  method ClearBelow(perl: Perl, top: Id, middle: Id)
    requires perl.Valid() && perl.dying == {} && top != middle
    requires perl.pools == map[1 := Pool(0, None, Some(top)), 2 := Pool(1, Some(1), Some(middle))]
    requires perl.svs == map[top := Sv(Some(1), true, None, 0), middle := Sv(Some(2), true, Some(top), 1)]
    modifies perl
    ensures perl.Valid() && perl.dying == {} && perl.refs.handles == old(perl.refs).handles
    ensures perl.pools.Keys == {1, 2} && perl.pools[2].parent == Some(1)
    ensures perl.svs == map[top := Sv(Some(1), true, None, 0), middle := Sv(Some(2), true, None, 1)]
  {
    ghost var was, fates := perl.pools, perl.fates;
    var outcome := perl.Clear(middle);
    assert outcome == Done;
    OneAboveStays(was, fates, perl.pools, Some(middle));
  }

  lemma OneAboveStays(was: Pools, fates: Fates, now: Pools, account: Option<Id>)
    requires Forest(was, fates) && was.Keys == {1, 2} && was[1].parent == None && was[2].parent == Some(1)
    requires Cleared(was, now, 2, account)
    ensures now.Keys == {1, 2} && now[2].parent == Some(1) && now[1] == was[1]
  {
    assert 1 in was && !Under(was, 1, 2);
    assert 1 in now - {2} && now.Keys == (now - {2}).Keys + {2};
  }

  /**
   * The condition is needed: a parent that has been cleared holds nothing above itself any more.
   * When what made it goes out of scope, its pool goes, and the child's, still in use, with it.
   */
  method ClearedParentIsNotKept() returns (perl: Perl, child: Id)
    ensures fresh(perl) && perl.Valid() && child in perl.refs.handles
    ensures 3 !in perl.pools && child in perl.svs && !perl.svs[child].owns
  {
    var top;
    perl, top, child := ChildOfCleared();
    perl.Forget(top);
    TopGoes(perl, top);
    assert 1 !in perl.pools ==> 2 !in perl.pools;
    assert 2 !in perl.pools ==> 3 !in perl.pools;
  }

  /** An object that only a mortal refers to, and what it owns. */
  method TopGoes(perl: Perl, top: Id)
    requires perl.Valid() && perl.dying == {} && top !in perl.refs.handles
    requires forall x :: x in perl.svs ==> perl.svs[x].dep != Some(top)
    requires top in perl.svs ==> perl.svs[top].owns
    modifies perl
    ensures perl.Valid() && perl.dying == {} && perl.refs.handles == old(perl.refs).handles
    ensures top !in perl.svs && Among(perl.pools, old(perl.pools))
    ensures top in old(perl.svs) ==> old(perl.svs)[top].iv.value !in perl.pools
    ensures forall x :: x in perl.svs ==>
              x in old(perl.svs) && perl.svs[x] == Released(old(perl.svs), perl.pools.Keys)[x]
  {
    ghost var svs := perl.svs;
    perl.FreeTemps();
    NotHeld(svs, perl.svs, perl.pools.Keys, top, perl.nextId);
  }

  lemma NotHeld(svs: Svs, svs': Svs, live: set<Addr>, top: Id, next: nat)
    requires forall x :: x in svs ==> svs[x].dep != Some(top)
    requires forall x :: x in svs' ==> x in svs && svs'[x] == Released(svs, live)[x]
    ensures !Held(svs', top, next)
  {
    HeldIff(svs', top, next);
  }

  /**
   * A name from parent_get outlives its pool, another pool comes to live at the address, and is
   * cleared through the old name: its owner loses it, although neither was ever meant.
   */
  method ClearedByStrayName() returns (perl: Perl, owner: Id, name: Id)
    ensures fresh(perl) && perl.Valid() && owner in perl.svs && name in perl.svs && 1 in perl.pools
    ensures perl.pools[1].serial == perl.svs[owner].born != perl.svs[name].born
    ensures !perl.svs[owner].owns && perl.pools[1].account.None?
  {
    perl := new Perl();
    var parent := perl.Create(None, 1);
    var child := perl.Create(parent, 2);
    name := perl.Wrap(perl.pools[2].parent.value);
    perl.Destroy(parent.value);
    var made := perl.Create(None, 1);
    owner := made.value;
    var _ := perl.Clear(name);
  }
}
