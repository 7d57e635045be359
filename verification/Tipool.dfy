/** modperl_list_t: the doubly linked nodes of modperl_tipool.c, relinked in place. */
module TipoolList {

  class Node {
    var prev: Node?
    var next: Node?
    const data: nat  // set once, before the node is linked

    constructor (data: nat)
      ensures this.data == data && prev == null && next == null
    {
      this.data, prev, next := data, null, null;
    }
  }

  /** The node at index i, or null outside the sequence. */
  ghost function At(s: seq<Node>, i: int): (n: Node?) {
    if 0 <= i < |s| then s[i] else null
  }

  /** The nodes of s, in order and without repetition, are the list that starts at head. */
  ghost predicate IsList(head: Node?, s: seq<Node>)
    reads s
  {
    && head == At(s, 0)
    && (forall i, j :: 0 <= i < j < |s| ==> s[i] != s[j])
    && (forall i {:trigger s[i].prev} :: 0 <= i < |s| ==> s[i].prev == At(s, i - 1))
    && (forall i {:trigger s[i].next} :: 0 <= i < |s| ==> s[i].next == At(s, i + 1))
  }

  ghost function Data(s: seq<Node>): (d: seq<nat>)
    ensures |d| == |s|
    ensures forall i :: 0 <= i < |s| ==> d[i] == s[i].data
  {
    seq(|s|, i requires 0 <= i < |s| => s[i].data)
  }

  ghost function Drop(s: seq<Node>, k: nat): (r: seq<Node>)
    requires k < |s|
    ensures |r| == |s| - 1
    ensures forall i :: 0 <= i < |r| ==> r[i] == s[if i < k then i else i + 1]
  {
    s[..k] + s[k + 1..]
  }

  method Last(list: Node, ghost s: seq<Node>) returns (last: Node)
    requires IsList(list, s)
    ensures s != [] && last == s[|s| - 1]
  {
    last := list;
    ghost var k := 0;
    while last.next != null
      invariant 0 <= k < |s| && last == s[k]
      decreases |s| - k
    {
      last, k := last.next, k + 1;
    }
  }

  method Append(list: Node?, node: Node, ghost s: seq<Node>) returns (head: Node)
    requires IsList(list, s) && node !in s
    modifies node`prev, node`next, s`next
    ensures IsList(head, s + [node])
  {
    node.prev, node.next := null, null;
    if list == null {
      return node;
    }
    var last := Last(list, s);
    last.next := node;
    node.prev := last;
    head := list;
  }

  /** list may be any node of the list s, not only its first: the new node goes just before it. */
  method Prepend(list: Node?, node: Node, ghost s: seq<Node>, ghost k: nat) returns (head: Node)
    requires node !in s
    requires if list == null then s == [] && k == 0 else k < |s| && list == s[k] && IsList(s[0], s)
    modifies node`prev, node`next, s`prev, s`next
    ensures head == node
    ensures IsList((s[..k] + [node] + s[k..])[0], s[..k] + [node] + s[k..])
  {
    node.prev, node.next := null, null;
    if list == null {
      return node;
    }
    if list.prev != null {
      list.prev.next := node;
      node.prev := list.prev;
    }
    list.prev := node;
    node.next := list;
    head := node;
  }

  /** From each node of the ring the next one leads on, and from the last one to the first. */
  ghost predicate IsRing(ring: seq<Node>)
    reads ring
  {
    && ring != []
    && (forall i {:trigger ring[i].next} :: 0 <= i < |ring| - 1 ==> ring[i].next == ring[i + 1])
    && ring[|ring| - 1].next == ring[0]
  }

  /** A walk from the first node of a ring stays in it, and so is no list. */
  lemma {:induction false} RingIsNoList(ring: seq<Node>, s: seq<Node>, k: nat)
    requires IsRing(ring) && IsList(ring[0], s) && k < |ring|
    ensures k < |s| && s[k] == ring[k] && k + 1 < |s|
    ensures k + 1 == |ring| ==> s[k + 1] == s[0]
  {
    if k > 0 {
      RingIsNoList(ring, s, k - 1);
      assert s[k - 1].next == At(s, k) && ring[k - 1].next == ring[k];
    }
    assert s[k].next == At(s, k + 1) && ring[k].next != null;
  }

  /**
   * The prepend of a node of the list itself: the head has no predecessor to relink, and what was
   * in front of the node becomes a ring.
   */
  method PrependListed(list: Node, node: Node, ghost s: seq<Node>, ghost k: nat) returns (head: Node)
    requires IsList(list, s) && k < |s| && s[k] == node
    modifies node`prev, node`next, s`prev, s`next
    ensures head == node && IsRing([node] + s[..k])
    ensures forall t :: !IsList(head, t)
  {
    node.prev, node.next := null, null;
    list.prev := node;
    node.next := list;
    head := node;
    ghost var ring := [node] + s[..k];
    assert forall i :: 0 < i <= k ==> ring[i] == s[i - 1] && ring[i] != node;
    forall t ensures !IsList(head, t) {
      if IsList(head, t) {
        RingIsNoList(ring, t, k);
      }
    }
  }

  /** The unlinking both removals share. */
  method Unlink(list: Node, node: Node, ghost s: seq<Node>, ghost k: nat) returns (head: Node?)
    requires IsList(list, s) && k < |s| && s[k] == node
    modifies s`prev, s`next
    ensures IsList(head, Drop(s, k))
  {
    if node.prev != null {
      node.prev.next := node.next;
    }
    if node.next != null {
      node.next.prev := node.prev;
    }
    head := if list == node then list.next else list;
  }

  method Remove(list: Node?, node: Node?, ghost s: seq<Node>) returns (head: Node?, ghost k: nat)
    requires IsList(list, s)
    modifies s`prev, s`next
    ensures if node in s then k < |s| && s[k] == node && IsList(head, Drop(s, k))
            else head == list && IsList(head, s) && k == |s|
  {
    var tmp := list;
    k := 0;
    while tmp != null
      invariant 0 <= k <= |s|
      invariant tmp == At(s, k)
      invariant forall i :: 0 <= i < k ==> s[i] != node
      decreases |s| - k
    {
      if tmp != node {
        tmp, k := tmp.next, k + 1;
      } else {
        head := Unlink(list, tmp, s, k);
        return;
      }
    }
    head := list;
  }

  method RemoveData(list: Node?, data: nat, ghost s: seq<Node>)
      returns (head: Node?, found: Node?, ghost k: nat)
    requires IsList(list, s)
    modifies s`prev, s`next
    ensures found == null ==> head == list && IsList(head, s) && data !in Data(s)
    ensures found != null ==>
              k < |s| && s[k] == found && found.data == data && IsList(head, Drop(s, k))
              && (forall i :: 0 <= i < k ==> s[i].data != data)
  {
    var tmp := list;
    k := 0;
    while tmp != null
      invariant 0 <= k <= |s|
      invariant tmp == At(s, k)
      invariant forall i :: 0 <= i < k ==> s[i].data != data
      decreases |s| - k
    {
      if tmp.data != data {
        tmp, k := tmp.next, k + 1;
      } else {
        head := Unlink(list, tmp, s, k);
        found := tmp;
        return;
      }
    }
    head, found := list, null;
  }
}

/** modperl_tipool_t: each method is one stretch under tiplock, proved against TipoolSpec. */
module Tipool {
  import opened TipoolSpec
  import opened TipoolList

  /** Dropping the node at k from the list is dropping its datum from the data. */
  lemma DropIsWithout(s: seq<Node>, k: nat)
    requires k < |s|
    requires forall i :: 0 <= i < k ==> s[i].data != s[k].data
    ensures Data(Drop(s, k)) == Without(Data(s), s[k].data)
  {
    if k == 0 {
      assert Drop(s, 0) == s[1..];
      assert Data(s)[1..] == Data(s[1..]);
    } else {
      assert Data(s)[1..] == Data(s[1..]);
      DropIsWithout(s[1..], k - 1);
      assert Drop(s, k) == [s[0]] + Drop(s[1..], k - 1);
      assert Data(Drop(s, k)) == [s[0].data] + Data(Drop(s[1..], k - 1));
    }
  }

  lemma {:induction false} WithoutAbsent(s: seq<nat>, x: nat)
    requires x !in s
    ensures Without(s, x) == s
  {
    if s != [] {
      WithoutAbsent(s[1..], x);
    }
  }

  /** The nodes of a list after a removal that found its node at k, or did not find it. */
  ghost function Left(s: seq<Node>, k: nat): seq<Node> {
    if k < |s| then Drop(s, k) else s
  }

  lemma RemovedIsWithout(s: seq<Node>, node: Node, k: nat)
    requires forall i, j :: 0 <= i < j < |s| ==> s[i] != s[j]
    requires forall n :: n in s && n != node ==> n.data != node.data
    requires if node in s then k < |s| && s[k] == node else k == |s|
    ensures Data(Left(s, k)) == Without(Data(s), node.data)
    ensures node !in Left(s, k) && forall i :: 0 <= i < |Left(s, k)| ==> Left(s, k)[i] in s
  {
    if node in s {
      DropIsWithout(s, k);
    } else {
      forall i | 0 <= i < |s| ensures Data(s)[i] != node.data {
        assert s[i] in s;
      }
      WithoutAbsent(Data(s), node.data);
    }
  }

  /** modperl_list_remove of a node that no other one has the data of. */
  method RemoveNode(list: Node?, node: Node, ghost s: seq<Node>) returns (head: Node?, ghost left: seq<Node>)
    requires IsList(list, s) && forall n :: n in s && n != node ==> n.data != node.data
    modifies s`prev, s`next
    ensures IsList(head, left) && Data(left) == Without(Data(s), node.data)
    ensures forall i {:trigger left[i]} :: 0 <= i < |left| ==> left[i] in s && left[i] != node
  {
    ghost var k;
    head, k := Remove(list, node, s);
    RemovedIsWithout(s, node, k);
    left := Left(s, k);
  }

  /** The same for the node at the head. */
  method RemoveHead(list: Node?, node: Node, ghost s: seq<Node>) returns (head: Node?)
    requires IsList(list, s) && s != [] && s[0] == node
    modifies s`prev, s`next
    ensures IsList(head, s[1..]) && Data(s[1..]) == Without(Data(s), node.data)
  {
    ghost var k;
    head, k := Remove(list, node, s);
    assert k == 0 && Drop(s, 0) == s[1..];
    DropIsWithout(s, 0);
  }

  /** The same outcome, with the item in place of the list node. */
  ghost function Outcome(r: PopOutcome<Node>): PopOutcome<nat> {
    match r
    case Took(n) => Took(n.data)
    case MustWait => MustWait
    case Panic => Panic
  }

  class Pool {
    const cfg: Config
    const canGrow: bool
    var idle: Node?
    var busy: Node?
    var inUse: int
    var size: int
    var grown: nat
    var destroyed: seq<nat>
    ghost var idleNodes: seq<Node>
    ghost var busyNodes: seq<Node>
    ghost var nodes: set<Node>  // every node malloc has given this pool

    /** Both lists are well formed and share no node. */
    ghost predicate Valid()
      reads this, nodes
    {
      && (forall i :: 0 <= i < |idleNodes| ==> idleNodes[i] in nodes)
      && (forall i :: 0 <= i < |busyNodes| ==> busyNodes[i] in nodes)
      && IsList(idle, idleNodes)
      && IsList(busy, busyNodes)
      && (forall i, j :: 0 <= i < |idleNodes| && 0 <= j < |busyNodes| ==> idleNodes[i] != busyNodes[j])
    }

    ghost function Abs(): TipoolSpec.Pool
      reads this
    {
      TipoolSpec.Pool(Data(idleNodes), Data(busyNodes), inUse, size, grown, destroyed)
    }

    constructor (cfg: Config, canGrow: bool)
      ensures Valid() && Abs() == EMPTY && this.cfg == cfg && this.canGrow == canGrow
      ensures nodes == {}
    {
      this.cfg, this.canGrow := cfg, canGrow;
      idle, busy, inUse, size, grown, destroyed := null, null, 0, 0, 0, [];
      idleNodes, busyNodes, nodes := [], [], {};
    }

    /** tipool_sgrow or tipool_rgrow followed by modperl_tipool_add. */
    method Add()
      requires Valid()
      modifies this, nodes
      ensures Valid() && Abs() == Added(old(Abs())) && fresh(nodes - old(nodes))
    {
      var node := new Node(grown);
      nodes, grown := nodes + {node}, grown + 1;
      AddNode(node);
    }

    method AddNode(node: Node)
      requires Valid() && node in nodes && node !in idleNodes && node !in busyNodes
      modifies this, nodes
      ensures Valid() && nodes == old(nodes)
      ensures Abs() == old(Abs()).(idle := old(Abs()).idle + [node.data], size := old(size) + 1)
    {
      idle := Append(idle, node, idleNodes);
      idleNodes := idleNodes + [node];
      size := size + 1;
    }

    method Init()
      requires Valid() && Abs() == EMPTY
      modifies this, nodes
      ensures Valid() && fresh(nodes - old(nodes))
      ensures Abs() == Started(if cfg.start > 0 then cfg.start else 0)
    {
      var i := 0;
      while i < cfg.start
        invariant Valid() && 0 <= i && (i <= cfg.start || i == 0)
        invariant Abs() == Started(i)
        invariant fresh(nodes - old(nodes))
      {
        Add();
        i := i + 1;
      }
    }

    method Unshelve(head: Node)
      requires Valid() && idle == head
      modifies this, nodes
      ensures Valid() && nodes == old(nodes) && head in nodes && head !in idleNodes && head !in busyNodes
      ensures old(Abs()).idle != [] && head.data == old(Abs()).idle[0]
      ensures Abs() == old(Abs()).(idle := old(Abs()).idle[1..])
    {
      ghost var k;
      idle, k := Remove(idle, head, idleNodes);
      assert Data(Drop(idleNodes, k)) == Data(idleNodes)[1..];
      idleNodes := Drop(idleNodes, k);
    }

    method Lend(node: Node)
      requires Valid() && node in nodes && node !in idleNodes && node !in busyNodes
      modifies this, nodes
      ensures Valid() && nodes == old(nodes) && node in busyNodes
      ensures Abs() == old(Abs()).(busy := old(Abs()).busy + [node.data], inUse := old(inUse) + 1)
    {
      busy := Append(busy, node, busyNodes);
      busyNodes := busyNodes + [node];
      inUse := inUse + 1;
    }

    /** From the wait loop's test to the release of the lock. */
    method Retake() returns (r: PopOutcome<Node>)
      requires Valid()
      modifies this, nodes
      ensures Valid() && fresh(nodes - old(nodes))
      ensures (Abs(), Outcome(r)) == Retest(old(Abs()))
      ensures r.Took? ==> r.item in busyNodes
    {
      if size == inUse {
        return MustWait;
      }
      var head := idle;
      if head == null {
        return Panic;
      }
      Unshelve(head);
      Lend(head);
      r := Took(head);
    }

    method Pop() returns (r: PopOutcome<Node>)
      requires Valid()
      modifies this, nodes
      ensures Valid() && fresh(nodes - old(nodes))
      ensures (Abs(), Outcome(r)) == EnterPop(cfg, canGrow, old(Abs()))
      ensures r.Took? ==> r.item in busyNodes
    {
      if size == inUse && size < cfg.max && canGrow {
        Add();
      }
      r := Retake();
    }

    /** Looks the item up by its data; an item that is not on loan is ignored. */
    method PutbackData(data: nat, numRequests: int)
      requires Valid()
      modifies this, nodes
      ensures Valid() && fresh(nodes - old(nodes))
      ensures Abs() == Putback(cfg, canGrow, old(Abs()), data, numRequests)
    {
      var node := RecallData(data);
      if node != null {
        Return(node, numRequests);
      }
    }

    /** The putback that is given the node, on loan or not; an idle one would close a circle. */
    method PutbackNode(node: Node, numRequests: int)
      requires Valid() && node in nodes && node !in idleNodes
      requires forall n :: n in busyNodes && n != node ==> n.data != node.data
      modifies this, nodes
      ensures Valid() && fresh(nodes - old(nodes))
      ensures Abs() == PutbackListed(cfg, canGrow, old(Abs()), node.data, numRequests)
    {
      RecallNode(node);
      Return(node, numRequests);
    }

    method RecallData(data: nat) returns (node: Node?)
      requires Valid()
      modifies this, nodes
      ensures Valid() && nodes == old(nodes) && (node == null <==> data !in old(Abs()).busy)
      ensures node == null ==> Abs() == old(Abs())
      ensures node != null ==>
                && node in nodes && node !in idleNodes && node !in busyNodes && node.data == data
                && Abs() == old(Abs()).(busy := Without(old(Abs()).busy, data))
    {
      ghost var k;
      busy, node, k := RemoveData(busy, data, busyNodes);
      if node != null {
        assert Data(busyNodes)[k] == data;
        DropIsWithout(busyNodes, k);
        busyNodes := Drop(busyNodes, k);
      }
    }

    method RecallNode(node: Node)
      requires Valid() && node in nodes && node !in idleNodes
      requires forall n :: n in busyNodes && n != node ==> n.data != node.data
      modifies this, nodes
      ensures Valid() && nodes == old(nodes) && node in nodes && node !in idleNodes && node !in busyNodes
      ensures Abs() == old(Abs()).(busy := Without(old(Abs()).busy, node.data))
    {
      busy, busyNodes := RemoveNode(busy, node, busyNodes);
    }

    /** A node already off the busy list goes to the front of the idle list. */
    method Shelve(node: Node)
      requires Valid() && node in nodes && node !in idleNodes && node !in busyNodes
      modifies this, nodes
      ensures Valid() && nodes == old(nodes) && idleNodes != [] && idleNodes[0] == node
      ensures Abs() == old(Abs()).(idle := [node.data] + old(Abs()).idle, inUse := old(inUse) - 1)
    {
      idle := Prepend(idle, node, idleNodes, 0);
      assert [] + [node] + idleNodes[0..] == [node] + idleNodes;
      idleNodes := [node] + idleNodes;
      inUse := inUse - 1;
    }

    /** The rest of modperl_tipool_putback_base once the node is off the busy list. */
    method Return(node: Node, numRequests: int)
      requires Valid() && node in nodes && node !in idleNodes && node !in busyNodes
      modifies this, nodes
      ensures Valid() && fresh(nodes - old(nodes))
      ensures Abs() ==
        var p := old(Abs());
        var q := p.(idle := [node.data] + p.idle, inUse := p.inUse - 1);
        if q.inUse == cfg.max - 1 then q else Settle(cfg, canGrow, q, node.data, numRequests)
    {
      Shelve(node);
      if inUse != cfg.max - 1 {
        Trim(node, numRequests);
      }
    }

    /** The shrink and regrow decision, for the node that has just been shelved. */
    method Trim(node: Node, numRequests: int)
      requires Valid() && idleNodes != [] && idleNodes[0] == node
      modifies this, nodes
      ensures Valid() && fresh(nodes - old(nodes))
      ensures Abs() == Settle(cfg, canGrow, old(Abs()), node.data, numRequests)
    {
      var tooManySpare := size - inUse > cfg.maxSpare;
      var wornOut := numRequests > 0 && numRequests > cfg.maxRequests;
      if tooManySpare || wornOut {
        Discard(node);
        if wornOut && size - inUse < cfg.minSpare && canGrow {
          Add();
        }
      }
    }

    /** modperl_tipool_remove, tipool_destroy and free. */
    method Discard(node: Node)
      requires Valid() && idleNodes != [] && idleNodes[0] == node
      modifies this, nodes
      ensures Valid() && nodes == old(nodes)
      ensures Abs() == old(Abs()).(idle := Without(old(Abs()).idle, node.data), size := old(size) - 1,
                                   destroyed := old(destroyed) + [node.data])
    {
      idle := RemoveHead(idle, node, idleNodes);
      idleNodes := idleNodes[1..];
      size := size - 1;
      destroyed := destroyed + [node.data];
    }

    method Destroy()
      requires Valid()
      modifies this
      ensures Valid() && Abs() == Destroyed(old(Abs()))
    {
      ghost var was := Data(idleNodes);
      ghost var all := idleNodes;
      ghost var k := 0;
      while idle != null
        invariant 0 <= k <= |all| && idle == At(all, k) && all == old(idleNodes)
        invariant IsList(At(all, 0), all) && IsList(busy, busyNodes) && Data(all) == was
        invariant size == old(size) - k && destroyed == old(destroyed) + was[..k]
        invariant unchanged(`busy, `inUse, `grown, `busyNodes, `nodes)
        decreases |all| - k
      {
        destroyed := destroyed + [idle.data];
        size := size - 1;
        idle, k := idle.next, k + 1;
      }
      idleNodes := [];
    }
  }
}
