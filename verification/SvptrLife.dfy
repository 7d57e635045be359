/** The pointer table over whole runs: as a map, as a clone, and to its end. */
module SvptrLife {
  import opened Bits
  import opened SvptrChains
  import opened SvptrTable

  // ----- runs -----

  datatype Op = Fetch(key: nat) | Store(key: nat, val: nat) | Delete(key: nat)

  /** What a run of operations does to a plain map, to the answers and to the SvREFCNT_dec calls. */
  datatype Outcome = Outcome(contents: map<nat, nat>, answers: seq<nat>, decremented: seq<nat>)

  function Lookup(m: map<nat, nat>, key: nat): nat {
    if key in m then m[key] else 0
  }

  function Apply(o: Outcome, op: Op): Outcome {
    match op
    case Fetch(k) => o.(answers := o.answers + [Lookup(o.contents, k)])
    case Store(k, v) => o.(contents := o.contents[k := v])
    case Delete(k) =>
      var v := Lookup(o.contents, k);
      o.(contents := o.contents - {k}, decremented := o.decremented + if v != 0 then [v] else [])
  }

  function Expected(ops: seq<Op>): Outcome {
    if ops == [] then Outcome(map[], [], []) else Apply(Expected(ops[..|ops| - 1]), ops[|ops| - 1])
  }

  /** A new table driven by any sequence of operations cannot be told from a finite map. */
  method Drive(ops: seq<Op>) returns (t: Table, answers: seq<nat>)
    ensures t.Valid() && Outcome(t.contents, answers, t.decremented) == Expected(ops)
  {
    t := new Table();
    answers := [];
    for i := 0 to |ops|
      invariant t.Valid() && fresh(t) && fresh(t.ary) && fresh(t.entries)
      invariant Outcome(t.contents, answers, t.decremented) == Expected(ops[..i])
    {
      assert ops[..i + 1][..i] == ops[..i];
      answers := Do(t, ops[i], answers);
    }
    assert ops[..|ops|] == ops;
  }

  method Do(t: Table, op: Op, answers: seq<nat>) returns (after: seq<nat>)
    requires t.Valid()
    modifies t, t.ary, t.entries
    ensures t.Valid() && fresh(t.entries - old(t.entries)) && (t.ary == old(t.ary) || fresh(t.ary))
    ensures Outcome(t.contents, after, t.decremented) == Apply(old(Outcome(t.contents, answers, t.decremented)), op)
  {
    after := answers;
    match op
    case Fetch(k) =>
      var v := t.Fetch(k);
      after := answers + [v];
    case Store(k, v) =>
      t.Store(k, v);
    case Delete(k) =>
      t.Delete(k);
  }

  // ----- counting nodes -----

  ghost function Flatten(chains: seq<seq<Entry>>): seq<Entry> {
    if chains == [] then [] else Flatten(chains[..|chains| - 1]) + chains[|chains| - 1]
  }

  lemma {:induction false} KeysOfSize(s: seq<Entry>)
    requires forall i, j :: 0 <= i < j < |s| ==> s[i].oldval != s[j].oldval
    ensures |KeysOf(s)| == |s|
  {
    if s != [] {
      KeysOfSize(s[1..]);
      InKeys(s[1..], s[0].oldval);
    }
  }

  ghost function KeysBelow(keys: set<nat>, mask: nat, n: nat): set<nat> {
    set k | k in keys && BitAnd(k, mask) < n
  }

  lemma {:induction false} FlattenSize(chains: seq<seq<Entry>>, mask: nat, keys: set<nat>, n: nat)
    requires n <= |chains| && HomedUpTo(chains, mask, keys, n)
    ensures |Flatten(chains[..n])| == |KeysBelow(keys, mask, n)|
  {
    if n == 0 {
      assert KeysBelow(keys, mask, 0) == {};
    } else {
      FlattenSize(chains, mask, keys, n - 1);
      assert chains[..n][..n - 1] == chains[..n - 1];
      KeysOfSize(chains[n - 1]);
      assert KeysBelow(keys, mask, n) == KeysBelow(keys, mask, n - 1) + KeysOf(chains[n - 1]);
      assert KeysBelow(keys, mask, n - 1) !! KeysOf(chains[n - 1]);
    }
  }

  /** tbl_items counts the nodes, and every node sits in bucket key mod (tbl_max + 1). */
  lemma NodesCountedAndPlaced(t: Table)
    requires t.Valid()
    ensures t.tblItems == |Flatten(t.chains)|
    ensures forall b, i :: 0 <= b < |t.chains| && 0 <= i < |t.chains[b]| ==> t.chains[b][i].oldval % (t.tblMax + 1) == b
  {
    FlattenSize(t.chains, t.tblMax, t.contents.Keys, |t.chains|);
    assert t.chains[..|t.chains|] == t.chains;
    assert KeysBelow(t.contents.Keys, t.tblMax, t.tblMax + 1) == t.contents.Keys;
    forall b, i | 0 <= b < |t.chains| && 0 <= i < |t.chains[b]|
      ensures t.chains[b][i].oldval % (t.tblMax + 1) == b
    {
      KeyedAt(t.chains, t.tblMax, t.contents.Keys, b);
      MaskIsMod(t.chains[b][i].oldval, t.order);
    }
  }

  // ----- the end of a table -----

  /** The non-null SVs of a chain, in order. */
  ghost function Live(s: seq<Entry>, contents: map<nat, nat>): seq<nat> {
    if s == [] then []
    else
      var v := Lookup(contents, s[|s| - 1].oldval);
      Live(s[..|s| - 1], contents) + if v != 0 then [v] else []
  }

  lemma {:induction false} LiveConcat(a: seq<Entry>, b: seq<Entry>, contents: map<nat, nat>)
    ensures Live(a + b, contents) == Live(a, contents) + Live(b, contents)
  {
    if b == [] {
      assert a + b == a;
    } else {
      assert (a + b)[..|a + b| - 1] == a + b[..|b| - 1];
      LiveConcat(a, b[..|b| - 1], contents);
    }
  }

  /** The same, over the first n chains. */
  ghost function LiveUpTo(chains: seq<seq<Entry>>, n: nat, contents: map<nat, nat>): seq<nat>
    requires n <= |chains|
  {
    if n == 0 then [] else LiveUpTo(chains, n - 1, contents) + Live(chains[n - 1], contents)
  }

  lemma {:induction false} LiveUpToIsFlat(chains: seq<seq<Entry>>, n: nat, contents: map<nat, nat>)
    requires n <= |chains|
    ensures LiveUpTo(chains, n, contents) == Live(Flatten(chains[..n]), contents)
  {
    if n > 0 {
      LiveUpToIsFlat(chains, n - 1, contents);
      assert chains[..n][..n - 1] == chains[..n - 1];
      LiveConcat(Flatten(chains[..n - 1]), chains[n - 1], contents);
    }
  }

  lemma LiveNext(s: seq<Entry>, j: nat, contents: map<nat, nat>)
    requires j < |s|
    ensures var v := Lookup(contents, s[j].oldval);
            Live(s[..j + 1], contents) == Live(s[..j], contents) + if v != 0 then [v] else []
  {
    assert s[..j + 1][..j] == s[..j];
  }

  method DropEntry(t: Table, ent: Entry)
    modifies t`decremented, ent`newval
    ensures t.decremented == old(t.decremented) + if old(ent.newval) != 0 then [old(ent.newval)] else []
  {
    if ent.newval != 0 {
      t.decremented := t.decremented + [ent.newval];
      ent.newval := 0;
    }
  }

  /** The walk of modperl_svptr_table_destroy over one chain. */
  method DropChain(t: Table, i: nat)
    requires t.Strung() && i <= t.tblMax
    requires Homed(t.chains[i], t.tblMax, i, t.contents.Keys) && Shows(t.chains[i], t.contents, t.entries)
    modifies t`decremented, t.entries`newval
    ensures t.decremented == old(t.decremented) + Live(t.chains[i], t.contents)
    ensures forall e :: e in t.entries && BitAnd(e.oldval, t.tblMax) != i ==> e.newval == old(e.newval)
  {
    ghost var s, j := t.chains[i], 0;
    LinkedUpToIsAll(t.ary[..], t.chains, t.entries, |t.chains|);
    var ent := t.ary[i];
    while ent != null
      invariant 0 <= j <= |s| && ent == At(s, j)
      invariant t.decremented == old(t.decremented) + Live(s[..j], t.contents)
      invariant forall m :: j <= m < |s| ==> s[m].newval == t.contents[s[m].oldval]
      invariant forall e :: e in t.entries && BitAnd(e.oldval, t.tblMax) != i ==> e.newval == old(e.newval)
      decreases |s| - j
    {
      LiveNext(s, j, t.contents);
      assert BitAnd(ent.oldval, t.tblMax) == i;
      DropEntry(t, ent);
      ent, j := ent.next, j + 1;
    }
    assert s[..j] == s;
  }

  /** modperl_svptr_table_clear: frees every node; answers the nodes in the order they were freed. */
  method Clear(t: Table) returns (freed: seq<Entry>)
    requires t.Strung() && (t.tblItems == 0 ==> Flatten(t.chains) == [])
    modifies t`tblItems
    ensures freed == Flatten(t.chains) && t.tblItems == 0
  {
    freed := [];
    if t.tblItems == 0 {
      return;
    }
    LinkedUpToIsAll(t.ary[..], t.chains, t.entries, |t.chains|);
    var entry, riter := t.ary[0], 0;
    ghost var j := 0;
    while true
      invariant 0 <= riter <= t.tblMax && 0 <= j <= |t.chains[riter]| && entry == At(t.chains[riter], j)
      invariant freed == Flatten(t.chains[..riter]) + t.chains[riter][..j]
      decreases t.tblMax - riter, |t.chains[riter]| - j
    {
      if entry != null {
        freed := freed + [entry];
        entry, j := entry.next, j + 1;
      }
      if entry == null {
        assert t.chains[..riter + 1][..riter] == t.chains[..riter];
        riter := riter + 1;
        if riter > t.tblMax {
          break;
        }
        entry, j := t.ary[riter], 0;
      }
    }
    assert t.chains[..riter] == t.chains;
    t.tblItems := 0;
  }

  lemma AllNodes(t: Table)
    requires t.Shaped()
    ensures |Flatten(t.chains)| == |t.contents|
    ensures forall i, j :: 0 <= i < j < |Flatten(t.chains)| ==> Flatten(t.chains)[i] != Flatten(t.chains)[j]
  {
    var n, keys := t.tblMax + 1, t.contents.Keys;
    FlattenDistinct(t.chains, t.tblMax, keys, n);
    FlattenSize(t.chains, t.tblMax, keys, n);
    assert t.chains[..n] == t.chains && KeysBelow(keys, t.tblMax, n) == keys;
  }

  lemma Cancel(a: seq<nat>, b: seq<nat>, c: seq<nat>)
    ensures a + b == a + c <==> b == c
  {
    assert (a + b)[|a|..] == b && (a + c)[|a|..] == c;
  }

  /**
   * modperl_svptr_table_destroy: the loop stops before the last bucket, so it decrements the
   * values of the other buckets, once each; these are all exactly if the last bucket holds no
   * value. The free that follows covers all nodes.
   */
  method Destroy(t: Table) returns (freed: seq<Entry>)
    requires t.Shaped() && |t.contents| <= t.tblItems
    modifies t`decremented, t`tblItems, t.entries`newval
    ensures t.decremented == old(t.decremented) + Live(Flatten(t.chains[..t.tblMax]), t.contents)
    ensures t.decremented == old(t.decremented) + Live(Flatten(t.chains), t.contents)
            <==> LastBucketNull(t.contents, t.tblMax)
    ensures freed == Flatten(t.chains)
    ensures forall i, j :: 0 <= i < j < |freed| ==> freed[i] != freed[j]
  {
    DestroyMissesNothing(t);
    Cancel(t.decremented, Live(Flatten(t.chains[..t.tblMax]), t.contents), Live(Flatten(t.chains), t.contents));
    AllNodes(t);
    LiveUpToIsFlat(t.chains, t.tblMax, t.contents);
    DropValues(t);
    freed := Clear(t);
  }

  // ----- what the end of a table decrements -----

  /** How often v occurs. */
  ghost function Times(s: seq<nat>, v: nat): nat {
    if s == [] then 0 else Times(s[..|s| - 1], v) + if s[|s| - 1] == v then 1 else 0
  }

  lemma {:induction false} TimesIsCount(s: seq<nat>, v: nat)
    ensures Times(s, v) == multiset(s)[v]
  {
    if s != [] {
      assert s == s[..|s| - 1] + [s[|s| - 1]];
      TimesIsCount(s[..|s| - 1], v);
    }
  }

  lemma {:induction false} TimesConcat(a: seq<nat>, b: seq<nat>, v: nat)
    ensures Times(a + b, v) == Times(a, v) + Times(b, v)
  {
    if b == [] {
      assert a + b == a;
    } else {
      assert (a + b)[..|a + b| - 1] == a + b[..|b| - 1];
      TimesConcat(a, b[..|b| - 1], v);
    }
  }

  /** The keys with this value. */
  ghost function KeysFor(keys: set<nat>, contents: map<nat, nat>, v: nat): set<nat> {
    set k | k in keys && Lookup(contents, k) == v
  }

  lemma KeysForMore(a: set<nat>, b: set<nat>, contents: map<nat, nat>, v: nat)
    requires a !! b
    ensures |KeysFor(a + b, contents, v)| == |KeysFor(a, contents, v)| + |KeysFor(b, contents, v)|
  {
    assert KeysFor(a + b, contents, v) == KeysFor(a, contents, v) + KeysFor(b, contents, v);
  }

  lemma LiveFront(e: Entry, s: seq<Entry>, contents: map<nat, nat>, v: nat)
    requires v != 0
    ensures Times(Live([e] + s, contents), v)
            == |KeysFor({e.oldval}, contents, v)| + Times(Live(s, contents), v)
  {
    LiveConcat([e], s, contents);
    TimesConcat(Live([e], contents), Live(s, contents), v);
    assert KeysFor({e.oldval}, contents, v) == if Lookup(contents, e.oldval) == v then {e.oldval} else {};
    assert [e][..0] == [];
  }

  lemma NotAgain(s: seq<Entry>)
    requires s != [] && forall i, j :: 0 <= i < j < |s| ==> s[i].oldval != s[j].oldval
    ensures {s[0].oldval} !! KeysOf(s[1..])
  {
    InKeys(s[1..], s[0].oldval);
  }

  /** In a chain each non-null value occurs once for every key that has it. */
  lemma {:induction false} LiveInChain(s: seq<Entry>, contents: map<nat, nat>, v: nat)
    requires v != 0 && forall i, j :: 0 <= i < j < |s| ==> s[i].oldval != s[j].oldval
    ensures Times(Live(s, contents), v) == |KeysFor(KeysOf(s), contents, v)|
  {
    if s == [] {
      assert KeysFor({}, contents, v) == {};
    } else {
      LiveInChain(s[1..], contents, v);
      NotAgain(s);
      assert s == [s[0]] + s[1..];
      LiveFront(s[0], s[1..], contents, v);
      KeysForMore({s[0].oldval}, KeysOf(s[1..]), contents, v);
    }
  }

  /** The keys below bucket n are those below n - 1 and those in it. */
  lemma KeysBelowNext(s: seq<Entry>, mask: nat, keys: set<nat>, n: nat)
    requires n > 0 && Homed(s, mask, n - 1, keys)
    ensures KeysBelow(keys, mask, n) == KeysBelow(keys, mask, n - 1) + KeysOf(s)
    ensures KeysBelow(keys, mask, n - 1) !! KeysOf(s)
  {
  }

  lemma {:induction false} LiveInChains(chains: seq<seq<Entry>>, mask: nat, contents: map<nat, nat>,
                                        n: nat, v: nat)
    requires v != 0 && n <= |chains| && HomedUpTo(chains, mask, contents.Keys, n)
    ensures Times(LiveUpTo(chains, n, contents), v)
            == |KeysFor(KeysBelow(contents.Keys, mask, n), contents, v)|
  {
    if n == 0 {
      assert KeysFor(KeysBelow(contents.Keys, mask, 0), contents, v) == {};
    } else {
      LiveInChains(chains, mask, contents, n - 1, v);
      LiveInChain(chains[n - 1], contents, v);
      TimesConcat(LiveUpTo(chains, n - 1, contents), Live(chains[n - 1], contents), v);
      KeysBelowNext(chains[n - 1], mask, contents.Keys, n);
      KeysForMore(KeysBelow(contents.Keys, mask, n - 1), KeysOf(chains[n - 1]), contents, v);
    }
  }

  lemma {:induction false} LiveNonNull(s: seq<Entry>, contents: map<nat, nat>)
    ensures 0 !in Live(s, contents)
  {
    if s != [] {
      LiveNonNull(s[..|s| - 1], contents);
    }
  }

  lemma HomedUpToLess(chains: seq<seq<Entry>>, mask: nat, keys: set<nat>, n: nat)
    requires 0 < n <= |chains| && HomedUpTo(chains, mask, keys, n)
    ensures HomedUpTo(chains, mask, keys, n - 1)
  {
  }

  /** The buckets below n hold each non-null value once for every key there that has it. */
  lemma DecrementsBelow(t: Table, n: nat, v: nat)
    requires t.Shaped() && n <= |t.chains| && HomedUpTo(t.chains, t.tblMax, t.contents.Keys, n)
    ensures multiset(Live(Flatten(t.chains[..n]), t.contents))[v]
            == if v == 0 then 0 else |KeysFor(KeysBelow(t.contents.Keys, t.tblMax, n), t.contents, v)|
  {
    LiveNonNull(Flatten(t.chains[..n]), t.contents);
    LiveUpToIsFlat(t.chains, n, t.contents);
    TimesIsCount(LiveUpTo(t.chains, n, t.contents), v);
    if v != 0 {
      LiveInChains(t.chains, t.tblMax, t.contents, n, v);
    }
  }

  /**
   * What destroying decrements, as a multiset: for every key outside the last bucket its value,
   * if that is not null, and nothing else; all nodes together hold that for every key.
   */
  lemma DecrementsPerKey(t: Table, v: nat)
    requires t.Shaped()
    ensures multiset(Live(Flatten(t.chains[..t.tblMax]), t.contents))[v]
            == if v == 0 then 0
               else |set k | k in t.contents && BitAnd(k, t.tblMax) < t.tblMax && t.contents[k] == v|
    ensures multiset(Live(Flatten(t.chains), t.contents))[v]
            == if v == 0 then 0 else |set k | k in t.contents && t.contents[k] == v|
  {
    var max := t.tblMax;
    HomedUpToLess(t.chains, max, t.contents.Keys, max + 1);
    DecrementsBelow(t, max, v);
    DecrementsBelow(t, max + 1, v);
    assert t.chains[..max + 1] == t.chains;
    AllBelow(t.contents, max, v);
  }

  lemma AllBelow(contents: map<nat, nat>, max: nat, v: nat)
    ensures KeysFor(KeysBelow(contents.Keys, max, max), contents, v)
            == set k | k in contents && BitAnd(k, max) < max && contents[k] == v
    ensures KeysFor(KeysBelow(contents.Keys, max, max + 1), contents, v)
            == set k | k in contents && contents[k] == v
  {
  }

  lemma {:induction false} AllNull(s: seq<Entry>, contents: map<nat, nat>)
    ensures Live(s, contents) == [] <==> forall k :: k in KeysOf(s) ==> Lookup(contents, k) == 0
  {
    if s != [] {
      AllNull(s[1..], contents);
      assert s == [s[0]] + s[1..];
      LiveConcat([s[0]], s[1..], contents);
      assert [s[0]][..0] == [];
    }
  }

  lemma LastChain(t: Table)
    requires t.Shaped()
    ensures Live(Flatten(t.chains), t.contents)
            == Live(Flatten(t.chains[..t.tblMax]), t.contents) + Live(t.chains[t.tblMax], t.contents)
  {
    assert t.chains[..t.tblMax] == t.chains[..|t.chains| - 1];
    LiveConcat(Flatten(t.chains[..t.tblMax]), t.chains[t.tblMax], t.contents);
  }

  /** No key in the last bucket has a value. */
  ghost predicate LastBucketNull(contents: map<nat, nat>, max: nat) {
    forall k :: k in contents && BitAnd(k, max) == max ==> contents[k] == 0
  }

  /** Destroying decrements everything exactly if no key in the last bucket has a value. */
  lemma DestroyMissesNothing(t: Table)
    requires t.Shaped()
    ensures Live(Flatten(t.chains[..t.tblMax]), t.contents) == Live(Flatten(t.chains), t.contents)
            <==> LastBucketNull(t.contents, t.tblMax)
  {
    LastChain(t);
    KeyedAt(t.chains, t.tblMax, t.contents.Keys, t.tblMax);
    AllNull(t.chains[t.tblMax], t.contents);
  }

  /** The values of the chains from i on are still the table's. */
  ghost predicate ShownFrom(chains: seq<seq<Entry>>, contents: map<nat, nat>, entries: set<Entry>, i: nat)
    reads entries`newval
    decreases |chains| - i
  {
    i >= |chains| || (Shows(chains[i], contents, entries) && ShownFrom(chains, contents, entries, i + 1))
  }

  lemma {:induction false} ShownFromIsAll(chains: seq<seq<Entry>>, contents: map<nat, nat>, entries: set<Entry>, i: nat)
    ensures ShownFrom(chains, contents, entries, i) <==> forall b :: i <= b < |chains| ==> Shows(chains[b], contents, entries)
    decreases |chains| - i
  {
    if i < |chains| {
      ShownFromIsAll(chains, contents, entries, i + 1);
    }
  }

  lemma ShownFromStart(chains: seq<seq<Entry>>, contents: map<nat, nat>, entries: set<Entry>)
    requires Shown(chains, contents, entries)
    ensures ShownFrom(chains, contents, entries, 0)
  {
    ShownUpToIsAll(chains, contents, entries, |chains|);
    ShownFromIsAll(chains, contents, entries, 0);
  }

  method DropValues(t: Table)
    requires t.Strung() && Keyed(t.chains, t.tblMax, t.contents.Keys) && Shown(t.chains, t.contents, t.entries)
    modifies t`decremented, t.entries`newval
    ensures t.Strung()
    ensures t.decremented == old(t.decremented) + LiveUpTo(t.chains, t.tblMax, t.contents)
  {
    ShownFromStart(t.chains, t.contents, t.entries);
    for i := 0 to t.tblMax
      invariant t.Strung() && ShownFrom(t.chains, t.contents, t.entries, i)
      invariant t.decremented == old(t.decremented) + LiveUpTo(t.chains, i, t.contents)
    {
      DropBucket(t, i);
    }
  }

  method DropBucket(t: Table, i: nat)
    requires i <= t.tblMax && t.Strung() && ShownFrom(t.chains, t.contents, t.entries, i)
    requires Keyed(t.chains, t.tblMax, t.contents.Keys)
    modifies t`decremented, t.entries`newval
    ensures t.Strung() && ShownFrom(t.chains, t.contents, t.entries, i + 1)
    ensures t.decremented == old(t.decremented) + Live(t.chains[i], t.contents)
  {
    HomedUpToIsAll(t.chains, t.tblMax, t.contents.Keys, |t.chains|);
    ShownFromIsAll(t.chains, t.contents, t.entries, i);
    DropChain(t, i);
    forall b | i < b < |t.chains|
      ensures Shows(t.chains[b], t.contents, t.entries)
    {
      assert Homed(t.chains[b], t.tblMax, b, t.contents.Keys);
    }
    ShownFromIsAll(t.chains, t.contents, t.entries, i + 1);
  }

  lemma {:induction false} FlattenDistinct(chains: seq<seq<Entry>>, mask: nat, keys: set<nat>, n: nat)
    requires n <= |chains| && HomedUpTo(chains, mask, keys, n)
    ensures var f := Flatten(chains[..n]);
            && (forall i :: 0 <= i < |f| ==> BitAnd(f[i].oldval, mask) < n)
            && (forall i, j :: 0 <= i < j < |f| ==> f[i] != f[j])
  {
    if n > 0 {
      FlattenDistinct(chains, mask, keys, n - 1);
      assert chains[..n][..n - 1] == chains[..n - 1];
      assert Flatten(chains[..n]) == Flatten(chains[..n - 1]) + chains[n - 1];
    }
  }

  // ----- clones -----

  /** What a clone made bucket by bucket up to tbl_max, exclusive, holds. */
  ghost function Cloned(contents: map<nat, nat>, max: nat, dup: nat -> nat): map<nat, nat> {
    map k | k in contents && BitAnd(k, max) != max :: dup(contents[k])
  }

  lemma {:induction false} SameKeys(a: seq<Entry>, b: seq<Entry>)
    requires |a| == |b| && forall i :: 0 <= i < |a| ==> a[i].oldval == b[i].oldval
    ensures KeysOf(a) == KeysOf(b)
  {
    if a != [] {
      SameKeys(a[1..], b[1..]);
    }
  }

  /** The inner loop of the clone: a fresh chain with the same keys and dup'ed values, in order. */
  method CopyChain(t: Table, i: nat, dup: nat -> nat) returns (head: Entry?, ghost copy: seq<Entry>, ghost news: set<Entry>)
    requires t.Strung() && i <= t.tblMax && Shows(t.chains[i], t.contents, t.entries)
    ensures fresh(news) && Linked(head, copy, news)
    ensures |copy| == |t.chains[i]|
    ensures forall j :: 0 <= j < |copy| ==>
              copy[j].oldval == t.chains[i][j].oldval && copy[j].newval == dup(t.contents[copy[j].oldval])
  {
    ghost var s := t.chains[i];
    LinkedUpToIsAll(t.ary[..], t.chains, t.entries, |t.chains|);
    head, copy, news := null, [], {};
    var src, dst: Entry? := t.ary[i], null;
    while src != null
      invariant |copy| <= |s| && src == At(s, |copy|) && dst == At(copy, |copy| - 1)
      invariant fresh(news) && Linked(head, copy, news)
      invariant forall j, m :: 0 <= j < m < |copy| ==> copy[j] != copy[m]
      invariant forall j :: 0 <= j < |copy| ==>
                  copy[j].oldval == s[j].oldval && copy[j].newval == dup(t.contents[copy[j].oldval])
      decreases |s| - |copy|
    {
      var e := new Entry(src.oldval, dup(src.newval), null);
      if dst == null {
        head := e;
      } else {
        dst.next := e;
      }
      dst := e;
      copy, news := copy + [e], news + {e};
      src := src.next;
    }
  }

  /** i buckets of the source have been copied; the rest of the clone is still empty. */
  ghost predicate Copying(t: Table, clone: Table, i: nat, dup: nat -> nat)
    reads t, clone, clone.ary, clone.entries
  {
    && clone.Strung() && clone.tblMax == t.tblMax && i <= t.tblMax
    && CopiedUpTo(clone.chains, t.tblMax, t.contents.Keys, i)
    && Shown(clone.chains, Cloned(t.contents, t.tblMax, dup), clone.entries)
  }

  ghost predicate CopiedUpTo(chains: seq<seq<Entry>>, max: nat, keys: set<nat>, i: nat) {
    && |chains| == max + 1 && i <= max
    && HomedUpTo(chains, max, keys, i)
    && (forall b :: i <= b <= max ==> chains[b] == [])
  }

  lemma CopiedNext(chains: seq<seq<Entry>>, max: nat, keys: set<nat>, i: nat, copy: seq<Entry>)
    requires i < max && CopiedUpTo(chains, max, keys, i) && Homed(copy, max, i, keys)
    ensures CopiedUpTo(chains[i := copy], max, keys, i + 1)
  {
    HomedUpToIsAll(chains, max, keys, i);
    HomedUpToIsAll(chains[i := copy], max, keys, i + 1);
  }

  lemma CopiedAll(chains: seq<seq<Entry>>, max: nat, contents: map<nat, nat>, dup: nat -> nat)
    requires CopiedUpTo(chains, max, contents.Keys, max)
    ensures Keyed(chains, max, Cloned(contents, max, dup).Keys)
  {
    HomedUpToIsAll(chains, max, contents.Keys, max);
    HomedUpToIsAll(chains, max, Cloned(contents, max, dup).Keys, max + 1);
  }

  lemma CopyHomed(s: seq<Entry>, copy: seq<Entry>, max: nat, i: nat, keys: set<nat>)
    requires Homed(s, max, i, keys)
    requires |copy| == |s| && forall j :: 0 <= j < |copy| ==> copy[j].oldval == s[j].oldval
    ensures Homed(copy, max, i, keys)
  {
    SameKeys(copy, s);
  }

  method CopyBucket(t: Table, clone: Table, i: nat, dup: nat -> nat)
    requires t.Shaped() && Copying(t, clone, i, dup) && i < t.tblMax && t != clone && t.ary != clone.ary
    modifies clone`chains, clone`entries, clone.ary
    ensures Copying(t, clone, i + 1, dup) && fresh(clone.entries - old(clone.entries))
  {
    KeyedAt(t.chains, t.tblMax, t.contents.Keys, i);
    ShownUpToIsAll(t.chains, t.contents, t.entries, |t.chains|);
    var head;
    ghost var copy, news;
    head, copy, news := CopyChain(t, i, dup);
    CopyHomed(t.chains[i], copy, t.tblMax, i, t.contents.Keys);
    CopiedNext(clone.chains, t.tblMax, t.contents.Keys, i, copy);
    assert Shows(copy, Cloned(t.contents, t.tblMax, dup), news);
    Install(clone, i, head, copy, news, Cloned(t.contents, t.tblMax, dup));
  }

  /** The copied chain becomes bucket i of the clone. */
  method Install(clone: Table, i: nat, head: Entry?, ghost copy: seq<Entry>, ghost news: set<Entry>, ghost contents: map<nat, nat>)
    requires clone.Strung() && i <= clone.tblMax && Shown(clone.chains, contents, clone.entries)
    requires Linked(head, copy, news) && Shows(copy, contents, news)
    modifies clone`chains, clone`entries, clone.ary
    ensures clone.Strung() && Shown(clone.chains, contents, clone.entries)
    ensures clone.chains == old(clone.chains)[i := copy] && clone.entries == old(clone.entries) + news
  {
    ShownUpToIsAll(clone.chains, contents, clone.entries, |clone.chains|);
    LinkedUpToIsAll(clone.ary[..], clone.chains, clone.entries, |clone.chains|);
    clone.ary[i] := head;
    clone.chains, clone.entries := clone.chains[i := copy], clone.entries + news;
    ShownUpToIsAll(clone.chains, contents, clone.entries, |clone.chains|);
    LinkedUpToIsAll(clone.ary[..], clone.chains, clone.entries, |clone.chains|);
  }

  method CopyAll(t: Table, clone: Table, dup: nat -> nat)
    requires t.Shaped() && Copying(t, clone, 0, dup) && t != clone && t.ary != clone.ary
    modifies clone`chains, clone`entries, clone.ary
    ensures Copying(t, clone, t.tblMax, dup) && fresh(clone.entries - old(clone.entries))
  {
    for i := 0 to t.tblMax
      invariant t.Shaped() && Copying(t, clone, i, dup) && fresh(clone.entries - old(clone.entries))
    {
      CopyBucket(t, clone, i, dup);
    }
  }

  /**
   * modperl_svptr_table_clone: the bucket loop stops before tbl_max, so the clone holds the
   * dup'ed entries of all buckets but the last, while tbl_items is copied; it is a valid table
   * exactly when no key hashes to the last bucket.
   */
  method Clone(t: Table, dup: nat -> nat) returns (clone: Table)
    requires t.Valid()
    ensures fresh(clone) && clone.Shaped() && clone.tblItems == t.tblItems
    ensures clone.contents == Cloned(t.contents, t.tblMax, dup)
    ensures clone.Valid() <==> forall k :: k in t.contents ==> BitAnd(k, t.tblMax) != t.tblMax
  {
    clone := Duplicate(t, dup);
    CloneSize(t.contents, t.tblMax, dup);
  }

  method Duplicate(t: Table, dup: nat -> nat) returns (clone: Table)
    requires t.Valid()
    ensures fresh(clone) && clone.Shaped() && clone.tblItems == t.tblItems
    ensures clone.contents == Cloned(t.contents, t.tblMax, dup)
  {
    clone := new Table.Shell(t);
    NothingShown(clone.chains, Cloned(t.contents, t.tblMax, dup));
    CopyAll(t, clone, dup);
    CopiedAll(clone.chains, t.tblMax, t.contents, dup);
    clone.contents := Cloned(t.contents, t.tblMax, dup);
  }

  lemma NothingShown(chains: seq<seq<Entry>>, contents: map<nat, nat>)
    requires forall b :: 0 <= b < |chains| ==> chains[b] == []
    ensures Shown(chains, contents, {})
  {
    ShownUpToIsAll(chains, contents, {}, |chains|);
  }

  lemma CloneSize(contents: map<nat, nat>, max: nat, dup: nat -> nat)
    ensures |Cloned(contents, max, dup)| == |contents| <==> forall k :: k in contents ==> BitAnd(k, max) != max
  {
    var some, all := Cloned(contents, max, dup).Keys, contents.Keys;
    assert |Cloned(contents, max, dup)| == |some| && |contents| == |all|;
    if k :| k in all && k !in some {
      assert some <= all - {k};
      Smaller(some, all - {k});
    } else {
      assert some == all;
    }
  }

  lemma {:induction false} Smaller(a: set<nat>, b: set<nat>)
    requires a <= b
    ensures |a| <= |b|
  {
    if a != {} {
      var x :| x in a;
      Smaller(a - {x}, b - {x});
    }
  }

  /**
   * Aligned pointers are even, so they never hash to the last bucket: the clone is complete, and
   * destroying the table decrements every non-null value once.
   */
  lemma AlignedKeysMissNothing(t: Table, dup: nat -> nat)
    requires t.Valid() && forall k :: k in t.contents ==> k % 2 == 0
    ensures Cloned(t.contents, t.tblMax, dup) == map k | k in t.contents :: dup(t.contents[k])
    ensures t.chains[t.tblMax] == [] && Flatten(t.chains[..t.tblMax]) == Flatten(t.chains)
  {
    forall k | k in t.contents
      ensures BitAnd(k, t.tblMax) != t.tblMax
    {
      EvenKeyMissesLast(k, t.order);
    }
    var s := t.chains[t.tblMax];
    KeyedAt(t.chains, t.tblMax, t.contents.Keys, t.tblMax);
    assert KeysOf(s) == {};
  }

  lemma InLastBucket(t: Table)
    requires t.Shaped() && t.tblMax == 511 && t.contents.Keys == {511}
    ensures BitAnd(511, t.tblMax) == t.tblMax && Flatten(t.chains[..t.tblMax]) == []
  {
    assert Pow2(3) == 8 && Pow2(6) == 8 * Pow2(3) && Pow2(9) == 8 * Pow2(6);
    MaskIsMod(511, 9);
    HomedUpToLess(t.chains, 511, {511}, 512);
    FlattenSize(t.chains, 511, {511}, 511);
    assert KeysBelow({511}, 511, 511) == {};
  }

  /** A new table with one entry, in the last of its 512 buckets. */
  method With511(val: nat) returns (t: Table)
    ensures fresh(t) && fresh(t.ary) && fresh(t.entries) && t.Valid() && t.decremented == []
    ensures t.tblMax == 511 && t.contents == map[511 := val]
    ensures BitAnd(511, t.tblMax) == t.tblMax && Flatten(t.chains[..t.tblMax]) == []
  {
    t := new Table();
    t.Store(511, val);
    InLastBucket(t);
  }

  /** Its clone counts one item and holds none. */
  method CloneLosesLastBucket(val: nat, dup: nat -> nat) returns (items: int, found: nat)
    ensures items == 1 && found == 0
  {
    var t := With511(val);
    var clone := Clone(t, dup);
    items := clone.tblItems;
    found := clone.Fetch(511);
  }

  /** It is destroyed without decrementing its value. */
  method DestroyLosesLastBucket(val: nat) returns (decremented: seq<nat>, freed: seq<Entry>)
    ensures decremented == [] && |freed| == 1
  {
    var t := With511(val);
    AllNodes(t);
    freed := Destroy(t);
    decremented := t.decremented;
  }
}
