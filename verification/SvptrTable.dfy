/**
 * The chains of modperl_svptr_table.c as sequences of entries: which keys they hold, and how
 * an insertion, a deletion and a split change them.
 */
module SvptrChains {
  import opened Bits

  class Entry {
    const oldval: nat  // the key; set once, before the entry is linked
    var newval: nat
    var next: Entry?

    constructor (oldval: nat, newval: nat, next: Entry?)
      ensures this.oldval == oldval && this.newval == newval && this.next == next
    {
      this.oldval, this.newval, this.next := oldval, newval, next;
    }
  }

  ghost function At(s: seq<Entry>, i: int): (e: Entry?) {
    if 0 <= i < |s| then s[i] else null
  }

  /** The entries of s, in order, are the chain that starts at e. */
  ghost predicate Linked(e: Entry?, s: seq<Entry>, entries: set<Entry>)
    reads entries`next
  {
    && e == At(s, 0)
    && (forall i :: 0 <= i < |s| ==> s[i] in entries)
    && (forall i {:trigger s[i].next} :: 0 <= i < |s| ==> s[i].next == At(s, i + 1))
  }

  ghost predicate LinkedUpTo(heads: seq<Entry?>, chains: seq<seq<Entry>>, entries: set<Entry>, n: nat)
    requires n <= |chains| == |heads|
    reads entries`next
  {
    n == 0 || (LinkedUpTo(heads, chains, entries, n - 1) && Linked(heads[n - 1], chains[n - 1], entries))
  }

  /** The chains hang off the bucket array. */
  ghost predicate Chained(heads: seq<Entry?>, chains: seq<seq<Entry>>, entries: set<Entry>)
    reads entries`next
  {
    |chains| == |heads| && LinkedUpTo(heads, chains, entries, |chains|)
  }

  lemma {:induction false} LinkedUpToIsAll(heads: seq<Entry?>, chains: seq<seq<Entry>>, entries: set<Entry>, n: nat)
    requires n <= |chains| == |heads|
    ensures LinkedUpTo(heads, chains, entries, n) <==> forall b :: 0 <= b < n ==> Linked(heads[b], chains[b], entries)
  {
    if n > 0 {
      LinkedUpToIsAll(heads, chains, entries, n - 1);
    }
  }

  /** The entries of s are all known, and map their keys as the map does. */
  ghost predicate Shows(s: seq<Entry>, contents: map<nat, nat>, entries: set<Entry>)
    reads entries`newval
  {
    forall i :: 0 <= i < |s| ==>
      s[i] in entries && s[i].oldval in contents && contents[s[i].oldval] == s[i].newval
  }

  ghost predicate ShownUpTo(chains: seq<seq<Entry>>, contents: map<nat, nat>, entries: set<Entry>, n: nat)
    requires n <= |chains|
    reads entries`newval
  {
    n == 0 || (ShownUpTo(chains, contents, entries, n - 1) && Shows(chains[n - 1], contents, entries))
  }

  /** Every chain maps its keys as the map does. */
  ghost predicate Shown(chains: seq<seq<Entry>>, contents: map<nat, nat>, entries: set<Entry>)
    reads entries`newval
  {
    ShownUpTo(chains, contents, entries, |chains|)
  }

  lemma {:induction false} ShownUpToIsAll(chains: seq<seq<Entry>>, contents: map<nat, nat>, entries: set<Entry>, n: nat)
    requires n <= |chains|
    ensures ShownUpTo(chains, contents, entries, n) <==> forall b :: 0 <= b < n ==> Shows(chains[b], contents, entries)
  {
    if n > 0 {
      ShownUpToIsAll(chains, contents, entries, n - 1);
    }
  }

  /** The keys of a chain; recursive, so that each use goes through InKeys below. */
  ghost function KeysOf(s: seq<Entry>): set<nat> {
    if s == [] then {} else {s[0].oldval} + KeysOf(s[1..])
  }

  lemma {:induction false} InKeys(s: seq<Entry>, key: nat)
    ensures key in KeysOf(s) <==> exists i :: 0 <= i < |s| && s[i].oldval == key
  {
    if s != [] {
      InKeys(s[1..], key);
      if i :| 0 <= i < |s| && s[i].oldval == key {
        if i > 0 {
          assert s[1..][i - 1].oldval == key;
        }
      }
      if key in KeysOf(s[1..]) {
        var i :| 0 <= i < |s[1..]| && s[1..][i].oldval == key;
        assert s[i + 1].oldval == key;
      }
    }
  }

  /** s holds exactly the keys that hash to bucket b under the mask, each once. */
  ghost predicate Homed(s: seq<Entry>, mask: nat, b: nat, keys: set<nat>) {
    && (forall i :: 0 <= i < |s| ==> BitAnd(s[i].oldval, mask) == b)
    && (forall i, j :: 0 <= i < j < |s| ==> s[i].oldval != s[j].oldval)
    && (forall k :: k in KeysOf(s) <==> k in keys && BitAnd(k, mask) == b)
  }

  ghost predicate HomedUpTo(chains: seq<seq<Entry>>, mask: nat, keys: set<nat>, n: nat)
    requires n <= |chains|
  {
    n == 0 || (HomedUpTo(chains, mask, keys, n - 1) && Homed(chains[n - 1], mask, n - 1, keys))
  }

  /** The chains hold exactly the keys, each in the bucket it hashes to. */
  ghost predicate Keyed(chains: seq<seq<Entry>>, mask: nat, keys: set<nat>) {
    |chains| == mask + 1 && HomedUpTo(chains, mask, keys, |chains|)
  }

  lemma {:induction false} HomedUpToIsAll(chains: seq<seq<Entry>>, mask: nat, keys: set<nat>, n: nat)
    requires n <= |chains|
    ensures HomedUpTo(chains, mask, keys, n) <==> forall b :: 0 <= b < n ==> Homed(chains[b], mask, b, keys)
  {
    if n > 0 {
      HomedUpToIsAll(chains, mask, keys, n - 1);
    }
  }

  /** Keyed, bucket by bucket. */
  lemma KeyedAt(chains: seq<seq<Entry>>, mask: nat, keys: set<nat>, b: nat)
    requires Keyed(chains, mask, keys) && b <= mask
    ensures Homed(chains[b], mask, b, keys)
  {
    HomedUpToIsAll(chains, mask, keys, |chains|);
  }

  lemma EmptyChains(n: nat, heads: seq<Entry?>, chains: seq<seq<Entry>>)
    requires |heads| == |chains| == n && n > 0
    requires forall b :: 0 <= b < n ==> heads[b] == null && chains[b] == []
    ensures Keyed(chains, n - 1, {}) && Shown(chains, map[], {}) && Chained(heads, chains, {})
  {
    HomedUpToIsAll(chains, n - 1, {}, n);
    ShownUpToIsAll(chains, map[], {}, n);
    LinkedUpToIsAll(heads, chains, {}, n);
  }

  /** A key occurs in no bucket but the one it hashes to. */
  lemma Elsewhere(chains: seq<seq<Entry>>, mask: nat, keys: set<nat>, key: nat)
    requires Keyed(chains, mask, keys)
    ensures forall b, i :: 0 <= b < |chains| && b != BitAnd(key, mask) && 0 <= i < |chains[b]| ==>
              chains[b][i].oldval != key
  {
    HomedUpToIsAll(chains, mask, keys, |chains|);
  }

  lemma KeyedInsert(chains: seq<seq<Entry>>, mask: nat, keys: set<nat>, e: Entry)
    requires Keyed(chains, mask, keys) && e.oldval !in keys
    ensures var b := BitAnd(e.oldval, mask);
            Keyed(chains[b := [e] + chains[b]], mask, keys + {e.oldval})
  {
    var b := BitAnd(e.oldval, mask);
    var s := [e] + chains[b];
    HomedUpToIsAll(chains, mask, keys, |chains|);
    assert s[1..] == chains[b];
    InKeys(chains[b], e.oldval);
    HomedUpToIsAll(chains[b := s], mask, keys + {e.oldval}, |chains|);
  }

  lemma ShownInsert(chains: seq<seq<Entry>>, mask: nat, contents: map<nat, nat>, entries: set<Entry>, e: Entry)
    requires Keyed(chains, mask, contents.Keys) && e.oldval !in contents && Shown(chains, contents, entries)
    ensures var b := BitAnd(e.oldval, mask);
            Shown(chains[b := [e] + chains[b]], contents[e.oldval := e.newval], entries + {e})
  {
    var b := BitAnd(e.oldval, mask);
    ShownUpToIsAll(chains, contents, entries, |chains|);
    ShownUpToIsAll(chains[b := [e] + chains[b]], contents[e.oldval := e.newval], entries + {e}, |chains|);
  }

  lemma ShownDelete(chains: seq<seq<Entry>>, mask: nat, contents: map<nat, nat>, entries: set<Entry>, b: nat, i: nat)
    requires Keyed(chains, mask, contents.Keys) && b <= mask && i < |chains[b]| && Shown(chains, contents, entries)
    ensures Shown(chains[b := chains[b][..i] + chains[b][i + 1..]], contents - {chains[b][i].oldval}, entries)
  {
    ShownUpToIsAll(chains, contents, entries, |chains|);
    ShownUpToIsAll(chains[b := chains[b][..i] + chains[b][i + 1..]], contents - {chains[b][i].oldval}, entries, |chains|);
    Elsewhere(chains, mask, contents.Keys, chains[b][i].oldval);
    KeyedAt(chains, mask, contents.Keys, b);
  }

  lemma KeyedDelete(chains: seq<seq<Entry>>, mask: nat, keys: set<nat>, b: nat, i: nat)
    requires Keyed(chains, mask, keys) && b <= mask && i < |chains[b]|
    ensures Keyed(chains[b := chains[b][..i] + chains[b][i + 1..]], mask, keys - {chains[b][i].oldval})
  {
    var s := chains[b][..i] + chains[b][i + 1..];
    HomedUpToIsAll(chains, mask, keys, |chains|);
    forall k
      ensures k in KeysOf(s) <==> k != chains[b][i].oldval && k in KeysOf(chains[b])
    {
      InKeys(s, k);
      InKeys(chains[b], k);
      if k != chains[b][i].oldval && k in KeysOf(chains[b]) {
        var j :| 0 <= j < |chains[b]| && chains[b][j].oldval == k;
        assert s[if j < i then j else j - 1].oldval == k;
      }
    }
    HomedUpToIsAll(chains[b := s], mask, keys - {chains[b][i].oldval}, |chains|);
  }
}

/** What doubling the bucket array does to the chain of one bucket. */
module SvptrSplit {
  import opened Bits
  import opened SvptrChains

  /** The entries that stay in bucket b under the wider mask, in order. */
  ghost function Kept(s: seq<Entry>, mask: nat, b: nat): seq<Entry> {
    if s == [] then []
    else
      var last := s[|s| - 1];
      Kept(s[..|s| - 1], mask, b) + if BitAnd(last.oldval, mask) == b then [last] else []
  }

  /** The entries that leave it; each was pushed on the front of the twin bucket. */
  ghost function Moved(s: seq<Entry>, mask: nat, b: nat): seq<Entry> {
    if s == [] then []
    else
      var last := s[|s| - 1];
      (if BitAnd(last.oldval, mask) == b then [] else [last]) + Moved(s[..|s| - 1], mask, b)
  }

  ghost predicate Distinct(s: seq<Entry>) {
    forall i, j :: 0 <= i < j < |s| ==> s[i].oldval != s[j].oldval
  }

  ghost predicate LowBits(s: seq<Entry>, n: nat, i: nat)
    requires n > 0
  {
    forall j :: 0 <= j < |s| ==> BitAnd(s[j].oldval, n - 1) == i
  }

  /** Taking one entry from the middle to the front of the last part loses no distinctness. */
  lemma DistinctMove(kept: seq<Entry>, e: Entry, rest: seq<Entry>, moved: seq<Entry>)
    requires Distinct(kept + [e] + rest + moved)
    ensures Distinct(kept + rest + ([e] + moved))
    ensures forall j :: 0 <= j < |kept + rest| ==> (kept + rest)[j] != e
    ensures forall j :: 0 <= j < |moved| ==> moved[j] != e
  {
    var a, k, r := kept + [e] + rest + moved, |kept|, |rest|;
    var b := kept + rest + ([e] + moved);
    forall j | 0 <= j < |b|
      ensures b[j] == a[if j < k || j > k + r then j else if j < k + r then j + 1 else k]
    {
    }
    assert a[k] == e && b[k + r] == e;
    assert forall j :: 0 <= j < k + r ==> (kept + rest)[j] == b[j];
    assert forall j :: 0 <= j < |moved| ==> moved[j] == b[k + r + 1 + j];
  }

  /** Between two buckets: the low bits of every key still name the bucket or its twin. */
  ghost predicate LowHomed(chains: seq<seq<Entry>>, n: nat) {
    && n > 0 && |chains| == 2 * n
    && forall c :: 0 <= c < 2 * n ==> LowBits(chains[c], n, if c < n then c else c - n)
  }


  lemma {:induction false} KeysOfConcat(a: seq<Entry>, b: seq<Entry>)
    ensures KeysOf(a + b) == KeysOf(a) + KeysOf(b)
  {
    if a == [] {
      assert a + b == b;
    } else {
      assert (a + b)[1..] == a[1..] + b;
      KeysOfConcat(a[1..], b);
    }
  }

  ghost predicate Is(s: seq<Entry>, keys: set<nat>) {
    KeysOf(s) == keys && Distinct(s)
  }

  lemma IsAppend(s: seq<Entry>, e: Entry)
    requires Distinct(s) && e.oldval !in KeysOf(s)
    ensures Is(s + [e], KeysOf(s) + {e.oldval}) && Is([e] + s, KeysOf(s) + {e.oldval})
  {
    forall j | 0 <= j < |s|
      ensures s[j].oldval in KeysOf(s)
    {
      InKeys(s, s[j].oldval);
    }
    KeysOfConcat(s, [e]);
    assert ([e] + s)[1..] == s;
  }

  /** What stays is what hashes to b under the wider mask, without duplicates. */
  lemma {:induction false} KeptIs(s: seq<Entry>, mask: nat, b: nat)
    requires Distinct(s)
    ensures Is(Kept(s, mask, b), set k | k in KeysOf(s) && BitAnd(k, mask) == b)
  {
    if s != [] {
      var front, last := s[..|s| - 1], s[|s| - 1];
      assert s == front + [last];
      KeptIs(front, mask, b);
      KeysOfConcat(front, [last]);
      if BitAnd(last.oldval, mask) == b {
        InKeys(front, last.oldval);
        IsAppend(Kept(front, mask, b), last);
      } else {
        assert Kept(s, mask, b) == Kept(front, mask, b);
      }
    }
  }

  lemma {:induction false} MovedIs(s: seq<Entry>, mask: nat, b: nat)
    requires Distinct(s)
    ensures Is(Moved(s, mask, b), set k | k in KeysOf(s) && BitAnd(k, mask) != b)
  {
    if s != [] {
      var front, last := s[..|s| - 1], s[|s| - 1];
      assert s == front + [last];
      MovedIs(front, mask, b);
      KeysOfConcat(front, [last]);
      if BitAnd(last.oldval, mask) != b {
        InKeys(front, last.oldval);
        IsAppend(Moved(front, mask, b), last);
      } else {
        assert Moved(s, mask, b) == Moved(front, mask, b);
      }
    }
  }

  lemma {:induction false} DividedShows(s: seq<Entry>, mask: nat, b: nat, contents: map<nat, nat>, entries: set<Entry>)
    requires Shows(s, contents, entries)
    ensures Shows(Kept(s, mask, b), contents, entries) && Shows(Moved(s, mask, b), contents, entries)
  {
    if s != [] {
      DividedShows(s[..|s| - 1], mask, b, contents, entries);
    }
  }

  lemma ShownSplit(chains: seq<seq<Entry>>, contents: map<nat, nat>, entries: set<Entry>, n: nat, i: nat)
    requires i < n && |chains| == 2 * n && Shown(chains, contents, entries)
    ensures var s := chains[i];
            Shown(chains[i := Kept(s, 2 * n - 1, i)][i + n := Moved(s, 2 * n - 1, i)], contents, entries)
  {
    var s := chains[i];
    ShownUpToIsAll(chains, contents, entries, 2 * n);
    DividedShows(s, 2 * n - 1, i, contents, entries);
    ShownUpToIsAll(chains[i := Kept(s, 2 * n - 1, i)][i + n := Moved(s, 2 * n - 1, i)], contents, entries, 2 * n);
  }

  /** Empty twin buckets change neither the links nor the contents. */
  lemma AddTwins(heads: seq<Entry?>, wide: seq<Entry?>, chains: seq<seq<Entry>>, twins: seq<seq<Entry>>,
                 contents: map<nat, nat>, entries: set<Entry>)
    requires Chained(heads, chains, entries) && Shown(chains, contents, entries)
    requires |twins| == |chains| && |wide| == 2 * |chains| && wide[..|chains|] == heads
    requires forall b :: 0 <= b < |twins| ==> twins[b] == []
    requires forall b :: |chains| <= b < |wide| ==> wide[b] == null
    ensures Chained(wide, chains + twins, entries) && Shown(chains + twins, contents, entries)
  {
    var n := |chains|;
    LinkedUpToIsAll(heads, chains, entries, n);
    ShownUpToIsAll(chains, contents, entries, n);
    forall b | 0 <= b < 2 * n
      ensures Linked(wide[b], (chains + twins)[b], entries) && Shows((chains + twins)[b], contents, entries)
    {
      if b < n {
        assert wide[b] == wide[..n][b];
      }
    }
    LinkedUpToIsAll(wide, chains + twins, entries, 2 * n);
    ShownUpToIsAll(chains + twins, contents, entries, 2 * n);
  }

  lemma HomedFrom(s: seq<Entry>, mask: nat, b: nat, keys: set<nat>)
    requires Distinct(s) && forall k :: k in KeysOf(s) <==> k in keys && BitAnd(k, mask) == b
    ensures Homed(s, mask, b, keys)
  {
    forall i | 0 <= i < |s|
      ensures BitAnd(s[i].oldval, mask) == b
    {
      InKeys(s, s[i].oldval);
    }
  }

  /** Splitting bucket b of n = 2^order puts each key where it hashes among the 2n buckets. */
  lemma DividedHomed(s: seq<Entry>, order: nat, b: nat, keys: set<nat>)
    requires b < Pow2(order) && Homed(s, Pow2(order) - 1, b, keys)
    ensures var n := Pow2(order);
            Homed(Kept(s, 2 * n - 1, b), 2 * n - 1, b, keys) && Homed(Moved(s, 2 * n - 1, b), 2 * n - 1, b + n, keys)
  {
    var n := Pow2(order);
    var narrow, wide := n - 1, 2 * n - 1;
    KeptIs(s, wide, b);
    MovedIs(s, wide, b);
    forall k: nat
      ensures BitAnd(k, narrow) == b <==> BitAnd(k, wide) == b || BitAnd(k, wide) == b + n
    {
      WiderMask(k, order);
    }
    HomedFrom(Kept(s, wide, b), wide, b, keys);
    HomedFrom(Moved(s, wide, b), wide, b + n, keys);
  }

  /** Bucket b when i of the n buckets have been split. */
  ghost predicate HalfSplitAt(s: seq<Entry>, n: nat, i: nat, keys: set<nat>, b: nat)
    requires n > 0
  {
    if b < i || n <= b < n + i then Homed(s, 2 * n - 1, b, keys)
    else if b < n then Homed(s, n - 1, b, keys)
    else s == []
  }

  ghost predicate HalfSplitUpTo(chains: seq<seq<Entry>>, n: nat, i: nat, keys: set<nat>, m: nat)
    requires n > 0 && m <= |chains|
  {
    m == 0 || (HalfSplitUpTo(chains, n, i, keys, m - 1) && HalfSplitAt(chains[m - 1], n, i, keys, m - 1))
  }

  ghost predicate HalfSplit(chains: seq<seq<Entry>>, n: nat, i: nat, keys: set<nat>) {
    n > 0 && |chains| == 2 * n && i <= n && HalfSplitUpTo(chains, n, i, keys, 2 * n)
  }

  lemma {:induction false} HalfSplitUpToIsAll(chains: seq<seq<Entry>>, n: nat, i: nat, keys: set<nat>, m: nat)
    requires n > 0 && m <= |chains|
    ensures HalfSplitUpTo(chains, n, i, keys, m) <==> forall b :: 0 <= b < m ==> HalfSplitAt(chains[b], n, i, keys, b)
  {
    if m > 0 {
      HalfSplitUpToIsAll(chains, n, i, keys, m - 1);
    }
  }

  lemma HalfSplitStart(chains: seq<seq<Entry>>, n: nat, keys: set<nat>, twins: seq<seq<Entry>>)
    requires n > 0 && Keyed(chains, n - 1, keys)
    requires |twins| == n && forall b :: 0 <= b < n ==> twins[b] == []
    ensures HalfSplit(chains + twins, n, 0, keys)
  {
    HomedUpToIsAll(chains, n - 1, keys, n);
    HalfSplitUpToIsAll(chains + twins, n, 0, keys, 2 * n);
  }

  lemma HalfSplitLowAt(s: seq<Entry>, order: nat, i: nat, keys: set<nat>, c: nat)
    requires i < Pow2(order) && c < 2 * Pow2(order) && HalfSplitAt(s, Pow2(order), i, keys, c)
    ensures LowBits(s, Pow2(order), if c < Pow2(order) then c else c - Pow2(order))
  {
    forall j | 0 <= j < |s|
      ensures BitAnd(s[j].oldval, Pow2(order) - 1) == if c < Pow2(order) then c else c - Pow2(order)
    {
      WiderMask(s[j].oldval, order);
    }
  }

  lemma HalfSplitLow(chains: seq<seq<Entry>>, order: nat, i: nat, keys: set<nat>)
    requires i < Pow2(order) && HalfSplit(chains, Pow2(order), i, keys)
    ensures LowHomed(chains, Pow2(order)) && Distinct(chains[i]) && chains[i + Pow2(order)] == []
  {
    var n := Pow2(order);
    HalfSplitUpToIsAll(chains, n, i, keys, 2 * n);
    assert HalfSplitAt(chains[i], n, i, keys, i) && HalfSplitAt(chains[i + n], n, i, keys, i + n);
    forall c | 0 <= c < 2 * n
      ensures LowBits(chains[c], n, if c < n then c else c - n)
    {
      HalfSplitLowAt(chains[c], order, i, keys, c);
    }
  }

  lemma HalfSplitAtNext(s: seq<Entry>, n: nat, i: nat, keys: set<nat>, b: nat)
    requires i < n && b != i && b != i + n && HalfSplitAt(s, n, i, keys, b)
    ensures HalfSplitAt(s, n, i + 1, keys, b)
  {
  }

  lemma HalfSplitStep(chains: seq<seq<Entry>>, order: nat, i: nat, keys: set<nat>)
    requires i < Pow2(order) && HalfSplit(chains, Pow2(order), i, keys)
    ensures var n, s := Pow2(order), chains[i];
            HalfSplit(chains[i := Kept(s, 2 * n - 1, i)][i + n := Moved(s, 2 * n - 1, i)], n, i + 1, keys)
  {
    var n, s := Pow2(order), chains[i];
    var after := chains[i := Kept(s, 2 * n - 1, i)][i + n := Moved(s, 2 * n - 1, i)];
    HalfSplitUpToIsAll(chains, n, i, keys, 2 * n);
    assert HalfSplitAt(s, n, i, keys, i);
    DividedHomed(s, order, i, keys);
    forall b | 0 <= b < 2 * n
      ensures HalfSplitAt(after[b], n, i + 1, keys, b)
    {
      assert HalfSplitAt(chains[b], n, i, keys, b);
      if b != i && b != i + n {
        assert after[b] == chains[b];
        HalfSplitAtNext(chains[b], n, i, keys, b);
      }
    }
    HalfSplitUpToIsAll(after, n, i + 1, keys, 2 * n);
  }

  lemma HalfSplitEnd(chains: seq<seq<Entry>>, n: nat, keys: set<nat>)
    requires HalfSplit(chains, n, n, keys)
    ensures Keyed(chains, 2 * n - 1, keys)
  {
    HalfSplitUpToIsAll(chains, n, n, keys, 2 * n);
    HomedUpToIsAll(chains, 2 * n - 1, keys, 2 * n);
  }
}

/** modperl_svptr_table.c, proved to be a finite map from pointers to SV pointers (0 is NULL). */
module SvptrTable {
  import opened Bits
  import opened SvptrChains
  import opened SvptrSplit

  class Table {
    var ary: array<Entry?>
    var tblMax: nat
    var tblItems: int
    var decremented: seq<nat>  // the non-null SVs handed to SvREFCNT_dec, oldest first
    ghost var contents: map<nat, nat>
    ghost var chains: seq<seq<Entry>>
    ghost var entries: set<Entry>  // every entry ever allocated for this table
    ghost var order: nat

    /** The shape of the table: well-formed chains that hold exactly the map. */
    ghost predicate Shaped()
      reads this, ary, entries
    {
      && order >= 1 && tblMax + 1 == Pow2(order)
      && Chained(ary[..], chains, entries)
      && Keyed(chains, tblMax, contents.Keys)
      && Shown(chains, contents, entries)
    }

    /** The table's own chains hang off its bucket array. */
    ghost predicate Strung()
      reads this, ary, entries`next
    {
      ary.Length == tblMax + 1 && Chained(ary[..], chains, entries)
    }

    ghost predicate Valid()
      reads this, ary, entries
    {
      Shaped() && tblItems == |contents|
    }

    constructor ()
      ensures Valid() && contents == map[] && decremented == [] && fresh(ary) && entries == {}
      ensures tblMax == 511
    {
      tblMax, tblItems, decremented := 511, 0, [];
      ary := new Entry?[512](_ => null);
      contents, chains, entries, order := map[], seq(512, _ => []), {}, 9;
      new;
      EmptyChains(512, ary[..], chains);
      assert contents.Keys == {};
      assert Pow2(3) == 8 && Pow2(6) == 8 * Pow2(3) && Pow2(9) == 8 * Pow2(6);
    }

    /** The empty table that modperl_svptr_table_clone starts from. */
    constructor Shell(source: Table)
      requires source.Shaped()
      ensures tblMax == source.tblMax && tblItems == source.tblItems && order == source.order
      ensures Shaped() && contents == map[] && decremented == [] && fresh(ary) && entries == {}
      ensures forall b :: 0 <= b < |chains| ==> chains[b] == []
    {
      tblMax, tblItems, decremented := source.tblMax, source.tblItems, [];
      ary := new Entry?[source.tblMax + 1](_ => null);
      contents, chains, entries, order := map[], seq(source.tblMax + 1, _ => []), {}, source.order;
      new;
      EmptyChains(source.tblMax + 1, ary[..], chains);
      assert contents.Keys == {};
    }

    /** Walks the bucket of the key; answers the matching entry, its predecessor and its index. */
    method Find(key: nat) returns (prev: Entry?, e: Entry?, ghost i: nat)
      requires Shaped()
      ensures e == null <==> key !in contents
      ensures var s := chains[BitAnd(key, tblMax)];
              e != null ==> i < |s| && e == s[i] && e.oldval == key && e in entries && prev == At(s, i - 1)
                            && key in contents && contents[key] == e.newval
      ensures e == null ==> (prev == null <==> chains[BitAnd(key, tblMax)] == [])
    {
      ghost var s := chains[BitAnd(key, tblMax)];
      KeyedAt(chains, tblMax, contents.Keys, BitAnd(key, tblMax));
      InKeys(s, key);
      ShownUpToIsAll(chains, contents, entries, |chains|);
      LinkedUpToIsAll(ary[..], chains, entries, |chains|);
      prev, e, i := null, ary[BitAnd(key, tblMax)], 0;
      while e != null
        invariant 0 <= i <= |s| && e == At(s, i) && prev == At(s, i - 1)
        invariant forall j :: 0 <= j < i ==> s[j].oldval != key
        decreases |s| - i
      {
        if e.oldval == key {
          return;
        }
        prev, e, i := e, e.next, i + 1;
      }
    }

    method Fetch(key: nat) returns (val: nat)
      requires Shaped()
      ensures val == if key in contents then contents[key] else 0
    {
      var _, e, _ := Find(key);
      val := if e == null then 0 else e.newval;
    }

    method Store(key: nat, val: nat)
      requires Valid()
      modifies this, ary, entries
      ensures Valid() && contents == old(contents)[key := val] && decremented == old(decremented)
      ensures |contents| <= old(tblMax) ==> tblMax == old(tblMax)
      ensures fresh(entries - old(entries)) && (ary == old(ary) || fresh(ary))
    {
      var last, e, i := Find(key);
      if e != null {
        Overwrite(e, val, i);
        return;
      }
      Insert(key, val);
      if last == null && tblItems > tblMax {
        Split();
      }
    }

    method Overwrite(e: Entry, val: nat, ghost i: nat)
      requires Valid()
      requires e in entries && i < |chains[BitAnd(e.oldval, tblMax)]| && e == chains[BitAnd(e.oldval, tblMax)][i]
      modifies this, entries
      ensures Valid() && contents == old(contents)[e.oldval := val]
      ensures unchanged(this`ary, this`entries, this`decremented, this`tblMax)
    {
      Elsewhere(chains, tblMax, contents.Keys, e.oldval);
      KeyedAt(chains, tblMax, contents.Keys, BitAnd(e.oldval, tblMax));
      ShownUpToIsAll(chains, contents, entries, |chains|);
      e.newval := val;
      contents := contents[e.oldval := val];
      assert contents.Keys == old(contents).Keys;
      ShownUpToIsAll(chains, contents, entries, |chains|);
    }

    method Insert(key: nat, val: nat)
      requires Valid() && key !in contents
      modifies this, ary, entries
      ensures Valid() && contents == old(contents)[key := val]
      ensures unchanged(this`ary, this`tblMax, this`decremented) && fresh(entries - old(entries))
    {
      var e := new Entry(key, val, ary[BitAnd(key, tblMax)]);
      Link(e);
    }

    method Link(e: Entry)
      requires Valid() && e.oldval !in contents && e.next == ary[BitAnd(e.oldval, tblMax)]
      modifies this, ary
      ensures Valid() && contents == old(contents)[e.oldval := e.newval]
      ensures unchanged(this`ary, this`tblMax, this`decremented) && entries == old(entries) + {e}
    {
      KeyedInsert(chains, tblMax, contents.Keys, e);
      PushFront(BitAnd(e.oldval, tblMax), e);
      ShownInsert(old(chains), tblMax, contents, old(entries), e);
      tblItems := tblItems + 1;
      contents := contents[e.oldval := e.newval];
      assert contents.Keys == old(contents).Keys + {e.oldval};
    }

    method PushFront(b: nat, e: Entry)
      requires Chained(ary[..], chains, entries) && b < |chains| && e.next == ary[b]
      modifies ary, this`chains, this`entries
      ensures Chained(ary[..], chains, entries) && chains == old(chains)[b := [e] + old(chains)[b]] && entries == old(entries) + {e}
    {
      LinkedUpToIsAll(ary[..], chains, entries, |chains|);
      ary[b] := e;
      chains, entries := chains[b := [e] + chains[b]], entries + {e};
      LinkedUpToIsAll(ary[..], chains, entries, |chains|);
    }

    method Delete(key: nat)
      requires Valid()
      modifies this, ary, entries
      ensures Valid() && contents == old(contents) - {key}
      ensures decremented ==
              if key in old(contents) && old(contents)[key] != 0 then old(decremented) + [old(contents)[key]]
              else old(decremented)
      ensures unchanged(this`ary, this`entries)
    {
      var prev, e, i := Find(key);
      if e != null {
        Remove(key, prev, e, i);
      }
    }

    method Remove(key: nat, prev: Entry?, e: Entry, ghost i: nat)
      requires Valid() && key in contents
      requires var s := chains[BitAnd(key, tblMax)];
               i < |s| && e == s[i] && prev == At(s, i - 1) && e.oldval == key && e.newval == contents[key]
      modifies this, ary, entries
      ensures Valid() && contents == old(contents) - {key} && unchanged(this`ary, this`entries)
      ensures decremented ==
              if old(contents)[key] != 0 then old(decremented) + [old(contents)[key]] else old(decremented)
    {
      KeyedDelete(chains, tblMax, contents.Keys, BitAnd(key, tblMax), i);
      Unlink(BitAnd(key, tblMax), prev, e, i);
      ShownDelete(old(chains), tblMax, contents, entries, BitAnd(key, tblMax), i);
      if e.newval != 0 {
        decremented := decremented + [e.newval];
      }
      tblItems := tblItems - 1;
      contents := contents - {key};
      assert contents.Keys == old(contents).Keys - {key};
    }

    /** *oentry = entry->next, where oentry is the bucket head or the predecessor's next field. */
    method Unlink(b: nat, prev: Entry?, e: Entry, ghost i: nat)
      requires Chained(ary[..], chains, entries) && Keyed(chains, tblMax, contents.Keys)
      requires b <= tblMax && i < |chains[b]| && e == chains[b][i] && prev == At(chains[b], i - 1)
      modifies ary, entries`next, this`chains
      ensures Chained(ary[..], chains, entries)
      ensures chains == old(chains)[b := old(chains)[b][..i] + old(chains)[b][i + 1..]]
    {
      LinkedUpToIsAll(ary[..], chains, entries, |chains|);
      if prev == null {
        ary[b] := e.next;
        chains := chains[b := chains[b][..i] + chains[b][i + 1..]];
      } else {
        UnlinkAfter(b, prev, e, i);
      }
      LinkedUpToIsAll(ary[..], chains, entries, |chains|);
    }

    method UnlinkAfter(b: nat, prev: Entry, e: Entry, ghost i: nat)
      requires |chains| == ary.Length == tblMax + 1 && Keyed(chains, tblMax, contents.Keys)
      requires forall c :: 0 <= c < |chains| ==> Linked(ary[c], chains[c], entries)
      requires b <= tblMax && 0 < i < |chains[b]| && e == chains[b][i] && prev == chains[b][i - 1]
      modifies entries`next, this`chains
      ensures chains == old(chains)[b := old(chains)[b][..i] + old(chains)[b][i + 1..]]
      ensures forall c :: 0 <= c < |chains| ==> Linked(ary[c], chains[c], entries)
    {
      KeyedAt(chains, tblMax, contents.Keys, b);
      Elsewhere(chains, tblMax, contents.Keys, prev.oldval);
      prev.next := e.next;
      chains := chains[b := chains[b][..i] + chains[b][i + 1..]];
    }

    /** All chains but those of b and its twin t are linked up, and hold neither x nor y. */
    ghost predicate Others(b: nat, t: nat, x: Entry?, y: Entry?)
      reads this, ary, entries`next
    {
      && ary.Length == |chains|
      && (forall c, j :: 0 <= c < |chains| && c != b && c != t && 0 <= j < |chains[c]| ==>
            chains[c][j] != x && chains[c][j] != y)
      && (forall c :: 0 <= c < |chains| && c != b && c != t ==> Linked(ary[c], chains[c], entries))
    }

    /** *entp = ent->next. */
    method Detach(b: nat, t: nat, prev: Entry?, e: Entry, ghost kept: seq<Entry>, ghost rest: seq<Entry>, ghost moved: seq<Entry>)
      requires b < t < ary.Length && Others(b, t, e, prev)
      requires Linked(ary[b], kept + [e] + rest, entries) && Linked(ary[t], moved, entries)
      requires Distinct(kept + [e] + rest + moved) && prev == At(kept, |kept| - 1)
      modifies ary, entries`next
      ensures Linked(ary[b], kept + rest, entries) && Linked(ary[t], moved, entries) && Others(b, t, e, prev)
    {
      ghost var s := kept + [e] + rest;
      assert s[|kept|] == e;
      if prev == null {
        assert s[1..] == kept + rest;
        ary[b] := e.next;
      } else {
        DistinctMove(kept, e, rest, moved);
        assert s[|kept| - 1] == prev;
        assert forall j :: 0 <= j < |moved| ==> moved[j] == (s + moved)[|s| + j];
        assert forall j :: 0 <= j < |s| ==> s[j] == (s + moved)[j];
        DetachAfter(b, t, prev, e, kept, rest);
      }
    }

    method DetachAfter(b: nat, t: nat, prev: Entry, e: Entry, ghost kept: seq<Entry>, ghost rest: seq<Entry>)
      requires b < t < ary.Length && Others(b, t, e, prev)
      requires Linked(ary[b], kept + [e] + rest, entries) && Distinct(kept + [e] + rest)
      requires kept != [] && prev == kept[|kept| - 1]
      modifies prev`next
      ensures Linked(ary[b], kept + rest, entries) && Others(b, t, e, prev)
    {
      ghost var s := kept + [e] + rest;
      assert s[|kept|] == e && s[|kept| - 1] == prev;
      assert forall j :: 0 <= j < |kept| ==> kept[j] == s[j];
      assert forall j :: 0 <= j < |rest| ==> rest[j] == s[|kept| + 1 + j];
      prev.next := e.next;
    }

    /** ent->next = *curentp; *curentp = ent. */
    method Attach(b: nat, t: nat, e: Entry, ghost kept: seq<Entry>, ghost moved: seq<Entry>)
      requires b < t < ary.Length && Others(b, t, e, e) && e in entries
      requires Linked(ary[b], kept, entries) && Linked(ary[t], moved, entries)
      requires forall j :: 0 <= j < |kept| ==> kept[j] != e
      requires forall j :: 0 <= j < |moved| ==> moved[j] != e
      modifies ary, entries`next
      ensures Linked(ary[b], kept, entries) && Linked(ary[t], [e] + moved, entries) && Others(b, t, e, e)
    {
      e.next := ary[t];
      ary[t] := e;
    }

    method MoveEntry(b: nat, t: nat, prev: Entry?, e: Entry, ghost kept: seq<Entry>, ghost rest: seq<Entry>, ghost moved: seq<Entry>)
      requires b < t < ary.Length && Others(b, t, e, prev)
      requires Linked(ary[b], kept + [e] + rest, entries) && Linked(ary[t], moved, entries)
      requires Distinct(kept + [e] + rest + moved) && prev == At(kept, |kept| - 1)
      modifies ary, entries`next
      ensures Linked(ary[b], kept + rest, entries) && Linked(ary[t], [e] + moved, entries) && Others(b, t, e, e)
    {
      assert (kept + [e] + rest)[|kept|] == e;
      Detach(b, t, prev, e, kept, rest, moved);
      DistinctMove(kept, e, rest, moved);
      Attach(b, t, e, kept + rest, moved);
    }

    /** Bucket i of n, k entries into its split: what stayed and the rest, and what moved to the twin. */
    ghost predicate Splitting(i: nat, n: nat, s: seq<Entry>, k: nat, kept: seq<Entry>, moved: seq<Entry>)
      reads this, ary, entries`next
    {
      && i < n && ary.Length == 2 * n && k <= |s| && LowHomed(chains, n) && LowBits(kept, n, i) && LowBits(s, n, i)
      && kept == Kept(s[..k], 2 * n - 1, i) && moved == Moved(s[..k], 2 * n - 1, i)
      && Distinct(kept + s[k..] + moved)
      && Linked(ary[i], kept + s[k..], entries) && Linked(ary[i + n], moved, entries)
      && (forall c :: 0 <= c < |chains| && c != i && c != i + n ==> Linked(ary[c], chains[c], entries))
    }

    method StepMove(i: nat, n: nat, prev: Entry?, e: Entry, ghost s: seq<Entry>, ghost k: nat, ghost kept: seq<Entry>, ghost moved: seq<Entry>)
      requires Splitting(i, n, s, k, kept, moved) && k < |s| && e == s[k] && prev == At(kept, |kept| - 1)
      requires BitAnd(e.oldval, 2 * n - 1) != i
      modifies ary, entries`next
      ensures Splitting(i, n, s, k + 1, kept, [e] + moved)
    {
      assert kept + s[k..] == kept + [e] + s[k + 1..] && s[..k + 1][..k] == s[..k];
      DistinctMove(kept, e, s[k + 1..], moved);
      assert Others(i, i + n, e, prev);
      MoveEntry(i, i + n, prev, e, kept, s[k + 1..], moved);
    }

    lemma StepKeep(i: nat, n: nat, s: seq<Entry>, k: nat, kept: seq<Entry>, moved: seq<Entry>)
      requires Splitting(i, n, s, k, kept, moved) && k < |s| && BitAnd(s[k].oldval, 2 * n - 1) == i
      ensures Splitting(i, n, s, k + 1, kept + [s[k]], moved)
    {
      assert kept + s[k..] == kept + [s[k]] + s[k + 1..] && s[..k + 1][..k] == s[..k];
    }

    lemma SplitStart(i: nat, n: nat)
      requires i < n && ary.Length == 2 * n && LowHomed(chains, n) && Distinct(chains[i]) && chains[i + n] == []
      requires Chained(ary[..], chains, entries)
      ensures Splitting(i, n, chains[i], 0, [], [])
    {
      LinkedUpToIsAll(ary[..], chains, entries, 2 * n);
      var s := chains[i];
      var none: seq<Entry> := [];
      assert none + s[0..] == s && none + s[0..] + none == s;
    }

    /** *entp, read through the predecessor or the bucket head, is the next entry of the old chain. */
    lemma SplitCursor(i: nat, n: nat, s: seq<Entry>, k: nat, kept: seq<Entry>, moved: seq<Entry>)
      requires Splitting(i, n, s, k, kept, moved)
      ensures At(s, k) == if kept == [] then ary[i] else kept[|kept| - 1].next
    {
      var l := kept + s[k..];
      assert At(l, |kept|) == At(s, k);
      if kept != [] {
        assert l[|kept| - 1] == kept[|kept| - 1];
      }
    }

    lemma SplitEnd(i: nat, n: nat, s: seq<Entry>, kept: seq<Entry>, moved: seq<Entry>)
      requires Splitting(i, n, s, |s|, kept, moved)
      ensures kept == Kept(s, 2 * n - 1, i) && moved == Moved(s, 2 * n - 1, i)
      ensures var after := chains[i := kept][i + n := moved];
              Chained(ary[..], after, entries)
    {
      assert s[..|s|] == s && kept + s[|s|..] == kept;
      LinkedUpToIsAll(ary[..], chains[i := kept][i + n := moved], entries, 2 * n);
    }

    /** The body of the split loop for bucket i, with n buckets before the doubling. */
    method SplitBucket(i: nat, n: nat)
      requires i < n && ary.Length == 2 * n && LowHomed(chains, n) && Distinct(chains[i]) && chains[i + n] == []
      requires Chained(ary[..], chains, entries)
      modifies ary, entries`next, this`chains
      ensures var s := old(chains)[i];
              chains == old(chains)[i := Kept(s, 2 * n - 1, i)][i + n := Moved(s, 2 * n - 1, i)]
      ensures Chained(ary[..], chains, entries)
    {
      ghost var s, k := chains[i], 0;
      ghost var kept: seq<Entry>, moved: seq<Entry> := [], [];
      var prev: Entry?, e := null, ary[i];
      SplitStart(i, n);
      SplitCursor(i, n, s, 0, kept, moved);
      while e != null
        invariant unchanged(`ary, `chains, `entries)
        invariant Splitting(i, n, s, k, kept, moved)
        invariant e == At(s, k) && prev == At(kept, |kept| - 1)
        decreases |s| - k
      {
        if BitAnd(e.oldval, 2 * n - 1) != i {
          StepMove(i, n, prev, e, s, k, kept, moved);
          moved := [e] + moved;
        } else {
          StepKeep(i, n, s, k, kept, moved);
          kept := kept + [e];
          prev := e;
        }
        k := k + 1;
        SplitCursor(i, n, s, k, kept, moved);
        e := if prev == null then ary[i] else prev.next;
      }
      SplitEnd(i, n, s, kept, moved);
      chains := chains[i := kept][i + n := moved];
    }

    /** The bucket array has been doubled, and the first i buckets have been split. */
    ghost predicate MidSplit(n: nat, i: nat)
      reads this, ary, entries
    {
      && n == Pow2(order) && tblMax == 2 * n - 1 && ary.Length == 2 * n
      && HalfSplit(chains, n, i, contents.Keys)
      && Chained(ary[..], chains, entries) && Shown(chains, contents, entries)
    }

    method Split()
      requires Valid()
      modifies this, entries
      ensures Valid() && unchanged(this`contents, this`decremented, this`tblItems, this`entries) && fresh(ary)
    {
      var n := tblMax + 1;
      Widen(n);
      SplitAll(n);
      HalfSplitEnd(chains, n, contents.Keys);
      order := order + 1;
    }

    method SplitAll(n: nat)
      requires MidSplit(n, 0)
      modifies ary, entries`next, this`chains
      ensures MidSplit(n, n)
    {
      for i := 0 to n
        invariant MidSplit(n, i)
      {
        SplitNext(n, i);
      }
    }

    method SplitNext(n: nat, i: nat)
      requires i < n && MidSplit(n, i)
      modifies ary, entries`next, this`chains
      ensures MidSplit(n, i + 1)
    {
      HalfSplitLow(chains, order, i, contents.Keys);
      HalfSplitStep(chains, order, i, contents.Keys);
      ShownSplit(chains, contents, entries, n, i);
      SplitBucket(i, n);
    }

    /** Renew to twice the buckets and Zero of the new half. */
    method Widen(n: nat)
      requires Valid() && n == tblMax + 1
      modifies this
      ensures unchanged(`contents, `decremented, `tblItems, `entries, `order) && fresh(ary)
      ensures MidSplit(n, 0)
    {
      var wide := new Entry?[2 * n](_ => null);
      forall i | 0 <= i < n {
        wide[i] := ary[i];
      }
      ghost var twins: seq<seq<Entry>> := seq(n, _ => []);
      HalfSplitStart(chains, n, contents.Keys, twins);
      assert wide[..][..n] == ary[..] == old(ary[..]);
      AddTwins(ary[..], wide[..], chains, twins, contents, entries);
      ary, tblMax := wide, 2 * n - 1;
      chains := chains + twins;
    }
  }
}
