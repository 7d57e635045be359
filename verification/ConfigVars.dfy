/** apr_table_t, as far as mod_perl's configuration uses it: entries in order, keys without case. */
module AprTable {
  datatype Entry = Entry(key: string, val: string)
  type Table = seq<Entry>

  function FoldChar(c: char): char {
    if 'A' <= c <= 'Z' then c - 'A' + 'a' else c
  }

  function Fold(s: string): (r: string)
    ensures |r| == |s| && forall i :: 0 <= i < |s| ==> r[i] == FoldChar(s[i])
  {
    if s == "" then "" else [FoldChar(s[0])] + Fold(s[1..])
  }

  /** strcasecmp answers 0. */
  predicate Same(a: string, b: string) {
    Fold(a) == Fold(b)
  }

  /** Two keys are the same exactly if only the case of their letters differs. */
  lemma SameButForCase(a: string, b: string)
    ensures Same(a, b) <==>
              && |a| == |b|
              && forall i :: 0 <= i < |a| ==>
                   || a[i] == b[i]
                   || ('A' <= a[i] <= 'Z' && b[i] as int == a[i] as int + 32)
                   || ('A' <= b[i] <= 'Z' && a[i] as int == b[i] as int + 32)
  {
  }

  predicate HasKey(t: Table, k: string) {
    exists i :: 0 <= i < |t| && Same(t[i].key, k)
  }

  /** apr_table_unset. */
  function Unset(t: Table, k: string): Table {
    if t == [] then []
    else if Same(t[0].key, k) then Unset(t[1..], k)
    else [t[0]] + Unset(t[1..], k)
  }

  /** apr_table_setn: the first entry of the key takes the value, the others go; else a new entry. */
  function Setn(t: Table, k: string, v: string): Table {
    if t == [] then [Entry(k, v)]
    else if Same(t[0].key, k) then [t[0].(val := v)] + Unset(t[1..], k)
    else [t[0]] + Setn(t[1..], k, v)
  }

  /** The entries of es set one after the other. */
  function SetAll(t: Table, es: Table): Table
    decreases es
  {
    if es == [] then t else SetAll(Setn(t, es[0].key, es[0].val), es[1..])
  }

  /** apr_table_compress with APR_OVERLAP_TABLES_SET: one entry per key, at its first place, with its last value. */
  function Compress(t: Table): Table {
    SetAll([], t)
  }

  /** The values of a key, in order. */
  function Values(t: Table, k: string): seq<string> {
    if t == [] then []
    else if Same(t[0].key, k) then [t[0].val] + Values(t[1..], k)
    else Values(t[1..], k)
  }

  // ----- values of one key -----

  lemma {:induction false} ValuesConcat(t: Table, u: Table, k: string)
    ensures Values(t + u, k) == Values(t, k) + Values(u, k)
  {
    if t == [] {
      assert t + u == u;
    } else {
      assert (t + u)[1..] == t[1..] + u;
      ValuesConcat(t[1..], u, k);
    }
  }

  lemma {:induction false} ValuesUnset(t: Table, k: string, q: string)
    ensures Values(Unset(t, k), q) == if Same(k, q) then [] else Values(t, q)
  {
    if t != [] {
      ValuesUnset(t[1..], k, q);
      if !Same(t[0].key, k) {
        assert Unset(t, k)[1..] == Unset(t[1..], k);
      }
    }
  }

  lemma {:induction false} ValuesSetn(t: Table, k: string, v: string, q: string)
    ensures Values(Setn(t, k, v), q) == if Same(k, q) then [v] else Values(t, q)
  {
    if t != [] {
      if Same(t[0].key, k) {
        assert Setn(t, k, v)[1..] == Unset(t[1..], k);
        ValuesUnset(t[1..], k, q);
      } else {
        assert Setn(t, k, v)[1..] == Setn(t[1..], k, v);
        ValuesSetn(t[1..], k, v, q);
      }
    }
  }

  // ----- entry lists -----

  lemma {:induction false} UnsetConcat(t: Table, u: Table, k: string)
    ensures Unset(t + u, k) == Unset(t, k) + Unset(u, k)
  {
    if t == [] {
      assert t + u == u;
    } else {
      assert (t + u)[1..] == t[1..] + u;
      UnsetConcat(t[1..], u, k);
    }
  }

  lemma {:induction false} UnsetCommutes(t: Table, k: string, q: string)
    ensures Unset(Unset(t, k), q) == Unset(Unset(t, q), k)
  {
    if t != [] {
      UnsetCommutes(t[1..], k, q);
      var head, tail := [t[0]], t[1..];
      assert t == head + tail;
      UnsetConcat(head, Unset(tail, k), q);
      UnsetConcat(head, Unset(tail, q), k);
    }
  }

  lemma {:induction false} UnsetTwice(t: Table, k: string, q: string)
    requires Same(k, q)
    ensures Unset(Unset(t, k), q) == Unset(t, k)
  {
    if t != [] {
      UnsetTwice(t[1..], k, q);
      if !Same(t[0].key, k) {
        assert Unset(t, k)[1..] == Unset(t[1..], k);
      }
    }
  }

  /** Setting another key does not disturb unsetting this one. */
  lemma {:induction false} UnsetSetn(t: Table, k: string, v: string, q: string)
    requires !Same(k, q)
    ensures Unset(Setn(t, k, v), q) == Setn(Unset(t, q), k, v)
  {
    if t != [] {
      if Same(t[0].key, k) {
        assert Setn(t, k, v)[1..] == Unset(t[1..], k);
        assert Unset(t, q)[1..] == Unset(t[1..], q);
        UnsetCommutes(t[1..], k, q);
      } else {
        assert Setn(t, k, v)[1..] == Setn(t[1..], k, v);
        UnsetSetn(t[1..], k, v, q);
        if !Same(t[0].key, q) {
          assert Unset(t, q)[1..] == Unset(t[1..], q);
        }
      }
    }
  }

  /** The second of two settings of a key is all that is left of them. */
  lemma {:induction false} SetnTwice(t: Table, k: string, v: string, q: string, w: string)
    requires Same(k, q)
    ensures Setn(Setn(t, k, v), q, w) == Setn(t, k, w)
  {
    if t != [] {
      if Same(t[0].key, k) {
        assert Setn(t, k, v)[1..] == Unset(t[1..], k);
        UnsetTwice(t[1..], k, q);
      } else {
        assert Setn(t, k, v)[1..] == Setn(t[1..], k, v);
        SetnTwice(t[1..], k, v, q, w);
      }
    }
  }

  /** Once a key is there, changing its value commutes with setting other keys. */
  lemma {:induction false} SetnCommutes(t: Table, k: string, v: string, q: string, w: string)
    requires HasKey(t, k) && !Same(k, q)
    ensures Setn(Setn(t, q, w), k, v) == Setn(Setn(t, k, v), q, w)
  {
    if t == [] {
      assert false;
    } else {
      var i :| 0 <= i < |t| && Same(t[i].key, k);
      if Same(t[0].key, k) {
        assert Setn(t, q, w)[1..] == Setn(t[1..], q, w);
        assert Setn(t, k, v)[1..] == Unset(t[1..], k);
        UnsetSetn(t[1..], q, w, k);
      } else {
        assert t[1..][i - 1] == t[i];
        assert Setn(t, k, v)[1..] == Setn(t[1..], k, v);
        if Same(t[0].key, q) {
          assert Setn(t, q, w)[1..] == Unset(t[1..], q);
          UnsetSetn(t[1..], k, v, q);
        } else {
          assert Setn(t, q, w)[1..] == Setn(t[1..], q, w);
          SetnCommutes(t[1..], k, v, q, w);
        }
      }
    }
  }

  lemma {:induction false} SetnHasKey(t: Table, k: string, v: string, q: string)
    requires Same(k, q) || HasKey(t, q)
    ensures HasKey(Setn(t, k, v), q)
  {
    ValuesSetn(t, k, v, q);
    KeyHasValues(t, q);
    KeyHasValues(Setn(t, k, v), q);
  }

  lemma {:induction false} KeyHasValues(t: Table, k: string)
    ensures HasKey(t, k) <==> Values(t, k) != []
  {
    if t != [] {
      KeyHasValues(t[1..], k);
      if i :| 0 <= i < |t| && Same(t[i].key, k) {
        assert i > 0 ==> t[1..][i - 1] == t[i];
      }
      if i :| 0 <= i < |t[1..]| && Same(t[1..][i].key, k) {
        assert t[i + 1] == t[1..][i];
      }
    }
  }

  lemma {:induction false} SetAllConcat(t: Table, a: Table, b: Table)
    ensures SetAll(t, a + b) == SetAll(SetAll(t, a), b)
    decreases a
  {
    if a == [] {
      assert a + b == b;
    } else {
      assert (a + b)[1..] == a[1..] + b;
      SetAllConcat(Setn(t, a[0].key, a[0].val), a[1..], b);
    }
  }

  /** One entry per key. */
  predicate Unique(t: Table) {
    t == [] || (Values(t[1..], t[0].key) == [] && Unique(t[1..]))
  }

  lemma {:induction false} UnsetAbsent(t: Table, k: string)
    requires Values(t, k) == []
    ensures Unset(t, k) == t
  {
    if t != [] {
      UnsetAbsent(t[1..], k);
    }
  }

  lemma {:induction false} ValuesOfSame(t: Table, k: string, q: string)
    requires Same(k, q)
    ensures Values(t, k) == Values(t, q)
  {
    if t != [] {
      ValuesOfSame(t[1..], k, q);
    }
  }

  lemma {:induction false} SetnUnique(t: Table, k: string, v: string)
    requires Unique(t)
    ensures Unique(Setn(t, k, v))
  {
    if t != [] {
      if Same(t[0].key, k) {
        assert Setn(t, k, v)[1..] == Unset(t[1..], k);
        ValuesOfSame(t[1..], t[0].key, k);
        UnsetAbsent(t[1..], k);
      } else {
        assert Setn(t, k, v)[1..] == Setn(t[1..], k, v);
        SetnUnique(t[1..], k, v);
        ValuesSetn(t[1..], k, v, t[0].key);
      }
    }
  }

  lemma {:induction false} SetAllUnique(t: Table, es: Table)
    requires Unique(t)
    ensures Unique(SetAll(t, es))
    decreases es
  {
    if es != [] {
      SetnUnique(t, es[0].key, es[0].val);
      SetAllUnique(Setn(t, es[0].key, es[0].val), es[1..]);
    }
  }

  /** A key that is there, and that es does not touch, may take its value before or after es. */
  lemma {:induction false} SetnPastAll(t: Table, es: Table, k: string, v: string)
    requires HasKey(t, k) && Values(es, k) == []
    ensures Setn(SetAll(t, es), k, v) == SetAll(Setn(t, k, v), es)
    decreases es
  {
    if es != [] {
      var e := es[0];
      SetnHasKey(t, e.key, e.val, k);
      SetnPastAll(Setn(t, e.key, e.val), es[1..], k, v);
      SetnCommutes(t, k, v, e.key, e.val);
    }
  }

  /** Setting a key in the entries to be applied is setting it afterwards. */
  lemma {:induction false} SetAllSetn(t: Table, es: Table, k: string, v: string)
    requires Unique(es)
    ensures SetAll(t, Setn(es, k, v)) == Setn(SetAll(t, es), k, v)
    decreases es
  {
    if es == [] {
      assert SetAll(Setn(t, k, v), []) == Setn(t, k, v);
    } else {
      var e := es[0];
      var u := Setn(t, e.key, e.val);
      if Same(e.key, k) {
        assert Setn(es, k, v)[1..] == Unset(es[1..], k);
        ValuesOfSame(es[1..], e.key, k);
        UnsetAbsent(es[1..], k);
        SetnHasKey(t, e.key, e.val, k);
        SetnPastAll(u, es[1..], k, v);
        SetnTwice(t, e.key, e.val, k, v);
      } else {
        assert Setn(es, k, v)[1..] == Setn(es[1..], k, v);
        SetAllSetn(u, es[1..], k, v);
      }
    }
  }

  /** Compressing the entries first makes no difference. */
  lemma {:induction false} SetAllCompress(t: Table, es: Table)
    ensures SetAll(t, Compress(es)) == SetAll(t, es)
  {
    if es != [] {
      var init, e := es[..|es| - 1], es[|es| - 1];
      assert es == init + [e];
      SetAllCompress(t, init);
      SetAllConcat([], init, [e]);
      SetAllConcat(t, init, [e]);
      SetAllUnique([], init);
      SetAllSetn(t, Compress(init), e.key, e.val);
      SetOne(Compress(init), e);
      SetOne(SetAll(t, init), e);
    }
  }

  lemma SetOne(t: Table, e: Entry)
    ensures SetAll(t, [e]) == Setn(t, e.key, e.val)
  {
    assert SetAll(Setn(t, e.key, e.val), [e][1..]) == Setn(t, e.key, e.val);
  }

  lemma {:induction false} ValuesSetAll(t: Table, es: Table, q: string)
    ensures Values(SetAll(t, es), q) ==
            var vs := Values(es, q); if vs == [] then Values(t, q) else [vs[|vs| - 1]]
    decreases es
  {
    if es != [] {
      ValuesSetn(t, es[0].key, es[0].val, q);
      ValuesSetAll(Setn(t, es[0].key, es[0].val), es[1..], q);
    }
  }
}

/** PerlSetVar and PerlAddVar: modperl_cmd.c sets them, modperl_config.c merges them. */
module ConfigVars {
  import opened AprTable

  datatype Vars = Vars(configvars: Table, setvars: Table)

  datatype Directive = SetVar(key: string, val: string) | AddVar(key: string, val: string)

  const EMPTY := Vars([], [])

  function Apply(v: Vars, d: Directive): Vars {
    match d
    case SetVar(k, x) => Vars(Setn(v.configvars, k, x), Setn(v.setvars, k, x))
    case AddVar(k, x) => v.(configvars := v.configvars + [Entry(k, x)])
  }

  function Replay(v: Vars, ds: seq<Directive>): Vars {
    if ds == [] then v else Apply(Replay(v, ds[..|ds| - 1]), ds[|ds| - 1])
  }

  lemma SetnValues(t: Table, key: string, val: string)
    ensures forall q :: Values(Setn(t, key, val), q) == if Same(key, q) then [val] else Values(t, q)
  {
    forall q ensures Values(Setn(t, key, val), q) == if Same(key, q) then [val] else Values(t, q) {
      ValuesSetn(t, key, val, q);
    }
  }

  /** The two tables of one container, updated in place while its directives are read. */
  class Container {
    var configvars: Table
    var setvars: Table

    constructor ()
      ensures Vars(configvars, setvars) == EMPTY
    {
      configvars, setvars := [], [];
    }

    /** modperl_cmd_addvar_func. */
    method AddVar(key: string, val: string)
      modifies this
      ensures Vars(configvars, setvars) == Apply(old(Vars(configvars, setvars)), Directive.AddVar(key, val))
      ensures setvars == old(setvars)
      ensures forall q :: Values(configvars, q)
                          == Values(old(configvars), q) + if Same(key, q) then [val] else []
    {
      forall q ensures Values(configvars + [Entry(key, val)], q)
                       == Values(configvars, q) + if Same(key, q) then [val] else []
      {
        ValuesConcat(configvars, [Entry(key, val)], q);
      }
      configvars := configvars + [Entry(key, val)];
    }

    /** modperl_cmd_setvar_func. */
    method SetVar(key: string, val: string)
      modifies this
      ensures Vars(configvars, setvars) == Apply(old(Vars(configvars, setvars)), Directive.SetVar(key, val))
      ensures forall q :: Values(configvars, q) == if Same(key, q) then [val] else Values(old(configvars), q)
      ensures forall q :: Values(setvars, q) == if Same(key, q) then [val] else Values(old(setvars), q)
    {
      SetnValues(configvars, key, val);
      SetnValues(setvars, key, val);
      setvars := Setn(setvars, key, val);
      configvars := Setn(configvars, key, val);
    }
  }

  function UnsetAll(t: Table, keys: Table): Table
    decreases keys
  {
    if keys == [] then t else UnsetAll(Unset(t, keys[0].key), keys[1..])
  }

  /** merge_config_add_vars. */
  method MergeAddVars(base: Table, unset: Table, add: Table) returns (r: Table)
    ensures r == UnsetAll(base, unset) + add
  {
    var temp := base;
    for i := 0 to |unset|
      invariant UnsetAll(temp, unset[i..]) == UnsetAll(base, unset)
    {
      assert unset[i..][1..] == unset[i + 1..];
      temp := Unset(temp, unset[i].key);
    }
    r := temp + add;
  }

  /** What the directory and server merges make of the two tables. */
  function Merge(base: Vars, child: Vars): Vars {
    Vars(UnsetAll(base.configvars, child.setvars) + child.configvars, Compress(base.setvars + child.setvars))
  }

  // ----- grouping -----

  /** The entries whose key does not occur in keys. */
  function Without(t: Table, keys: Table): Table {
    if t == [] then []
    else if Values(keys, t[0].key) != [] then Without(t[1..], keys)
    else [t[0]] + Without(t[1..], keys)
  }

  lemma {:induction false} WithoutHead(t: Table, keys: Table)
    requires keys != []
    ensures Without(Unset(t, keys[0].key), keys[1..]) == Without(t, keys)
  {
    if t != [] {
      WithoutHead(t[1..], keys);
      if !Same(t[0].key, keys[0].key) {
        assert Unset(t, keys[0].key)[1..] == Unset(t[1..], keys[0].key);
      }
    }
  }

  lemma {:induction false} WithoutNone(t: Table)
    ensures Without(t, []) == t
  {
    if t != [] {
      WithoutNone(t[1..]);
    }
  }

  lemma {:induction false} UnsetAllIsWithout(t: Table, keys: Table)
    ensures UnsetAll(t, keys) == Without(t, keys)
    decreases keys
  {
    if keys == [] {
      WithoutNone(t);
    } else {
      UnsetAllIsWithout(Unset(t, keys[0].key), keys[1..]);
      WithoutHead(t, keys);
    }
  }

  lemma {:induction false} WithoutConcat(t: Table, u: Table, keys: Table)
    ensures Without(t + u, keys) == Without(t, keys) + Without(u, keys)
  {
    if t == [] {
      assert t + u == u;
    } else {
      assert (t + u)[1..] == t[1..] + u;
      WithoutConcat(t[1..], u, keys);
    }
  }

  lemma {:induction false} WithoutBoth(t: Table, a: Table, b: Table)
    ensures Without(Without(t, a), b) == Without(t, Compress(a + b))
  {
    if t != [] {
      var k := t[0].key;
      WithoutBoth(t[1..], a, b);
      ValuesSetAll([], a + b, k);
      ValuesConcat(a, b, k);
      if Values(a, k) == [] {
        assert Without(t, a)[1..] == Without(t[1..], a);
      }
    }
  }

  /** Nested containers may be merged in either grouping, entry for entry. */
  lemma MergeAssociative(a: Vars, b: Vars, c: Vars)
    ensures Merge(Merge(a, b), c) == Merge(a, Merge(b, c))
  {
    var ab, bc := Merge(a, b), Merge(b, c);
    UnsetAllIsWithout(a.configvars, b.setvars);
    UnsetAllIsWithout(ab.configvars, c.setvars);
    UnsetAllIsWithout(b.configvars, c.setvars);
    UnsetAllIsWithout(a.configvars, bc.setvars);
    WithoutConcat(Without(a.configvars, b.setvars), b.configvars, c.setvars);
    WithoutBoth(a.configvars, b.setvars, c.setvars);
    OverlapAssociative(a.setvars, b.setvars, c.setvars);
  }

  /** modperl_table_overlap may be grouped either way. */
  lemma OverlapAssociative(a: Table, b: Table, c: Table)
    ensures Compress(Compress(a + b) + c) == Compress(a + Compress(b + c))
  {
    SetAllConcat([], Compress(a + b), c);
    SetAllCompress([], a + b);
    SetAllConcat([], a + b, c);
    SetAllConcat([], a, Compress(b + c));
    SetAllCompress(SetAll([], a), b + c);
    SetAllConcat([], a, b + c);
    assert a + b + c == a + (b + c);
  }

  // ----- replaying -----

  /** For one key: what replaying a child's directives on a base leaves, in terms of the child alone. */
  ghost predicate InStep(base: Vars, child: Vars, replayed: Vars, q: string) {
    && Values(replayed.configvars, q) ==
       (if Values(child.setvars, q) != [] then [] else Values(base.configvars, q)) + Values(child.configvars, q)
    && Values(replayed.setvars, q) ==
       (if Values(child.setvars, q) != [] then Values(child.setvars, q) else Values(base.setvars, q))
    && |Values(child.setvars, q)| <= 1
  }

  lemma {:induction false} ReplayInStep(base: Vars, ds: seq<Directive>, q: string)
    ensures InStep(base, Replay(EMPTY, ds), Replay(base, ds), q)
  {
    if ds != [] {
      var init, d := ds[..|ds| - 1], ds[|ds| - 1];
      ReplayInStep(base, init, q);
      var c, r := Replay(EMPTY, init), Replay(base, init);
      match d
      case SetVar(k, v) =>
        ValuesSetn(c.configvars, k, v, q);
        ValuesSetn(c.setvars, k, v, q);
        ValuesSetn(r.configvars, k, v, q);
        ValuesSetn(r.setvars, k, v, q);
      case AddVar(k, v) =>
        ValuesConcat(c.configvars, [Entry(k, v)], q);
        ValuesConcat(r.configvars, [Entry(k, v)], q);
    }
  }

  lemma {:induction false} ValuesWithout(t: Table, keys: Table, q: string)
    ensures Values(Without(t, keys), q) == if Values(keys, q) != [] then [] else Values(t, q)
  {
    if t != [] {
      ValuesWithout(t[1..], keys, q);
      if Same(t[0].key, q) {
        ValuesOfSame(keys, t[0].key, q);
      }
      if Values(keys, t[0].key) == [] {
        assert Without(t, keys)[1..] == Without(t[1..], keys);
      }
    }
  }

  /**
   * Merging a container into its parent gives every key the values that reading the container's
   * directives directly after the parent's would have given it, and in the same order.
   */
  lemma MergeIsReplay(base: Vars, ds: seq<Directive>, q: string)
    ensures var merged, replayed := Merge(base, Replay(EMPTY, ds)), Replay(base, ds);
            && Values(merged.configvars, q) == Values(replayed.configvars, q)
            && (|Values(base.setvars, q)| <= 1 ==> Values(merged.setvars, q) == Values(replayed.setvars, q))
  {
    ReplayInStep(base, ds, q);
    MergedValues(base, Replay(EMPTY, ds), q);
    MergedSetValues(base, Replay(EMPTY, ds), q);
  }

  lemma MergedValues(base: Vars, child: Vars, q: string)
    ensures Values(Merge(base, child).configvars, q) ==
            (if Values(child.setvars, q) != [] then [] else Values(base.configvars, q)) + Values(child.configvars, q)
  {
    UnsetAllIsWithout(base.configvars, child.setvars);
    ValuesWithout(base.configvars, child.setvars, q);
    ValuesConcat(Without(base.configvars, child.setvars), child.configvars, q);
  }

  lemma MergedSetValues(base: Vars, child: Vars, q: string)
    requires |Values(child.setvars, q)| <= 1
    ensures |Values(base.setvars, q)| <= 1 ==>
              Values(Merge(base, child).setvars, q) ==
              if Values(child.setvars, q) != [] then Values(child.setvars, q) else Values(base.setvars, q)
  {
    ValuesSetAll([], base.setvars + child.setvars, q);
    ValuesConcat(base.setvars, child.setvars, q);
  }
}
