/** modperl_options.c: PerlOptions as flag words, set by directives and merged by container. */
module Options {

  /**
   * A flag word, given by the positions of its one bits: & is intersection, | is union and
   * x & ~y is difference. The code uses no other operation on these words.
   */
  type Word = set<nat>

  /** modperl_options_t; unset doubles as the bit that marks opts as never set explicitly. */
  datatype Options = Options(opts: Word, add: Word, remove: Word, seen: Word, unset: Word)

  /** What the name lookup answers; Unknown is its -1. */
  datatype Lookup = Known(opt: Word) | Unknown

  datatype Directive = Plus(opt: Word) | Minus(opt: Word) | Plain(opt: Word)

  function New(unset: Word): Options {
    Options(unset, {}, {}, {}, unset)
  }

  /** The effect of one accepted directive. */
  function Apply(o: Options, d: Directive): Options {
    var p := o.(seen := o.seen + d.opt);
    match d
    case Minus(opt) => p.(remove := p.remove + opt, add := p.add - opt, opts := p.opts - opt)
    case Plus(opt) => p.(add := p.add + opt, remove := p.remove - opt, opts := p.opts + opt)
    case Plain(opt) => p.(opts := p.opts + opt)
  }

  /** modperl_options_merge. */
  function Merge(base: Options, child: Options): Options {
    var conf := base.(seen := base.seen + child.seen);
    if child.opts * child.unset != {} then
      var add := (base.add - child.remove) + child.add;
      var remove := (base.remove - child.add) + child.remove;
      conf.(add := add, remove := remove, opts := (base.opts - remove) + add)
    else
      conf.(opts := child.opts, add := child.add, remove := child.remove)
  }

  function Replay(o: Options, ds: seq<Directive>): Options {
    if ds == [] then o else Apply(Replay(o, ds[..|ds| - 1]), ds[|ds| - 1])
  }

  /** A directive's text: an optional sign, then a name for the lookup. */
  function Signature(str: string): (r: (char, string))
    ensures r.0 in {'+', '-'} ==> [r.0] + r.1 == str
    ensures r.0 !in {'+', '-'} ==> r.1 == str
  {
    if str != "" && (str[0] == '+' || str[0] == '-') then (str[0], str[1..]) else (' ', str)
  }

  function Signed(action: char, opt: Word): Directive {
    if action == '-' then Minus(opt) else if action == '+' then Plus(opt) else Plain(opt)
  }

  /** The record a container's directives are set in. */
  class Record {
    var o: Options

    constructor (unset: Word)
      ensures o == New(unset)
    {
      o := New(unset);
    }

    /** modperl_options_set: false stands for the error message, and then nothing changes. */
    method Set(str: string, lookup: string -> Lookup) returns (ok: bool)
      modifies this
      ensures ok == lookup(Signature(str).1).Known?
      ensures o == if ok then Apply(old(o), Signed(Signature(str).0, lookup(Signature(str).1).opt)) else old(o)
      ensures Disjoint(old(o)) ==> Disjoint(o)
      ensures var was := old(o);
              if str != "" && str[0] == '+' then
                match lookup(str[1..])
                case Unknown => !ok && o == was
                case Known(opt) =>
                  ok && o == Options(was.opts + opt, was.add + opt, was.remove - opt, was.seen + opt, was.unset)
              else if str != "" && str[0] == '-' then
                match lookup(str[1..])
                case Unknown => !ok && o == was
                case Known(opt) =>
                  ok && o == Options(was.opts - opt, was.add - opt, was.remove + opt, was.seen + opt, was.unset)
              else
                match lookup(str)
                case Unknown => !ok && o == was
                case Known(opt) =>
                  ok && o == Options(was.opts + opt, was.add, was.remove, was.seen + opt, was.unset)
    {
      var (action, name) := Signature(str);
      var found := lookup(name);
      if found.Unknown? {
        return false;
      }
      var opt := found.opt;
      o := o.(seen := o.seen + opt);
      if action == '-' {
        o := o.(remove := o.remove + opt, add := o.add - opt, opts := o.opts - opt);
      } else if action == '+' {
        o := o.(add := o.add + opt, remove := o.remove - opt, opts := o.opts + opt);
      } else {
        o := o.(opts := o.opts + opt);
      }
      ok := true;
    }
  }

  ghost predicate Disjoint(o: Options) {
    o.add !! o.remove
  }

  /** What was added is on, and what was removed is off. */
  ghost predicate Consistent(o: Options) {
    Disjoint(o) && o.add <= o.opts && o.remove !! o.opts
  }

  /** The directives leave the marker bit alone. */
  ghost predicate Spares(ds: seq<Directive>, unset: Word) {
    forall i :: 0 <= i < |ds| ==> ds[i].opt !! unset
  }

  ghost predicate OnlySigned(ds: seq<Directive>) {
    forall i :: 0 <= i < |ds| ==> !ds[i].Plain?
  }

  /** opts_add and opts_remove never share a bit, whatever is merged with whatever. */
  lemma MergeDisjoint(base: Options, child: Options)
    requires Disjoint(base) && Disjoint(child)
    ensures Disjoint(Merge(base, child))
    ensures Consistent(base) && Consistent(child) ==> Consistent(Merge(base, child))
  {
  }

  /** The marker bit is on: the record was not set explicitly. */
  predicate Marked(o: Options) {
    o.opts * o.unset != {}
  }

  /** Merging may be grouped either way if the inner merge is marked exactly when both its parts are. */
  lemma MergeAssociativeIfMarked(a: Options, b: Options, c: Options)
    requires a.unset == b.unset == c.unset
    requires Marked(c) ==> (Marked(Merge(b, c)) <==> Marked(b))
    ensures Merge(Merge(a, b), c) == Merge(a, Merge(b, c))
  {
  }

  /**
   * Merging may be grouped either way, whichever of the records were set explicitly, as long as
   * the marker bit is the same and is never added or removed.
   */
  lemma MergeAssociative(a: Options, b: Options, c: Options)
    requires a.unset == b.unset == c.unset
    requires b.add + b.remove + c.add + c.remove !! a.unset
    ensures Merge(Merge(a, b), c) == Merge(a, Merge(b, c))
  {
    var bc := Merge(b, c);
    assert bc.opts * bc.unset == (if c.opts * c.unset != {} then b.opts * b.unset else {});
    MergeAssociativeIfMarked(a, b, c);
  }

  /** The options that directives turn on, with or without a sign, and do not turn off again. */
  function On(ds: seq<Directive>): Word {
    if ds == [] then {}
    else
      var before := On(ds[..|ds| - 1]);
      match ds[|ds| - 1]
      case Minus(opt) => before - opt
      case Plus(opt) => before + opt
      case Plain(opt) => before + opt
  }

  /** How a fresh child record and the replayed base stand to each other, directive by directive. */
  ghost predicate InStep(base: Options, child: Options, replayed: Options, on: Word) {
    && child.unset == base.unset == replayed.unset
    && child.add <= on && Disjoint(child)
    && child.opts == (base.unset - child.remove) + on
    && replayed.seen == base.seen + child.seen
    && replayed.add == (base.add - child.remove) + child.add
    && replayed.remove == (base.remove - child.add) + child.remove
    && replayed.opts == (base.opts - child.remove) + on
  }

  lemma {:induction false} ReplayInStep(base: Options, ds: seq<Directive>)
    ensures InStep(base, Replay(New(base.unset), ds), Replay(base, ds), On(ds))
  {
    if ds != [] {
      var init := ds[..|ds| - 1];
      ReplayInStep(base, init);
      ApplyInStep(base, Replay(New(base.unset), init), Replay(base, init), On(init), ds[|ds| - 1]);
    }
  }

  lemma ApplyInStep(base: Options, child: Options, replayed: Options, on: Word, d: Directive)
    requires InStep(base, child, replayed, on)
    ensures InStep(base, Apply(child, d), Apply(replayed, d),
                   if d.Minus? then on - d.opt else on + d.opt)
  {
  }

  /**
   * Merging a container's record into a consistent base, against replaying its directives on that
   * base. As long as the container is marked as not set explicitly, everything agrees but that an
   * option without a sign takes effect in the merge only if the base had it on and the container
   * did not remove it. Once it has taken the marker off, the merge forgets the base; so the two
   * agree exactly if the container itself gives or takes away all the base records and has on.
   */
  lemma MergeAgainstReplay(base: Options, ds: seq<Directive>)
    requires base.unset != {} && Consistent(base)
    ensures var child := Replay(New(base.unset), ds);
            var merged, replayed := Merge(base, child), Replay(base, ds);
            if Marked(child) then
              && merged.(opts := replayed.opts) == replayed
              && (merged == replayed <==> On(ds) - child.add <= base.opts - child.remove)
            else
              merged == replayed
              <==> base.add - child.remove <= child.add && base.remove - child.add <= child.remove
                   && base.opts - child.remove <= On(ds)
  {
    ReplayInStep(base, ds);
    MergeInStep(base, Replay(New(base.unset), ds), Replay(base, ds), On(ds));
  }

  /** The marker is off exactly if the directives remove it and do not turn it on again. */
  lemma MarkerTakenOff(unset: Word, ds: seq<Directive>)
    requires unset != {}
    ensures !Marked(Replay(New(unset), ds)) <==> unset <= Replay(New(unset), ds).remove && unset !! On(ds)
  {
    ReplayInStep(New(unset), ds);
  }

  lemma MergeInStep(base: Options, child: Options, replayed: Options, on: Word)
    requires base.unset != {} && Consistent(base) && InStep(base, child, replayed, on)
    ensures var merged := Merge(base, child);
            if Marked(child) then
              && merged.(opts := replayed.opts) == replayed
              && (merged == replayed <==> on - child.add <= base.opts - child.remove)
            else
              merged == replayed
              <==> base.add - child.remove <= child.add && base.remove - child.add <= child.remove
                   && base.opts - child.remove <= on
  {
    var merged := Merge(base, child);
    if Marked(child) {
      assert merged.opts == (base.opts - child.remove) + child.add;
    } else {
      assert child.unset - child.remove <= child.opts * child.unset;
      assert child.opts == on;
    }
  }

  /** With + and - directives only that leave the marker on, merging is replaying. */
  lemma MergeIsReplay(base: Options, ds: seq<Directive>)
    requires base.unset != {} && Consistent(base) && OnlySigned(ds)
    requires Marked(Replay(New(base.unset), ds))
    ensures Merge(base, Replay(New(base.unset), ds)) == Replay(base, ds)
  {
    MergeAgainstReplay(base, ds);
    SignedIsAdded(base.unset, ds);
  }

  lemma {:induction false} SignedIsAdded(unset: Word, ds: seq<Directive>)
    requires OnlySigned(ds)
    ensures On(ds) == Replay(New(unset), ds).add
  {
    if ds != [] {
      SignedIsAdded(unset, ds[..|ds| - 1]);
    }
  }

  /** Directives that spare the marker leave it on. */
  lemma SparingStaysMarked(unset: Word, ds: seq<Directive>)
    requires unset != {} && Spares(ds, unset)
    ensures Marked(Replay(New(unset), ds)) && On(ds) !! unset
  {
    SparesAll(unset, ds);
    ReplayInStep(New(unset), ds);
    var u :| u in unset;
    assert u in Replay(New(unset), ds).opts;
  }

  lemma {:induction false} SparesAll(unset: Word, ds: seq<Directive>)
    requires Spares(ds, unset)
    ensures On(ds) !! unset && Replay(New(unset), ds).remove !! unset
  {
    if ds != [] {
      SparesAll(unset, ds[..|ds| - 1]);
    }
  }

  /** A container that has taken the marker off counts alone, whatever it is merged into. */
  lemma UnmarkedForgets(base: Options, child: Options)
    requires base.unset == child.unset && !Marked(child)
    ensures Merge(base, child) == child.(seen := base.seen + child.seen)
  {
  }

  /** PerlOptions +GlobalRequest outside, -Unset and +SetupEnv inside: the merge forgets the former. */
  lemma UnsetForgetsTheBase()
    ensures var base := Replay(New({4}), [Plus({3})]);
            var ds := [Minus({4}), Plus({1})];
            && Consistent(base) && 3 in Replay(base, ds).opts
            && 3 !in Merge(base, Replay(New({4}), ds)).opts
  {
    var base, ds := Replay(New({4}), [Plus({3})]), [Minus({4}), Plus({1})];
    assert [Plus({3})][..0] == [];
    assert base == Apply(New({4}), Plus({3}));
    TwoDirectives(base, ds[0], ds[1]);
    TwoDirectives(New({4}), ds[0], ds[1]);
    assert 4 !in Replay(New({4}), ds).opts;
  }

  lemma TwoDirectives(o: Options, d: Directive, e: Directive)
    ensures Replay(o, [d, e]) == Apply(Apply(o, d), e)
  {
    assert [d, e][..1] == [d] && [d][..0] == [];
    assert Replay(o, [d]) == Apply(Replay(o, []), d);
  }

  /** Nested containers, merged one into the other from the outside in. */
  function MergeAll(base: Options, dss: seq<seq<Directive>>): Options {
    if dss == [] then base
    else Merge(MergeAll(base, dss[..|dss| - 1]), Replay(New(base.unset), dss[|dss| - 1]))
  }

  function Flatten(dss: seq<seq<Directive>>): seq<Directive> {
    if dss == [] then [] else Flatten(dss[..|dss| - 1]) + dss[|dss| - 1]
  }

  lemma {:induction false} ReplayConcat(o: Options, ds: seq<Directive>, es: seq<Directive>)
    ensures Replay(o, ds + es) == Replay(Replay(o, ds), es)
  {
    if es == [] {
      assert ds + es == ds;
    } else {
      assert (ds + es)[..|ds + es| - 1] == ds + es[..|es| - 1];
      ReplayConcat(o, ds, es[..|es| - 1]);
    }
  }

  lemma {:induction false} ReplayConsistent(o: Options, ds: seq<Directive>)
    requires Consistent(o) && OnlySigned(ds)
    ensures Consistent(Replay(o, ds)) && Replay(o, ds).unset == o.unset
  {
    if ds != [] {
      ReplayConsistent(o, ds[..|ds| - 1]);
    }
  }

  /** Merging any nest of containers is replaying all their directives, outermost first. */
  lemma {:induction false} NestIsReplay(base: Options, dss: seq<seq<Directive>>)
    requires base.unset != {} && Consistent(base)
    requires forall i :: 0 <= i < |dss| ==> OnlySigned(dss[i]) && Marked(Replay(New(base.unset), dss[i]))
    ensures MergeAll(base, dss) == Replay(base, Flatten(dss))
    ensures Consistent(MergeAll(base, dss)) && MergeAll(base, dss).unset == base.unset
  {
    if dss != [] {
      var outer, ds := dss[..|dss| - 1], dss[|dss| - 1];
      NestIsReplay(base, outer);
      MergeIsReplay(MergeAll(base, outer), ds);
      ReplayConcat(base, Flatten(outer), ds);
      ReplayConsistent(MergeAll(base, outer), ds);
    }
  }

  /**
   * The options that merging a nest forgets: one that a container gives without a sign, and that
   * is off in what it is merged into or that the container also removes, until a container further
   * in gives it a sign.
   */
  function Lost(base: Options, dss: seq<seq<Directive>>): Word {
    if dss == [] then {}
    else
      var outer, ds := dss[..|dss| - 1], dss[|dss| - 1];
      var child := Replay(New(base.unset), ds);
      (Lost(base, outer) - child.remove - child.add)
      + (On(ds) - child.add - (MergeAll(base, outer).opts - child.remove))
  }

  /** One container more, merged into one record and replayed on another that differs in opts only. */
  lemma NestStep(merged: Options, replayed: Options, lost: Word, child: Options, next: Options, on: Word)
    requires Marked(child) && Consistent(merged) && InStep(replayed, child, next, on)
    requires merged.(opts := replayed.opts) == replayed
    requires replayed.opts == merged.opts + lost && merged.opts !! lost
    ensures var now := Merge(merged, child);
            var lost' := (lost - child.remove - child.add)
                         + (on - child.add - (merged.opts - child.remove));
            && Consistent(now) && now.unset == merged.unset && now.(opts := next.opts) == next
            && next.opts == now.opts + lost' && now.opts !! lost'
  {
    assert Merge(merged, child).opts == (merged.opts - child.remove) + child.add;
  }

  /**
   * Merging any nest of containers against replaying all their directives, outermost first:
   * everything agrees but the options that are on, of which the merge lacks exactly the lost ones;
   * so the two are the same exactly if none is lost.
   */
  lemma {:induction false} NestAgainstReplay(base: Options, dss: seq<seq<Directive>>)
    requires base.unset != {} && Consistent(base)
    requires forall i :: 0 <= i < |dss| ==> Marked(Replay(New(base.unset), dss[i]))
    ensures var merged, replayed := MergeAll(base, dss), Replay(base, Flatten(dss));
            && Consistent(merged) && merged.unset == base.unset && merged.(opts := replayed.opts) == replayed
            && replayed.opts == merged.opts + Lost(base, dss) && merged.opts !! Lost(base, dss)
            && (merged == replayed <==> Lost(base, dss) == {})
  {
    if dss != [] {
      var outer, ds := dss[..|dss| - 1], dss[|dss| - 1];
      NestAgainstReplay(base, outer);
      var merged, replayed := MergeAll(base, outer), Replay(base, Flatten(outer));
      ReplayConcat(base, Flatten(outer), ds);
      ReplayInStep(replayed, ds);
      NestStep(merged, replayed, Lost(base, outer), Replay(New(base.unset), ds), Replay(replayed, ds), On(ds));
    }
  }

  /** PerlOptions GlobalRequest (bit 3, with the marker at bit 4), unsigned: the merge forgets it. */
  lemma UnsignedOptionIsLost()
    ensures var base := New({4});
            && Consistent(base)
            && 3 in Replay(base, [Plain({3})]).opts
            && 3 !in Merge(base, Replay(New({4}), [Plain({3})])).opts
  {
    var base := New({4});
    assert Replay(base, [Plain({3})]) == Apply(base, Plain({3}));
    assert 4 in Apply(base, Plain({3})).opts * {4};
  }
}
