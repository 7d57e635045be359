/**
 * modperl_handler_lookup_handlers, the push and set built on it, and the phase runner, on
 * handler arrays that configurations share: each proved against HandlerSpec.
 */
module HandlerStack {
  import opened Wrappers
  import opened HandlerSpec

  class HandlerArray {
    var elts: seq<Handler>

    constructor (elts: seq<Handler>)
      ensures this.elts == elts
    {
      this.elts := elts;
    }
  }

  /** The slots of a configuration, or of a request's configuration; a missing key is a NULL. */
  class Slots {
    var arrays: map<Phase, HandlerArray>

    ghost predicate Reads(lists: Lists)
      reads this, arrays.Values
    {
      && arrays.Keys == lists.Keys
      && forall p :: p in arrays ==> arrays[p].elts == lists[p]
    }

    /** No two slots hold the same array. */
    ghost predicate Apart()
      reads this
    {
      forall p, q :: p in arrays && q in arrays && p != q ==> arrays[p] != arrays[q]
    }
  }

  /** What a caller can change: the request's slots if there is a request. */
  ghost function Changes(cfg: Slots, rcfg: Slots?): Slots {
    if rcfg != null then rcfg else cfg
  }

  /** The arrays of a request are its own: none of them is one of the shared ones. */
  ghost predicate Holds(cfg: Slots, rcfg: Slots?, s: State, shared: set<HandlerArray>)
    reads cfg, cfg.arrays.Values, rcfg, if rcfg != null then rcfg.arrays.Values else {}
  {
    && cfg.Reads(s.configured)
    && Changes(cfg, rcfg).Reads(Open(s)) && Changes(cfg, rcfg).Apart()
    && (rcfg != null <==> s.request.Some?)
    && (rcfg != null ==>
          cfg != rcfg && cfg.arrays.Values <= shared && rcfg.arrays.Values !! shared)
  }

  datatype Slot = TooLateToModify | In(owner: Slots)

  /** The lists once lookup has made sure that there is one to push onto. */
  function Prepared(s: State, action: Action, phase: Phase): State {
    Apply(s, Op(action, phase, []))
  }

  /** apr_array_make or apr_array_copy, into a slot that was NULL. */
  method Make(slots: Slots, phase: Phase, elts: seq<Handler>, ghost lists: Lists)
    requires slots.Reads(lists) && slots.Apart() && phase !in slots.arrays
    modifies slots
    ensures slots.Reads(lists[phase := elts]) && slots.Apart()
    ensures slots.arrays.Keys == old(slots.arrays.Keys) + {phase} && fresh(slots.arrays[phase])
    ensures forall p :: p in old(slots.arrays) ==> slots.arrays[p] == old(slots.arrays[p])
  {
    var made := new HandlerArray(elts);
    slots.arrays := slots.arrays[phase := made];
  }

  /** nelts = 0, or an apr_array_push, on the array in a slot. */
  method Replace(slots: Slots, phase: Phase, elts: seq<Handler>, ghost lists: Lists)
    requires slots.Reads(lists) && slots.Apart() && phase in slots.arrays
    modifies slots.arrays[phase]
    ensures slots.Reads(lists[phase := elts]) && slots.Apart()
  {
    slots.arrays[phase].elts := elts;
  }

  /** The push branch of the lookup: a request's first push starts from a copy. */
  method PreparePush(cfg: Slots, rcfg: Slots?, phase: Phase,
                     ghost s: State, ghost shared: set<HandlerArray>)
    requires Holds(cfg, rcfg, s, shared) && !TooLate(s, Push, phase)
    modifies Changes(cfg, rcfg)
    ensures Holds(cfg, rcfg, Prepared(s, Push, phase), shared)
    ensures phase in Changes(cfg, rcfg).arrays
    ensures forall p :: p in Changes(cfg, rcfg).arrays ==>
              var a := Changes(cfg, rcfg).arrays[p];
              fresh(a) || a in old(Changes(cfg, rcfg).arrays.Values)
  {
    if rcfg != null {
      if phase !in rcfg.arrays {
        if phase in cfg.arrays {
          Make(rcfg, phase, cfg.arrays[phase].elts, Open(s));
        } else {
          Make(rcfg, phase, [], Open(s));
        }
      }
    } else if phase !in cfg.arrays {
      Make(cfg, phase, [], Open(s));
    }
  }

  /** The set branch of the lookup: an array that is there is emptied in place. */
  method PrepareSet(cfg: Slots, rcfg: Slots?, phase: Phase,
                    ghost s: State, ghost shared: set<HandlerArray>)
    requires Holds(cfg, rcfg, s, shared) && !TooLate(s, Set, phase)
    modifies Changes(cfg, rcfg), Changes(cfg, rcfg).arrays.Values
    ensures Holds(cfg, rcfg, Prepared(s, Set, phase), shared)
    ensures phase in Changes(cfg, rcfg).arrays
    ensures forall p :: p in Changes(cfg, rcfg).arrays ==>
              var a := Changes(cfg, rcfg).arrays[p];
              fresh(a) || a in old(Changes(cfg, rcfg).arrays.Values)
  {
    if rcfg != null {
      if phase in rcfg.arrays {
        Replace(rcfg, phase, [], Open(s));
      } else {
        Make(rcfg, phase, [], Open(s));
      }
    } else if phase in cfg.arrays {
      Replace(cfg, phase, [], Open(s));
    } else {
      Make(cfg, phase, [], Open(s));
    }
  }

  /** What the lookup ends with: the slot in force. */
  method Owner(cfg: Slots, rcfg: Slots?, phase: Phase,
               ghost s: State, ghost shared: set<HandlerArray>)
    returns (owner: Slots)
    requires Holds(cfg, rcfg, s, shared)
    ensures Effective(s, phase) == if phase in owner.arrays
                                   then Some(owner.arrays[phase].elts) else None
    ensures !TooLate(s, Push, phase) && phase in Changes(cfg, rcfg).arrays ==>
              owner == Changes(cfg, rcfg)
    ensures rcfg != null && (phase.kind == PerDir || phase.kind == PerSrv) && phase in rcfg.arrays ==>
              owner == rcfg
    ensures rcfg == null || !(phase.kind == PerDir || phase.kind == PerSrv) || phase !in rcfg.arrays ==>
              owner == cfg
  {
    return if rcfg != null && PerRequest(phase) && phase in rcfg.arrays then rcfg else cfg;
  }

  /** modperl_handler_lookup_handlers. */
  method Lookup(cfg: Slots, rcfg: Slots?, phase: Phase, action: Action,
                ghost s: State, ghost shared: set<HandlerArray>)
    returns (slot: Slot)
    requires Holds(cfg, rcfg, s, shared)
    modifies Changes(cfg, rcfg), Changes(cfg, rcfg).arrays.Values
    ensures slot.TooLateToModify? <==> TooLate(s, action, phase)
    ensures slot.TooLateToModify?
            <==> action != Get && rcfg != null && phase.kind != PerDir && phase.kind != PerSrv
    ensures Holds(cfg, rcfg, Prepared(s, action, phase), shared)
    ensures slot.In? && action != Get ==>
              slot.owner == Changes(cfg, rcfg) && phase in slot.owner.arrays
    ensures slot.In? && action == Get ==>
              Effective(s, phase) == if phase in slot.owner.arrays
                                     then Some(slot.owner.arrays[phase].elts) else None
    ensures forall p :: p in Changes(cfg, rcfg).arrays ==>
              var a := Changes(cfg, rcfg).arrays[p];
              fresh(a) || a in old(Changes(cfg, rcfg).arrays.Values)
  {
    var mine := rcfg != null && PerRequest(phase);
    if action != Get && rcfg != null && !mine {
      return TooLateToModify;
    }
    match action {
      case Get =>
      case Push => PreparePush(cfg, rcfg, phase, s, shared);
      case Set => PrepareSet(cfg, rcfg, phase, s, shared);
    }
    var owner := Owner(cfg, rcfg, phase, Prepared(s, action, phase), shared);
    return In(owner);
  }

  /** Pushing one handler after those made from the first i arguments. */
  method PushOne(cfg: Slots, rcfg: Slots?, owner: Slots, op: Op, i: nat,
                 ghost s: State, ghost shared: set<HandlerArray>)
    requires op.action != Get && !TooLate(s, op.action, op.phase) && i < |op.args|
    requires Holds(cfg, rcfg, Apply(s, op.(args := op.args[..i])), shared)
    requires owner == Changes(cfg, rcfg) && op.phase in owner.arrays
    modifies owner.arrays[op.phase]
    ensures Holds(cfg, rcfg, Apply(s, op.(args := op.args[..i + 1])), shared)
  {
    ApplyNext(s, op, i);
    if op.args[i].Some? {
      var elts := owner.arrays[op.phase].elts + [Handler(op.args[i].value, true)];
      ghost var before := Open(s)[op.phase := Updated(s, op.(args := op.args[..i]))];
      Replace(owner, op.phase, elts, before);
      assert Open(s)[op.phase := elts] == before[op.phase := elts];
    }
  }

  /** modperl_handler_perl_add_handlers. */
  method AddHandlers(cfg: Slots, rcfg: Slots?, op: Op,
                     ghost s: State, ghost shared: set<HandlerArray>)
    returns (slot: Slot)
    requires Holds(cfg, rcfg, s, shared) && op.action != Get
    modifies Changes(cfg, rcfg), Changes(cfg, rcfg).arrays.Values
    ensures slot.TooLateToModify? <==> TooLate(s, op.action, op.phase)
    ensures slot.TooLateToModify? <==> rcfg != null && op.phase.kind != PerDir && op.phase.kind != PerSrv
    ensures Holds(cfg, rcfg, Apply(s, op), shared)
    ensures rcfg != null ==> unchanged(cfg) && forall a :: a in shared ==> unchanged(a)
    ensures forall p :: p in Changes(cfg, rcfg).arrays ==>
              var a := Changes(cfg, rcfg).arrays[p];
              fresh(a) || a in old(Changes(cfg, rcfg).arrays.Values)
  {
    slot := Lookup(cfg, rcfg, op.phase, op.action, s, shared);
    if slot.TooLateToModify? {
      return;
    }
    ghost var slots := Changes(cfg, rcfg);
    ghost var arrays := slots.arrays;
    assert op.args[..0] == [];
    for i := 0 to |op.args|
      invariant Holds(cfg, rcfg, Apply(s, op.(args := op.args[..i])), shared)
      invariant slots.arrays == arrays
    {
      PushOne(cfg, rcfg, slot.owner, op, i, s, shared);
    }
    assert op.args[..|op.args|] == op.args;
  }

  /** The pushes and sets of one callback, or of a whole request. */
  method Perform(cfg: Slots, rcfg: Slots?, ops: seq<Op>,
                 ghost s: State, ghost shared: set<HandlerArray>)
    requires Holds(cfg, rcfg, s, shared)
    modifies Changes(cfg, rcfg), Changes(cfg, rcfg).arrays.Values
    ensures Holds(cfg, rcfg, ApplyAll(s, ops), shared)
    ensures forall p :: p in Changes(cfg, rcfg).arrays ==>
              var a := Changes(cfg, rcfg).arrays[p];
              fresh(a) || a in old(Changes(cfg, rcfg).arrays.Values)
  {
    assert ops[..0] == [];
    for i := 0 to |ops|
      invariant Holds(cfg, rcfg, ApplyAll(s, ops[..i]), shared)
      invariant forall p :: p in Changes(cfg, rcfg).arrays ==>
                  var a := Changes(cfg, rcfg).arrays[p];
                  fresh(a) || a in old(Changes(cfg, rcfg).arrays.Values)
    {
      assert ops[..i + 1][..i] == ops[..i];
      if ops[i].action != Get {
        var _ := AddHandlers(cfg, rcfg, ops[i], ApplyAll(s, ops[..i]), shared);
      }
    }
    assert ops[..|ops|] == ops;
  }

  /** The runner's decision after a callback. */
  method Judge(mode: Mode, phase: Phase, reply: Reply) returns (ended: bool, status: int)
    ensures ended == Final(mode, phase, reply.status)
    ensures status == Returned(mode, phase, reply)
    ensures mode == RunFirst ==> (ended <==> reply.status != -1)
    ensures mode == RunAll ==>
              (ended <==> reply.status != 0 && (reply.status != -1 || phase.kind == Files))
    ensures mode == RunVoid ==> !ended
    ensures var exit := reply.failed && reply.exited;
            status == if ended && exit && reply.status != 0 then 0 else reply.status
  {
    status := reply.status;
    if mode == RunAll {
      if phase.kind == Files && status != OK {
        if reply.failed {
          status := ErrStatus(reply);
        }
        return true, status;
      } else if status != OK && status != DECLINED {
        return true, ErrStatus(reply);
      }
    } else if mode == RunFirst {
      if status == OK {
        return true, status;
      }
      if status != DECLINED {
        return true, ErrStatus(reply);
      }
    }
    return false, status;
  }

  /** The lookup before the phase and after each callback. */
  method Fetch(cfg: Slots, rcfg: Slots?, phase: Phase,
               ghost s: State, ghost shared: set<HandlerArray>)
    returns (av: HandlerArray?)
    requires Holds(cfg, rcfg, s, shared)
    ensures Effective(s, phase) == if av == null then None else Some(av.elts)
  {
    var owner := Owner(cfg, rcfg, phase, s, shared);
    av := if phase in owner.arrays then owner.arrays[phase] else null;
  }

  /** The lookup after a callback: the array in force may be another one now. */
  method Refetch(cfg: Slots, rcfg: Slots?, phase: Phase, av: HandlerArray, ghost ops: seq<Op>,
                 ghost s: State, ghost shared: set<HandlerArray>)
    returns (av': HandlerArray)
    requires Holds(cfg, rcfg, ApplyAll(s, ops), shared) && Effective(s, phase).Some?
    ensures Effective(ApplyAll(s, ops), phase) == Some(av'.elts)
  {
    EffectiveExists(s, ops, phase);
    var found := Fetch(cfg, rcfg, phase, ApplyAll(s, ops), shared);
    av' := av;
    if found != null {
      av' := found;
    }
  }

  /** One turn of the runner: the callback, the decision, and the list for the next turn. */
  method Turn(cfg: Slots, rcfg: Slots?, phase: Phase, mode: Mode, reply: Reply, av: HandlerArray,
              ghost s: State, ghost shared: set<HandlerArray>)
    returns (ended: bool, status: int, av': HandlerArray)
    requires Holds(cfg, rcfg, s, shared) && Effective(s, phase) == Some(av.elts)
    modifies Changes(cfg, rcfg), Changes(cfg, rcfg).arrays.Values
    ensures Holds(cfg, rcfg, ApplyAll(s, reply.ops), shared)
    ensures ended == Final(mode, phase, reply.status) && status == Returned(mode, phase, reply)
    ensures !ended ==> Effective(ApplyAll(s, reply.ops), phase) == Some(av'.elts)
    ensures forall p :: p in Changes(cfg, rcfg).arrays ==>
              var a := Changes(cfg, rcfg).arrays[p];
              fresh(a) || a in old(Changes(cfg, rcfg).arrays.Values)
  {
    av' := av;
    Perform(cfg, rcfg, reply.ops, s, shared);
    ended, status := Judge(mode, phase, reply);
    if !ended {
      av' := Refetch(cfg, rcfg, phase, av, reply.ops, s, shared);
    }
  }

  /** The loop of modperl_callback_run_handlers over the array found. */
  method Loop(cfg: Slots, rcfg: Slots?, phase: Phase, mode: Mode, replies: seq<Reply>,
              found: HandlerArray, ghost s: State, ghost shared: set<HandlerArray>)
    returns (ran: seq<Handler>, out: Outcome, ghost now: State)
    requires Holds(cfg, rcfg, s, shared) && Effective(s, phase) == Some(found.elts)
    modifies Changes(cfg, rcfg), Changes(cfg, rcfg).arrays.Values
    ensures IsRun(s, replies, phase, mode, ran) && Ends(s, replies, phase, mode, |ran|, out)
    ensures now == After(s, replies, |ran|) && Holds(cfg, rcfg, now, shared)
  {
    var av := found;
    var i, status, ended := 0, OK, false;
    ran, now := [], s;
    while !ended && i < |av.elts| && i < |replies|
      invariant i == |ran| && Underway(s, replies, phase, mode, ran, now, status, ended)
      invariant Holds(cfg, rcfg, now, shared)
      invariant !ended ==> Effective(now, phase) == Some(av.elts)
      invariant ended || i <= |replies|
      invariant forall p :: p in Changes(cfg, rcfg).arrays ==>
                  var a := Changes(cfg, rcfg).arrays[p];
                  fresh(a) || a in old(Changes(cfg, rcfg).arrays.Values)
      decreases |replies| - i
    {
      UnderwayNext(s, replies, phase, mode, ran, now, status);
      ran := ran + [av.elts[i]];
      ended, status, av := Turn(cfg, rcfg, phase, mode, replies[i], av, now, shared);
      now := ApplyAll(now, replies[i].ops);
      i := i + 1;
    }
    UnderwayEnds(s, replies, phase, mode, ran, now, status, ended);
    out := if ended || i >= |av.elts| then Returns(status) else Unfinished;
  }

  /**
   * modperl_callback_run_handlers, for as many callbacks as there are replies: it may go on for
   * ever, as a callback can always push another handler.
   */
  method RunHandlers(cfg: Slots, rcfg: Slots?, phase: Phase, mode: Mode, replies: seq<Reply>,
                     ghost s: State, ghost shared: set<HandlerArray>)
    returns (ran: seq<Handler>, out: Outcome, ghost now: State)
    requires Holds(cfg, rcfg, s, shared)
    modifies Changes(cfg, rcfg), Changes(cfg, rcfg).arrays.Values
    ensures IsRun(s, replies, phase, mode, ran) && Ends(s, replies, phase, mode, |ran|, out)
    ensures now == After(s, replies, |ran|) && Holds(cfg, rcfg, now, shared)
    ensures rcfg != null ==> unchanged(cfg) && forall a :: a in shared ==> unchanged(a)
  {
    var av := Fetch(cfg, rcfg, phase, s, shared);
    if av == null {
      ran, out, now := [], Returns(DECLINED), s;
    } else {
      ran, out, now := Loop(cfg, rcfg, phase, mode, replies, av, s, shared);
    }
  }
}
