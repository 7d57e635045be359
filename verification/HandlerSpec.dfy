/** Perl*Handler stacks as values: what is configured, what a request pushed or set. */
module HandlerSpec {
  import opened Wrappers

  datatype Kind = PerDir | PerSrv | PreConnection | Connection | Files | Process

  datatype Phase = Phase(kind: Kind, idx: nat)

  datatype Handler = Handler(name: string, dynamic: bool)

  datatype Action = Get | Push | Set

  /**
   * push_handlers or set_handlers: an argument that is neither a name nor a code reference
   * yields no handler.
   */
  datatype Op = Op(action: Action, phase: Phase, args: seq<Option<string>>)

  type Lists = map<Phase, seq<Handler>>

  /** The configured lists, and those of the request if there is one. */
  datatype State = State(configured: Lists, request: Option<Lists>)

  /** The kinds of phases for which a request has lists of its own. */
  predicate PerRequest(phase: Phase) {
    phase.kind == PerDir || phase.kind == PerSrv
  }

  /** The handlers the arguments make, in order. */
  function Made(args: seq<Option<string>>): (r: seq<Handler>)
    ensures |r| <= |args| && forall h :: h in r ==> h.dynamic
  {
    if args == [] then []
    else
      var rest := Made(args[..|args| - 1]);
      var last := args[|args| - 1];
      if last.Some? then rest + [Handler(last.value, true)] else rest
  }

  function Find(lists: Lists, phase: Phase): Option<seq<Handler>> {
    if phase in lists then Some(lists[phase]) else None
  }

  /** The list in force: the request's if it has one. None if there is no list at all. */
  function Effective(s: State, phase: Phase): Option<seq<Handler>> {
    if s.request.Some? && PerRequest(phase) && phase in s.request.value
    then Some(s.request.value[phase])
    else Find(s.configured, phase)
  }

  function Items(list: Option<seq<Handler>>): seq<Handler> {
    if list.Some? then list.value else []
  }

  /** "too late to modify %s handlers". */
  predicate TooLate(s: State, action: Action, phase: Phase) {
    action != Get && s.request.Some? && !PerRequest(phase)
  }

  /** The list after the operation, if it is not too late. */
  function Updated(s: State, op: Op): seq<Handler> {
    if op.action == Set then Made(op.args) else Items(Effective(s, op.phase)) + Made(op.args)
  }

  /** The lists that can be changed: at request time the request's, before the configured ones. */
  function Open(s: State): Lists {
    if s.request.Some? then s.request.value else s.configured
  }

  function WithOpen(s: State, lists: Lists): State {
    if s.request.Some? then s.(request := Some(lists)) else s.(configured := lists)
  }

  /** One push or set. */
  function Apply(s: State, op: Op): State {
    if op.action == Get || TooLate(s, op.action, op.phase) then s
    else WithOpen(s, Open(s)[op.phase := Updated(s, op)])
  }

  lemma ApplyNext(s: State, op: Op, i: nat)
    requires i < |op.args|
    ensures var before, after := op.(args := op.args[..i]), op.(args := op.args[..i + 1]);
            if op.args[i].None? then Apply(s, after) == Apply(s, before)
            else Updated(s, after) == Updated(s, before) + [Handler(op.args[i].value, true)]
  {
    assert op.args[..i + 1][..i] == op.args[..i];
  }

  function ApplyAll(s: State, ops: seq<Op>): State {
    if ops == [] then s else Apply(ApplyAll(s, ops[..|ops| - 1]), ops[|ops| - 1])
  }

  // ----- what the list is after any number of operations -----

  /** Whether this operation changes the list of this phase. */
  predicate Touches(s: State, op: Op, phase: Phase) {
    op.phase == phase && op.action != Get && !TooLate(s, op.action, phase)
  }

  /** The position behind the last set, 0 if there is none. */
  function LastSet(s: State, ops: seq<Op>, phase: Phase): (k: nat)
    ensures k <= |ops|
    ensures k > 0 ==> Touches(s, ops[k - 1], phase) && ops[k - 1].action == Set
    ensures forall i :: k <= i < |ops| && Touches(s, ops[i], phase) ==> ops[i].action == Push
  {
    if ops == [] then 0
    else
      var last := ops[|ops| - 1];
      if Touches(s, last, phase) && last.action == Set then |ops|
      else LastSet(s, ops[..|ops| - 1], phase)
  }

  /** Everything pushed from position k on. */
  function Pushed(s: State, ops: seq<Op>, phase: Phase, k: nat): seq<Handler>
    requires k <= |ops|
  {
    if k == |ops| then []
    else
      var last := ops[|ops| - 1];
      var before := Pushed(s, ops[..|ops| - 1], phase, k);
      if Touches(s, last, phase) then before + Made(last.args) else before
  }

  lemma {:induction false} SameMode(s: State, ops: seq<Op>)
    ensures ApplyAll(s, ops).request.Some? == s.request.Some?
  {
    if ops != [] {
      SameMode(s, ops[..|ops| - 1]);
    }
  }

  lemma ApplyAt(s: State, op: Op, phase: Phase)
    ensures Touches(s, op, phase) ==> Effective(Apply(s, op), phase) == Some(Updated(s, op))
    ensures !Touches(s, op, phase) ==> Effective(Apply(s, op), phase) == Effective(s, phase)
  {
  }

  /** What the pushes since the last set go behind. */
  function Base(s: State, ops: seq<Op>, phase: Phase): seq<Handler> {
    var k := LastSet(s, ops, phase);
    if k > 0 then Made(ops[k - 1].args) else Items(Effective(s, phase))
  }

  lemma LastSetStep(s: State, ops: seq<Op>, phase: Phase)
    requires ops != []
    ensures var front, last := ops[..|ops| - 1], ops[|ops| - 1];
            if Touches(s, last, phase) && last.action == Set
            then Base(s, ops, phase) == Made(last.args) && LastSet(s, ops, phase) == |ops|
            else Base(s, ops, phase) == Base(s, front, phase)
                 && LastSet(s, ops, phase) == LastSet(s, front, phase) < |ops|
  {
  }

  /** The configured list or the last set one, and behind it what was pushed since. */
  lemma {:induction false} EffectiveIsSetPlusPushes(s: State, ops: seq<Op>, phase: Phase)
    ensures Items(Effective(ApplyAll(s, ops), phase))
            == Base(s, ops, phase) + Pushed(s, ops, phase, LastSet(s, ops, phase))
  {
    if ops != [] {
      var front, last := ops[..|ops| - 1], ops[|ops| - 1];
      EffectiveIsSetPlusPushes(s, front, phase);
      SameMode(s, front);
      LastSetStep(s, ops, phase);
      ApplyAt(ApplyAll(s, front), last, phase);
    }
  }

  /** There is a list exactly if there was one or one was made. */
  lemma {:induction false} EffectiveExists(s: State, ops: seq<Op>, phase: Phase)
    ensures Effective(ApplyAll(s, ops), phase).Some?
            <==> Effective(s, phase).Some? || exists i :: 0 <= i < |ops| && Touches(s, ops[i], phase)
  {
    if ops != [] {
      var front, last := ops[..|ops| - 1], ops[|ops| - 1];
      EffectiveExists(s, front, phase);
      SameMode(s, front);
      if Touches(s, last, phase) {
        assert Touches(s, ops[|ops| - 1], phase);
      } else {
        assert forall i :: 0 <= i < |front| ==> front[i] == ops[i];
      }
    }
  }

  /**
   * A request leaves the configured lists alone. Here that is a corollary of what Open is; that the
   * arrays behind the lists are never shared is proved of HandlerStack.AddHandlers.
   */
  lemma {:induction false} RequestLeavesConfiguration(s: State, ops: seq<Op>)
    requires s.request.Some?
    ensures ApplyAll(s, ops).configured == s.configured
  {
    if ops != [] {
      RequestLeavesConfiguration(s, ops[..|ops| - 1]);
      SameMode(s, ops[..|ops| - 1]);
    }
  }

  // ----- the runner -----

  const OK := 0
  const DECLINED := -1

  datatype Mode = RunAll | RunFirst | RunVoid

  /**
   * One callback as seen from the runner: the status it gives, the operations it does on its
   * own server or request, whether it leaves $@ set, and whether that is ModPerl::Util::exit.
   */
  datatype Reply = Reply(status: int, ops: seq<Op>, failed: bool, exited: bool)

  /** The statuses that end the phase. */
  predicate Final(mode: Mode, phase: Phase, status: int) {
    match mode
    case RunAll => status != OK && (phase.kind == Files || status != DECLINED)
    case RunFirst => status != DECLINED
    case RunVoid => false
  }

  /** modperl_errsv. */
  function ErrStatus(reply: Reply): int {
    if reply.failed && reply.exited then OK else reply.status
  }

  /** What the phase returns after its last callback. */
  function Returned(mode: Mode, phase: Phase, reply: Reply): int {
    if Final(mode, phase, reply.status) && !(mode == RunFirst && reply.status == OK)
    then ErrStatus(reply)
    else reply.status
  }

  /** The state after the first n callbacks. */
  function After(s: State, replies: seq<Reply>, n: nat): State
    requires n <= |replies|
  {
    if n == 0 then s else ApplyAll(After(s, replies, n - 1), replies[n - 1].ops)
  }

  lemma {:induction false} RunLeavesConfiguration(s: State, replies: seq<Reply>, n: nat)
    requires s.request.Some? && n <= |replies|
    ensures After(s, replies, n).request.Some?
    ensures After(s, replies, n).configured == s.configured
  {
    if n > 0 {
      RunLeavesConfiguration(s, replies, n - 1);
      RequestLeavesConfiguration(After(s, replies, n - 1), replies[n - 1].ops);
      SameMode(After(s, replies, n - 1), replies[n - 1].ops);
    }
  }

  /** The list in force after the first n callbacks. */
  function ListAfter(s: State, replies: seq<Reply>, n: nat, phase: Phase): seq<Handler>
    requires n <= |replies|
  {
    Items(Effective(After(s, replies, n), phase))
  }

  /** The runner calls a next handler after n callbacks. */
  predicate GoesOn(s: State, replies: seq<Reply>, n: nat, phase: Phase, mode: Mode)
    requires n <= |replies|
  {
    && (n > 0 ==> !Final(mode, phase, replies[n - 1].status))
    && n < |ListAfter(s, replies, n, phase)|
  }

  /** The callbacks made, each of the handler at its index in the list of its time. */
  predicate IsRun(s: State, replies: seq<Reply>, phase: Phase, mode: Mode, ran: seq<Handler>) {
    |ran| <= |replies| &&
    if ran == [] then true
    else
      var k := |ran| - 1;
      && IsRun(s, replies, phase, mode, ran[..k])
      && GoesOn(s, replies, k, phase, mode) && ran[k] == ListAfter(s, replies, k, phase)[k]
  }

  lemma {:induction false} RunAt(s: State, replies: seq<Reply>, phase: Phase, mode: Mode,
                                 ran: seq<Handler>, k: nat)
    requires IsRun(s, replies, phase, mode, ran) && k < |ran|
    ensures GoesOn(s, replies, k, phase, mode) && ran[k] == ListAfter(s, replies, k, phase)[k]
  {
    if k < |ran| - 1 {
      RunAt(s, replies, phase, mode, ran[..|ran| - 1], k);
    }
  }

  lemma RunNext(s: State, replies: seq<Reply>, phase: Phase, mode: Mode, ran: seq<Handler>)
    requires IsRun(s, replies, phase, mode, ran) && |ran| < |replies|
    requires GoesOn(s, replies, |ran|, phase, mode)
    ensures IsRun(s, replies, phase, mode, ran + [ListAfter(s, replies, |ran|, phase)[|ran|]])
  {
    var more := ran + [ListAfter(s, replies, |ran|, phase)[|ran|]];
    assert more[..|ran|] == ran;
  }

  datatype Outcome = Returns(status: int) | Unfinished

  /** How a run comes out: it is over exactly if it does not go on, with the last one's status. */
  predicate Ends(s: State, replies: seq<Reply>, phase: Phase, mode: Mode, n: nat, out: Outcome)
    requires n <= |replies|
  {
    if GoesOn(s, replies, n, phase, mode) then n == |replies| && out == Unfinished
    else
      out == Returns(if Effective(s, phase).None? then DECLINED
                     else if n == 0 then OK
                     else Returned(mode, phase, replies[n - 1]))
  }

  /** Between two turns of the runner: what it has run, where that has led, and how it stands. */
  ghost predicate Underway(s: State, replies: seq<Reply>, phase: Phase, mode: Mode, ran: seq<Handler>,
                           now: State, status: int, ended: bool) {
    && IsRun(s, replies, phase, mode, ran) && now == After(s, replies, |ran|)
    && if ran == [] then status == OK && !ended
       else
         var reply := replies[|ran| - 1];
         status == Returned(mode, phase, reply) && ended == Final(mode, phase, reply.status)
  }

  lemma UnderwayNext(s: State, replies: seq<Reply>, phase: Phase, mode: Mode, ran: seq<Handler>,
                     now: State, status: int)
    requires Underway(s, replies, phase, mode, ran, now, status, false) && |ran| < |replies|
    requires |ran| < |Items(Effective(now, phase))|
    ensures var reply := replies[|ran|];
            Underway(s, replies, phase, mode, ran + [Items(Effective(now, phase))[|ran|]],
                     ApplyAll(now, reply.ops), Returned(mode, phase, reply),
                     Final(mode, phase, reply.status))
  {
    RunNext(s, replies, phase, mode, ran);
  }

  /** The loop is left when the phase has ended, the list is used up, or no reply is left. */
  lemma UnderwayEnds(s: State, replies: seq<Reply>, phase: Phase, mode: Mode, ran: seq<Handler>,
                     now: State, status: int, ended: bool)
    requires Underway(s, replies, phase, mode, ran, now, status, ended) && Effective(s, phase).Some?
    requires !ended && |ran| < |Items(Effective(now, phase))| ==> |ran| == |replies|
    ensures Ends(s, replies, phase, mode, |ran|,
                 if ended || |ran| >= |Items(Effective(now, phase))| then Returns(status) else Unfinished)
  {
  }

  /** Pushes only, in whatever phase. */
  predicate PushesOnly(replies: seq<Reply>) {
    forall k, i :: 0 <= k < |replies| && 0 <= i < |replies[k].ops| ==>
      replies[k].ops[i].action != Set
  }

  lemma {:induction false} PushesGrow(s: State, ops: seq<Op>, phase: Phase)
    requires forall i :: 0 <= i < |ops| ==> ops[i].action != Set
    ensures Items(Effective(s, phase)) <= Items(Effective(ApplyAll(s, ops), phase))
  {
    if ops != [] {
      PushesGrow(s, ops[..|ops| - 1], phase);
      ApplyAt(ApplyAll(s, ops[..|ops| - 1]), ops[|ops| - 1], phase);
    }
  }

  lemma {:induction false} ListGrows(s: State, replies: seq<Reply>, j: nat, n: nat, phase: Phase)
    requires j <= n <= |replies| && PushesOnly(replies)
    ensures ListAfter(s, replies, j, phase) <= ListAfter(s, replies, n, phase)
  {
    if j < n {
      ListGrows(s, replies, j, n - 1, phase);
      PushesGrow(After(s, replies, n - 1), replies[n - 1].ops, phase);
    }
  }

  /**
   * With pushes only, even onto the running phase, the handlers run are the list as it is in the
   * end, from its first on and in order: all of it unless a final status came before.
   */
  lemma RunsTheGrowingList(s: State, replies: seq<Reply>, phase: Phase, mode: Mode,
                           ran: seq<Handler>)
    requires IsRun(s, replies, phase, mode, ran) && PushesOnly(replies)
    ensures ran <= ListAfter(s, replies, |ran|, phase)
    ensures !GoesOn(s, replies, |ran|, phase, mode) ==>
              ran == ListAfter(s, replies, |ran|, phase)
              || (ran != [] && Final(mode, phase, replies[|ran| - 1].status))
  {
    var list := ListAfter(s, replies, |ran|, phase);
    if ran != [] {
      ListGrows(s, replies, |ran| - 1, |ran|, phase);
    }
    forall k | 0 <= k < |ran| ensures k < |list| && ran[k] == list[k] {
      RunAt(s, replies, phase, mode, ran, k);
      ListGrows(s, replies, k, |ran|, phase);
    }
  }

  // ----- where each kind of phase ends, and with what -----

  lemma ListWasThere(s: State, replies: seq<Reply>, phase: Phase, mode: Mode, ran: seq<Handler>)
    requires IsRun(s, replies, phase, mode, ran) && ran != []
    ensures Effective(s, phase).Some?
  {
    RunAt(s, replies, phase, mode, ran, 0);
  }

  lemma EarlierGoOn(s: State, replies: seq<Reply>, phase: Phase, mode: Mode, ran: seq<Handler>, k: nat)
    requires IsRun(s, replies, phase, mode, ran) && k + 1 < |ran|
    ensures !Final(mode, phase, replies[k].status)
  {
    RunAt(s, replies, phase, mode, ran, k + 1);
  }

  /**
   * In a phase where the first answer counts every callback before the last one has declined. The
   * run is over exactly if the last one has not, or the list is used up; it returns OK for OK, the
   * error for an error, and DECLINED if all have declined.
   */
  lemma FirstAnswerEnds(s: State, replies: seq<Reply>, phase: Phase, ran: seq<Handler>, out: Outcome)
    requires IsRun(s, replies, phase, RunFirst, ran) && Ends(s, replies, phase, RunFirst, |ran|, out)
    ensures forall k :: 0 <= k < |ran| - 1 ==> replies[k].status == -1
    ensures ran != [] ==>
              var last := replies[|ran| - 1];
              var left := if last.failed && last.exited then 0 else last.status;
              && (out.Returns? <==> last.status != -1 || |ListAfter(s, replies, |ran|, phase)| <= |ran|)
              && (out.Returns? ==>
                    out.status == if last.status == -1 || last.status == 0 then last.status else left)
  {
    forall k | 0 <= k < |ran| - 1 ensures replies[k].status == -1 {
      EarlierGoOn(s, replies, phase, RunFirst, ran, k);
    }
    if ran != [] {
      ListWasThere(s, replies, phase, RunFirst, ran);
    }
  }

  /**
   * In a phase where all are run every callback before the last one has answered OK, or DECLINED
   * where that is allowed: not for OpenLogs and PostConfig. The run is over exactly if the last
   * one has answered anything else, or the list is used up; it returns the last status, or for an
   * error what is left of it.
   */
  lemma ErrorEnds(s: State, replies: seq<Reply>, phase: Phase, ran: seq<Handler>, out: Outcome)
    requires IsRun(s, replies, phase, RunAll, ran) && Ends(s, replies, phase, RunAll, |ran|, out)
    ensures forall k :: 0 <= k < |ran| - 1 ==>
              replies[k].status == 0 || (replies[k].status == -1 && phase.kind != Files)
    ensures ran != [] ==>
              var last := replies[|ran| - 1];
              var left := if last.failed && last.exited then 0 else last.status;
              var fine := last.status == 0 || (last.status == -1 && phase.kind != Files);
              && (out.Returns? <==> !fine || |ListAfter(s, replies, |ran|, phase)| <= |ran|)
              && (out.Returns? ==> out.status == if fine then last.status else left)
  {
    forall k | 0 <= k < |ran| - 1
      ensures replies[k].status == 0 || (replies[k].status == -1 && phase.kind != Files)
    {
      EarlierGoOn(s, replies, phase, RunAll, ran, k);
    }
    if ran != [] {
      ListWasThere(s, replies, phase, RunAll, ran);
    }
  }

  /** A phase whose statuses do not count ends at the end of the list only. */
  lemma NothingEnds(s: State, replies: seq<Reply>, phase: Phase, ran: seq<Handler>, out: Outcome)
    requires IsRun(s, replies, phase, RunVoid, ran) && Ends(s, replies, phase, RunVoid, |ran|, out)
    ensures out.Returns? <==> |ListAfter(s, replies, |ran|, phase)| <= |ran|
    ensures ran != [] && out.Returns? ==> out.status == replies[|ran| - 1].status
  {
    if ran != [] {
      ListWasThere(s, replies, phase, RunVoid, ran);
    }
  }

  /** Without callbacks: DECLINED if there is no list, OK for an empty one. */
  lemma NothingRun(s: State, replies: seq<Reply>, phase: Phase, mode: Mode, out: Outcome)
    requires Ends(s, replies, phase, mode, 0, out)
    ensures out == match Effective(s, phase)
                   case None => Returns(-1)
                   case Some(list) => if list == [] then Returns(0) else Unfinished
  {
  }

  /** The replies that are there are used as long as the run is not over. */
  lemma UnfinishedUsesAll(s: State, replies: seq<Reply>, phase: Phase, mode: Mode, ran: seq<Handler>,
                          out: Outcome)
    requires IsRun(s, replies, phase, mode, ran) && Ends(s, replies, phase, mode, |ran|, out)
    ensures out.Unfinished? ==> |ran| == |replies|
  {
  }

  // ----- the lists, in their own terms -----

  lemma {:induction false} MadeConcat(a: seq<Option<string>>, b: seq<Option<string>>)
    ensures Made(a + b) == Made(a) + Made(b)
  {
    if b == [] {
      assert a + b == a;
    } else {
      assert (a + b)[..|a + b| - 1] == a + b[..|b| - 1];
      MadeConcat(a, b[..|b| - 1]);
    }
  }

  /** Every argument that is a handler makes one, in order, marked as dynamic; any other none. */
  lemma {:induction false} MadeInOrder(args: seq<Option<string>>, i: nat)
    requires i < |args|
    ensures Made(args) == Made(args[..i])
                          + (if args[i].Some? then [Handler(args[i].value, true)] else [])
                          + Made(args[i + 1..])
  {
    assert args == args[..i] + [args[i]] + args[i + 1..];
    MadeConcat(args[..i] + [args[i]], args[i + 1..]);
    MadeConcat(args[..i], [args[i]]);
    assert [args[i]][..0] == [] && Made([]) == [];
  }

  /**
   * A request starts with the configured lists; its first push in a directory or server phase
   * gives it a list of its own, the configured one with the new handlers behind it, and its first
   * set one with the new handlers only. In any other phase both are too late and change nothing.
   */
  lemma FirstOfRequest(s: State, op: Op)
    requires s.request == Some(map[]) && op.action != Get
    ensures var now := Apply(s, op);
            var configured := if op.phase in s.configured then s.configured[op.phase] else [];
            && Effective(s, op.phase)
               == (if op.phase in s.configured then Some(s.configured[op.phase]) else None)
            && now.configured == s.configured
            && if op.phase.kind == PerDir || op.phase.kind == PerSrv then
                 && now.request == Some(map[op.phase := (if op.action == Set then [] else configured)
                                                        + Made(op.args)])
                 && Effective(now, op.phase) == Some(now.request.value[op.phase])
               else now == s
  {
    assert [] + Made(op.args) == Made(op.args);
  }

  /** Before there is a request a push or set changes the configured list of any phase. */
  lemma AtStartup(s: State, op: Op)
    requires s.request == None && op.action != Get
    ensures var now := Apply(s, op);
            var configured := if op.phase in s.configured then s.configured[op.phase] else [];
            && now.request == None
            && now.configured == s.configured[op.phase := (if op.action == Set then [] else configured)
                                                          + Made(op.args)]
  {
    assert [] + Made(op.args) == Made(op.args);
  }
}
