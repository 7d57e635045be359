/** A mod_perl output filter over all its invocations: modperl_run_filter and what surrounds it. */
module OutputFilter {
  import opened Brigades
  import opened FilterReader
  import opened WriteBuffer

  const OK := 0
  const DECLINED := -1

  ghost predicate NoEos(log: seq<Passed>) {
    forall i :: 0 <= i < |log| ==> !log[i].GeneratedEos?
  }

  /** mod_perl's EOS went out as brigade k; behind it brigades are only passed through. */
  ghost predicate EosAt(log: seq<Passed>, k: int) {
    0 <= k < |log| && log[k].GeneratedEos? && NoEos(log[..k]) && forall i :: k < i < |log| ==> log[i].Through?
  }

  ghost predicate EosSent(log: seq<Passed>) {
    exists k :: EosAt(log, k)
  }

  /** Since then nothing has been passed through: all that went out is mod_perl's own. */
  ghost predicate NoneThrough(next: Downstream, log: seq<Passed>)
    reads next
  {
    log <= next.log && forall i :: |log| <= i < |next.log| ==> !next.log[i].Through?
  }

  /** modperl_filter_ctx_t, which outlives the invocations, and the next filter in the chain. */
  class Ctx {
    const next: Downstream
    var sentEos: bool
    ghost var printed: seq<byte>  // everything the handler's prints were taken for
    ghost var runs: nat           // how often the handler has been called

    constructor (next: Downstream)
      requires next.log == []
      ensures this.next == next && !sentEos && printed == [] && runs == 0 && Between()
    {
      this.next, sentEos, printed, runs := next, false, [], 0;
    }

    /**
     * Between invocations: everything printed has gone downstream, in order; mod_perl has
     * generated no EOS before sent_eos is set, and exactly one, behind all that, afterwards.
     */
    ghost predicate Between()
      reads this, next
    {
      Written(next.log) == printed && if sentEos then EosSent(next.log) else NoEos(next.log)
    }
  }

  /** The part of modperl_filter_t that one invocation writes through. */
  class Filter {
    const ctx: Ctx
    const wb: WBucket
    var seenEos: bool
    var flush: bool
    var eos: bool

    /** While the handler runs no EOS has been generated, and all it printed is passed on or buffered. */
    ghost predicate Running()
      reads this, ctx, ctx.next, wb, wb.outbuf
    {
      && wb.next == ctx.next && wb.Valid() && !wb.headerParse && !wb.parsed
      && !ctx.sentEos && NoEos(ctx.next.log) && !eos
      && ctx.printed == wb.before + wb.Accepted()
    }

    constructor (ctx: Ctx)
      requires ctx.Between() && !ctx.sentEos
      ensures this.ctx == ctx && !seenEos && !flush && Running() && fresh(wb) && fresh(wb.outbuf)
    {
      this.ctx, seenEos, flush, eos := ctx, false, false, false;
      wb := new WBucket(ctx.next, _ => Refused, false);
    }

    /** modperl_output_filter_write. */
    method Print(buf: seq<byte>) returns (rc: int)
      requires Running()
      modifies ctx, ctx.next, wb, wb.outbuf
      ensures Running() && wb.outbuf == old(wb.outbuf) && NoneThrough(ctx.next, old(ctx.next.log))
      ensures unchanged(ctx`runs) && (rc == APR_SUCCESS ==> ctx.printed == old(ctx.printed) + buf)
      ensures Flushes(ctx.next.log) == Flushes(old(ctx.next.log)) && flush == old(flush)
      ensures Fair(ctx.next, old(ctx.next.log)) ==> rc == APR_SUCCESS
    {
      var n;
      rc, n := wb.Accept(buf);
      ctx.printed := ctx.printed + buf[..n];
      assert buf[..|buf|] == buf;
    }

    /** What modperl_output_filter_read does after the read itself. */
    method AfterRead(empty: bool, seenEos: bool, flush: bool) returns (rc: int)
      requires Running()
      modifies this, ctx, ctx.next, wb
      ensures Running() && this.seenEos == seenEos && this.flush == (flush && !empty)
      ensures unchanged(ctx`runs, ctx`printed) && NoneThrough(ctx.next, old(ctx.next.log))
      ensures !(flush && empty) ==> rc == APR_SUCCESS && ctx.next.log == old(ctx.next.log)
      ensures Fair(ctx.next, old(ctx.next.log)) ==> rc == APR_SUCCESS
      ensures Flushes(ctx.next.log) == Flushes(old(ctx.next.log)) + if flush && empty then 1 else 0
      ensures flush && empty ==>
                Emptied(old(ctx.next.log), ctx.next.log, old(wb.outbuf[..wb.outcnt]), true, 0)
      ensures wb.outbuf == old(wb.outbuf)
    {
      this.seenEos, this.flush := seenEos, flush;
      rc := APR_SUCCESS;
      if flush && empty {
        rc := Flush();
      }
    }

    /** The write buffer goes downstream, with the FLUSH if one is due. */
    method Drain(addFlush: bool) returns (rc: int)
      requires wb.next == ctx.next && wb.Valid() && !wb.headerParse && !wb.parsed
      requires NoEos(ctx.next.log) && ctx.printed == wb.before + wb.Accepted()
      modifies ctx.next, wb
      ensures wb.Valid() && wb.outcnt == 0 && !wb.headerParse && !wb.parsed && unchanged(wb`before, wb`outbuf)
      ensures wb.Accepted() == old(wb.Accepted()) && Written(ctx.next.log) == ctx.printed
      ensures NoEos(ctx.next.log)
      ensures Emptied(old(ctx.next.log), ctx.next.log, old(wb.outbuf[..wb.outcnt]), addFlush, 0)
      ensures Flushes(ctx.next.log) == Flushes(old(ctx.next.log)) + if addFlush then 1 else 0
      ensures Fair(ctx.next, old(ctx.next.log)) ==> rc == APR_SUCCESS
    {
      rc := wb.Flush(addFlush);
      StreamLessHeader(wb);
      assert Written(ctx.next.log) + wb.outbuf[..0] == Written(ctx.next.log);
      EmptiedFlushes(old(ctx.next.log), ctx.next.log, old(wb.outbuf[..wb.outcnt]), addFlush);
    }

    /** modperl_output_filter_flush: empties the buffer and then, if it is due, sends the EOS. */
    method Flush() returns (rc: int)
      requires wb.next == ctx.next && wb.Valid() && !wb.headerParse && !wb.parsed
      requires !ctx.sentEos && NoEos(ctx.next.log) && ctx.printed == wb.before + wb.Accepted()
      modifies this, ctx`sentEos, ctx.next, wb
      ensures wb.Valid() && wb.outcnt == 0 && !wb.headerParse && !wb.parsed && unchanged(wb`before, wb`outbuf)
      ensures wb.Accepted() == old(wb.Accepted()) && !flush && seenEos == old(seenEos)
      ensures Written(ctx.next.log) == ctx.printed && NoneThrough(ctx.next, old(ctx.next.log))
      ensures !ctx.sentEos ==> NoEos(ctx.next.log) && eos == old(eos)
      ensures ctx.sentEos ==> old(eos) && !eos && EosAt(ctx.next.log, |ctx.next.log| - 1)
      ensures old(eos) && Fair(ctx.next, old(ctx.next.log)) ==> ctx.sentEos
      ensures Emptied(old(ctx.next.log), ctx.next.log, old(wb.outbuf[..wb.outcnt]), old(flush),
                      if ctx.sentEos then 1 else 0)
      ensures Flushes(ctx.next.log) == Flushes(old(ctx.next.log)) + if old(flush) then 1 else 0
      ensures Fair(ctx.next, old(ctx.next.log)) ==> rc == APR_SUCCESS
    {
      var addFlush := flush;
      flush := false;
      rc := Drain(addFlush);
      if rc == APR_SUCCESS && eos {
        rc := SendEos();
      }
    }

    /** send_output_eos, after which bb_in is destroyed. */
    method SendEos() returns (rc: int)
      requires NoEos(ctx.next.log)
      modifies ctx`sentEos, ctx.next, this`eos
      ensures ctx.sentEos && !eos && EosAt(ctx.next.log, |ctx.next.log| - 1)
      ensures ctx.next.log == old(ctx.next.log) + [GeneratedEos] && Written(ctx.next.log) == Written(old(ctx.next.log))
      ensures rc == ctx.next.verdict(|old(ctx.next.log)|)
      ensures Flushes(ctx.next.log) == Flushes(old(ctx.next.log))
    {
      FlushesConcat(ctx.next.log, [GeneratedEos]);
      ctx.sentEos, eos := true, false;
      rc := ctx.next.Pass(GeneratedEos);
      assert ctx.next.log[..|old(ctx.next.log)|] == old(ctx.next.log);
    }

    /** modperl_run_filter after the handler has returned. */
    method Finish() returns (rc: int)
      requires Running()
      modifies this, ctx`sentEos, ctx.next, wb
      ensures ctx.Between() && unchanged(ctx`printed, ctx`runs) && NoneThrough(ctx.next, old(ctx.next.log))
      ensures Fair(ctx.next, old(ctx.next.log)) ==> rc == APR_SUCCESS
      ensures ctx.sentEos ==> old(seenEos) && EosAt(ctx.next.log, |ctx.next.log| - 1)
      ensures Fair(ctx.next, old(ctx.next.log)) ==> ctx.sentEos == old(seenEos)
      ensures Flushes(ctx.next.log) == Flushes(old(ctx.next.log)) + if old(flush) then 1 else 0
    {
      if seenEos {
        eos, seenEos := true, false;
      }
      rc := Flush();
    }
  }

  // ----- any handler -----

  /**
   * What a handler can do through the streaming API: print, and read or touch seen_eos. All
   * that matters here of the latter is what it makes of the two flags and whether it came back
   * empty; a handler is any finite sequence of such acts.
   */
  datatype Act = Print(bytes: seq<byte>) | Read(empty: bool, seenEos: bool, flush: bool)

  /** One call of the filter: the brigade, the handler's acts and status, and what it left of the brigade. */
  datatype Invocation = Invocation(bb: seq<Bucket>, acts: seq<Act>, status: int, left: seq<Bucket>)

  /** What its last read made of the flags; before any read there is no brigade and no flag is set. */
  function LastRead(acts: seq<Act>): (bool, bool, bool) {
    if acts == [] then (false, false, false)
    else
      match acts[|acts| - 1]
      case Print(_) => LastRead(acts[..|acts| - 1])
      case Read(empty, seenEos, flush) => (true, seenEos, flush && !empty)
  }

  /** The last read in the handler's run decides; without any there is no brigade and no flag. */
  lemma {:induction false} LastReadIs(acts: seq<Act>, i: nat)
    requires i <= |acts| && forall k :: i <= k < |acts| ==> acts[k].Print?
    ensures i == 0 ==> LastRead(acts) == (false, false, false)
    ensures i > 0 && acts[i - 1].Read? ==>
              var read := acts[i - 1];
              LastRead(acts) == (true, read.seenEos, read.flush && !read.empty)
    decreases |acts| - i
  {
    if i < |acts| {
      LastReadShorter(acts, i);
    }
  }

  lemma {:induction false} LastReadShorter(acts: seq<Act>, i: nat)
    requires i <= |acts| && forall k :: i <= k < |acts| ==> acts[k].Print?
    ensures LastRead(acts) == LastRead(acts[..i])
  {
    if i == |acts| {
      assert acts[..i] == acts;
    } else {
      LastReadShorter(acts[..|acts| - 1], i);
      assert acts[..|acts| - 1][..i] == acts[..i];
    }
  }

  /** What a handler prints. */
  function Bytes(acts: seq<Act>): seq<byte> {
    if acts == [] then []
    else
      var act := acts[|acts| - 1];
      Bytes(acts[..|acts| - 1]) + if act.Print? then act.bytes else []
  }

  /** Whether its last read left seen_eos set. */
  function SawEos(acts: seq<Act>): bool {
    LastRead(acts).1
  }

  /** The empty reads at a FLUSH: each passes one on. */
  function FlushedReads(acts: seq<Act>): nat {
    if acts == [] then 0
    else
      var act := acts[|acts| - 1];
      FlushedReads(acts[..|acts| - 1]) + if act.Read? && act.flush && act.empty then 1 else 0
  }

  /** Whether its last read left a FLUSH to be passed on at the end. */
  function LeavesFlush(acts: seq<Act>): bool {
    LastRead(acts).2
  }

  /** The FLUSHes a handler asks for. */
  function Wanted(acts: seq<Act>): nat {
    FlushedReads(acts) + if LeavesFlush(acts) then 1 else 0
  }

  lemma OneMore(acts: seq<Act>, i: nat)
    requires i < |acts|
    ensures FlushedReads(acts[..i + 1])
            == FlushedReads(acts[..i]) + if acts[i].Read? && acts[i].flush && acts[i].empty then 1 else 0
    ensures LeavesFlush(acts[..i + 1])
            == if acts[i].Print? then LeavesFlush(acts[..i]) else acts[i].flush && !acts[i].empty
    ensures Bytes(acts[..i + 1]) == Bytes(acts[..i]) + if acts[i].Print? then acts[i].bytes else []
    ensures SawEos(acts[..i + 1]) == if acts[i].Print? then SawEos(acts[..i]) else acts[i].seenEos
  {
    assert acts[..i + 1][..i] == acts[..i];
  }

  /** One act of the handler, which a failure ends. */
  method Turn(f: Filter, act: Act) returns (rc: int)
    requires f.Running()
    modifies f, f.ctx, f.ctx.next, f.wb, f.wb.outbuf
    ensures f.Running() && unchanged(f.ctx`runs) && f.wb.outbuf == old(f.wb.outbuf)
    ensures NoneThrough(f.ctx.next, old(f.ctx.next.log))
    ensures rc == APR_SUCCESS ==>
              && f.ctx.printed == old(f.ctx.printed) + (if act.Print? then act.bytes else [])
              && f.seenEos == (if act.Print? then old(f.seenEos) else act.seenEos)
              && f.flush == if act.Print? then old(f.flush) else act.flush && !act.empty
    ensures Flushes(f.ctx.next.log)
            == Flushes(old(f.ctx.next.log)) + if act.Read? && act.flush && act.empty then 1 else 0
    ensures Fair(f.ctx.next, old(f.ctx.next.log)) ==> rc == APR_SUCCESS
  {
    match act {
      case Print(bytes) =>
        rc := f.Print(bytes);
      case Read(empty, seenEos, flush) =>
        rc := f.AfterRead(empty, seenEos, flush);
    }
  }

  /** The handler runs until its end, or until a print or a read croaks. */
  method RunHandler(f: Filter, acts: seq<Act>)
    requires f.Running() && !f.seenEos && !f.flush
    modifies f, f.ctx, f.ctx.next, f.wb, f.wb.outbuf
    ensures f.Running() && unchanged(f.ctx`runs) && NoneThrough(f.ctx.next, old(f.ctx.next.log))
    ensures Fair(f.ctx.next, old(f.ctx.next.log)) ==>
              && f.ctx.printed == old(f.ctx.printed) + Bytes(acts) && f.seenEos == SawEos(acts)
              && f.flush == LeavesFlush(acts)
              && Flushes(f.ctx.next.log) == Flushes(old(f.ctx.next.log)) + FlushedReads(acts)
  {
    for i := 0 to |acts|
      invariant f.Running() && unchanged(f.ctx`runs) && NoneThrough(f.ctx.next, old(f.ctx.next.log))
      invariant f.wb.outbuf == old(f.wb.outbuf)
      invariant f.ctx.printed == old(f.ctx.printed) + Bytes(acts[..i]) && f.seenEos == SawEos(acts[..i])
      invariant f.flush == LeavesFlush(acts[..i])
      invariant Flushes(f.ctx.next.log) == Flushes(old(f.ctx.next.log)) + FlushedReads(acts[..i])
    {
      OneMore(acts, i);
      ghost var log := f.ctx.next.log;
      var rc := Turn(f, acts[i]);
      if rc != APR_SUCCESS {
        FairBefore(f.ctx.next, old(f.ctx.next.log), log);
        return;
      }
    }
    assert acts[..|acts|] == acts;
  }

  /** modperl_output_filter_handler, where isReset says which errors of the last flush do not croak. */
  method Handle(ctx: Ctx, inv: Invocation, isReset: int -> bool)
    requires ctx.Between()
    modifies ctx, ctx.next
    ensures ctx.Between() && old(ctx.next.log) <= ctx.next.log
    ensures old(ctx.sentEos) ==>
              && unchanged(ctx) && ctx.next.log == old(ctx.next.log) + [Through(inv.bb)]
              && Flushes(ctx.next.log) == Flushes(old(ctx.next.log))
    ensures !old(ctx.sentEos) ==> ctx.runs == old(ctx.runs) + 1
    ensures !old(ctx.sentEos) && Fair(ctx.next, old(ctx.next.log)) ==>
              && ctx.printed == old(ctx.printed) + Bytes(inv.acts) && ctx.sentEos == SawEos(inv.acts)
              && Flushes(ctx.next.log) == Flushes(old(ctx.next.log)) + Wanted(inv.acts)
    ensures !old(ctx.sentEos) && inv.status != DECLINED ==> NoneThrough(ctx.next, old(ctx.next.log))
    ensures !old(ctx.sentEos) && inv.status == DECLINED && Fair(ctx.next, old(ctx.next.log)) ==>
              |ctx.next.log| > |old(ctx.next.log)| && ctx.next.log[|ctx.next.log| - 1] == Through(inv.left)
  {
    if ctx.sentEos {
      PassThrough(ctx, inv.bb);
      return;
    }
    ctx.runs := ctx.runs + 1;
    var rc := RunFilter(ctx, inv.acts);
    if (rc == APR_SUCCESS || isReset(rc)) && inv.status == DECLINED {
      ghost var log := ctx.next.log;
      PassThrough(ctx, inv.left);
      FairUpTo(ctx.next, old(ctx.next.log), log);
    }
  }

  /** If every pass since a moment succeeded, so did every one up to a later moment. */
  lemma FairUpTo(next: Downstream, log: seq<Passed>, later: seq<Passed>)
    requires |log| <= |later| <= |next.log|
    ensures Fair(next, log) ==> forall k :: |log| <= k < |later| ==> next.verdict(k) == APR_SUCCESS
  {
  }

  /** modperl_run_filter: the handler, and the end of the invocation. */
  method RunFilter(ctx: Ctx, acts: seq<Act>) returns (rc: int)
    requires ctx.Between() && !ctx.sentEos
    modifies ctx, ctx.next
    ensures ctx.Between() && unchanged(ctx`runs) && NoneThrough(ctx.next, old(ctx.next.log))
    ensures Fair(ctx.next, old(ctx.next.log)) ==>
              && rc == APR_SUCCESS && ctx.printed == old(ctx.printed) + Bytes(acts)
              && ctx.sentEos == SawEos(acts)
              && Flushes(ctx.next.log) == Flushes(old(ctx.next.log)) + Wanted(acts)
  {
    var f := new Filter(ctx);
    RunHandler(f, acts);
    ghost var log := ctx.next.log;
    rc := f.Finish();
    FairBefore(ctx.next, old(ctx.next.log), log);
  }

  method PassThrough(ctx: Ctx, bb: seq<Bucket>)
    requires ctx.Between()
    modifies ctx.next
    ensures ctx.Between() && ctx.next.log == old(ctx.next.log) + [Through(bb)]
    ensures Flushes(ctx.next.log) == Flushes(old(ctx.next.log))
  {
    FlushesConcat(ctx.next.log, [Through(bb)]);
    ghost var log := ctx.next.log;
    var _ := ctx.next.Pass(Through(bb));
    if ctx.sentEos {
      ghost var k :| EosAt(log, k);
      assert ctx.next.log[..k] == log[..k];
      assert EosAt(ctx.next.log, k);
    }
  }

  /** What the handlers of these invocations print. */
  function BytesOf(invs: seq<Invocation>): seq<byte> {
    if invs == [] then [] else BytesOf(invs[..|invs| - 1]) + Bytes(invs[|invs| - 1].acts)
  }

  /** All the first k print has gone out, and the EOS is that of the last of them. */
  ghost predicate PrintedUpTo(now: seq<byte>, sent: bool, printed: seq<byte>, invs: seq<Invocation>, k: nat)
    requires k <= |invs|
  {
    && now == printed + BytesOf(invs[..k])
    && (forall i :: 0 <= i < k - 1 ==> !SawEos(invs[i].acts))
    && sent == (k > 0 && SawEos(invs[k - 1].acts))
  }

  lemma PrintedMore(now: seq<byte>, printed: seq<byte>, invs: seq<Invocation>, k: nat)
    requires k < |invs| && PrintedUpTo(now, false, printed, invs, k)
    ensures PrintedUpTo(now + Bytes(invs[k].acts), SawEos(invs[k].acts), printed, invs, k + 1)
  {
    assert invs[..k + 1][..k] == invs[..k];
  }

  /**
   * Over any sequence of invocations with any handlers: the handler runs for the first k of
   * them, and once the EOS has gone out every later brigade is passed through unchanged. While
   * passes succeed, everything printed by these k goes out, and the EOS follows in the first
   * invocation that leaves seen_eos set, which is the k-th.
   */
  method RunInvocations(ctx: Ctx, invs: seq<Invocation>, isReset: int -> bool) returns (ghost k: nat)
    requires ctx.Between() && !ctx.sentEos
    modifies ctx, ctx.next
    ensures ctx.Between() && k <= |invs| && ctx.runs == old(ctx.runs) + k
    ensures k < |invs| ==> ctx.sentEos
    ensures |ctx.next.log| >= |invs| - k
    ensures forall i :: k <= i < |invs| ==> ctx.next.log[|ctx.next.log| - |invs| + i] == Through(invs[i].bb)
    ensures Fair(ctx.next, old(ctx.next.log)) ==> PrintedUpTo(ctx.printed, ctx.sentEos, old(ctx.printed), invs, k)
  {
    k := 0;
    for i := 0 to |invs|
      invariant ctx.Between() && k <= i && ctx.runs == old(ctx.runs) + k
      invariant if ctx.sentEos then k <= i else k == i
      invariant |ctx.next.log| >= i - k && old(ctx.next.log) <= ctx.next.log
      invariant forall j :: k <= j < i ==> ctx.next.log[|ctx.next.log| - i + j] == Through(invs[j].bb)
      invariant Fair(ctx.next, old(ctx.next.log)) ==> PrintedUpTo(ctx.printed, ctx.sentEos, old(ctx.printed), invs, k)
    {
      ghost var log, sent, printed := ctx.next.log, ctx.sentEos, ctx.printed;
      Handle(ctx, invs[i], isReset);
      FairBefore(ctx.next, old(ctx.next.log), log);
      if !sent {
        if Fair(ctx.next, old(ctx.next.log)) {
          PrintedMore(printed, old(ctx.printed), invs, k);
        }
        k := k + 1;
      }
    }
  }

  /** At most one EOS is generated, and everything printed lies in front of it. */
  lemma OneEosBehindEverything(ctx: Ctx)
    requires ctx.Between()
    ensures var log := ctx.next.log;
            forall i, j :: 0 <= i < j < |log| ==> !(log[i].GeneratedEos? && log[j].GeneratedEos?)
    ensures var log := ctx.next.log;
            forall i :: 0 <= i < |log| && log[i].GeneratedEos? ==> ctx.sentEos && Written(log[..i]) == ctx.printed
  {
    var log := ctx.next.log;
    if ctx.sentEos {
      var k :| EosAt(log, k);
      assert forall i :: 0 <= i < k ==> log[..k][i] == log[i];
      WrittenUpTo(log, k);
    }
  }

  lemma {:induction false} WrittenUpTo(log: seq<Passed>, k: nat)
    requires k <= |log| && forall i :: k <= i < |log| ==> !log[i].Chunk?
    ensures Written(log) == Written(log[..k])
  {
    if k == |log| {
      assert log[..k] == log;
    } else {
      var t := log[..|log| - 1];
      WrittenUpTo(t, k);
      assert t[..k] == log[..k];
    }
  }
}
