/**
 * A mod_perl input filter over all its invocations. What it writes goes straight into the
 * brigade its caller gave it; Ctx.next stands for those brigades, one after the other.
 */
module InputFilter {
  import opened Brigades
  import opened OutputFilter
  import opened WriteBuffer

  class Filter {
    const ctx: Ctx
    var hasIn: bool   // bb_in was fetched by a read
    var seenEos: bool
    var flush: bool

    ghost predicate Running()
      reads this, ctx, ctx.next
    {
      !ctx.sentEos && ctx.Between()
    }

    constructor (ctx: Ctx)
      requires ctx.Between() && !ctx.sentEos
      ensures this.ctx == ctx && Running() && !hasIn && !seenEos && !flush
    {
      this.ctx, hasIn, seenEos, flush := ctx, false, false, false;
    }

    /** modperl_input_filter_write. */
    method Print(buf: seq<byte>)
      requires Running()
      modifies ctx`printed, ctx.next
      ensures Running() && ctx.printed == old(ctx.printed) + buf
      ensures ctx.next.log == old(ctx.next.log) + [Chunk(buf, false)]
    {
      var _ := ctx.next.Pass(Chunk(buf, false));
      ctx.printed := ctx.printed + buf;
    }

    /** What modperl_input_filter_read does around the read itself. */
    method AfterRead(empty: bool, seenEos: bool, flush: bool)
      requires Running()
      modifies this, ctx`sentEos, ctx.next
      ensures Running() && hasIn && this.seenEos == seenEos && this.flush == (flush && !empty)
      ensures ctx.next.log == old(ctx.next.log) + if flush && empty then [FlushOnly] else []
    {
      hasIn, this.seenEos, this.flush := true, seenEos, flush;
      if flush && empty {
        Flush(false);
      }
    }

    /** modperl_input_filter_flush; eos is filter->eos, which only the end of the invocation sets. */
    method Flush(eos: bool)
      requires Running()
      modifies this`flush, ctx`sentEos, ctx.next
      ensures ctx.Between() && ctx.sentEos == eos && !flush
      ensures Flushes(ctx.next.log) == Flushes(old(ctx.next.log)) + if old(flush) then 1 else 0
      ensures ctx.next.log == old(ctx.next.log) + Pending(old(flush), eos)
    {
      PendingParts(ctx.next.log, flush, eos);
      if flush {
        SendFlush();
      }
      if eos {
        SendEos();
      }
    }

    /** send_input_flush. */
    method SendFlush()
      requires Running()
      modifies this`flush, ctx.next
      ensures Running() && !flush && ctx.next.log == old(ctx.next.log) + [FlushOnly]
    {
      var _ := ctx.next.Pass(FlushOnly);
      flush := false;
    }

    /** send_input_eos. */
    method SendEos()
      requires Running()
      modifies ctx`sentEos, ctx.next
      ensures ctx.Between() && ctx.sentEos && ctx.next.log == old(ctx.next.log) + [GeneratedEos]
    {
      ctx.sentEos := true;
      var _ := ctx.next.Pass(GeneratedEos);
      assert ctx.next.log[..|old(ctx.next.log)|] == old(ctx.next.log);
      assert EosAt(ctx.next.log, |old(ctx.next.log)|);
    }
  }

  /** A FLUSH that is pending, and behind it the EOS if it is due. */
  function Pending(flush: bool, eos: bool): (sent: seq<Passed>)
    ensures forall i :: 0 <= i < |sent| ==> !sent[i].Through?
  {
    (if flush then [FlushOnly] else []) + if eos then [GeneratedEos] else []
  }

  lemma PendingParts(was: seq<Passed>, flush: bool, eos: bool)
    ensures flush && eos ==> was + Pending(flush, eos) == was + [FlushOnly] + [GeneratedEos]
    ensures flush && !eos ==> was + Pending(flush, eos) == was + [FlushOnly]
    ensures !flush && eos ==> was + Pending(flush, eos) == was + [GeneratedEos]
    ensures !flush && !eos ==> was + Pending(flush, eos) == was
    ensures Flushes(was + Pending(flush, eos)) == Flushes(was) + if flush then 1 else 0
  {
    assert flush && eos ==> was + Pending(flush, eos) == was + [FlushOnly] + [GeneratedEos];
    FlushesConcat(was, [FlushOnly]);
    FlushesConcat(was + [FlushOnly], [GeneratedEos]);
    FlushesConcat(was, [GeneratedEos]);
  }

  /** What a handler leaves in its caller's brigade. */
  function Wrote(acts: seq<Act>): seq<Passed> {
    if acts == [] then []
    else
      Wrote(acts[..|acts| - 1]) + WroteOne(acts[|acts| - 1])
  }

  /** What the end of an invocation adds: nothing if it croaks. */
  function Ending(acts: seq<Act>, declined: bool, bb: seq<Bucket>): seq<Passed> {
    if declined && LastRead(acts).0 then [] else Pending(LeavesFlush(acts), SawEos(acts)) + if declined then [Through(bb)] else []
  }

  /**
   * modperl_input_filter_handler: the handler runs unless the EOS has gone out; a handler that
   * declines after it has read croaks, and its flush and its EOS are lost with it.
   */
  method Handle(ctx: Ctx, inv: Invocation)
    requires ctx.Between()
    modifies ctx, ctx.next
    ensures ctx.Between()
    ensures old(ctx.sentEos) ==> unchanged(ctx) && ctx.next.log == old(ctx.next.log) + [Through(inv.bb)]
    ensures !old(ctx.sentEos) ==>
              && ctx.runs == old(ctx.runs) + 1
              && ctx.next.log == old(ctx.next.log) + Wrote(inv.acts)
                                 + Ending(inv.acts, inv.status == DECLINED, inv.bb)
    ensures !old(ctx.sentEos) ==>
              var declined := inv.status == DECLINED;
              var croaks := declined && LastRead(inv.acts).0;
              && ctx.printed == old(ctx.printed) + Bytes(inv.acts)
              && ctx.sentEos == (SawEos(inv.acts) && !croaks)
              && Flushes(ctx.next.log)
                 == Flushes(old(ctx.next.log)) + FlushedReads(inv.acts)
                    + (if LeavesFlush(inv.acts) && !croaks then 1 else 0)
              && (if declined && !croaks
                  then |ctx.next.log| > |old(ctx.next.log)| && ctx.next.log[|ctx.next.log| - 1] == Through(inv.bb)
                  else NoneThrough(ctx.next, old(ctx.next.log)))
  {
    if ctx.sentEos {
      PassThrough(ctx, inv.bb);
      return;
    }
    ctx.runs := ctx.runs + 1;
    var croaked := RunFilter(ctx, inv.acts, inv.status == DECLINED);
    if !croaked && inv.status == DECLINED {
      PassThrough(ctx, inv.bb);
    }
  }

  /** modperl_run_filter for an input filter. */
  method RunFilter(ctx: Ctx, acts: seq<Act>, declined: bool) returns (croaked: bool)
    requires ctx.Between() && !ctx.sentEos
    modifies ctx, ctx.next
    ensures ctx.Between() && unchanged(ctx`runs) && croaked == (declined && LastRead(acts).0)
    ensures ctx.next.log == old(ctx.next.log) + Wrote(acts) + if croaked then [] else Pending(LeavesFlush(acts), SawEos(acts))
    ensures ctx.printed == old(ctx.printed) + Bytes(acts) && ctx.sentEos == (SawEos(acts) && !croaked)
    ensures Flushes(ctx.next.log)
            == Flushes(old(ctx.next.log)) + FlushedReads(acts) + if LeavesFlush(acts) && !croaked then 1 else 0
    ensures NoneThrough(ctx.next, old(ctx.next.log))
  {
    var f := new Filter(ctx);
    RunHandler(f, acts);
    HandlerLeft(old(ctx.next.log), acts);
    croaked := f.hasIn && declined;
    if !croaked {
      ghost var log := ctx.next.log;
      f.Flush(f.seenEos);
      assert log <= ctx.next.log;
    } else {
      assert ctx.next.log + [] == ctx.next.log;
    }
  }

  /** One act of the handler. */
  method Turn(f: Filter, act: Act)
    requires f.Running()
    modifies f, f.ctx`printed, f.ctx`sentEos, f.ctx.next
    ensures f.Running() && f.ctx.next.log == old(f.ctx.next.log) + Wrote([act])
    ensures (f.hasIn, f.seenEos, f.flush)
            == if act.Print? then old((f.hasIn, f.seenEos, f.flush)) else LastRead([act])
    ensures f.ctx.printed == old(f.ctx.printed) + if act.Print? then act.bytes else []
  {
    assert [act][..0] == [];
    match act {
      case Print(bytes) =>
        f.Print(bytes);
      case Read(empty, seenEos, flush) =>
        f.AfterRead(empty, seenEos, flush);
    }
  }

  /** What one act leaves there. */
  function WroteOne(act: Act): seq<Passed> {
    match act
    case Print(bytes) => [Chunk(bytes, false)]
    case Read(empty, _, flush) => if flush && empty then [FlushOnly] else []
  }

  /** The FLUSHes a handler leaves in its caller's brigade are those of its empty reads. */
  lemma {:induction false} WroteFlushes(acts: seq<Act>)
    ensures Flushes(Wrote(acts)) == FlushedReads(acts)
  {
    if acts != [] {
      WroteFlushes(acts[..|acts| - 1]);
      FlushesConcat(Wrote(acts[..|acts| - 1]), WroteOne(acts[|acts| - 1]));
    }
  }

  lemma {:induction false} WroteOwn(acts: seq<Act>)
    ensures forall i :: 0 <= i < |Wrote(acts)| ==> !Wrote(acts)[i].Through?
  {
    if acts != [] {
      WroteOwn(acts[..|acts| - 1]);
    }
  }

  lemma Reassociate(a: seq<Passed>, b: seq<Passed>, c: seq<Passed>)
    ensures a + (b + c) == (a + b) + c
  {
  }

  lemma HandlerLeft(was: seq<Passed>, acts: seq<Act>)
    ensures Flushes(was + Wrote(acts)) == Flushes(was) + FlushedReads(acts)
    ensures forall i :: |was| <= i < |was + Wrote(acts)| ==> !(was + Wrote(acts))[i].Through?
  {
    WroteFlushes(acts);
    WroteOwn(acts);
    FlushesConcat(was, Wrote(acts));
  }

  lemma OneMore(acts: seq<Act>, i: nat)
    requires i < |acts|
    ensures Bytes(acts[..i + 1]) == Bytes(acts[..i]) + if acts[i].Print? then acts[i].bytes else []
    ensures Wrote(acts[..i + 1]) == Wrote(acts[..i]) + Wrote([acts[i]])
    ensures LastRead(acts[..i + 1]) == if acts[i].Print? then LastRead(acts[..i]) else LastRead([acts[i]])
  {
    assert acts[..i + 1][..i] == acts[..i];
    assert [acts[i]][..0] == [];
  }

  /** The next act of a handler that has left Wrote(acts[..i]) so far. */
  method NextTurn(f: Filter, acts: seq<Act>, i: nat, ghost log: seq<Passed>, ghost printed: seq<byte>)
    requires f.Running() && i < |acts|
    requires f.ctx.next.log == log + Wrote(acts[..i]) && f.ctx.printed == printed + Bytes(acts[..i])
    requires (f.hasIn, f.seenEos, f.flush) == LastRead(acts[..i])
    modifies f, f.ctx`printed, f.ctx`sentEos, f.ctx.next
    ensures f.Running()
    ensures f.ctx.next.log == log + Wrote(acts[..i + 1]) && f.ctx.printed == printed + Bytes(acts[..i + 1])
    ensures (f.hasIn, f.seenEos, f.flush) == LastRead(acts[..i + 1])
  {
    OneMore(acts, i);
    Reassociate(log, Wrote(acts[..i]), Wrote([acts[i]]));
    Turn(f, acts[i]);
  }

  method RunHandler(f: Filter, acts: seq<Act>)
    requires f.Running() && !f.hasIn && !f.seenEos && !f.flush
    modifies f, f.ctx`printed, f.ctx`sentEos, f.ctx.next
    ensures f.Running() && f.ctx.next.log == old(f.ctx.next.log) + Wrote(acts)
    ensures (f.hasIn, f.seenEos, f.flush) == LastRead(acts)
    ensures f.ctx.printed == old(f.ctx.printed) + Bytes(acts)
  {
    ghost var log, printed := f.ctx.next.log, f.ctx.printed;
    for i := 0 to |acts|
      invariant f.Running()
      invariant f.ctx.next.log == log + Wrote(acts[..i]) && f.ctx.printed == printed + Bytes(acts[..i])
      invariant (f.hasIn, f.seenEos, f.flush) == LastRead(acts[..i])
    {
      NextTurn(f, acts, i, log, printed);
    }
    assert acts[..|acts|] == acts;
  }

  /**
   * Over any sequence of invocations: the handler runs for the first k of them, and once the EOS
   * has gone out every later brigade is passed through unchanged.
   */
  method RunInvocations(ctx: Ctx, invs: seq<Invocation>) returns (ghost k: nat)
    requires ctx.Between() && !ctx.sentEos
    modifies ctx, ctx.next
    ensures ctx.Between() && k <= |invs| && ctx.runs == old(ctx.runs) + k
    ensures k < |invs| ==> ctx.sentEos
    ensures |ctx.next.log| >= |invs| - k
    ensures forall i :: k <= i < |invs| ==> ctx.next.log[|ctx.next.log| - |invs| + i] == Through(invs[i].bb)
  {
    k := 0;
    for i := 0 to |invs|
      invariant ctx.Between() && k <= i && ctx.runs == old(ctx.runs) + k
      invariant if ctx.sentEos then k <= i else k == i
      invariant |ctx.next.log| >= i - k
      invariant forall j :: k <= j < i ==> ctx.next.log[|ctx.next.log| - i + j] == Through(invs[j].bb)
    {
      if !ctx.sentEos {
        k := k + 1;
      }
      Handle(ctx, invs[i]);
    }
  }
}
