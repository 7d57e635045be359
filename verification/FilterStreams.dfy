/** The streaming output filter that copies its input, end to end. */
module FilterStreams {
  import opened Brigades
  import opened FilterReader
  import opened WriteBuffer
  import opened OutputFilter

  /** Readable data, and EOS at most as the last bucket. */
  ghost predicate DataThenEos(bb: seq<Bucket>) {
    forall i :: 0 <= i < |bb| ==> bb[i].Data? || (bb[i].Eos? && i == |bb| - 1)
  }

  ghost predicate AllSucceed(next: Downstream) {
    forall k: nat :: next.verdict(k) == APR_SUCCESS
  }

  /**
   * A handler that repeats read(n) and print until read answers nothing: it prints exactly the
   * data of the brigade, for every chunk size, and the EOS follows it if the brigade had one.
   */
  method CopyBrigade(ctx: Ctx, bb: seq<Bucket>, n: nat)
    requires ctx.Between() && !ctx.sentEos && n >= 1 && DataThenEos(bb) && AllSucceed(ctx.next)
    modifies ctx, ctx.next
    ensures ctx.Between() && ctx.printed == old(ctx.printed) + Whole(bb)
    ensures ctx.sentEos == (FirstEos(bb) < |bb|)
    ensures ctx.sentEos ==> EosAt(ctx.next.log, |ctx.next.log| - 1)
    ensures old(ctx.next.log) <= ctx.next.log && Flushes(ctx.next.log) == Flushes(old(ctx.next.log))
    ensures ctx.runs == old(ctx.runs) + 1
  {
    ctx.runs := ctx.runs + 1;
    var f := new Filter(ctx);
    var rd := new Reader(true, bb);
    CopyLoop(f, rd, n);
    StoppedAtEnd(rd, f);
    var _ := f.Finish();
  }

  method CopyLoop(f: Filter, rd: Reader, n: nat)
    requires f.Running() && Reading(rd, f, rd.input) && rd.pos == 0
    requires n >= 1 && DataThenEos(rd.input) && AllSucceed(f.ctx.next)
    modifies f, f.ctx, f.ctx.next, f.wb, f.wb.outbuf, rd
    ensures f.Running() && Reading(rd, f, rd.input) && rd.at.Stopped() && f.wb.outbuf == old(f.wb.outbuf)
    ensures f.ctx.printed == old(f.ctx.printed) + Whole(rd.input)
    ensures Flushes(f.ctx.next.log) == Flushes(old(f.ctx.next.log))
    ensures unchanged(f.ctx`runs) && old(f.ctx.next.log) <= f.ctx.next.log
  {
    ghost var base, done := f.ctx.printed, 0;
    var bytes := ReadSome(f, rd, n);
    assert Whole(rd.input)[..0] == [];
    while bytes != []
      invariant Copying(f, rd, base, done, bytes) && f.wb.outbuf == old(f.wb.outbuf)
      invariant unchanged(f.ctx`runs) && old(f.ctx.next.log) <= f.ctx.next.log
      invariant Flushes(f.ctx.next.log) == Flushes(old(f.ctx.next.log))
      decreases |Whole(rd.input)| - done
    {
      ghost var was := done;
      done := done + |bytes|;
      bytes := PrintAndRead(f, rd, n, bytes, base, was);
    }
    StoppedAtEnd(rd, f);
    assert Whole(rd.input)[..done] == Whole(rd.input);
  }

  /** done bytes of the brigade have been printed, and bytes have been read after them. */
  ghost predicate Copying(f: Filter, rd: Reader, base: seq<byte>, done: nat, bytes: seq<byte>)
    reads f, f.ctx, f.ctx.next, f.wb, f.wb.outbuf, rd
  {
    && f.Running() && Reading(rd, f, rd.input)
    && done + |bytes| == rd.pos && bytes == Whole(rd.input)[done..rd.pos]
    && f.ctx.printed == base + Whole(rd.input)[..done]
    && (bytes == [] ==> rd.at.Stopped())
  }

  method PrintAndRead(f: Filter, rd: Reader, n: nat, out: seq<byte>, ghost base: seq<byte>, ghost done: nat)
      returns (bytes: seq<byte>)
    requires Copying(f, rd, base, done, out) && n >= 1 && DataThenEos(rd.input) && AllSucceed(f.ctx.next)
    modifies f, f.ctx, f.ctx.next, f.wb, f.wb.outbuf, rd
    ensures Copying(f, rd, base, done + |out|, bytes) && f.wb.outbuf == old(f.wb.outbuf)
    ensures Flushes(f.ctx.next.log) == Flushes(old(f.ctx.next.log))
    ensures unchanged(f.ctx`runs) && old(f.ctx.next.log) <= f.ctx.next.log
  {
    ghost var w := Whole(rd.input);
    assert w[..done + |out|] == w[..done] + out;
    var _ := f.Print(out);
    assert f.Running() && Reading(rd, f, rd.input) && f.ctx.printed == base + w[..done + |out|];
    bytes := ReadSome(f, rd, n);
  }

  /** Without FLUSH buckets a stopped reader has read everything. */
  lemma StoppedAtEnd(rd: Reader, f: Filter)
    requires Reading(rd, f, rd.input) && rd.at.Stopped() && DataThenEos(rd.input)
    ensures rd.pos == |Whole(rd.input)| && rd.at.seenEos == (FirstEos(rd.input) < |rd.input|)
  {
    EosFromIs(rd.input, 0);
  }

  /** The reader of a FLUSH-free brigade and the filter's flags, between two reads. */
  ghost predicate Reading(rd: Reader, f: Filter, bb: seq<Bucket>)
    reads rd, f
  {
    && rd.Valid() && rd.input == bb && !rd.at.flush && !f.flush && f.seenEos == rd.at.seenEos
    && (rd.at.seenEos ==> rd.at.AtEos() && rd.pos == |Whole(bb)|)
    && (rd.at.bb == [] ==> rd.pos == |Whole(bb)|)
  }

  /** modperl_output_filter_read on a brigade without FLUSH buckets. */
  method ReadSome(f: Filter, rd: Reader, n: nat) returns (bytes: seq<byte>)
    requires f.Running() && Reading(rd, f, rd.input) && n >= 1 && DataThenEos(rd.input)
    modifies f, f.ctx, f.ctx.next, f.wb, rd
    ensures f.Running() && Reading(rd, f, rd.input) && f.wb.outbuf == old(f.wb.outbuf)
    ensures unchanged(f.ctx`runs, f.ctx`printed) && f.ctx.next.log == old(f.ctx.next.log)
    ensures rd.pos == old(rd.pos) + |bytes| && bytes == Whole(rd.input)[old(rd.pos)..rd.pos]
    ensures bytes == [] ==> rd.at.Stopped()
  {
    var r := rd.Read(n);
    bytes := if r.Got? then r.bytes else [];
    var _ := f.AfterRead(bytes == [], rd.at.seenEos, rd.at.flush);
  }

  /** Such a brigade's data before the EOS is all its data. */
  lemma WholeIsAll(bb: seq<Bucket>)
    requires DataThenEos(bb)
    ensures Whole(bb) == Concat(bb, |bb|)
  {
    EosFromIs(bb, 0);
    var n := FirstEos(bb);
    if n < |bb| {
      assert n == |bb| - 1 && DataOf(bb[n]) == [];
      assert Concat(bb, |bb|) == Concat(bb, n) + DataOf(bb[n]);
    }
  }

  /** The data of a sequence of brigades. */
  ghost function DataOfAll(brigades: seq<seq<Bucket>>): seq<byte> {
    if brigades == [] then [] else DataOfAll(brigades[..|brigades| - 1]) + Whole(brigades[|brigades| - 1])
  }

  ghost function Forwarded(brigades: seq<seq<Bucket>>): seq<Passed> {
    if brigades == [] then [] else Forwarded(brigades[..|brigades| - 1]) + [Through(brigades[|brigades| - 1])]
  }

  /** All the data of a sequence of brigades, EOS or not. */
  ghost function AllData(brigades: seq<seq<Bucket>>): seq<byte> {
    if brigades == [] then []
    else
      var last := brigades[|brigades| - 1];
      AllData(brigades[..|brigades| - 1]) + Concat(last, |last|)
  }

  /** The data in what was passed through. */
  ghost function Delivered(log: seq<Passed>): seq<byte> {
    if log == [] then []
    else
      var p := log[|log| - 1];
      Delivered(log[..|log| - 1]) + if p.Through? then Concat(p.bb, |p.bb|) else []
  }

  lemma {:induction false} ForwardedDelivers(brigades: seq<seq<Bucket>>)
    ensures Delivered(Forwarded(brigades)) == AllData(brigades)
  {
    if brigades != [] {
      var front, last := brigades[..|brigades| - 1], brigades[|brigades| - 1];
      ForwardedDelivers(front);
      assert Forwarded(brigades) == Forwarded(front) + [Through(last)];
      assert Forwarded(brigades)[..|Forwarded(front)|] == Forwarded(front);
    }
  }

  lemma {:induction false} DataOfAllIsAll(brigades: seq<seq<Bucket>>)
    requires forall i :: 0 <= i < |brigades| ==> DataThenEos(brigades[i])
    ensures DataOfAll(brigades) == AllData(brigades)
  {
    if brigades != [] {
      DataOfAllIsAll(brigades[..|brigades| - 1]);
      WholeIsAll(brigades[|brigades| - 1]);
    }
  }

  lemma {:induction false} AllDataConcat(a: seq<seq<Bucket>>, b: seq<seq<Bucket>>)
    ensures AllData(a + b) == AllData(a) + AllData(b)
  {
    if b == [] {
      assert a + b == a;
    } else {
      assert (a + b)[..|a + b| - 1] == a + b[..|b| - 1];
      AllDataConcat(a, b[..|b| - 1]);
    }
  }

  /** What the filter wrote for the first brigades and what it forwarded are all the data, in order. */
  lemma AllDelivered(first: seq<seq<Bucket>>, rest: seq<seq<Bucket>>, all: seq<seq<Bucket>>)
    requires all == first + rest && forall i :: 0 <= i < |first| ==> DataThenEos(first[i])
    ensures DataOfAll(first) + Delivered(Forwarded(rest)) == AllData(all)
  {
    DataOfAllIsAll(first);
    ForwardedDelivers(rest);
    AllDataConcat(first, rest);
  }

  /**
   * The copying filter on a whole stream of brigades is transparent. The data of the first j
   * brigades goes out through the filter, complete and in order. If the last of these had an
   * EOS, mod_perl's EOS follows right behind that data, and the brigades after it are forwarded
   * as they are; otherwise j is all of them. Together that is all the data there was.
   */
  method CopyStream(ctx: Ctx, brigades: seq<seq<Bucket>>, n: nat) returns (ghost j: nat, ghost own: seq<Passed>)
    requires ctx.Between() && !ctx.sentEos && ctx.printed == [] && n >= 1 && AllSucceed(ctx.next)
    requires forall i :: 0 <= i < |brigades| ==> DataThenEos(brigades[i])
    modifies ctx, ctx.next
    ensures j <= |brigades| && ctx.next.log == own + Forwarded(brigades[j..])
    ensures Written(own) == DataOfAll(brigades[..j])
    ensures Written(own) + Delivered(Forwarded(brigades[j..])) == AllData(brigades)
    ensures forall i :: 0 <= i < j - 1 ==> FirstEos(brigades[i]) == |brigades[i]|
    ensures if j > 0 && FirstEos(brigades[j - 1]) < |brigades[j - 1]| then EosAt(own, |own| - 1)
            else j == |brigades| && NoEos(own)
    ensures Flushes(ctx.next.log) == Flushes(old(ctx.next.log))
  {
    var i := CopyUpToEos(ctx, brigades, n);
    j, own := i, ctx.next.log;
    AllDelivered(brigades[..j], brigades[j..], brigades);
    if i < |brigades| {
      Forward(ctx, brigades[i..]);
    } else {
      assert brigades[j..] == [] && own + [] == own;
    }
  }

  /** After the EOS every brigade goes through as it is. */
  method Forward(ctx: Ctx, brigades: seq<seq<Bucket>>)
    requires ctx.Between() && ctx.sentEos
    modifies ctx, ctx.next
    ensures ctx.next.log == old(ctx.next.log) + Forwarded(brigades)
    ensures Flushes(ctx.next.log) == Flushes(old(ctx.next.log))
  {
    for i := 0 to |brigades|
      invariant ctx.Between() && ctx.sentEos && ctx.next.log == old(ctx.next.log) + Forwarded(brigades[..i])
      invariant Flushes(ctx.next.log) == Flushes(old(ctx.next.log))
    {
      Handle(ctx, Invocation(brigades[i], [], OK, []), _ => false);
      assert brigades[..i + 1][..i] == brigades[..i];
    }
    assert brigades[..|brigades|] == brigades;
  }

  method CopyUpToEos(ctx: Ctx, brigades: seq<seq<Bucket>>, n: nat) returns (j: nat)
    requires ctx.Between() && !ctx.sentEos && ctx.printed == [] && n >= 1 && AllSucceed(ctx.next)
    requires forall i :: 0 <= i < |brigades| ==> DataThenEos(brigades[i])
    modifies ctx, ctx.next
    ensures ctx.Between() && j <= |brigades| && ctx.printed == DataOfAll(brigades[..j])
    ensures forall i :: 0 <= i < j - 1 ==> FirstEos(brigades[i]) == |brigades[i]|
    ensures ctx.sentEos == (j > 0 && FirstEos(brigades[j - 1]) < |brigades[j - 1]|)
    ensures ctx.sentEos ==> EosAt(ctx.next.log, |ctx.next.log| - 1)
    ensures !ctx.sentEos ==> j == |brigades|
    ensures Flushes(ctx.next.log) == Flushes(old(ctx.next.log))
  {
    j := 0;
    while j < |brigades| && !ctx.sentEos
      invariant ctx.Between() && j <= |brigades| && ctx.printed == DataOfAll(brigades[..j])
      invariant forall i :: 0 <= i < j - 1 ==> FirstEos(brigades[i]) == |brigades[i]|
      invariant ctx.sentEos == (j > 0 && FirstEos(brigades[j - 1]) < |brigades[j - 1]|)
      invariant ctx.sentEos ==> EosAt(ctx.next.log, |ctx.next.log| - 1)
      invariant Flushes(ctx.next.log) == Flushes(old(ctx.next.log))
      decreases |brigades| - j
    {
      CopyBrigade(ctx, brigades[j], n);
      assert brigades[..j + 1][..j] == brigades[..j];
      j := j + 1;
    }
  }
}
