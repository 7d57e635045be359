/** modperl_wbucket_t of modperl_filter.c: the fixed-size buffer in front of the next filter. */
module WriteBuffer {
  import opened Brigades
  import opened CgiHeader
  import opened Wrappers

  const MP_IOBUFSIZE := 8192

  /** What the header parser of httpd and the Location check after it make of a chunk. */
  datatype ScanStatus = Ok | Moved | Refused

  /** What is left of the first chunk once its headers have been parsed. */
  ghost predicate IsBody(scan: seq<byte> -> ScanStatus, chunk: seq<byte>, body: seq<byte>) {
    if scan(chunk) == Ok then exists n: nat :: IsCut(chunk, n) && body == chunk[n..] else body == []
  }

  /** Nothing of the chunk goes on: its headers are refused, or it is all header. */
  ghost predicate NothingLeft(scan: seq<byte> -> ScanStatus, chunk: seq<byte>) {
    scan(chunk) != Ok || IsCut(chunk, |chunk|)
  }

  lemma CutAtEnd(chunk: seq<byte>, n: nat)
    requires IsCut(chunk, n)
    ensures n == |chunk| <==> IsCut(chunk, |chunk|)
  {
    if IsCut(chunk, |chunk|) {
      CutIsUnique(chunk, n, |chunk|);
    }
  }

  lemma More(a: seq<byte>, b: seq<byte>, c: seq<byte>, d: seq<byte>, x: seq<byte>)
    requires a + b == c + d
    ensures a + (b + x) == c + (d + x)
  {
    assert a + (b + x) == (a + b) + x && c + (d + x) == (c + d) + x;
  }

  /**
   * A buffer that held these bytes has been emptied: they went out as one chunk, and a FLUSH that
   * was due rode with them or went alone. This many brigades more followed.
   */
  predicate Emptied(was: seq<Passed>, now: seq<Passed>, pending: seq<byte>, addFlush: bool, more: nat) {
    var n := |was|;
    && was <= now && |now| == n + more + (if pending != [] || addFlush then 1 else 0)
    && (pending != [] ==> now[n] == Chunk(pending, addFlush))
    && (pending == [] && addFlush ==> now[n] == FlushOnly)
  }

  /** What goes out of these bytes, without FLUSH. */
  function AsChunk(left: seq<byte>): seq<Passed> {
    if left == [] then [] else [Chunk(left, false)]
  }

  /** How many FLUSH buckets mod_perl has sent of its own. */
  function Flushes(log: seq<Passed>): nat {
    if log == [] then 0
    else
      var p := log[|log| - 1];
      Flushes(log[..|log| - 1]) + if p.FlushOnly? || (p.Chunk? && p.flush) then 1 else 0
  }

  lemma {:induction false} FlushesConcat(a: seq<Passed>, b: seq<Passed>)
    ensures Flushes(a + b) == Flushes(a) + Flushes(b)
    ensures |b| == 1 ==> Flushes(b) == if b[0].FlushOnly? || (b[0].Chunk? && b[0].flush) then 1 else 0
    ensures b == [] ==> Flushes(b) == 0
  {
    if b == [] {
      assert a + b == a;
    } else {
      assert (a + b)[..|a + b| - 1] == a + b[..|b| - 1];
      FlushesConcat(a, b[..|b| - 1]);
    }
  }

  lemma EmptiedFlushes(was: seq<Passed>, now: seq<Passed>, pending: seq<byte>, addFlush: bool)
    ensures Emptied(was, now, pending, addFlush, 0) ==> Flushes(now) == Flushes(was) + if addFlush then 1 else 0
  {
    if Emptied(was, now, pending, addFlush, 0) {
      assert now == was + now[|was|..];
      FlushesConcat(was, now[|was|..]);
    }
  }

  lemma EmptiedWithoutFlush(was: seq<Passed>, now: seq<Passed>, pending: seq<byte>)
    ensures Emptied(was, now, pending, false, 0) ==>
              now == was + if pending != [] then [Chunk(pending, false)] else []
  {
    if Emptied(was, now, pending, false, 0) {
      assert now[..|was|] == was;
    }
  }

  /** The buffered bytes, and the first chunk that was passed on, if one was or none is awaited. */
  datatype Due = Due(pending: seq<byte>, first: Option<seq<byte>>)

  /** A chunk is passed on; the first one is remembered. */
  function Passing(d: Due, chunk: seq<byte>): Due {
    Due([], if d.first.None? then Some(chunk) else d.first)
  }

  function AfterPush(d: Due): Due {
    if d.pending == [] then d else Passing(d, d.pending)
  }

  function Taken(d: Due, buf: seq<byte>): Due {
    if |buf| >= MP_IOBUFSIZE then Passing(d, buf) else d.(pending := d.pending + buf)
  }

  /** A write: what is buffered goes first if there is no room, and a long write is not buffered. */
  function AfterPut(d: Due, buf: seq<byte>): Due {
    Taken(if |buf| + |d.pending| > MP_IOBUFSIZE then AfterPush(d) else d, buf)
  }

  class WBucket {
    const next: Downstream
    const scan: seq<byte> -> ScanStatus
    var outbuf: array<byte>
    var outcnt: nat
    var headerParse: bool
    ghost var before: seq<byte>  // what had been written downstream when this buffer was made
    ghost const parse: bool      // it was made with headerParse set
    ghost var parsed: bool       // the header of the first chunk has been parsed,
    ghost var first: seq<byte>   // that chunk,
    ghost var body: seq<byte>    // what was left of it,
    ghost var rest: seq<byte>    // and the writes taken since

    /** The concatenation of all the writes that were taken. */
    ghost function Accepted(): seq<byte>
      reads this
    {
      first + rest
    }

    /**
     * The counter stays in the buffer, and what was passed on, then what is buffered, are the
     * accepted bytes in order; once a header has been parsed, less the header of the first chunk.
     */
    ghost predicate Valid()
      reads this, outbuf, next
    {
      && outbuf.Length == MP_IOBUFSIZE && outcnt <= MP_IOBUFSIZE
      && Consistent(outbuf[..outcnt])
    }

    /** pending is what has been accepted and not been passed on. */
    ghost predicate Consistent(pending: seq<byte>)
      reads this, next
    {
      && (if parsed then IsBody(scan, first, body) else first == body == [])
      && headerParse == (parse && !parsed) && (parsed ==> parse)
      && (headerParse ==> Written(next.log) == before)
      && Written(next.log) + pending == before + body + rest
    }

    constructor (next: Downstream, scan: seq<byte> -> ScanStatus, headerParse: bool)
      ensures Valid() && this.next == next && this.scan == scan && this.headerParse == headerParse
      ensures fresh(outbuf) && outcnt == 0 && Accepted() == [] && !parsed && before == Written(next.log)
      ensures parse == headerParse
    {
      this.next, this.scan, this.headerParse, this.parse := next, scan, headerParse, headerParse;
      outbuf, outcnt := new byte[MP_IOBUFSIZE], 0;
      before, parsed, first, body, rest := Written(next.log), false, [], [], [];
    }

    /**
     * modperl_wbucket_pass: everything accepted and not yet passed on goes out as one brigade,
     * after the header parser has taken its part if it is still due.
     */
    method PassChunk(buf: seq<byte>, addFlush: bool) returns (rc: int)
      requires outbuf.Length == MP_IOBUFSIZE && Consistent(buf)
      modifies this, next
      ensures Valid() && outcnt == 0 && !headerParse && Accepted() == old(Accepted())
      ensures unchanged(`outbuf, `before) && parsed == old(parsed || headerParse)
      ensures old(headerParse) ==> first == buf
      ensures old(headerParse) ==> (body == [] <==> NothingLeft(scan, buf))
      ensures !old(headerParse) ==> unchanged(`first, `body)
      ensures next.log == old(next.log) + if old(headerParse) && body == [] then []
                                          else [Chunk(if old(headerParse) then body else buf, addFlush)]
      ensures Extended(old(next.log), rc)
    {
      var out := buf;
      outcnt := 0;
      if headerParse {
        out := ParseHeader(buf);
        if out == [] {
          return APR_SUCCESS;
        }
      }
      rc := next.Pass(Chunk(out, addFlush));
    }

    /** The header parser takes its part of the first chunk; what is left is still to be passed on. */
    method ParseHeader(buf: seq<byte>) returns (left: seq<byte>)
      requires outbuf.Length == MP_IOBUFSIZE && Consistent(buf) && headerParse
      modifies this`headerParse, this`parsed, this`first, this`body, this`rest
      ensures Consistent(left) && !headerParse && parsed && first == buf && body == left && rest == []
      ensures old(rest) == buf && (left == [] <==> NothingLeft(scan, buf))
    {
      assert (before + buf)[|before|..] == buf && (before + [] + rest)[|before|..] == rest;
      headerParse, parsed, first, body, rest := false, true, buf, [], [];
      var n := HeaderScan(buf);
      CutAtEnd(buf, n);
      left := if scan(buf) != Ok then [] else buf[n..];
      body := left;
    }

    /** At most one more brigade of mod_perl's own has gone downstream; rc is its verdict. */
    ghost predicate Extended(log: seq<Passed>, rc: int)
      reads this, next
    {
      if next.log == log then rc == APR_SUCCESS
      else
        && |next.log| == |log| + 1 && log <= next.log && rc == next.verdict(|log|)
        && (next.log[|log|].Chunk? || next.log[|log|].FlushOnly?)
    }

    /**
     * modperl_wbucket_flush. A FLUSH that is due rides with the buffer or goes alone, but for one
     * case: the buffer is the first chunk and nothing of it is left behind its headers.
     */
    method Flush(addFlush: bool) returns (rc: int)
      requires Valid()
      modifies this, next
      ensures Valid() && outcnt == 0 && Accepted() == old(Accepted())
      ensures unchanged(`outbuf, `before) && headerParse == (old(headerParse) && old(outcnt) == 0)
      ensures old(headerParse) && old(outcnt) != 0 ==> parsed && first == old(outbuf[..outcnt])
      ensures !(old(headerParse) && old(outcnt) != 0) ==>
                unchanged(`parsed, `first, `body)
                && Emptied(old(next.log), next.log, old(outbuf[..outcnt]), addFlush, 0)
      ensures old(headerParse) && old(outcnt) != 0 ==>
                next.log == old(next.log) + if body == [] then [] else [Chunk(body, addFlush)]
      ensures addFlush ==>
                (next.log == old(next.log)
                 <==> old(headerParse) && old(outcnt) != 0 && NothingLeft(scan, old(outbuf[..outcnt])))
      ensures Flushes(next.log) == Flushes(old(next.log)) + if addFlush && next.log != old(next.log) then 1 else 0
      ensures Extended(old(next.log), rc)
    {
      rc := APR_SUCCESS;
      if outcnt != 0 {
        rc := PassChunk(outbuf[..outcnt], addFlush);
      } else if addFlush {
        rc := next.Pass(FlushOnly);
      }
      EmptiedFlushes(old(next.log), next.log, old(outbuf[..outcnt]), addFlush);
      FlushesConcat(old(next.log), [Chunk(body, addFlush)]);
    }

    /** Where the buffer and the first chunk stand. */
    ghost function Progress(): Due
      reads this, outbuf
      requires outcnt <= outbuf.Length
    {
      Due(outbuf[..outcnt], if headerParse then None else Some(first))
    }

    /** modperl_wbucket_write: takes all of buf, or nothing when emptying the buffer failed. */
    method Write(buf: seq<byte>) returns (rc: int, wlen: nat)
      requires Valid()
      modifies this, outbuf, next
      ensures Valid() && unchanged(`outbuf, `before)
      ensures wlen == |buf| || (wlen == 0 && rc != APR_SUCCESS)
      ensures Accepted() == old(Accepted()) + buf[..wlen]
      ensures wlen == |buf| ==> Progress() == AfterPut(old(Progress()), buf)
      ensures Wrote(old(outbuf[..outcnt]), old(headerParse), old(next.log), buf, wlen)
      ensures Flushes(next.log) == Flushes(old(next.log))
      ensures !old(headerParse) ==> !headerParse && parsed == old(parsed)
      ensures OwnSince(next, old(next.log))
      ensures Fair(next, old(next.log)) ==> rc == APR_SUCCESS
    {
      if |buf| + outcnt > MP_IOBUFSIZE {
        rc, wlen := WriteLate(buf);
      } else {
        wlen := |buf|;
        rc := Take(buf);
      }
      WroteIsOwn(old(outbuf[..outcnt]), old(headerParse), old(next.log), buf, wlen);
    }

    /** A write, as far as its callers here need to know of it. */
    method Accept(buf: seq<byte>) returns (rc: int, wlen: nat)
      requires Valid()
      modifies this, outbuf, next
      ensures Valid() && unchanged(`outbuf, `before)
      ensures wlen == |buf| || (wlen == 0 && rc != APR_SUCCESS)
      ensures Accepted() == old(Accepted()) + buf[..wlen]
      ensures wlen == |buf| ==> Progress() == AfterPut(old(Progress()), buf)
      ensures Flushes(next.log) == Flushes(old(next.log))
      ensures !old(headerParse) ==> !headerParse && parsed == old(parsed)
      ensures OwnSince(next, old(next.log))
      ensures Fair(next, old(next.log)) ==> rc == APR_SUCCESS
    {
      rc, wlen := Write(buf);
    }

    /** A write that does not fit behind what is buffered. */
    method WriteLate(buf: seq<byte>) returns (rc: int, wlen: nat)
      requires Valid() && |buf| + outcnt > MP_IOBUFSIZE
      modifies this, outbuf, next
      ensures Valid() && unchanged(`outbuf, `before)
      ensures wlen == |buf| || (wlen == 0 && rc != APR_SUCCESS)
      ensures Accepted() == old(Accepted()) + buf[..wlen]
      ensures wlen == |buf| ==> Progress() == AfterPut(old(Progress()), buf)
      ensures Wrote(old(outbuf[..outcnt]), old(headerParse), old(next.log), buf, wlen)
      ensures !old(headerParse) ==> !headerParse && parsed == old(parsed)
      ensures Fair(next, old(next.log)) ==> rc == APR_SUCCESS
    {
      wlen := 0;
      rc := MakeRoom();
      assert buf[..0] == [] && buf[..|buf|] == buf;
      if rc == APR_SUCCESS {
        ghost var log := next.log;
        assert Progress().pending == [];
        wlen := |buf|;
        rc := Take(buf);
        assert log <= next.log;
      }
    }

    lemma WroteIsOwn(pending: seq<byte>, due: bool, was: seq<Passed>, buf: seq<byte>, wlen: nat)
      requires outcnt <= outbuf.Length && Wrote(pending, due, was, buf, wlen)
      ensures OwnSince(next, was) && Flushes(next.log) == Flushes(was)
    {
      var emptied := |buf| + |pending| > MP_IOBUFSIZE && pending != [];
      var a := if !emptied then [] else if due then AsChunk(body) else [Chunk(pending, false)];
      var b := if !(|buf| >= MP_IOBUFSIZE && wlen == |buf|) then []
               else if due && !emptied then AsChunk(body)
               else [Chunk(buf, false)];
      FlushesConcat(was + a, b);
      FlushesConcat(was, a);
    }

    /** The flush before a write that does not fit. */
    method MakeRoom() returns (rc: int)
      requires Valid()
      modifies this, next
      ensures Valid() && outcnt == 0 && Accepted() == old(Accepted()) && unchanged(`outbuf, `before)
      ensures Progress() == AfterPush(old(Progress()))
      ensures headerParse == (old(headerParse) && old(outcnt) == 0) && (!old(headerParse) ==> unchanged(`parsed))
      ensures old(headerParse) && old(outcnt) != 0 ==> parsed && first == old(outbuf[..outcnt])
      ensures next.log == old(next.log)
                          + (if old(outcnt) == 0 then []
                             else if old(headerParse) then AsChunk(body)
                             else [Chunk(old(outbuf[..outcnt]), false)])
      ensures Flushes(next.log) == Flushes(old(next.log)) && Extended(old(next.log), rc)
    {
      rc := Flush(false);
      EmptiedWithoutFlush(old(next.log), next.log, old(outbuf[..outcnt]));
    }

    /**
     * What a write sends: the buffer, if there was something in it and the new bytes did not fit,
     * and then the bytes themselves if they are too long to be buffered, each as a chunk of data
     * without FLUSH. The first chunk loses its header if one is due. What is not sent is buffered.
     */
    ghost predicate Wrote(pending: seq<byte>, due: bool, was: seq<Passed>, buf: seq<byte>, wlen: nat)
      reads this, next, outbuf
      requires outcnt <= outbuf.Length
    {
      var emptied := |buf| + |pending| > MP_IOBUFSIZE && pending != [];
      var long := |buf| >= MP_IOBUFSIZE;
      && next.log == was
                     + (if !emptied then [] else if due then AsChunk(body) else [Chunk(pending, false)])
                     + (if !(long && wlen == |buf|) then []
                        else if due && !emptied then AsChunk(body)
                        else [Chunk(buf, false)])
      && (due && emptied ==> parsed && first == pending)
      && (due && !emptied && long ==> parsed && first == buf)
      && (due && !emptied && !long ==> headerParse)
      && (wlen == |buf| ==>
            outbuf[..outcnt]
            == if long then [] else if |buf| + |pending| > MP_IOBUFSIZE then buf else pending + buf)
    }

    method Take(buf: seq<byte>) returns (rc: int)
      requires Valid() && if |buf| < MP_IOBUFSIZE then outcnt + |buf| <= MP_IOBUFSIZE else outcnt == 0
      modifies this, outbuf, next
      ensures Valid() && unchanged(`outbuf, `before)
      ensures Accepted() == old(Accepted()) + buf && (!old(headerParse) ==> !headerParse && parsed == old(parsed))
      ensures Progress() == Taken(old(Progress()), buf)
      ensures next.log == old(next.log)
                          + (if |buf| < MP_IOBUFSIZE then []
                             else if old(headerParse) then AsChunk(body)
                             else [Chunk(buf, false)])
      ensures outbuf[..outcnt] == if |buf| < MP_IOBUFSIZE then old(outbuf[..outcnt]) + buf else []
      ensures |buf| >= MP_IOBUFSIZE && old(headerParse) ==> parsed && first == buf
      ensures |buf| < MP_IOBUFSIZE || !old(headerParse) ==> unchanged(`parsed, `first, `body)
      ensures |buf| < MP_IOBUFSIZE ==> unchanged(`headerParse)
      ensures Flushes(next.log) == Flushes(old(next.log))
      ensures Extended(old(next.log), rc)
    {
      if |buf| >= MP_IOBUFSIZE {
        More(Written(next.log), outbuf[..outcnt], before + body, rest, buf);
        rest := rest + buf;
        assert outbuf[..outcnt] + buf == buf;
        ghost var log := next.log;
        rc := PassChunk(buf, false);
        FlushesConcat(log, if old(headerParse) then AsChunk(body) else [Chunk(buf, false)]);
      } else {
        Append(buf);
        rc := APR_SUCCESS;
      }
    }

    method Append(buf: seq<byte>)
      requires Valid() && outcnt + |buf| <= MP_IOBUFSIZE
      modifies outbuf, this`outcnt, this`rest
      ensures Valid() && rest == old(rest) + buf && outbuf[..outcnt] == old(outbuf[..outcnt]) + buf
    {
      forall i | 0 <= i < |buf| {
        outbuf[outcnt + i] := buf[i];
      }
      assert outbuf[..outcnt + |buf|] == old(outbuf[..outcnt]) + buf;
      More(Written(next.log), old(outbuf[..outcnt]), before + body, rest, buf);
      outcnt, rest := outcnt + |buf|, rest + buf;
    }
  }

  /** Since then mod_perl has only added brigades of its own, of data or a lone FLUSH. */
  ghost predicate OwnSince(next: Downstream, log: seq<Passed>)
    reads next
  {
    log <= next.log && forall i :: |log| <= i < |next.log| ==> next.log[i].Chunk? || next.log[i].FlushOnly?
  }

  /** Every pass since then succeeded. */
  ghost predicate Fair(next: Downstream, log: seq<Passed>)
    reads next
  {
    forall k :: |log| <= k < |next.log| ==> next.verdict(k) == APR_SUCCESS
  }

  /**
   * In every valid state nothing is lost, doubled or reordered: what has gone downstream, then
   * what is buffered, is what was accepted; after header parsing it lacks one header block at
   * the start of the first chunk, or that whole chunk when its headers were not accepted.
   */
  lemma StreamLessHeader(wb: WBucket)
    requires wb.Valid()
    ensures var out := Written(wb.next.log) + wb.outbuf[..wb.outcnt];
            && (!wb.parsed ==> out == wb.before + wb.Accepted())
            && (wb.parsed && wb.scan(wb.first) == Ok ==>
                  exists n: nat :: IsCut(wb.first, n) && out == wb.before + wb.Accepted()[n..])
            && (wb.parsed && wb.scan(wb.first) != Ok ==> out == wb.before + wb.Accepted()[|wb.first|..])
  {
    var out := Written(wb.next.log) + wb.outbuf[..wb.outcnt];
    if wb.parsed && wb.scan(wb.first) == Ok {
      var n: nat :| IsCut(wb.first, n) && wb.body == wb.first[n..];
      assert wb.Accepted()[n..] == wb.first[n..] + wb.rest;
      assert out == wb.before + wb.Accepted()[n..];
    } else if wb.parsed {
      assert wb.Accepted()[|wb.first|..] == wb.rest;
    }
  }

  // ----- runs -----

  datatype Op = Put(bytes: seq<byte>) | Push(addFlush: bool)

  function Puts(ops: seq<Op>): seq<byte> {
    if ops == [] then []
    else
      var op := ops[|ops| - 1];
      Puts(ops[..|ops| - 1]) + if op.Put? then op.bytes else []
  }

  /** The FLUSHes asked for. */
  function Asked(ops: seq<Op>): nat {
    if ops == [] then 0
    else
      var op := ops[|ops| - 1];
      Asked(ops[..|ops| - 1]) + if op.Push? && op.addFlush then 1 else 0
  }

  /** Where a run of writes and flushes leaves the buffer and the first chunk. */
  function AfterOps(d: Due, ops: seq<Op>): Due {
    if ops == [] then d
    else
      OneOp(AfterOps(d, ops[..|ops| - 1]), ops[|ops| - 1])
  }

  /** What a run of operations changes. */
  datatype Standing = Standing(accepted: seq<byte>, progress: Due, log: seq<Passed>, due: bool)

  /** The operations led from a to b; fair says that no pass failed. */
  ghost predicate Led(a: Standing, b: Standing, ops: seq<Op>, fair: bool) {
    && (fair ==> b.accepted == a.accepted + Puts(ops) && b.progress == AfterOps(a.progress, ops))
    && Flushes(b.log) <= Flushes(a.log) + Asked(ops)
    && (!a.due ==> !b.due && Flushes(b.log) == Flushes(a.log) + Asked(ops))
  }

  lemma LedFurther(a: Standing, b: Standing, c: Standing, ops: seq<Op>, i: nat, fair: bool, fairStep: bool)
    requires i < |ops| && Led(a, b, ops[..i], fair) && Led(b, c, [ops[i]], fairStep)
    ensures Led(a, c, ops[..i + 1], fair && fairStep)
  {
    OneMoreOp(a.progress, ops, i);
    assert a.accepted + (Puts(ops[..i]) + Puts([ops[i]])) == (a.accepted + Puts(ops[..i])) + Puts([ops[i]]);
  }

  /** What one operation alone does. */
  function OneOp(d: Due, op: Op): Due {
    match op
    case Put(bytes) => AfterPut(d, bytes)
    case Push(_) => AfterPush(d)
  }

  lemma OnlyOp(d: Due, op: Op)
    ensures AfterOps(d, [op]) == OneOp(d, op)
    ensures Puts([op]) == if op.Put? then op.bytes else []
    ensures Asked([op]) == if op.Push? && op.addFlush then 1 else 0
  {
    assert [op][..0] == [] && AfterOps(d, []) == d && Puts([]) == [];
  }

  lemma OneMoreOp(d: Due, ops: seq<Op>, i: nat)
    requires i < |ops|
    ensures AfterOps(d, ops[..i + 1]) == AfterOps(AfterOps(d, ops[..i]), [ops[i]])
    ensures Puts(ops[..i + 1]) == Puts(ops[..i]) + Puts([ops[i]])
    ensures Asked(ops[..i + 1]) == Asked(ops[..i]) + Asked([ops[i]])
  {
    assert ops[..i + 1][..i] == ops[..i];
    OnlyOp(AfterOps(d, ops[..i]), ops[i]);
  }

  ghost function Stands(wb: WBucket): Standing
    reads wb, wb.outbuf, wb.next
    requires wb.outcnt <= wb.outbuf.Length
  {
    Standing(wb.Accepted(), wb.Progress(), wb.next.log, wb.headerParse)
  }

  /** One write or flush. */
  method DoOp(wb: WBucket, op: Op)
    requires wb.Valid()
    modifies wb, wb.outbuf, wb.next
    ensures wb.Valid() && wb.before == old(wb.before) && wb.outbuf == old(wb.outbuf)
    ensures old(wb.next.log) <= wb.next.log
    ensures Led(old(Stands(wb)), Stands(wb), [op], Fair(wb.next, old(wb.next.log)))
  {
    OnlyOp(wb.Progress(), op);
    match op {
      case Put(bytes) =>
        var rc, n := wb.Accept(bytes);
        assert bytes[..|bytes|] == bytes;
      case Push(addFlush) =>
        var _ := wb.Flush(addFlush);
    }
  }

  /**
   * Any sequence of writes and flushes keeps the buffer valid. When no pass fails, all of it is
   * accepted, and buffer and first chunk are as computed from the operations; so a header that is
   * due has been cut exactly if there is a first chunk, and off that chunk. A FLUSH goes out only
   * for one asked for, and if no header was due for every one.
   */
  method RunOps(wb: WBucket, ops: seq<Op>)
    requires wb.Valid()
    modifies wb, wb.outbuf, wb.next
    ensures wb.Valid() && wb.before == old(wb.before)
    ensures Fair(wb.next, old(wb.next.log)) ==>
              && wb.Accepted() == old(wb.Accepted()) + Puts(ops)
              && wb.Progress() == AfterOps(old(wb.Progress()), ops)
    ensures Fair(wb.next, old(wb.next.log)) && old(wb.headerParse) ==>
              var due := AfterOps(Due(old(wb.outbuf[..wb.outcnt]), None), ops);
              && wb.parsed == due.first.Some? && (wb.parsed ==> wb.first == due.first.value)
              && wb.outbuf[..wb.outcnt] == due.pending
    ensures Flushes(wb.next.log) <= Flushes(old(wb.next.log)) + Asked(ops)
    ensures !old(wb.headerParse) ==> Flushes(wb.next.log) == Flushes(old(wb.next.log)) + Asked(ops)
  {
    ghost var start := Stands(wb);
    for i := 0 to |ops|
      invariant wb.Valid() && wb.outbuf == old(wb.outbuf) && wb.before == old(wb.before)
      invariant old(wb.next.log) <= wb.next.log
      invariant Led(start, Stands(wb), ops[..i], Fair(wb.next, old(wb.next.log)))
    {
      ghost var here, log, fair := Stands(wb), wb.next.log, Fair(wb.next, old(wb.next.log));
      DoOp(wb, ops[i]);
      FairSplits(wb.next, old(wb.next.log), log, fair);
      LedFurther(start, here, Stands(wb), ops, i, fair, Fair(wb.next, log));
    }
    assert ops[..|ops|] == ops;
  }

  /** No pass failed since a moment exactly if none did up to a later moment, and none since. */
  lemma FairSplits(next: Downstream, log: seq<Passed>, later: seq<Passed>, fair: bool)
    requires |log| <= |later| <= |next.log|
    requires fair == forall k :: |log| <= k < |later| ==> next.verdict(k) == APR_SUCCESS
    ensures Fair(next, log) == (fair && Fair(next, later))
  {
  }

  /** If every pass since a moment succeeded, so did every one up to, and since, a later moment. */
  lemma FairBefore(next: Downstream, log: seq<Passed>, later: seq<Passed>)
    requires |log| <= |later| <= |next.log|
    ensures Fair(next, log) ==> Fair(next, later)
    ensures Fair(next, log) ==> forall k :: |log| <= k < |later| ==> next.verdict(k) == APR_SUCCESS
  {
  }

  /** "A: b", a line feed and a blank line. */
  function OneHeader(): seq<byte> {
    [65, 58, 32, 98, LF, LF]
  }

  /** All of it is header. */
  lemma OnlyHeader()
    ensures IsCut(OneHeader(), |OneHeader()|)
  {
    var text := OneHeader();
    assert text[..6] == text;
    assert NewlineAt(text[..5], 4);
    forall m | 0 <= m < 6 ensures !EndsHeader(text[..m]) {
      if m == 5 {
        forall j ensures !NewlineAt(text[..5][..4], j) {
        }
      }
    }
  }

  /** Only headers, and a FLUSH behind them that never goes out. */
  method HeaderSwallowsFlush() returns (next: Downstream)
    ensures next.log == []
  {
    next := new Downstream(_ => APR_SUCCESS);
    var wb := new WBucket(next, _ => Ok, true);
    OnlyHeader();
    var rc, n := wb.Write(OneHeader());
    assert wb.Progress() == Due(OneHeader(), None);
    var _ := wb.Flush(true);
  }
}
