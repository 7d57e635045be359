/** The reading half of modperl_filter_t: get_bucket and modperl_filter_read of modperl_filter.c. */
module FilterReader {
  import opened Brigades

  /** A bucket that cannot be read, like EOS and FLUSH, contributes no data. */
  function DataOf(b: Bucket): seq<byte> {
    if b.Data? then b.bytes else []
  }

  /** The data of the first n buckets. */
  ghost function Concat(bb: seq<Bucket>, n: nat): seq<byte>
    requires n <= |bb|
  {
    if n == 0 then [] else Concat(bb, n - 1) + DataOf(bb[n - 1])
  }

  /** The number of buckets before the first EOS, counted from bucket i. */
  ghost function EosFrom(bb: seq<Bucket>, i: nat): (n: nat)
    requires i <= |bb|
    ensures i <= n <= |bb|
    decreases |bb| - i
  {
    if i == |bb| || bb[i].Eos? then i else EosFrom(bb, i + 1)
  }

  lemma {:induction false} EosFromIs(bb: seq<Bucket>, i: nat)
    requires i <= |bb|
    ensures EosFrom(bb, i) < |bb| ==> bb[EosFrom(bb, i)].Eos?
    ensures forall j :: i <= j < EosFrom(bb, i) ==> !bb[j].Eos?
    decreases |bb| - i
  {
    if i < |bb| && !bb[i].Eos? {
      EosFromIs(bb, i + 1);
    }
  }

  ghost function FirstEos(bb: seq<Bucket>): (n: nat)
    ensures n <= |bb|
  {
    EosFrom(bb, 0)
  }

  /** The data of a brigade before its first EOS. */
  ghost function Whole(bb: seq<Bucket>): seq<byte> {
    Concat(bb, FirstEos(bb))
  }

  lemma {:induction false} ConcatGrows(bb: seq<Bucket>, i: nat, j: nat)
    requires i <= j <= |bb|
    ensures |Concat(bb, i)| <= |Concat(bb, j)| && Concat(bb, j)[..|Concat(bb, i)|] == Concat(bb, i)
  {
    if i < j {
      ConcatGrows(bb, i, j - 1);
    }
  }

  /** The data of bucket i is the stretch of the whole that starts where the buckets before it end. */
  lemma DataAt(bb: seq<Bucket>, i: nat)
    requires i < FirstEos(bb)
    ensures var p, w, d := |Concat(bb, i)|, Whole(bb), DataOf(bb[i]);
            p + |d| == |Concat(bb, i + 1)| <= |w| && w[p..p + |d|] == d
  {
    ConcatGrows(bb, i + 1, FirstEos(bb));
    var p, w, d := |Concat(bb, i)|, Whole(bb), DataOf(bb[i]);
    assert w[..p + |d|] == Concat(bb, i) + d;
    assert w[p..p + |d|] == w[..p + |d|][p..];
  }

  lemma Slices(w: seq<byte>, a: nat, b: nat, c: nat)
    requires a <= b <= c <= |w|
    ensures w[a..b] + w[b..c] == w[a..c]
  {
  }

  lemma SubSlice(w: seq<byte>, p: nat, q: nat, a: nat, b: nat)
    requires p <= q <= |w| && a <= b <= q - p
    ensures w[p..q][a..b] == w[p + a..p + b]
  {
    assert forall i :: 0 <= i < b - a ==> w[p..q][a..b][i] == w[p + a..p + b][i];
  }

  /** Filling the buffer from the front of the next stretch. */
  lemma Fill(w: seq<byte>, start: nat, p: nat, q: nat, n: nat)
    requires start <= p <= q <= |w| && n <= q - p
    ensures w[start..p] + w[p..q][..n] == w[start..p + n]
  {
    SubSlice(w, p, q, 0, n);
    Slices(w, start, p, p + n);
  }

  /**
   * The fields the reader moves: whether bb_in is set and its buckets; the current bucket's
   * index, -1 for the NULL pointer; how far into its data leftover points, and remaining.
   */
  datatype Cursor = Cursor(
    hasIn: bool, bb: seq<Bucket>, bucket: int, off: nat, remaining: nat, seenEos: bool, flush: bool)
  {
    predicate AtEos() {
      0 <= bucket < |bb| && bb[bucket].Eos?
    }

    predicate AtFlush() {
      0 <= bucket < |bb| && bb[bucket].Flush?
    }

    /** No more bytes can be read here: the stream is at EOS, at a FLUSH, or the brigade is used up. */
    predicate Stopped() {
      seenEos || AtFlush() || bb == []
    }

    /** get_bucket: steps to the next bucket; false at the end of the brigade, at EOS and at FLUSH. */
    function Next(): (Cursor, bool)
      requires -1 <= bucket < |bb|
    {
      if !hasIn || bb == [] then (this, false)
      else if bucket + 1 == |bb| then (this.(bucket := -1, bb := []), false)
      else
        var c := this.(bucket := bucket + 1);
        match bb[bucket + 1]
        case Eos => (c.(seenEos := true), false)
        case Flush => (c.(flush := true), false)
        case _ => (c, true)
    }

    /**
     * pos bytes of the brigade `input` have been read. A nonzero leftover is the tail of the
     * current bucket, which is still in the brigade; a brigade that was cleaned up is used up.
     */
    ghost predicate On(input: seq<Bucket>, pos: nat) {
      && -1 <= bucket < |bb|
      && (!hasIn ==> bb == [])
      && (if bb == input then OnInput(pos)
          else bb == [] && remaining == 0 && FirstEos(input) == |input| && pos == |Whole(input)|)
    }

    ghost predicate OnInput(pos: nat)
      requires -1 <= bucket < |bb|
    {
      && bucket <= FirstEos(bb)
      && (remaining > 0 ==> bucket >= 0 && bb[bucket].Data? && off + remaining == |bb[bucket].bytes|)
      && pos + remaining == |Concat(bb, bucket + 1)|
      && (AtEos() ==> seenEos)
    }
  }

  /** A step of the bucket walk that finds another bucket: its data is the next stretch of the whole. */
  lemma NextMore(input: seq<Bucket>, c: Cursor, pos: nat)
    requires c.On(input, pos) && c.remaining == 0 && !c.seenEos && c.Next().1
    ensures c.Next().0 == c.(bucket := c.bucket + 1) && c.bb == input && c.bucket + 1 < |input| && !input[c.bucket + 1].Eos?
    ensures var data := DataOf(input[c.bucket + 1]);
            && pos + |data| <= |Whole(input)| && data == Whole(input)[pos..pos + |data|]
            && c.Next().0.On(input, pos + |data|)
  {
    EosFromIs(input, 0);
    assert c.bucket + 1 < FirstEos(input);
    DataAt(input, c.bucket + 1);
  }

  /** A step that finds none: at EOS, at a FLUSH or at the end, and at EOS and the end all has been read. */
  lemma NextStop(input: seq<Bucket>, c: Cursor, pos: nat)
    requires c.On(input, pos) && c.remaining == 0 && !c.seenEos && !c.Next().1
    ensures var d := c.Next().0;
            && d.On(input, pos) && d.remaining == 0 && d.hasIn == c.hasIn
            && d.Stopped() && d.seenEos == d.AtEos() && d.flush == (c.flush || d.AtFlush())
            && (d.AtEos() || d.bb == [] ==> pos == |Whole(input)|)
  {
    EosFromIs(input, 0);
  }

  /** The leftover is what comes next: it lies in the current bucket, directly after what was read. */
  lemma LeftoverComesNext(input: seq<Bucket>, c: Cursor, pos: nat)
    requires c.On(input, pos) && c.remaining > 0
    ensures c.bb == input && 0 <= c.bucket < |input| && input[c.bucket].Data?
    ensures pos + c.remaining <= |Whole(input)|
    ensures input[c.bucket].bytes[c.off..] == Whole(input)[pos..pos + c.remaining]
  {
    var d, p := input[c.bucket].bytes, |Concat(input, c.bucket)|;
    EosFromIs(input, 0);
    DataAt(input, c.bucket);
    SubSlice(Whole(input), p, p + |d|, c.off, |d|);
  }

  /** The data of the buckets from i on, up to the first EOS. */
  ghost function DataFrom(bb: seq<Bucket>, i: nat): seq<byte>
    decreases |bb| - i
  {
    if i >= |bb| || bb[i].Eos? then [] else DataOf(bb[i]) + DataFrom(bb, i + 1)
  }

  lemma {:induction false} ConcatThenFrom(bb: seq<Bucket>, i: nat)
    requires i <= FirstEos(bb)
    ensures Concat(bb, i) + DataFrom(bb, i) == Whole(bb)
    decreases |bb| - i
  {
    EosFromIs(bb, 0);
    if i < FirstEos(bb) {
      ConcatThenFrom(bb, i + 1);
      assert Concat(bb, i + 1) == Concat(bb, i) + DataOf(bb[i]);
      assert (Concat(bb, i) + DataOf(bb[i])) + DataFrom(bb, i + 1)
          == Concat(bb, i) + (DataOf(bb[i]) + DataFrom(bb, i + 1));
    }
  }

  /** What leftover points to. */
  ghost function Leftover(c: Cursor): seq<byte> {
    if c.remaining > 0 && 0 <= c.bucket < |c.bb| && c.off <= |DataOf(c.bb[c.bucket])|
    then DataOf(c.bb[c.bucket])[c.off..]
    else []
  }

  /** The data in the buckets behind the current one. */
  ghost function Unvisited(c: Cursor): seq<byte> {
    if c.AtEos() || c.bucket < -1 then [] else DataFrom(c.bb, c.bucket + 1)
  }

  /** What has been read, then the leftover, then the unvisited buckets are all there is to read. */
  lemma ReadLeftoverUnvisited(input: seq<Bucket>, c: Cursor, pos: nat)
    requires c.On(input, pos)
    ensures pos <= |Whole(input)|
    ensures Whole(input)[..pos] + Leftover(c) + Unvisited(c) == Whole(input)
  {
    var w := Whole(input);
    EosFromIs(input, 0);
    if c.bb == input {
      var end := if c.AtEos() then c.bucket else c.bucket + 1;
      assert end <= FirstEos(input);
      ConcatThenFrom(input, end);
      assert Concat(input, end) + DataFrom(input, end) == w;
      assert c.AtEos() ==> Concat(input, c.bucket + 1) == Concat(input, c.bucket) + [];
      assert w[..pos + c.remaining] == Concat(input, end);
      if c.remaining > 0 {
        LeftoverComesNext(input, c, pos);
      }
      assert w[..pos] + Leftover(c) == w[..pos + c.remaining];
    } else {
      assert w[..pos] == w;
    }
  }

  datatype ReadResult = Got(bytes: seq<byte>) | Croaked(rc: int)

  /** One turn of the read loop: go on with this buffer, or stop with this answer. */
  datatype Turned = More(buffer: seq<byte>) | Done(r: ReadResult)

  class Reader {
    ghost const input: seq<Bucket>
    var at: Cursor
    ghost var pos: nat

    ghost predicate Valid()
      reads this
    {
      at.On(input, pos) && pos <= |Whole(input)|
    }

    constructor (hasIn: bool, bb: seq<Bucket>)
      requires !hasIn ==> bb == []
      ensures at == Cursor(hasIn, bb, -1, 0, 0, false, false) && input == bb && pos == 0 && Valid()
    {
      at, input, pos := Cursor(hasIn, bb, -1, 0, 0, false, false), bb, 0;
    }

    /**
     * modperl_filter_read: it answers the next stretch of the brigade's data before its first
     * EOS, and fewer bytes than wanted only at FLUSH, at EOS or at the end of the brigade.
     */
    method Read(wanted: nat) returns (r: ReadResult)
      requires Valid()
      modifies this
      ensures Valid() && at.hasIn == old(at.hasIn) && (at.flush ==> old(at.flush) || at.AtFlush())
      ensures old(at.seenEos) ==> r == Got([]) && unchanged(this)
      ensures !old(at.seenEos) ==> Ended(old(pos), wanted, r)
    {
      if at.seenEos {
        return Got([]);
      }
      var buffer := [];
      ghost var start := pos;
      if at.remaining > 0 {
        var n := if at.remaining >= wanted then wanted else at.remaining;
        buffer := Eat(n);
        if n == wanted {
          return Got(buffer);
        }
      }
      r := ReadBuckets(buffer, wanted, start);
    }

    /** Takes n bytes off the leftover. */
    method Eat(n: nat) returns (bytes: seq<byte>)
      requires Valid() && 0 < at.remaining && n <= at.remaining && !at.seenEos
      modifies this
      ensures Valid() && at == old(at).(off := old(at.off) + n, remaining := old(at.remaining) - n)
      ensures pos == old(pos) + n && bytes == Whole(input)[old(pos)..pos]
      ensures !at.AtEos() && (at.bb == [] ==> pos == |Whole(input)|)
    {
      LeftoverComesNext(input, at, pos);
      SubSlice(Whole(input), pos, pos + at.remaining, 0, n);
      bytes := at.bb[at.bucket].bytes[at.off..at.off + n];
      assert bytes == input[at.bucket].bytes[at.off..][..n];
      at, pos := at.(off := at.off + n, remaining := at.remaining - n), pos + n;
    }

    /** At the head of the loop: the buffer is what has been read since start, and there is room. */
    ghost predicate Looping(start: nat, buffer: seq<byte>, wanted: nat)
      reads this
    {
      && Valid() && at.remaining == 0 && !at.seenEos && start <= pos && buffer == Whole(input)[start..pos]
      && (|buffer| < wanted || (buffer == [] && wanted == 0))
    }

    /** What a read that started at start promises of its answer. */
    ghost predicate Ended(start: nat, wanted: nat, r: ReadResult)
      reads this
    {
      && Valid() && at.seenEos == at.AtEos() && (at.AtEos() || at.bb == [] ==> pos == |Whole(input)|)
      && (at.AtFlush() ==> at.flush)
      && match r
         case Got(bytes) =>
           && |bytes| <= wanted && pos == start + |bytes| && bytes == Whole(input)[start..pos]
           && (|bytes| < wanted ==> at.Stopped())
         case Croaked(_) => start <= pos && exists b :: b in input && b.Failing?
    }

    /** The loop of modperl_filter_read, with the leftover already in the buffer. */
    method ReadBuckets(eaten: seq<byte>, wanted: nat, ghost start: nat) returns (r: ReadResult)
      requires Looping(start, eaten, wanted)
      modifies this
      ensures Ended(start, wanted, r) && at.hasIn == old(at.hasIn) && (at.flush ==> old(at.flush) || at.AtFlush())
    {
      var turn := More(eaten);
      while turn.More?
        invariant turn.More? ==> Looping(start, turn.buffer, wanted) && at.flush == old(at.flush)
        invariant turn.Done? ==> Ended(start, wanted, turn.r) && (at.flush ==> old(at.flush) || at.AtFlush())
        invariant at.hasIn == old(at.hasIn)
        decreases turn.More?, |at.bb| - at.bucket
      {
        turn := Turn(turn.buffer, wanted, start);
      }
      r := turn.r;
    }

    method Turn(buffer: seq<byte>, wanted: nat, ghost start: nat) returns (turn: Turned)
      requires Looping(start, buffer, wanted)
      modifies this
      ensures at.hasIn == old(at.hasIn)
      ensures turn.More? ==> Looping(start, turn.buffer, wanted) && at == old(at).(bucket := old(at.bucket) + 1)
      ensures turn.Done? ==> Ended(start, wanted, turn.r) && (at.flush ==> old(at.flush) || at.AtFlush())
    {
      var more := GetBucket();
      if !more {
        return Done(Got(buffer));
      }
      turn := Visit(buffer, wanted, start);
    }

    /** The bucket just found: it cannot be read, it fills the buffer, or there is still room. */
    method Visit(buffer: seq<byte>, wanted: nat, ghost start: nat) returns (turn: Turned)
      requires Valid() && at.remaining == 0 && !at.seenEos && 0 <= at.bucket < |at.bb| && at.bb == input
      requires !at.AtEos() && !at.AtFlush() && start <= pos - |DataOf(at.bb[at.bucket])|
      requires var p := pos - |DataOf(at.bb[at.bucket])|;
               buffer == Whole(input)[start..p] && DataOf(at.bb[at.bucket]) == Whole(input)[p..pos]
      requires |buffer| < wanted || (buffer == [] && wanted == 0)
      modifies this
      ensures at.hasIn == old(at.hasIn) && at.flush == old(at.flush)
      ensures turn.More? ==> Looping(start, turn.buffer, wanted) && at == old(at)
      ensures turn.Done? ==> Ended(start, wanted, turn.r)
    {
      if at.bb[at.bucket].Failing? {
        assert at.bb[at.bucket] in input;
        return Done(Croaked(at.bb[at.bucket].rc));
      }
      var full, out := Absorb(buffer, wanted, start);
      turn := if full then Done(Got(out)) else More(out);
    }

    /** The bucket just visited goes into the buffer, as far as there is room. */
    method Absorb(buffer: seq<byte>, wanted: nat, ghost start: nat) returns (full: bool, out: seq<byte>)
      requires Valid() && at.remaining == 0 && !at.seenEos && 0 <= at.bucket < |at.bb| && at.bb == input && !at.AtEos()
      requires start <= pos - |DataOf(at.bb[at.bucket])|
      requires var p := pos - |DataOf(at.bb[at.bucket])|;
               buffer == Whole(input)[start..p] && DataOf(at.bb[at.bucket]) == Whole(input)[p..pos]
      requires |buffer| < wanted || (buffer == [] && wanted == 0)
      modifies this
      ensures Valid() && start <= pos && out == Whole(input)[start..pos]
      ensures full ==> |out| == wanted && at == old(at).(off := at.off, remaining := at.remaining)
      ensures !full ==> at == old(at) && (|out| < wanted || (out == [] && wanted == 0))
    {
      var data := DataOf(at.bb[at.bucket]);
      Slices(Whole(input), start, pos - |data|, pos);
      if data != [] && |buffer| + |data| >= wanted {
        var nibble := wanted - |buffer|;
        Fill(Whole(input), start, pos - |data|, pos, nibble);
        Keep(nibble);
        return true, buffer + data[..nibble];
      }
      full, out := false, buffer + data;
    }

    method GetBucket() returns (more: bool)
      requires Valid() && at.remaining == 0 && !at.seenEos
      modifies this
      ensures Valid() && at.remaining == 0
      ensures more ==>
                && at == old(at).(bucket := old(at.bucket) + 1) && 0 <= at.bucket < |at.bb| && at.bb == input
                && !at.AtEos() && !at.AtFlush()
                && pos == old(pos) + |DataOf(at.bb[at.bucket])| && DataOf(at.bb[at.bucket]) == Whole(input)[old(pos)..pos]
      ensures !more ==>
                && pos == old(pos) && at.hasIn == old(at.hasIn) && at.Stopped() && at.seenEos == at.AtEos()
                && at.flush == (old(at.flush) || at.AtFlush())
                && (at.AtEos() || at.bb == [] ==> pos == |Whole(input)|)
    {
      var step := at.Next();
      more := step.1;
      if more {
        NextMore(input, at, pos);
        pos := pos + |DataOf(input[at.bucket + 1])|;
      } else {
        NextStop(input, at, pos);
      }
      at := step.0;
    }

    /** All but the first n bytes of the bucket just read become the leftover. */
    method Keep(n: nat)
      requires Valid() && at.remaining == 0 && !at.seenEos && 0 <= at.bucket < |at.bb| && at.bb != []
      requires n <= |DataOf(at.bb[at.bucket])| <= pos && DataOf(at.bb[at.bucket]) != [] && at.bb == input
      modifies this
      ensures Valid() && pos == old(pos) - at.remaining
      ensures at == old(at).(off := n, remaining := |DataOf(old(at).bb[old(at).bucket])| - n)
    {
      var rest := |DataOf(at.bb[at.bucket])| - n;
      at, pos := at.(off := n, remaining := rest), pos - rest;
    }
  }

  /**
   * Any sequence of reads of a brigade answers a prefix of its data before the first EOS, in
   * order. They end early only at a bucket that cannot be read, and otherwise the rest of that
   * data is still to come.
   */
  method RunReads(bb: seq<Bucket>, wants: seq<nat>) returns (bytes: seq<byte>, rd: Reader, croaked: bool)
    ensures rd.Valid() && rd.input == bb && bytes <= Whole(bb)
    ensures !croaked ==> bytes == Whole(bb)[..rd.pos]
    ensures croaked ==> exists i :: 0 <= i < |bb| && bb[i].Failing?
  {
    rd := new Reader(true, bb);
    bytes, croaked := [], false;
    for i := 0 to |wants|
      invariant rd.Valid() && fresh(rd) && rd.input == bb && bytes == Whole(bb)[..rd.pos]
      invariant rd.at.seenEos ==> rd.pos == |Whole(bb)|
    {
      ghost var p := rd.pos;
      var r := rd.Read(wants[i]);
      match r
      case Got(more) =>
        assert Whole(bb)[..rd.pos] == Whole(bb)[..p] + Whole(bb)[p..rd.pos];
        bytes := bytes + more;
      case Croaked(_) =>
        croaked := true;
        return;
    }
  }
}
