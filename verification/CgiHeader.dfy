/** Bucket brigades, as far as mod_perl's filters see them. */
module Brigades {
  type byte = b: int | 0 <= b < 256

  /** Failing is a bucket whose apr_bucket_read returns the status rc instead of data. */
  datatype Bucket = Data(bytes: seq<byte>) | Failing(rc: int) | Flush | Eos

  const APR_SUCCESS := 0

  /** What mod_perl hands to the next filter: its own brigades, or one it was given, passed through. */
  datatype Passed = Chunk(bytes: seq<byte>, flush: bool) | FlushOnly | GeneratedEos | Through(bb: seq<Bucket>)

  /** The bytes mod_perl itself has written, oldest first. */
  function Written(log: seq<Passed>): seq<byte> {
    if log == [] then []
    else
      var p := log[|log| - 1];
      Written(log[..|log| - 1]) + if p.Chunk? then p.bytes else []
  }

  lemma WrittenSnoc(log: seq<Passed>, p: Passed)
    ensures Written(log + [p]) == Written(log) + if p.Chunk? then p.bytes else []
  {
    assert (log + [p])[..|log|] == log;
  }

  /** The next filter: it takes every brigade, and answers the k-th with the k-th verdict. */
  class Downstream {
    const verdict: nat -> int
    var log: seq<Passed>

    constructor (verdict: nat -> int)
      ensures this.verdict == verdict && log == []
    {
      this.verdict, log := verdict, [];
    }

    /** ap_pass_brigade. */
    method Pass(p: Passed) returns (rc: int)
      modifies this
      ensures log == old(log) + [p] && rc == verdict(|old(log)|)
      ensures Written(log) == Written(old(log)) + if p.Chunk? then p.bytes else []
    {
      WrittenSnoc(log, p);
      log, rc := log + [p], verdict(|log|);
    }
  }
}

/** modperl_cgi.c: cutting the CGI header block off the first chunk of a response. */
module CgiHeader {
  import opened Brigades

  const CR: byte := 13
  const LF: byte := 10

  /** A line feed at j, and nothing but carriage returns behind it. */
  ghost predicate NewlineAt(s: seq<byte>, j: int) {
    0 <= j < |s| && s[j] == LF && forall i :: j < i < |s| ==> s[i] == CR
  }

  ghost predicate HasNewline(s: seq<byte>) {
    exists j :: NewlineAt(s, j)
  }

  /** s ends in LF CR* LF: its last line is blank (section 6.2 of RFC 3875). */
  ghost predicate EndsHeader(s: seq<byte>) {
    s != [] && s[|s| - 1] == LF && HasNewline(s[..|s| - 1])
  }

  /** n cuts the buffer after its shortest header block, or at its end when it has none. */
  ghost predicate IsCut(buffer: seq<byte>, n: nat) {
    && n <= |buffer|
    && (EndsHeader(buffer[..n]) || n == |buffer|)
    && forall m :: 0 <= m < n ==> !EndsHeader(buffer[..m])
  }

  /** The line feeds in the run of CR and LF that s ends with. */
  ghost function Newlines(s: seq<byte>): nat {
    if s == [] then 0
    else
      var c := s[|s| - 1];
      if c == LF then Newlines(s[..|s| - 1]) + 1
      else if c == CR then Newlines(s[..|s| - 1])
      else 0
  }

  /** The counter has not been reset since a line feed with only carriage returns behind it. */
  lemma {:induction false} NewlinesCount(s: seq<byte>)
    ensures Newlines(s) == 1 ==> HasNewline(s)
    ensures Newlines(s) == 0 ==> !HasNewline(s)
  {
    if s != [] {
      var t, c := s[..|s| - 1], s[|s| - 1];
      NewlinesCount(t);
      if c == LF {
        assert NewlineAt(s, |s| - 1);
      } else if c == CR && Newlines(t) == 1 {
        var j :| NewlineAt(t, j);
        assert NewlineAt(s, j);
      } else {
        forall j | NewlineAt(s, j)
          ensures NewlineAt(t, j) && c == CR
        {
        }
      }
    }
  }

  /** The scanner's counter reaches two exactly where a header block ends. */
  lemma SecondNewline(s: seq<byte>)
    requires s != [] && Newlines(s[..|s| - 1]) < 2
    ensures Newlines(s) >= 2 <==> EndsHeader(s)
  {
    NewlinesCount(s[..|s| - 1]);
  }

  /** The scanning loop of modperl_cgi_header_parse; the body is what lies behind the cut. */
  method HeaderScan(buffer: seq<byte>) returns (n: nat)
    ensures IsCut(buffer, n)
  {
    var newln := 0;
    n := 0;
    while n < |buffer|
      invariant 0 <= n <= |buffer| && newln == Newlines(buffer[..n]) < 2
      invariant forall m :: 0 <= m <= n ==> !EndsHeader(buffer[..m])
    {
      assert buffer[..n + 1][..n] == buffer[..n];
      SecondNewline(buffer[..n + 1]);
      if buffer[n] != CR && buffer[n] != LF {
        newln := 0;
      }
      if buffer[n] == LF {
        newln := newln + 1;
      }
      n := n + 1;
      if newln == 2 {
        break;
      }
    }
  }

  /** There is only one such cut. */
  lemma CutIsUnique(buffer: seq<byte>, m: nat, n: nat)
    requires IsCut(buffer, m) && IsCut(buffer, n)
    ensures m == n
  {
    if m < n {
      assert false;
    } else if n < m {
      assert false;
    }
  }
}
