/** The symbols of modperl_mgv.c as linked nodes, each operation proved against MgvSpec. */
module Mgv {
  import MgvSpec

  class Symbol {
    var named: bool
    var name: string
    var len: nat
    var hash: nat
    var next: Symbol?

    /** modperl_mgv_new: all zero. */
    constructor ()
      ensures !named && name == "" && len == 0 && hash == 0 && next == null
    {
      named, name, len, hash, next := false, "", 0, 0, null;
    }

    ghost predicate Filled(perlHash: string -> nat)
      reads this
    {
      named && len == |name| && hash == perlHash(name)
    }

    method Fill(text: string, perlHash: string -> nat)
      modifies this`named, this`name, this`len, this`hash
      ensures Filled(perlHash) && name == text
    {
      named, name, len := true, text, |text|;
      hash := perlHash(name);
    }
  }

  ghost function At(nodes: seq<Symbol>, i: int): Symbol? {
    if 0 <= i < |nodes| then nodes[i] else null
  }

  ghost predicate Linked(nodes: seq<Symbol>)
    reads set n | n in nodes
  {
    && nodes != []
    && (forall i, j :: 0 <= i < j < |nodes| ==> nodes[i] != nodes[j])
    && forall i :: 0 <= i < |nodes| ==> nodes[i].next == At(nodes, i + 1)
  }

  /** A symbol whose segments are these. */
  ghost predicate Spells(nodes: seq<Symbol>, segs: seq<string>, perlHash: string -> nat)
    reads set n | n in nodes
  {
    && |nodes| == |segs|
    && forall i :: 0 <= i < |nodes| ==> nodes[i].Filled(perlHash) && nodes[i].name == segs[i]
  }

  /** A symbol being built: nothing in it yet, or these segments. */
  ghost predicate Building(nodes: seq<Symbol>, mgv: Symbol, segs: seq<string>,
                           perlHash: string -> nat)
    reads mgv, set n | n in nodes
  {
    && Linked(nodes) && mgv == nodes[|nodes| - 1]
    && if mgv.named then Spells(nodes, segs, perlHash) else |nodes| == 1 && segs == []
  }

  /** modperl_mgv_get_next: the current node, or a new one behind it if it is taken. */
  method GetNext(mgv: Symbol, perlHash: string -> nat,
                 ghost nodes: seq<Symbol>, ghost segs: seq<string>)
    returns (last: Symbol, ghost more: seq<Symbol>)
    requires Building(nodes, mgv, segs, perlHash)
    modifies mgv`next
    ensures Linked(more) && |more| == |segs| + 1 && last == more[|segs|]
    ensures forall i :: 0 <= i < |segs| ==> more[i].Filled(perlHash) && more[i].name == segs[i]
    ensures |more| >= |nodes| && more[0] == nodes[0]
    ensures forall k :: 0 <= k < |more| ==> (k < |nodes| && more[k] == nodes[k]) || fresh(more[k])
  {
    last, more := mgv, nodes;
    if mgv.named {
      last, more := AddNode(mgv, nodes);
    }
  }

  method AddNode(mgv: Symbol, ghost nodes: seq<Symbol>) returns (last: Symbol, ghost more: seq<Symbol>)
    requires Linked(nodes) && mgv == nodes[|nodes| - 1]
    modifies mgv`next
    ensures Linked(more) && |more| == |nodes| + 1 && last == more[|nodes|] && fresh(last)
    ensures forall k :: 0 <= k < |nodes| ==> more[k] == nodes[k]
  {
    last := new Symbol();
    mgv.next := last;
    more := nodes + [last];
  }

  /** The next segment of a symbol being built. */
  method Put(mgv: Symbol, text: string, perlHash: string -> nat,
             ghost nodes: seq<Symbol>, ghost segs: seq<string>)
    returns (last: Symbol, ghost more: seq<Symbol>)
    requires Building(nodes, mgv, segs, perlHash)
    modifies mgv
    ensures Building(more, last, segs + [text], perlHash) && last.named
    ensures |more| >= |nodes| && more[0] == nodes[0]
    ensures forall k :: 0 <= k < |more| ==> (k < |nodes| && more[k] == nodes[k]) || fresh(more[k])
  {
    last, more := GetNext(mgv, perlHash, nodes, segs);
    last.Fill(text, perlHash);
  }

  /** Where the segment that the scan is in at position i starts. */
  ghost function Start(name: string, i: nat): (start: nat)
    requires i <= |name|
    ensures start <= |name|
  {
    if i == 0 then 0 else if MgvSpec.SepAt(name, i - 1) then i + 1 else Start(name, i - 1)
  }

  /** The segments cut off before position i. */
  ghost function Done(name: string, i: nat): seq<string>
    requires i <= |name|
  {
    if i == 0 then []
    else if MgvSpec.SepAt(name, i - 1) && Start(name, i - 1) < i - 1 then
      Done(name, i - 1) + [name[Start(name, i - 1)..i - 1] + "::"]
    else Done(name, i - 1)
  }

  lemma {:induction false} DoneThenScan(name: string, i: nat)
    requires i <= |name|
    ensures Done(name, i) + MgvSpec.Scan(name, Start(name, i), i) == MgvSpec.Compile(name)
  {
    if i > 0 {
      DoneThenScan(name, i - 1);
      if MgvSpec.SepAt(name, i - 1) {
        MgvSpec.ScanAtSep(name, Start(name, i - 1), i - 1);
      }
    }
  }

  /** One turn of the loop of modperl_mgv_compile. */
  method Turn(mgv: Symbol, name: string, start: nat, namend: nat, perlHash: string -> nat,
              ghost nodes: seq<Symbol>)
    returns (last: Symbol, start': nat, ghost more: seq<Symbol>)
    requires namend < |name| && start == Start(name, namend)
    requires Building(nodes, mgv, Done(name, namend), perlHash)
    modifies mgv
    ensures start' == Start(name, namend + 1)
    ensures Building(more, last, Done(name, namend + 1), perlHash)
    ensures |more| >= |nodes| && more[0] == nodes[0]
    ensures forall k :: 0 <= k < |more| ==> (k < |nodes| && more[k] == nodes[k]) || fresh(more[k])
  {
    last, start', more := mgv, start, nodes;
    if name[namend] == ':' && namend + 1 < |name| && name[namend + 1] == ':' {
      if namend - start > 0 {
        last, more := Put(mgv, name[start..namend] + "::", perlHash, nodes, Done(name, namend));
      }
      start' := namend + 2;
    }
  }

  /** modperl_mgv_compile. */
  method Compile(name: string, perlHash: string -> nat)
    returns (symbol: Symbol, ghost nodes: seq<Symbol>)
    ensures Linked(nodes) && symbol == nodes[0]
    ensures Spells(nodes, MgvSpec.Compile(name), perlHash)
    ensures forall k :: 0 <= k < |nodes| ==> fresh(nodes[k])
  {
    symbol := new Symbol();
    nodes := [symbol];
    var mgv := symbol;
    var start, namend := 0, 0;
    while namend < |name|
      invariant namend <= |name| && start == Start(name, namend)
      invariant Building(nodes, mgv, Done(name, namend), perlHash) && symbol == nodes[0]
      invariant forall k :: 0 <= k < |nodes| ==> fresh(nodes[k])
    {
      mgv, start, nodes := Turn(mgv, name, start, namend, perlHash, nodes);
      namend := namend + 1;
    }
    DoneThenScan(name, namend);
    mgv, nodes := Put(mgv, name[start..], perlHash, nodes, Done(name, namend));
  }

  /** mgv->next = tail. */
  method Link(mgv: Symbol, first: Symbol, ghost nodes: seq<Symbol>, ghost tail: seq<Symbol>)
    requires Linked(nodes) && mgv == nodes[|nodes| - 1] && Linked(tail) && first == tail[0]
    requires forall i, j :: 0 <= i < |nodes| && 0 <= j < |tail| ==> nodes[i] != tail[j]
    modifies mgv`next
    ensures Linked(nodes + tail)
  {
    mgv.next := first;
  }

  lemma SpellsConcat(nodes: seq<Symbol>, segs: seq<string>, tail: seq<Symbol>,
                     more: seq<string>, perlHash: string -> nat)
    requires Spells(nodes, segs, perlHash) && Spells(tail, more, perlHash)
    ensures Spells(nodes + tail, segs + more, perlHash)
  {
  }

  /** The last segment of a symbol becomes a package. */
  method MakePackage(symbol: Symbol, perlHash: string -> nat,
                     ghost nodes: seq<Symbol>, ghost segs: seq<string>)
    returns (mgv: Symbol)
    requires Linked(nodes) && symbol == nodes[0] && Spells(nodes, segs, perlHash)
    modifies nodes[|nodes| - 1]
    ensures Linked(nodes) && mgv == nodes[|nodes| - 1]
    ensures Spells(nodes, MgvSpec.Packaged(segs), perlHash)
  {
    mgv := symbol;
    ghost var at := 0;
    while mgv.next != null
      invariant 0 <= at < |nodes| && mgv == nodes[at]
      decreases |nodes| - at
    {
      mgv := mgv.next;
      at := at + 1;
    }
    mgv.name := mgv.name + "::";
    mgv.len := mgv.len + 2;
    mgv.hash := perlHash(mgv.name);
  }

  /** modperl_mgv_append. */
  method Append(symbol: Symbol, name: string, perlHash: string -> nat,
                ghost nodes: seq<Symbol>, ghost segs: seq<string>)
    returns (ghost all: seq<Symbol>)
    requires Linked(nodes) && symbol == nodes[0] && Spells(nodes, segs, perlHash)
    modifies nodes[|nodes| - 1]
    ensures Linked(all) && nodes <= all
    ensures Spells(all, MgvSpec.Append(segs, name), perlHash)
  {
    var mgv := MakePackage(symbol, perlHash, nodes, segs);
    var first, tail := Compile(name, perlHash);
    Link(mgv, first, nodes, tail);
    all := nodes + tail;
    SpellsConcat(nodes, MgvSpec.Packaged(segs), tail, MgvSpec.Compile(name), perlHash);
  }

  /** modperl_mgv_equal. */
  method Equal(symbol1: Symbol, symbol2: Symbol, perlHash: string -> nat,
               ghost nodes1: seq<Symbol>, ghost segs1: seq<string>,
               ghost nodes2: seq<Symbol>, ghost segs2: seq<string>)
    returns (r: bool)
    requires Linked(nodes1) && symbol1 == nodes1[0] && Spells(nodes1, segs1, perlHash)
    requires Linked(nodes2) && symbol2 == nodes2[0] && Spells(nodes2, segs2, perlHash)
    ensures r == MgvSpec.EqualUpToShorter(segs1, segs2)
  {
    var mgv1: Symbol?, mgv2: Symbol? := symbol1, symbol2;
    ghost var at := 0;
    while mgv1 != null && mgv2 != null
      invariant 0 <= at <= |nodes1| && at <= |nodes2|
      invariant mgv1 == At(nodes1, at) && mgv2 == At(nodes2, at)
      invariant forall i :: 0 <= i < at ==> segs1[i] == segs2[i]
      decreases |nodes1| - at
    {
      if mgv1.hash != mgv2.hash || mgv1.len != mgv2.len || mgv1.name != mgv2.name {
        assert segs1[at] != segs2[at];
        return false;
      }
      mgv1, mgv2 := mgv1.next, mgv2.next;
      at := at + 1;
    }
    return true;
  }

  /** How many nodes modperl_mgv_as_string prints. */
  ghost function Printed(segs: seq<string>, package: bool): nat
    requires segs != []
  {
    if package then |segs| - 1 else |segs|
  }

  /** What the first k segments print as. */
  ghost function Text(segs: seq<string>, k: nat): string
    requires k <= |segs|
  {
    if k == 0 then "" else Text(segs, k - 1) + segs[k - 1]
  }

  lemma {:induction false} TextIsJoin(segs: seq<string>, k: nat)
    requires k <= |segs|
    ensures Text(segs, k) == MgvSpec.Join(segs[..k])
  {
    if k > 0 {
      TextIsJoin(segs, k - 1);
      MgvSpec.JoinSnoc(segs[..k - 1], segs[k - 1]);
      assert segs[..k] == segs[..k - 1] + [segs[k - 1]];
    }
  }

  lemma {:induction false} TextGrows(segs: seq<string>, j: nat, k: nat)
    requires j <= k <= |segs|
    ensures |Text(segs, j)| <= |Text(segs, k)|
  {
    if j < k {
      TextGrows(segs, j, k - 1);
    }
  }

  /** The first loop of modperl_mgv_as_string. */
  method Length(symbol: Symbol, package: bool, perlHash: string -> nat,
                ghost nodes: seq<Symbol>, ghost segs: seq<string>)
    returns (len: nat)
    requires Linked(nodes) && symbol == nodes[0] && Spells(nodes, segs, perlHash)
    ensures len == |Text(segs, Printed(segs, package))|
  {
    var mgv: Symbol? := symbol;
    len := 0;
    ghost var at := 0;
    while mgv != null && (!package || mgv.next != null)
      invariant 0 <= at <= Printed(segs, package) && mgv == At(nodes, at)
      invariant len == |Text(segs, at)|
      decreases |nodes| - at
    {
      len := len + mgv.len;
      mgv := mgv.next;
      at := at + 1;
    }
  }

  /** Copy: the whole of text at ptr, and nothing else. */
  method CopyAt(buffer: array<char>, ptr: nat, text: string, ghost before: string)
    requires ptr + |text| <= buffer.Length && buffer[..ptr] == before
    modifies buffer
    ensures buffer[..ptr + |text|] == before + text
  {
    forall k | 0 <= k < |text| {
      buffer[ptr + k] := text[k];
    }
    assert buffer[..ptr] == old(buffer[..ptr]);
    assert buffer[..ptr + |text|] == buffer[..ptr] + buffer[ptr..ptr + |text|];
  }

  /** The second loop of modperl_mgv_as_string. */
  method CopyNames(symbol: Symbol, package: bool, text: array<char>, perlHash: string -> nat,
                   ghost nodes: seq<Symbol>, ghost segs: seq<string>)
    returns (ptr: nat)
    requires Linked(nodes) && symbol == nodes[0] && Spells(nodes, segs, perlHash)
    requires text.Length == |Text(segs, Printed(segs, package))| + 1
    modifies text
    ensures ptr == text.Length - 1 && text[..ptr] == Text(segs, Printed(segs, package))
  {
    ptr := 0;
    var mgv: Symbol? := symbol;
    ghost var at := 0;
    while mgv != null && (!package || mgv.next != null)
      invariant 0 <= at <= Printed(segs, package) && mgv == At(nodes, at)
      invariant ptr == |Text(segs, at)| < text.Length && text[..ptr] == Text(segs, at)
      decreases |nodes| - at
    {
      TextGrows(segs, at + 1, Printed(segs, package));
      assert mgv.name[..mgv.len] == segs[at];
      CopyAt(text, ptr, mgv.name[..mgv.len], Text(segs, at));
      ptr := ptr + mgv.len;
      mgv := mgv.next;
      at := at + 1;
    }
  }

  /**
   * modperl_mgv_as_string: the text ends at the terminator, which package mode puts over the
   * last separator. Where there is none the index is negative, and the program writes in front
   * of its buffer; here nothing is written then.
   */
  method AsString(symbol: Symbol, package: bool, perlHash: string -> nat,
                  ghost nodes: seq<Symbol>, ghost segs: seq<string>)
    returns (text: array<char>, end: int)
    requires Linked(nodes) && symbol == nodes[0] && Spells(nodes, segs, perlHash)
    ensures fresh(text) && end == MgvSpec.TerminatorAt(segs, package) && end < text.Length
    ensures 0 <= end ==> text[end] == '\0'
    ensures 0 <= end && !package ==> text[..end] == MgvSpec.Join(segs)
    ensures 0 <= end && package ==> |segs| > 1 && text[..end] == MgvSpec.PackageString(segs)
  {
    var len := Length(symbol, package, perlHash, nodes, segs);
    text := new char[len + 1];
    var ptr := CopyNames(symbol, package, text, perlHash, nodes, segs);
    TextIsJoin(segs, Printed(segs, package));
    assert segs[..|segs|] == segs;
    end := ptr;
    if package {
      end := end - 2;
    }
    if 0 <= end {
      text[end] := '\0';
    }
  }

  /**
   * The package of a handler named by a string, as modperl_mgv_require_module and the filter
   * setup ask for it: there is one to print exactly if some '::' lies behind something else.
   */
  method PackageOf(name: string, perlHash: string -> nat) returns (text: array<char>, end: int)
    ensures 0 <= end <==> MgvSpec.HasPackage(name)
    ensures 0 <= end ==> end < text.Length && |MgvSpec.Compile(name)| > 1
                         && |MgvSpec.Join(MgvSpec.Compile(name)[..|MgvSpec.Compile(name)| - 1])| >= 2
                         && text[..end] == MgvSpec.PackageString(MgvSpec.Compile(name))
    ensures end < 0 ==> end == -2
  {
    var symbol, nodes := Compile(name, perlHash);
    MgvSpec.TerminatorInside(name);
    text, end := AsString(symbol, true, perlHash, nodes, MgvSpec.Compile(name));
  }
}
