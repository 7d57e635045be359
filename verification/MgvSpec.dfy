/** How modperl_mgv.c cuts a Perl symbol name at its '::' separators, as a value. */
module MgvSpec {

  predicate SepAt(s: string, i: int) {
    0 <= i && i + 1 < |s| && s[i] == ':' && s[i + 1] == ':'
  }

  /**
   * modperl_mgv_compile from the state where the current segment starts at `start` and the
   * scan stands at i. After a separator the scan moves on by one character only, so it looks
   * at the separator's second colon too, with the next segment starting behind it.
   */
  function Scan(name: string, start: nat, i: nat): (segs: seq<string>)
    requires start <= |name| && i <= |name|
    ensures segs != []
    decreases |name| - i
  {
    if i == |name| then [name[start..]]
    else if SepAt(name, i) then
      (if i > start then [name[start..i] + "::"] else []) + Scan(name, i + 2, i + 1)
    else Scan(name, start, i + 1)
  }

  /** One step of the scan at a separator. */
  lemma ScanAtSep(name: string, start: nat, i: nat)
    requires start <= |name| && SepAt(name, i)
    ensures i > start ==> Scan(name, start, i) == [name[start..i] + "::"] + Scan(name, i + 2, i + 1)
    ensures i <= start ==> Scan(name, start, i) == Scan(name, i + 2, i + 1)
  {
  }

  function Compile(name: string): (segs: seq<string>)
    ensures segs != []
  {
    Scan(name, 0, 0)
  }

  /** modperl_mgv_as_string of a whole symbol. */
  function Join(segs: seq<string>): string {
    if segs == [] then "" else segs[0] + Join(segs[1..])
  }

  /** The last segment turned into a package. */
  function Packaged(segs: seq<string>): seq<string>
    requires segs != []
  {
    segs[..|segs| - 1] + [segs[|segs| - 1] + "::"]
  }

  /** modperl_mgv_append: the last segment becomes a package, and the name's segments follow. */
  function Append(segs: seq<string>, name: string): seq<string>
    requires segs != []
  {
    Packaged(segs) + Compile(name)
  }

  /** modperl_mgv_equal compares up to the end of the shorter list only. */
  ghost predicate EqualUpToShorter(a: seq<string>, b: seq<string>) {
    forall i :: 0 <= i < |a| && i < |b| ==> a[i] == b[i]
  }

  // ----- the round trip -----

  /** Three colons in a row. */
  ghost predicate TripleFrom(s: string, i: int) {
    exists j :: i <= j && SepAt(s, j) && SepAt(s, j + 1)
  }

  /** Names that begin with '::' or have three colons in a row lose colons. */
  ghost predicate Clean(s: string) {
    !SepAt(s, 0) && !TripleFrom(s, 0)
  }

  lemma TripleStep(s: string, i: int)
    ensures TripleFrom(s, i) <==> (SepAt(s, i) && SepAt(s, i + 1)) || TripleFrom(s, i + 1)
  {
    if TripleFrom(s, i) && !(SepAt(s, i) && SepAt(s, i + 1)) {
      var j :| i <= j && SepAt(s, j) && SepAt(s, j + 1);
      assert i + 1 <= j;
    }
  }

  lemma JoinCons(x: string, segs: seq<string>)
    ensures Join([x] + segs) == x + Join(segs)
  {
    assert ([x] + segs)[1..] == segs;
  }

  /** In the middle of a segment: nothing is lost exactly if nothing lies ahead to be lost. */
  ghost predicate Keeps(name: string, start: nat, i: nat) {
    if start <= i then !TripleFrom(name, i) && !(start == i && SepAt(name, i))
    else !TripleFrom(name, i) && !SepAt(name, i)
  }

  /** The scanner's states: within a segment, or on the second colon of a separator just seen. */
  predicate Reached(name: string, start: nat, i: nat) {
    start <= i || (start == i + 1 && i < |name| && name[i] == ':')
  }

  /** Emitting a segment and its separator gives back that stretch of the name. */
  lemma JoinCut(name: string, start: nat, i: nat, rest: seq<string>)
    requires start <= i && SepAt(name, i)
    ensures Join([name[start..i] + "::"] + rest) == name[start..i + 2] + Join(rest)
  {
    JoinCons(name[start..i] + "::", rest);
    assert name[start..i] + "::" == name[start..i + 2];
  }

  lemma KeepsStep(name: string, start: nat, i: nat)
    requires start <= |name| && i <= |name| && Reached(name, start, i)
    ensures i == |name| ==> Keeps(name, start, i)
    ensures SepAt(name, i) && start >= i ==> !Keeps(name, start, i)
    ensures SepAt(name, i) && start < i ==> Keeps(name, start, i) == Keeps(name, i + 2, i + 1)
    ensures !SepAt(name, i) ==> Keeps(name, start, i) == Keeps(name, start, i + 1)
  {
    TripleStep(name, i);
  }

  lemma {:induction false} ScanJoin(name: string, start: nat, i: nat)
    requires start <= |name| && i <= |name| && Reached(name, start, i)
    ensures var back := Join(Scan(name, start, i));
            if Keeps(name, start, i) then back == name[start..] else |back| < |name| - start
    decreases |name| - i
  {
    KeepsStep(name, start, i);
    if i == |name| {
      JoinCons(name[start..], []);
    } else if SepAt(name, i) {
      ScanAtSep(name, start, i);
      ScanJoin(name, i + 2, i + 1);
      if i > start {
        JoinCut(name, start, i, Scan(name, i + 2, i + 1));
        assert name[start..] == name[start..i + 2] + name[i + 2..];
      }
    } else {
      ScanJoin(name, start, i + 1);
    }
  }

  /** Printing a compiled name gives the name back exactly when it is clean. */
  lemma PrintIsInverse(name: string)
    ensures Join(Compile(name)) == name <==> Clean(name)
  {
    ScanJoin(name, 0, 0);
  }

  // ----- equality -----

  /** A package segment: some text, then the one separator in it. */
  ghost predicate Package(seg: string) {
    |seg| > 2 && SepAt(seg, |seg| - 2) && forall k :: k < |seg| - 2 ==> !SepAt(seg, k)
  }

  ghost predicate NoSep(seg: string) {
    forall k :: !SepAt(seg, k)
  }

  /** What a compiled name looks like: packages, and behind them a name without separator. */
  ghost predicate Shaped(segs: seq<string>) {
    && segs != []
    && NoSep(segs[|segs| - 1])
    && forall k :: 0 <= k < |segs| - 1 ==> Package(segs[k])
  }

  /** No segment but the first begins with a colon. */
  ghost predicate CutBehindColons(segs: seq<string>) {
    forall k :: 0 < k < |segs| && segs[k] != "" ==> segs[k][0] != ':'
  }

  lemma CutIsPackage(name: string, start: nat, i: nat)
    requires start < i && SepAt(name, i)
    requires forall k :: start <= k < i ==> !SepAt(name, k)
    ensures Package(name[start..i] + "::")
  {
    var seg := name[start..i] + "::";
    assert seg == name[start..i + 2];
    forall k | k < |seg| - 2 ensures !SepAt(seg, k) {
      assert k >= 0 ==> !SepAt(name, start + k);
    }
  }

  lemma ShapedCons(seg: string, segs: seq<string>)
    requires Package(seg) && Shaped(segs)
    ensures Shaped([seg] + segs)
  {
    var all := [seg] + segs;
    forall k | 0 <= k < |all| - 1 ensures Package(all[k]) {
      assert k > 0 ==> all[k] == segs[k - 1];
    }
  }

  lemma {:induction false} ScanShaped(name: string, start: nat, i: nat)
    requires start <= |name| && i <= |name| && Reached(name, start, i)
    requires forall k :: start <= k < i ==> !SepAt(name, k)
    ensures Shaped(Scan(name, start, i))
    decreases |name| - i
  {
    if i == |name| {
      forall k ensures !SepAt(name[start..], k) {
        assert k >= 0 ==> !SepAt(name, start + k);
      }
    } else if SepAt(name, i) {
      ScanAtSep(name, start, i);
      ScanShaped(name, i + 2, i + 1);
      if i > start {
        CutIsPackage(name, start, i);
        ShapedCons(name[start..i] + "::", Scan(name, i + 2, i + 1));
      }
    } else {
      ScanShaped(name, start, i + 1);
    }
  }

  /** A segment that follows a separator starts behind all the colons there are. */
  lemma {:induction false} ScanBehindColons(name: string, start: nat, i: nat)
    requires start <= |name| && i <= |name| && Reached(name, start, i)
    ensures CutBehindColons(Scan(name, start, i))
    ensures (start <= i && start < |name| && name[start] != ':') || start == |name| || start > i
            ==> var first := Scan(name, start, i)[0]; first != "" ==> first[0] != ':'
    decreases |name| - i
  {
    if i == |name| {
    } else if SepAt(name, i) {
      ScanBehindColons(name, i + 2, i + 1);
    } else {
      ScanBehindColons(name, start, i + 1);
    }
  }

  lemma CompileShaped(name: string)
    ensures Shaped(Compile(name)) && CutBehindColons(Compile(name))
  {
    ScanShaped(name, 0, 0);
    ScanBehindColons(name, 0, 0);
  }

  /** Of two shaped lists neither is a beginning of the other: a last name is no package. */
  lemma ShapedPrefixFree(a: seq<string>, b: seq<string>)
    requires Shaped(a) && Shaped(b)
    ensures EqualUpToShorter(a, b) <==> a == b
  {
    if |a| < |b| {
      assert Package(b[|a| - 1]) && NoSep(a[|a| - 1]);
    } else if |b| < |a| {
      assert Package(a[|b| - 1]) && NoSep(b[|b| - 1]);
    }
  }

  /** The first separator of the printed list ends the first package. */
  lemma FirstSeparator(segs: seq<string>)
    requires Shaped(segs)
    ensures |segs| == 1 ==> Join(segs) == segs[0] && NoSep(Join(segs))
    ensures |segs| > 1 ==> Join(segs) == segs[0] + Join(segs[1..]) && SepAt(Join(segs), |segs[0]| - 2)
    ensures |segs| > 1 ==> forall k :: k < |segs[0]| - 2 ==> !SepAt(Join(segs), k)
  {
    if |segs| == 1 {
      assert segs == [segs[0]] + [];
      JoinCons(segs[0], []);
    } else {
      assert Package(segs[0]);
      forall k | k < |segs[0]| - 2 ensures !SepAt(Join(segs), k) {
        assert !SepAt(segs[0], k);
      }
    }
  }

  /** A shaped list can be read off its printed form. */
  lemma {:induction false} JoinInjective(a: seq<string>, b: seq<string>)
    requires Shaped(a) && Shaped(b) && Join(a) == Join(b)
    ensures a == b
  {
    FirstSeparator(a);
    FirstSeparator(b);
    if |a| > 1 && |b| > 1 {
      assert |a[0]| == |b[0]|;
      assert a[0] == Join(a)[..|a[0]|] == Join(b)[..|b[0]|] == b[0];
      assert Join(a[1..]) == Join(a)[|a[0]|..] == Join(b)[|b[0]|..] == Join(b[1..]);
      JoinInjective(a[1..], b[1..]);
      assert a == [a[0]] + a[1..] && b == [b[0]] + b[1..];
    }
  }

  /**
   * modperl_mgv_equal on compiled names, although it stops at the shorter list: it holds exactly
   * if both print the same, and so for clean names exactly if they are the same name.
   */
  lemma EqualityIsSound(a: string, b: string)
    ensures EqualUpToShorter(Compile(a), Compile(b)) <==> Join(Compile(a)) == Join(Compile(b))
    ensures Clean(a) && Clean(b) ==> (EqualUpToShorter(Compile(a), Compile(b)) <==> a == b)
  {
    CompileShaped(a);
    CompileShaped(b);
    ShapedPrefixFree(Compile(a), Compile(b));
    if Join(Compile(a)) == Join(Compile(b)) {
      JoinInjective(Compile(a), Compile(b));
    }
    PrintIsInverse(a);
    PrintIsInverse(b);
  }

  // ----- appending -----

  /** Text in front of the scanned part makes no difference. */
  lemma {:induction false} ScanShift(x: nat, all: string, f: string, start: nat, i: nat)
    requires start <= |f| && i <= |f| && |all| == x + |f| && all[x..] == f
    ensures Scan(all, x + start, x + i) == Scan(f, start, i)
    decreases |f| - i
  {
    assert all[x + start..] == f[start..];
    if i < |f| {
      assert f[i] == all[x + i] && (i + 1 < |f| ==> f[i + 1] == all[x + i + 1]);
      if SepAt(f, i) {
        ScanAtSep(all, x + start, x + i);
        ScanAtSep(f, start, i);
        ScanShift(x, all, f, i + 2, i + 1);
        if i > start {
          assert all[x + start..x + i] == f[start..i];
        }
      } else {
        ScanShift(x, all, f, start, i + 1);
      }
    }
  }

  predicate EndsInColon(s: string) {
    s != "" && s[|s| - 1] == ':'
  }

  lemma PackagedCons(x: string, segs: seq<string>, more: seq<string>)
    requires segs != []
    ensures Packaged([x] + segs) + more == [x] + (Packaged(segs) + more)
  {
    assert ([x] + segs)[..|segs|] == [x] + segs[..|segs| - 1];
  }

  /** The scan of package::name up to the end of the package. */
  lemma {:induction false} ScanPackage(pkg: string, all: string, start: nat, i: nat)
    requires start <= |pkg| && i <= |pkg| && Reached(pkg, start, i)
    requires pkg != "" && !EndsInColon(pkg) && (start > 0 ==> pkg[start - 1] == ':')
    requires |pkg| <= |all| && all[..|pkg|] == pkg && SepAt(all, |pkg|)
    ensures Scan(all, start, i) == Packaged(Scan(pkg, start, i)) + Scan(all, |pkg| + 2, |pkg| + 1)
    decreases |pkg| - i
  {
    assert forall k :: 0 <= k < |pkg| ==> all[k] == pkg[k];
    if i == |pkg| {
      ScanAtSep(all, start, i);
      assert all[start..i] == pkg[start..];
    } else if SepAt(pkg, i) {
      ScanAtSep(all, start, i);
      ScanAtSep(pkg, start, i);
      ScanPackage(pkg, all, i + 2, i + 1);
      if i > start {
        assert all[start..i] == pkg[start..i];
        PackagedCons(pkg[start..i] + "::", Scan(pkg, i + 2, i + 1), Scan(all, |pkg| + 2, |pkg| + 1));
      }
    } else {
      assert !SepAt(all, i);
      ScanPackage(pkg, all, start, i + 1);
    }
  }

  /** What a name's scan leaves last is the end of that name. */
  lemma {:induction false} LastIsSuffix(name: string, start: nat, i: nat)
    requires start <= |name| && i <= |name|
    ensures var segs := Scan(name, start, i); var last := segs[|segs| - 1];
            |last| <= |name| && last == name[|name| - |last|..]
    decreases |name| - i
  {
    if i < |name| {
      if SepAt(name, i) {
        LastIsSuffix(name, i + 2, i + 1);
      } else {
        LastIsSuffix(name, start, i + 1);
      }
    }
  }

  /** A first colon that is not the beginning of a separator: it would join the one before it. */
  predicate LoneColonFirst(s: string) {
    s != "" && s[0] == ':' && !SepAt(s, 0)
  }

  lemma ScanTwoSeps(all: string, x: nat)
    requires 1 <= x && SepAt(all, x - 1) && SepAt(all, x)
    ensures Scan(all, x, x - 1) == Scan(all, x + 2, x + 1)
  {
    ScanAtSep(all, x, x - 1);
    ScanAtSep(all, x + 1, x);
  }

  /** The scan of package::name behind the separator, which ends at x. */
  lemma ScanBehindPackage(all: string, x: nat, f: string)
    requires 2 <= x && |all| == x + |f| && all[x..] == f && SepAt(all, x - 2)
    requires !LoneColonFirst(f)
    ensures Scan(all, x, x - 1) == Compile(f)
  {
    assert f != "" ==> f[0] == all[x];
    if SepAt(all, x - 1) {
      ScanBehindColonsToo(all, x, f);
    } else {
      ScanShift(x, all, f, 0, 0);
    }
  }

  lemma ScanBehindColonsToo(all: string, x: nat, f: string)
    requires 2 <= x && |all| == x + |f| && all[x..] == f && SepAt(all, x - 1) && SepAt(f, 0)
    ensures Scan(all, x, x - 1) == Compile(f)
  {
    assert f[0] == all[x] && f[1] == all[x + 1];
    ScanTwoSeps(all, x);
    ScanAtSep(f, 0, 0);
    ScanShift(x, all, f, 2, 1);
  }

  /**
   * modperl_mgv_append against compiling the joined name: they agree exactly if the package is
   * neither empty nor ends in a colon, and the name does not begin with a single colon.
   */
  lemma AppendIsCompile(pkg: string, f: string)
    ensures Append(Compile(pkg), f) == Compile(pkg + "::" + f)
            <==> pkg != "" && !EndsInColon(pkg) && !LoneColonFirst(f)
  {
    if pkg != "" && !EndsInColon(pkg) && !LoneColonFirst(f) {
      ScanPackage(pkg, pkg + "::" + f, 0, 0);
      ScanBehindPackage(pkg + "::" + f, |pkg| + 2, f);
    } else if Append(Compile(pkg), f) == Compile(pkg + "::" + f) {
      AppendTakesNoColon(pkg, f);
      assert false;
    }
  }

  lemma NoColonInPackage(text: string)
    requires EndsInColon(text)
    ensures !Package(text + "::")
  {
    assert SepAt(text + "::", |text| - 1);
  }

  lemma AppendTakesNoColon(pkg: string, f: string)
    requires Append(Compile(pkg), f) == Compile(pkg + "::" + f)
    ensures pkg != "" && !EndsInColon(pkg) && !LoneColonFirst(f)
  {
    var segs, all := Compile(pkg), Append(Compile(pkg), f);
    CompileShaped(pkg + "::" + f);
    var last := segs[|segs| - 1];
    assert Package(all[|segs| - 1]) && all[|segs| - 1] == last + "::";
    assert all[|segs|] == Compile(f)[0];
    LastIsSuffix(pkg, 0, 0);
    if EndsInColon(last) {
      NoColonInPackage(last);
    }
    if LoneColonFirst(f) {
      FirstKeepsStart(f, 1);
    }
  }

  /** While no separator is met at the very start, the first segment begins as the name does. */
  lemma {:induction false} FirstKeepsStart(name: string, i: nat)
    requires 0 < i <= |name|
    ensures var first := Scan(name, 0, i)[0]; first != "" && first[0] == name[0]
    decreases |name| - i
  {
    if i < |name| && !SepAt(name, i) {
      FirstKeepsStart(name, i + 1);
    }
  }

  /** modperl_mgv_as_string in package mode: all but the last segment, without the last '::'. */
  function PackageString(segs: seq<string>): string
    requires |segs| > 1 && |Join(segs[..|segs| - 1])| >= 2
  {
    var s := Join(segs[..|segs| - 1]);
    s[..|s| - 2]
  }

  lemma {:induction false} JoinSnoc(segs: seq<string>, x: string)
    ensures Join(segs + [x]) == Join(segs) + x
  {
    if segs == [] {
      JoinCons(x, []);
    } else {
      JoinSnoc(segs[1..], x);
      assert (segs + [x])[1..] == segs[1..] + [x];
    }
  }

  /** The package of package::name is what the package prints as: itself, exactly if it is clean. */
  lemma PackageOfAppended(pkg: string, f: string)
    requires |Compile(f)| == 1
    ensures var all := Append(Compile(pkg), f);
            |all| > 1 && Join(all[..|all| - 1]) == Join(Compile(pkg)) + "::"
            && PackageString(all) == Join(Compile(pkg))
            && (PackageString(all) == pkg <==> Clean(pkg))
  {
    var segs, all := Compile(pkg), Append(Compile(pkg), f);
    var front, last := segs[..|segs| - 1], segs[|segs| - 1];
    assert segs == front + [last];
    assert all[..|all| - 1] == front + [last + "::"];
    JoinSnoc(front, last);
    JoinSnoc(front, last + "::");
    assert Join(all[..|all| - 1]) == Join(segs) + "::";
    PrintIsInverse(pkg);
  }

  /** For a name of any number of segments: what precedes its last one. */
  lemma PackageOfAny(pkg: string, f: string)
    ensures var all, more := Append(Compile(pkg), f), Compile(f);
            && |all| == |Compile(pkg)| + |more|
            && Join(all[..|all| - 1]) == Join(Compile(pkg)) + "::" + Join(more[..|more| - 1])
  {
    var segs, more := Compile(pkg), Compile(f);
    var all, front, last := Append(segs, f), segs[..|segs| - 1], segs[|segs| - 1];
    assert segs == front + [last] && Packaged(segs) == front + [last + "::"];
    JoinSnoc(front, last);
    JoinSnoc(front, last + "::");
    assert all[..|all| - 1] == Packaged(segs) + more[..|more| - 1];
    JoinConcat(Packaged(segs), more[..|more| - 1]);
  }

  lemma {:induction false} JoinConcat(a: seq<string>, b: seq<string>)
    ensures Join(a + b) == Join(a) + Join(b)
  {
    if a == [] {
      assert a + b == b;
    } else {
      assert (a + b)[1..] == a[1..] + b;
      JoinConcat(a[1..], b);
    }
  }

  /** Appending more than one segment: the package is that of the name, below the first one. */
  lemma PackageOfLonger(pkg: string, f: string)
    requires |Compile(f)| > 1
    ensures var all := Append(Compile(pkg), f);
            && |Join(all[..|all| - 1])| >= 2 && |Join(Compile(f)[..|Compile(f)| - 1])| >= 2
            && PackageString(all) == Join(Compile(pkg)) + "::" + PackageString(Compile(f))
  {
    PackageOfAny(pkg, f);
    CompileShaped(f);
    PackagesHaveText(Compile(f));
  }

  // ----- ordinary names -----

  /** A non-empty segment without colons. */
  predicate Word(s: string) {
    s != "" && forall k :: 0 <= k < |s| ==> s[k] != ':'
  }

  function Spell(parts: seq<string>): string
    requires parts != []
  {
    if |parts| == 1 then parts[0] else Spell(parts[..|parts| - 1]) + "::" + parts[|parts| - 1]
  }

  /** One part per segment, all but the last followed by '::'. */
  predicate IsSplit(segs: seq<string>, parts: seq<string>) {
    && |segs| == |parts|
    && forall k :: 0 <= k < |segs| ==>
         segs[k] == if k < |parts| - 1 then parts[k] + "::" else parts[k]
  }

  lemma {:induction false} ScanWord(w: string, i: nat)
    requires Word(w) && i <= |w|
    ensures Scan(w, 0, i) == [w]
    decreases |w| - i
  {
    if i < |w| {
      ScanWord(w, i + 1);
    }
  }

  lemma WordIsClean(w: string)
    requires Word(w)
    ensures Compile(w) == [w] && Clean(w)
  {
    ScanWord(w, 0);
    JoinCons(w, []);
    PrintIsInverse(w);
  }

  /** A clean package and a word make a clean name. */
  lemma CleanAppend(pkg: string, w: string)
    requires Clean(pkg) && pkg != "" && !EndsInColon(pkg) && Word(w)
    ensures Compile(pkg + "::" + w) == Packaged(Compile(pkg)) + [w] && Clean(pkg + "::" + w)
  {
    WordIsClean(w);
    AppendIsCompile(pkg, w);
    PackageOfAppended(pkg, w);
    var front := Packaged(Compile(pkg));
    assert (front + [w])[..|front|] == front;
    JoinSnoc(front, w);
    PrintIsInverse(pkg);
    PrintIsInverse(pkg + "::" + w);
  }

  lemma SplitSnoc(segs: seq<string>, parts: seq<string>, w: string)
    requires segs != [] && IsSplit(segs, parts)
    ensures IsSplit(Packaged(segs) + [w], parts + [w])
  {
  }

  /** Spelled-out names compile to their parts, and print as they were. */
  lemma {:induction false} CompileIsSplit(parts: seq<string>)
    requires parts != [] && forall k :: 0 <= k < |parts| ==> Word(parts[k])
    ensures IsSplit(Compile(Spell(parts)), parts)
    ensures Spell(parts) != "" && !EndsInColon(Spell(parts)) && Clean(Spell(parts))
  {
    var front, f := parts[..|parts| - 1], parts[|parts| - 1];
    if |parts| == 1 {
      WordIsClean(f);
    } else {
      CompileIsSplit(front);
      CleanAppend(Spell(front), f);
      SplitSnoc(Compile(Spell(front)), front, f);
      assert parts == front + [f];
    }
  }

  // ----- where the printed text ends -----

  /** The index modperl_mgv_as_string writes its terminator at. */
  function TerminatorAt(segs: seq<string>, package: bool): int
    requires segs != []
  {
    if package then |Join(segs[..|segs| - 1])| - 2 else |Join(segs)|
  }

  /** A '::' right behind a character that is no colon, at k or later. */
  ghost predicate PackageFrom(name: string, k: int) {
    exists i :: k <= i && 0 < i && SepAt(name, i) && name[i - 1] != ':'
  }

  /** Some '::' lies behind a character other than a colon. */
  ghost predicate HasPackage(name: string) {
    PackageFrom(name, 0)
  }

  lemma PackageStep(name: string, k: nat)
    ensures PackageFrom(name, k) <==>
              (0 < k && SepAt(name, k) && name[k - 1] != ':') || PackageFrom(name, k + 1)
  {
    if PackageFrom(name, k) && !(0 < k && SepAt(name, k) && name[k - 1] != ':') {
      var i :| k <= i && 0 < i && SepAt(name, i) && name[i - 1] != ':';
      assert k + 1 <= i;
    }
  }

  /** What lies directly in front of the segment the scan is in. */
  predicate BehindSep(name: string, start: nat, i: nat)
    requires start <= |name| && i <= |name|
  {
    && (start > 0 ==> name[start - 1] == ':')
    && (start > i ==> i > 0 && name[i - 1] == ':')
    && (start < i ==> !SepAt(name, i - 1))
  }

  lemma {:induction false} ScanCutsPackages(name: string, start: nat, i: nat)
    requires start <= |name| && i <= |name| && Reached(name, start, i) && BehindSep(name, start, i)
    ensures |Scan(name, start, i)| > 1 <==> PackageFrom(name, i)
    decreases |name| - i
  {
    PackageStep(name, i);
    if i < |name| {
      if SepAt(name, i) {
        ScanAtSep(name, start, i);
        ScanCutsPackages(name, i + 2, i + 1);
      } else {
        ScanCutsPackages(name, start, i + 1);
      }
    }
  }

  lemma PackagesHaveText(segs: seq<string>)
    requires Shaped(segs) && |segs| > 1
    ensures |Join(segs[..|segs| - 1])| > 2
  {
    var front := segs[..|segs| - 1];
    assert Package(front[0]);
    assert Join(front) == front[0] + Join(front[1..]);
  }

  /**
   * In package mode the terminator of a compiled name is written inside the buffer exactly if the
   * name has more than one segment, which is exactly if some '::' lies behind a character other
   * than a colon; for any other name it goes two characters in front of the buffer.
   */
  lemma TerminatorInside(name: string)
    ensures TerminatorAt(Compile(name), true) >= 0 <==> |Compile(name)| > 1
    ensures |Compile(name)| > 1 <==> HasPackage(name)
    ensures !HasPackage(name) ==> TerminatorAt(Compile(name), true) == -2
  {
    ScanCutsPackages(name, 0, 0);
    CompileShaped(name);
    if |Compile(name)| > 1 {
      PackagesHaveText(Compile(name));
    } else {
      assert Compile(name)[..0] == [];
    }
  }

  /** A handler named without package, and one named in the main package. */
  lemma TerminatorInFront()
    ensures TerminatorAt(Compile("handler"), true) == -2
    ensures TerminatorAt(Compile("::handler"), true) == -2
  {
    TerminatorInside("handler");
    TerminatorInside("::handler");
  }

  // ----- names that do not survive -----

  lemma ColonsAreLost()
    ensures Join(Compile("::A")) != "::A"
    ensures Join(Compile("A:::b")) != "A:::b"
    ensures Append(Compile("A"), ":f") != Compile("A:::f")
    ensures Append(Compile(""), "f") != Compile("::f")
  {
    PrintIsInverse("::A");
    assert SepAt("::A", 0);
    PrintIsInverse("A:::b");
    assert SepAt("A:::b", 1) && SepAt("A:::b", 1 + 1);
    AppendIsCompile("A", ":f");
    assert "A" + "::" + ":f" == "A:::f";
    AppendIsCompile("", "f");
    assert "" + "::" + "f" == "::f";
  }
}
