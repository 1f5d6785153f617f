/**
  The file name computed by `nextFileOpen` (imageviewer.cpp) to step to the
  next image of a numbered series: the path is cut at its last '/', the
  leftmost run of digits of the file name is read as a number, and the
  number plus one is written back in its place, zero-padded to the run's
  width when the run started with '0'.
 */
module NextFile {
  import opened Options
  import opened Strings

  /** Position of the last '/' (`find_last_of('/')`); `None` stands for `npos`. */
  function LastSlash(s: string): (r: Option<nat>)
    ensures r.None? ==> '/' !in s
    ensures r.Some? ==> r.value < |s| && s[r.value] == '/' && '/' !in s[r.value + 1..]
    decreases |s|
  {
    if |s| == 0 then None
    else if s[|s| - 1] == '/' then Some(|s| - 1)
    else
      var r := LastSlash(s[..|s| - 1]);
      assert r.Some? ==> s[r.value + 1..] == s[..|s| - 1][r.value + 1..] + [s[|s| - 1]];
      assert r.None? ==> s == s[..|s| - 1] + [s[|s| - 1]];
      r
  }

  /** A path cut into the directory part and the file name part. */
  datatype PathParts = PathParts(dir: string, name: string)

  /** Without a '/', the whole path is the file name and the directory part is empty. */
  function SplitPath(path: string): PathParts {
    match LastSlash(path)
    case None => PathParts("", path)
    case Some(i) => PathParts(path[..i], path[i + 1..])
  }

  /** Position of the leftmost digit. */
  function FirstDigit(s: string): (r: Option<nat>)
    ensures r.None? ==> !HasDigit(s)
    ensures r.Some? ==> r.value < |s| && IsDigit(s[r.value]) && !HasDigit(s[..r.value])
    decreases |s|
  {
    if |s| == 0 then None
    else if IsDigit(s[0]) then Some(0)
    else
      match FirstDigit(s[1..])
      case None => None
      case Some(i) =>
        assert s[..i + 1] == [s[0]] + s[1..][..i];
        Some(i + 1)
  }

  /** End of the run of digits that starts at `i`. */
  function RunEnd(s: string, i: nat): (e: nat)
    requires i <= |s|
    ensures i <= e <= |s| && AllDigits(s[i..e]) && (e == |s| || !IsDigit(s[e]))
    decreases |s| - i
  {
    if i < |s| && IsDigit(s[i]) then
      var e := RunEnd(s, i + 1);
      assert s[i..e] == [s[i]] + s[i + 1..e];
      e
    else i
  }

  /** A file name cut around a run of digits. */
  datatype DigitRun = DigitRun(prefix: string, digits: string, suffix: string)

  /** `r` is the leftmost maximal run of digits of `name`. */
  predicate IsLeftmostRun(name: string, r: DigitRun) {
    && name == Joined(r)
    && !HasDigit(r.prefix)
    && |r.digits| > 0 && AllDigits(r.digits)
    && (|r.suffix| == 0 || !IsDigit(r.suffix[0]))
  }

  /** The file name put back together around its run. */
  function Joined(r: DigitRun): string {
    r.prefix + r.digits + r.suffix
  }

  /** The match of `std::regex_search` with the pattern `[0-9]+`. */
  function FindRun(name: string): Option<DigitRun> {
    match FirstDigit(name)
    case None => None
    case Some(i) =>
      var e := RunEnd(name, i);
      Some(DigitRun(name[..i], name[i..e], name[e..]))
  }

  /** The number after the one written in `digits`, padded to the same width if `digits` starts with '0'. */
  function Increment(digits: string): string
    requires |digits| > 0 && AllDigits(digits)
  {
    var next := NatToString(ParseNat(digits) + 1);
    if digits[0] == '0' then PadLeft(next, |digits|) else next
  }

  /** The path `nextFileOpen` loads, or `None` when it does nothing. */
  function NextFileName(path: string): Option<string> {
    if |path| == 0 then None
    else
      var parts := SplitPath(path);
      match FindRun(parts.name)
      case None => None
      case Some(r) => Some(parts.dir + "/" + Joined(DigitRun(r.prefix, Increment(r.digits), r.suffix)))
  }

  // ---------------------------------------------------------------------
  // Properties
  // ---------------------------------------------------------------------

  /** The path is the directory part, a '/', and a file name part without '/'. */
  lemma SplitPathSpec(path: string)
    ensures '/' !in SplitPath(path).name
    ensures path == SplitPath(path).name || path == SplitPath(path).dir + "/" + SplitPath(path).name
    ensures '/' in path <==> path == SplitPath(path).dir + "/" + SplitPath(path).name
  {
    match LastSlash(path)
    case None =>
    case Some(i) =>
      assert path == path[..i] + "/" + path[i + 1..];
  }

  /** Cutting `dir + "/" + name` with a `name` free of '/' gives back `dir` and `name`. */
  lemma SplitPathOf(dir: string, name: string)
    requires '/' !in name
    ensures SplitPath(dir + "/" + name) == PathParts(dir, name)
  {
    var path := dir + "/" + name;
    assert path[|dir|] == '/';
    assert path[|dir| + 1..] == name;
    assert path[..|dir|] == dir;
    var r := LastSlash(path);
    assert path[|dir|] in path;
    InLaterSuffix(path, r.value, |dir|);
    InNamePart(dir, name, r.value);
  }

  lemma InLaterSuffix(s: string, k: nat, j: nat)
    requires j < |s|
    ensures k < j ==> s[j] in s[k + 1..]
  {
    if k < j {
      assert s[k + 1..][j - k - 1] == s[j];
    }
  }

  lemma InNamePart(dir: string, name: string, j: nat)
    requires j < |dir + "/" + name|
    ensures j > |dir| ==> (dir + "/" + name)[j] in name
  {
    if j > |dir| {
      assert (dir + "/" + name)[j] == name[j - |dir| - 1];
    }
  }

  /** `FindRun` finds nothing exactly when there is no digit, and otherwise the leftmost maximal run. */
  lemma FindRunSpec(name: string)
    ensures FindRun(name).None? <==> !HasDigit(name)
    ensures FindRun(name).Some? ==> IsLeftmostRun(name, FindRun(name).value)
  {
    match FirstDigit(name)
    case None =>
    case Some(i) =>
      var e := RunEnd(name, i);
      assert name == name[..i] + name[i..e] + name[e..];
      assert name[i..e][0] == name[i];
      assert |name[e..]| > 0 ==> name[e..][0] == name[e];
  }

  /** The leftmost maximal run is unique: `FindRun` returns it. */
  lemma FindRunUnique(name: string, r: DigitRun)
    requires IsLeftmostRun(name, r)
    ensures FindRun(name) == Some(r)
  {
    var p := |r.prefix|;
    var e := p + |r.digits|;
    assert name[p] == r.digits[0];
    assert name[..p] == r.prefix && name[p..e] == r.digits && name[e..] == r.suffix;
    var f := FirstDigit(name);
    assert HasDigit(name);
    DigitInPrefix(name, f.value, p);
    DigitInPrefix(name, p, f.value);
    assert f == Some(p);
    RunEndUnique(name, p, e);
  }

  lemma RunEndUnique(s: string, i: nat, e: nat)
    requires i <= e <= |s| && AllDigits(s[i..e]) && (e == |s| || !IsDigit(s[e]))
    ensures RunEnd(s, i) == e
  {
    var f := RunEnd(s, i);
    DigitInRun(s, i, e, f);
    DigitInRun(s, i, f, e);
  }

  lemma DigitInPrefix(s: string, i: nat, k: nat)
    requires i < |s| && k <= |s| && IsDigit(s[i])
    ensures i < k ==> HasDigit(s[..k])
  {
    if i < k {
      assert s[..k][i] == s[i];
    }
  }

  lemma DigitInRun(s: string, i: nat, e: nat, f: nat)
    requires i <= e <= |s| && AllDigits(s[i..e])
    ensures i <= f < e ==> IsDigit(s[f])
  {
    if i <= f < e {
      assert s[i..e][f - i] == s[f];
    }
  }

  /**
    The incremented run is a digit string whose value is one more; it keeps
    exactly the run's width when the run starts with '0' (the padded width
    always suffices, since such a run is below ten to the power of its width
    minus one), and is written without leading zeros otherwise.
   */
  lemma IncrementSpec(digits: string)
    requires |digits| > 0 && AllDigits(digits)
    ensures var r := Increment(digits);
      && |r| > 0 && AllDigits(r)
      && ParseNat(r) == ParseNat(digits) + 1
      && (digits[0] == '0' ==> |r| == |digits|)
      && (digits[0] != '0' ==> r == NatToString(ParseNat(digits) + 1))
  {
    var next := NatToString(ParseNat(digits) + 1);
    ParseNatToString(ParseNat(digits) + 1);
    PadLeftValue(next, |digits|);
    if digits[0] == '0' {
      ParseNatLeadingZero(digits);
      NatToStringLength(ParseNat(digits) + 1, |digits|);
    }
  }

  /** `nextFileOpen` does nothing exactly when the path is empty or its file name part has no digit. */
  lemma NextFileNameNone(path: string)
    ensures NextFileName(path).None? <==> |path| == 0 || !HasDigit(SplitPath(path).name)
  {
    FindRunSpec(SplitPath(path).name);
  }

  lemma DigitsHaveNoSlash(s: string)
    requires AllDigits(s)
    ensures '/' !in s
  {
    forall i | 0 <= i < |s| ensures s[i] != '/' {
      assert IsDigit(s[i]);
    }
  }

  /** Replacing the run by its increment leaves a leftmost run at the same place, free of '/'. */
  lemma IncrementedRun(name: string, r: DigitRun)
    requires IsLeftmostRun(name, r) && '/' !in name
    ensures var n := DigitRun(r.prefix, Increment(r.digits), r.suffix);
      IsLeftmostRun(Joined(n), n) && '/' !in Joined(n)
      && ParseNat(n.digits) == ParseNat(r.digits) + 1
  {
    IncrementSpec(r.digits);
    var d := Increment(r.digits);
    DigitsHaveNoSlash(d);
    assert forall c :: c in r.prefix ==> c in name;
    assert forall c :: c in r.suffix ==> c in name;
  }

  /**
    The next path has the same directory part (empty when there was no '/'),
    always followed by '/', and a file name whose leftmost run of digits sits
    between the same prefix and suffix and holds the number plus one.
   */
  lemma NextFileNameStep(path: string)
    requires NextFileName(path).Some?
    ensures var p := SplitPath(path);
      var r := FindRun(p.name).value;
      var n := DigitRun(r.prefix, Increment(r.digits), r.suffix);
      && NextFileName(path).value == p.dir + "/" + Joined(n)
      && SplitPath(NextFileName(path).value) == PathParts(p.dir, Joined(n))
      && FindRun(Joined(n)) == Some(n)
      && ParseNat(n.digits) == ParseNat(r.digits) + 1
  {
    var p := SplitPath(path);
    SplitPathSpec(path);
    FindRunSpec(p.name);
    var r := FindRun(p.name).value;
    IncrementedRun(p.name, r);
    var n := DigitRun(r.prefix, Increment(r.digits), r.suffix);
    SplitPathOf(p.dir, Joined(n));
    FindRunUnique(Joined(n), n);
  }

  /**
    A path without a directory part gets one anyway: the next path starts
    with '/', so a bare file name is turned into a path from the root.
   */
  lemma NextFileNameWithoutDirectory(path: string)
    requires '/' !in path && NextFileName(path).Some?
    ensures NextFileName(path).value[0] == '/'
    ensures SplitPath(NextFileName(path).value).dir == ""
  {
    SplitPathSpec(path);
    NextFileNameStep(path);
  }

  /** The number shown in the leftmost run of digits of the file name part, if there is one. */
  function RunNumber(path: string): Option<nat> {
    match FindRun(SplitPath(path).name)
    case None => None
    case Some(r) => if AllDigits(r.digits) then Some(ParseNat(r.digits)) else None
  }

  /** The number in the next path is one more, and that path has a next path again. */
  lemma NextFileNameNumber(path: string)
    requires NextFileName(path).Some?
    ensures RunNumber(path).Some?
    ensures NextFileName(NextFileName(path).value).Some?
    ensures RunNumber(NextFileName(path).value) == Some(RunNumber(path).value + 1)
  {
    var q := NextFileName(path).value;
    NextFileNameStep(path);
    var p := SplitPath(path);
    FindRunSpec(p.name);
    var r := FindRun(p.name).value;
    var n := DigitRun(r.prefix, Increment(r.digits), r.suffix);
    IncrementSpec(r.digits);
    assert SplitPath(q).name == Joined(n);
    assert RunNumber(path) == Some(ParseNat(r.digits));
    assert RunNumber(q) == Some(ParseNat(n.digits));
    assert |q| > 0;
    assert FindRun(SplitPath(q).name).Some?;
  }

  /** Stepping twice moves two numbers on. */
  lemma NextFileNameTwice(path: string)
    requires NextFileName(path).Some?
    ensures NextFileName(NextFileName(path).value).Some?
    ensures RunNumber(NextFileName(NextFileName(path).value).value) == Some(RunNumber(path).value + 2)
  {
    NextFileNameNumber(path);
    NextFileNameNumber(NextFileName(path).value);
  }
}
