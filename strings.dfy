/**
  The string primitives the annotator relies on, stated over `seq<char>`:
  decimal formatting of integers (`QString::number`, `operator<<` on an
  `int`) with a parser that inverts it, padding with `'0'` (`std::setfill`
  with `std::setw`), joining and splitting at a separator, and
  replace-every-occurrence (`QString::replace`).
 */
module Strings {
  import opened Options

  // ---------------------------------------------------------------------
  // Digits and decimal numbers
  // ---------------------------------------------------------------------

  predicate IsDigit(c: char) {
    '0' <= c <= '9'
  }

  predicate AllDigits(s: string) {
    forall i :: 0 <= i < |s| ==> IsDigit(s[i])
  }

  predicate HasDigit(s: string) {
    exists i :: 0 <= i < |s| && IsDigit(s[i])
  }

  /** Characters a formatted integer is made of: digits and a minus sign. */
  predicate NumberChars(s: string) {
    forall i :: 0 <= i < |s| ==> IsDigit(s[i]) || s[i] == '-'
  }

  function DigitValue(c: char): (d: nat)
    requires IsDigit(c)
    ensures d < 10
  {
    (c as int) - ('0' as int)
  }

  function DigitChar(d: nat): (c: char)
    requires d < 10
    ensures IsDigit(c) && DigitValue(c) == d
  {
    (('0' as int) + d) as char
  }

  /** Decimal digits of `n`, most significant first, without leading zeros. */
  function NatToString(n: nat): (s: string)
    ensures |s| > 0 && AllDigits(s)
    ensures |s| > 1 ==> s[0] != '0'
    decreases n
  {
    if n < 10 then [DigitChar(n)] else NatToString(n / 10) + [DigitChar(n % 10)]
  }

  /** The value of a string of decimal digits (the empty string reads as 0). */
  function ParseNat(s: string): nat
    requires AllDigits(s)
    decreases |s|
  {
    if |s| == 0 then 0 else ParseNat(s[..|s| - 1]) * 10 + DigitValue(s[|s| - 1])
  }

  lemma {:induction false} ParseNatToString(n: nat)
    ensures ParseNat(NatToString(n)) == n
    decreases n
  {
    if n >= 10 {
      var s := NatToString(n);
      assert s[..|s| - 1] == NatToString(n / 10);
      ParseNatToString(n / 10);
    }
  }

  /** Decimal text of an integer: a leading `-` for negative values. */
  function IntToString(i: int): (s: string)
    ensures |s| > 0 && NumberChars(s)
  {
    if i < 0 then "-" + NatToString(-i) else NatToString(i)
  }

  function ParseInt(s: string): Option<int> {
    if |s| > 1 && s[0] == '-' && AllDigits(s[1..]) then Some(0 - ParseNat(s[1..]))
    else if |s| > 0 && AllDigits(s) then Some(ParseNat(s))
    else None
  }

  lemma ParseIntToString(i: int)
    ensures ParseInt(IntToString(i)) == Some(i)
  {
    if i < 0 {
      var d := NatToString(-i);
      var s := "-" + d;
      assert s[1..] == d;
      ParseNatToString(-i);
      assert ParseInt(s) == Some(0 - (-i));
    } else {
      var d := NatToString(i);
      assert IsDigit(d[0]);
      ParseNatToString(i);
      assert ParseInt(d) == Some(i);
    }
  }

  /** `k` copies of `'0'`. */
  function Zeros(k: nat): (z: string)
    ensures |z| == k && forall i :: 0 <= i < k ==> z[i] == '0'
  {
    if k == 0 then "" else Zeros(k - 1) + "0"
  }

  /** Left-pads `s` with `'0'` up to width `w`; a longer `s` is left as it is. */
  function PadLeft(s: string, w: nat): (r: string)
  {
    if |s| >= w then s else Zeros(w - |s|) + s
  }

  lemma {:induction false} ParseNatZeros(k: nat, s: string)
    requires AllDigits(s)
    ensures AllDigits(Zeros(k) + s) && ParseNat(Zeros(k) + s) == ParseNat(s)
    decreases |s|
  {
    var t := Zeros(k) + s;
    if |s| == 0 {
      ZerosValue(k);
      assert t == Zeros(k);
    } else {
      assert t[..|t| - 1] == Zeros(k) + s[..|s| - 1];
      ParseNatZeros(k, s[..|s| - 1]);
    }
  }

  lemma {:induction false} ZerosValue(k: nat)
    ensures AllDigits(Zeros(k)) && ParseNat(Zeros(k)) == 0
  {
    if k > 0 {
      assert Zeros(k)[..k - 1] == Zeros(k - 1);
      ZerosValue(k - 1);
    }
  }

  /** Padding never changes the value of a digit string, and reaches width `w`. */
  lemma PadLeftValue(s: string, w: nat)
    requires AllDigits(s)
    ensures AllDigits(PadLeft(s, w)) && ParseNat(PadLeft(s, w)) == ParseNat(s)
    ensures |PadLeft(s, w)| == if |s| >= w then |s| else w
  {
    if |s| < w {
      ParseNatZeros(w - |s|, s);
    }
  }

  function Pow10(k: nat): (p: nat)
    ensures p >= 1
  {
    if k == 0 then 1 else 10 * Pow10(k - 1)
  }

  /** A digit string starting with '0' is worth less than ten to the power of its remaining width. */
  lemma {:induction false} ParseNatLeadingZero(s: string)
    requires |s| > 0 && AllDigits(s) && s[0] == '0'
    ensures ParseNat(s) < Pow10(|s| - 1)
    decreases |s|
  {
    if |s| > 1 {
      var init := s[..|s| - 1];
      assert init[0] == '0';
      ParseNatLeadingZero(init);
      assert ParseNat(s) == ParseNat(init) * 10 + DigitValue(s[|s| - 1]);
      assert ParseNat(init) + 1 <= Pow10(|s| - 2);
    }
  }

  /** A number below ten to the power `k` has at most `k` decimal digits. */
  lemma {:induction false} NatToStringLength(n: nat, k: nat)
    requires k >= 1 && n < Pow10(k)
    ensures |NatToString(n)| <= k
    decreases n
  {
    if n >= 10 {
      assert Pow10(1) == 10;
      assert n / 10 < Pow10(k - 1);
      NatToStringLength(n / 10, k - 1);
    }
  }

  // ---------------------------------------------------------------------
  // Joining and splitting at a separator character
  // ---------------------------------------------------------------------

  /** The parts separated by `sep`; `Join([a], sep) == a` and `Join([], sep) == ""`. */
  function Join(parts: seq<string>, sep: char): string
    decreases |parts|
  {
    if |parts| == 0 then ""
    else if |parts| == 1 then parts[0]
    else parts[0] + [sep] + Join(parts[1..], sep)
  }

  /** The pieces between occurrences of `sep`; always at least one piece. */
  function Split(s: string, sep: char): (parts: seq<string>)
    ensures |parts| >= 1
    decreases |s|
  {
    if |s| == 0 then [""]
    else
      var rest := Split(s[1..], sep);
      if s[0] == sep then [""] + rest else [[s[0]] + rest[0]] + rest[1..]
  }

  lemma {:induction false} JoinSnoc(parts: seq<string>, x: string, sep: char)
    requires |parts| >= 1
    ensures Join(parts + [x], sep) == Join(parts, sep) + [sep] + x
    decreases |parts|
  {
    if |parts| > 1 {
      assert (parts + [x])[1..] == parts[1..] + [x];
      JoinSnoc(parts[1..], x, sep);
    } else {
      assert (parts + [x])[1..] == [x];
    }
  }

  lemma {:induction false} SplitPlain(a: string, sep: char)
    requires sep !in a
    ensures Split(a, sep) == [a]
    decreases |a|
  {
    if |a| > 0 {
      SplitPlain(a[1..], sep);
      assert [a[0]] + a[1..] == a;
    }
  }

  lemma {:induction false} SplitCons(a: string, b: string, sep: char)
    requires sep !in a
    ensures Split(a + [sep] + b, sep) == [a] + Split(b, sep)
    decreases |a|
  {
    var s := a + [sep] + b;
    if |a| == 0 {
      assert s[1..] == b;
    } else {
      assert s[1..] == a[1..] + [sep] + b;
      SplitCons(a[1..], b, sep);
      assert [a[0]] + a[1..] == a;
    }
  }

  /** Splitting undoes joining, as long as no part contains the separator. */
  lemma {:induction false} SplitJoin(parts: seq<string>, sep: char)
    requires |parts| >= 1
    requires forall i :: 0 <= i < |parts| ==> sep !in parts[i]
    ensures Split(Join(parts, sep), sep) == parts
    decreases |parts|
  {
    if |parts| == 1 {
      SplitPlain(parts[0], sep);
    } else {
      SplitJoin(parts[1..], sep);
      SplitCons(parts[0], Join(parts[1..], sep), sep);
    }
  }

  // ---------------------------------------------------------------------
  // Occurrences and replace-all
  // ---------------------------------------------------------------------

  /** `pat` occurs in `s` starting at position `i`. */
  predicate OccursAt(pat: string, s: string, i: nat) {
    i + |pat| <= |s| && s[i..i + |pat|] == pat
  }

  /** `pat` occurs somewhere in `s`. */
  ghost predicate Occurs(pat: string, s: string) {
    exists i: nat :: OccursAt(pat, s, i)
  }

  /** No character of `a` is a character of `b`. */
  predicate Disjoint(a: string, b: string) {
    forall i :: 0 <= i < |a| ==> a[i] !in b
  }

  /**
    Every occurrence of `pat` in `s`, scanning from the left and never
    overlapping, replaced by `rep`.
   */
  function ReplaceAll(s: string, pat: string, rep: string): string
    requires |pat| > 0
    decreases |s|
  {
    if |s| < |pat| then s
    else if s[..|pat|] == pat then rep + ReplaceAll(s[|pat|..], pat, rep)
    else [s[0]] + ReplaceAll(s[1..], pat, rep)
  }

  /** An occurrence in `[c] + t` other than at the front is an occurrence in `t`. */
  lemma NoOccurrenceBehindChar(c: char, t: string, q: string)
    requires !Occurs(q, t)
    ensures forall i: nat :: 0 < i ==> !OccursAt(q, [c] + t, i)
  {
    forall i: nat | 0 < i
      ensures !OccursAt(q, [c] + t, i)
    {
      if i + |q| <= |[c] + t| {
        assert ([c] + t)[i..i + |q|] == t[i - 1..i - 1 + |q|];
      }
      assert !OccursAt(q, t, i - 1);
    }
  }

  /** `q` cannot start inside `rep`, and does not occur in `t`, so it does not occur in `rep + t`. */
  lemma NoOccurrenceBehindRep(rep: string, t: string, q: string)
    requires |q| > 0 && Disjoint(rep, q) && !Occurs(q, t)
    ensures !Occurs(q, rep + t)
  {
    forall i: nat | i + |q| <= |rep + t|
      ensures !OccursAt(q, rep + t, i)
    {
      if i < |rep| {
        assert (rep + t)[i..i + |q|][0] == rep[i];
        assert rep[i] !in q;
      } else {
        assert (rep + t)[i..i + |q|] == t[i - |rep|..i - |rep| + |q|];
        assert !OccursAt(q, t, i - |rep|);
      }
    }
  }

  /** A string without `pat` is left as it is. */
  lemma {:induction false} ReplaceAllAbsent(s: string, pat: string, rep: string)
    requires |pat| > 0 && !Occurs(pat, s)
    ensures ReplaceAll(s, pat, rep) == s
    decreases |s|
  {
    if |s| >= |pat| {
      assert !OccursAt(pat, s, 0);
      NoOccurrenceInTail(pat, s);
      ReplaceAllAbsent(s[1..], pat, rep);
    }
  }

  lemma NoOccurrenceInTail(pat: string, s: string)
    requires |s| > 0 && !Occurs(pat, s)
    ensures !Occurs(pat, s[1..])
  {
    forall i: nat | i + |pat| <= |s[1..]|
      ensures !OccursAt(pat, s[1..], i)
    {
      assert s[1..][i..i + |pat|] == s[i + 1..i + 1 + |pat|];
      assert !OccursAt(pat, s, i + 1);
    }
  }

  lemma NoOccurrenceInSuffix(pat: string, s: string, k: nat)
    requires k <= |s| && !Occurs(pat, s)
    ensures !Occurs(pat, s[k..])
  {
    forall i: nat | i + |pat| <= |s[k..]|
      ensures !OccursAt(pat, s[k..], i)
    {
      assert s[k..][i..i + |pat|] == s[i + k..i + k + |pat|];
      assert !OccursAt(pat, s, i + k);
    }
  }

  /**
    Up to any length `k`, `ReplaceAll(s, ...)` either agrees with `s` or has
    already emitted a character of `rep`.
   */
  lemma {:induction false} ReplaceAllPrefix(s: string, pat: string, rep: string, k: nat)
    requires |pat| > 0 && |rep| > 0 && k <= |ReplaceAll(s, pat, rep)|
    ensures (k <= |s| && ReplaceAll(s, pat, rep)[..k] == s[..k])
         || exists i :: 0 <= i < k && ReplaceAll(s, pat, rep)[i] in rep
    decreases |s|
  {
    var r := ReplaceAll(s, pat, rep);
    if |s| < |pat| || k == 0 {
    } else if s[..|pat|] == pat {
      assert r[0] == rep[0];
    } else {
      var t := ReplaceAll(s[1..], pat, rep);
      assert r == [s[0]] + t;
      ReplaceAllPrefix(s[1..], pat, rep, k - 1);
      if k - 1 <= |s[1..]| && t[..k - 1] == s[1..][..k - 1] {
        assert r[..k] == [s[0]] + t[..k - 1];
        assert s[..k] == [s[0]] + s[1..][..k - 1];
      } else {
        var i :| 0 <= i < k - 1 && t[i] in rep;
        assert r[i + 1] == t[i];
      }
    }
  }

  /**
    If `[c] + s'` does not start with `q`, neither does `[c] + ReplaceAll(s', ...)`,
    when `q` shares no character with `rep`.
   */
  lemma FrontStaysDifferent(c: char, s': string, pat: string, rep: string, q: string)
    requires |pat| > 0 && |rep| > 0 && |q| > 0 && Disjoint(rep, q)
    requires !OccursAt(q, [c] + s', 0)
    ensures !OccursAt(q, [c] + ReplaceAll(s', pat, rep), 0)
  {
    var t := ReplaceAll(s', pat, rep);
    if |q| <= 1 + |t| {
      ReplaceAllPrefix(s', pat, rep, |q| - 1);
      assert ([c] + t)[..|q|] == [c] + t[..|q| - 1];
      if |q| - 1 <= |s'| && t[..|q| - 1] == s'[..|q| - 1] {
        assert ([c] + s')[..|q|] == [c] + s'[..|q| - 1];
      } else {
        var i :| 0 <= i < |q| - 1 && t[i] in rep;
        var j :| 0 <= j < |rep| && rep[j] == t[i];
        assert rep[j] !in q;
        assert ([c] + t)[..|q|][i + 1] != q[i + 1];
      }
    }
  }

  /** After replacing every `pat`, none is left, when `rep` shares no character with `pat`. */
  lemma {:induction false} ReplaceAllRemoves(s: string, pat: string, rep: string)
    requires |pat| > 0 && |rep| > 0 && Disjoint(rep, pat)
    ensures !Occurs(pat, ReplaceAll(s, pat, rep))
    decreases |s|
  {
    if |s| < |pat| {
    } else if s[..|pat|] == pat {
      ReplaceAllRemoves(s[|pat|..], pat, rep);
      NoOccurrenceBehindRep(rep, ReplaceAll(s[|pat|..], pat, rep), pat);
    } else {
      var t := ReplaceAll(s[1..], pat, rep);
      ReplaceAllRemoves(s[1..], pat, rep);
      assert [s[0]] + s[1..] == s;
      FrontStaysDifferent(s[0], s[1..], pat, rep, pat);
      NoOccurrenceBehindChar(s[0], t, pat);
      assert ReplaceAll(s, pat, rep) == [s[0]] + t;
    }
  }

  /** Replacing one pattern cannot create another one `q` that shares no character with `rep`. */
  lemma {:induction false} ReplaceAllKeepsAbsent(s: string, pat: string, rep: string, q: string)
    requires |pat| > 0 && |rep| > 0 && |q| > 0 && Disjoint(rep, q) && !Occurs(q, s)
    ensures !Occurs(q, ReplaceAll(s, pat, rep))
    decreases |s|
  {
    if |s| < |pat| {
    } else if s[..|pat|] == pat {
      NoOccurrenceInSuffix(q, s, |pat|);
      ReplaceAllKeepsAbsent(s[|pat|..], pat, rep, q);
      NoOccurrenceBehindRep(rep, ReplaceAll(s[|pat|..], pat, rep), q);
    } else {
      var t := ReplaceAll(s[1..], pat, rep);
      NoOccurrenceInTail(q, s);
      ReplaceAllKeepsAbsent(s[1..], pat, rep, q);
      assert [s[0]] + s[1..] == s;
      assert !OccursAt(q, s, 0);
      FrontStaysDifferent(s[0], s[1..], pat, rep, q);
      NoOccurrenceBehindChar(s[0], t, q);
      assert ReplaceAll(s, pat, rep) == [s[0]] + t;
    }
  }

  /** No occurrence of `pat` can start inside `s` when `s` has none and `t` starts with a character foreign to `pat`. */
  lemma NoOccurrenceAcross(s: string, t: string, pat: string)
    requires |t| > 0 && t[0] !in pat && !Occurs(pat, s)
    ensures forall i: nat :: i < |s| ==> !OccursAt(pat, s + t, i)
  {
    forall i: nat | i < |s| ensures !OccursAt(pat, s + t, i) {
      NoOccurrenceAcrossAt(s, t, pat, i);
    }
  }

  lemma NoOccurrenceAcrossAt(s: string, t: string, pat: string, i: nat)
    requires |t| > 0 && t[0] !in pat && !Occurs(pat, s) && i < |s|
    ensures !OccursAt(pat, s + t, i)
  {
    var u := s + t;
    if i + |pat| <= |s| {
      assert !OccursAt(pat, s, i);
      assert u[i..i + |pat|] == s[i..i + |pat|];
    } else if i + |pat| <= |u| {
      assert u[i..i + |pat|][|s| - i] == t[0];
    }
  }

  /** A front part where no occurrence of `pat` starts is copied unchanged. */
  lemma {:induction false} ReplaceAllAfter(s: string, t: string, pat: string, rep: string)
    requires |pat| > 0
    requires forall i: nat :: i < |s| ==> !OccursAt(pat, s + t, i)
    ensures ReplaceAll(s + t, pat, rep) == s + ReplaceAll(t, pat, rep)
    decreases |s|
  {
    if |s| > 0 {
      var u, s' := s + t, s[1..];
      NoOccurrenceAfterFront(s, t, pat);
      ReplaceAllAfter(s', t, pat, rep);
      ReplaceAllFront(u, pat, rep);
      assert u[1..] == s' + t;
      assert s == [s[0]] + s';
    } else {
      assert s + t == t;
    }
  }

  /** Where no occurrence starts at the front, the first character is copied. */
  lemma ReplaceAllFront(u: string, pat: string, rep: string)
    requires |pat| > 0 && |u| > 0 && !OccursAt(pat, u, 0)
    ensures ReplaceAll(u, pat, rep) == [u[0]] + ReplaceAll(u[1..], pat, rep)
  {
    if |u| < |pat| {
      assert |u[1..]| < |pat|;
      assert u == [u[0]] + u[1..];
    }
  }

  lemma NoOccurrenceAfterFront(s: string, t: string, pat: string)
    requires |s| > 0 && forall i: nat :: i < |s| ==> !OccursAt(pat, s + t, i)
    ensures !OccursAt(pat, s + t, 0)
    ensures forall i: nat :: i < |s| - 1 ==> !OccursAt(pat, s[1..] + t, i)
  {
    var u := s + t;
    assert u[1..] == s[1..] + t;
    forall i: nat | i < |s| - 1 ensures !OccursAt(pat, s[1..] + t, i) {
      ShiftOccurrence(pat, u, i);
    }
  }

  lemma ShiftOccurrence(pat: string, u: string, i: nat)
    requires |u| > 0 && !OccursAt(pat, u, i + 1)
    ensures !OccursAt(pat, u[1..], i)
  {
    if i + |pat| <= |u[1..]| {
      assert u[1..][i..i + |pat|] == u[i + 1..i + 1 + |pat|];
    }
  }

  /** A text shorter than the pattern is left as it is. */
  lemma ReplaceAllShort(u: string, pat: string, rep: string)
    requires 0 < |pat| && |u| < |pat|
    ensures ReplaceAll(u, pat, rep) == u
  {
  }

  /** A text whose first character differs from the pattern's keeps that character. */
  lemma ReplaceAllStep(u: string, pat: string, rep: string)
    requires 0 < |pat| <= |u| && u[0] != pat[0]
    ensures ReplaceAll(u, pat, rep) == [u[0]] + ReplaceAll(u[1..], pat, rep)
  {
    assert u[..|pat|][0] == u[0];
  }

  /** A text that starts with the pattern has it replaced. */
  lemma ReplaceAllMatch(u: string, pat: string, rep: string)
    requires 0 < |pat| <= |u| && u[..|pat|] == pat
    ensures ReplaceAll(u, pat, rep) == rep + ReplaceAll(u[|pat|..], pat, rep)
  {
  }
}
