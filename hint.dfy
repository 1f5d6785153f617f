/**
  The hint panel of `updateHint` (imageviewer.cpp): every joint name in
  schema order, gray once its keypoint has been entered, black while it is
  still to come.
 */
module Hint {
  import opened Keypoints

  datatype Shade = Gray | Black

  function ShadeName(c: Shade): string {
    match c
    case Gray => "gray"
    case Black => "black"
  }

  /** One rich-text entry of the panel. */
  function Entry(c: Shade, name: string): string {
    "<font color=\"" + ShadeName(c) + "\">" + name + "</font><br>"
  }

  /** Joint `i` is done when `len` keypoints have been entered and `i < len`. */
  function ShadeOf(len: nat, i: nat): Shade {
    if i < len then Gray else Black
  }

  /** The entries of the first `n` joints. */
  function HintUpTo(len: nat, n: nat): string
    requires n <= |JointNames|
  {
    if n == 0 then "" else HintUpTo(len, n - 1) + Entry(ShadeOf(len, n - 1), JointNames[n - 1])
  }

  /** The panel text for `len` entered keypoints. */
  function HintText(len: nat): string {
    HintUpTo(len, |JointNames|)
  }

  /** The panel built as the program builds it: the gray names, then the black ones. */
  method BuildHint(len: nat) returns (s: string)
    ensures s == HintText(len)
  {
    s := "";
    var i := 0;
    while i < len && i < |JointNames|
      invariant i <= len && i <= |JointNames|
      invariant s == HintUpTo(len, i)
    {
      s := s + Entry(Gray, JointNames[i]);
      i := i + 1;
    }
    i := len;
    while i < |JointNames|
      invariant len <= i
      invariant s == HintUpTo(len, if i < |JointNames| then i else |JointNames|)
    {
      s := s + Entry(Black, JointNames[i]);
      i := i + 1;
    }
  }

  // ---------------------------------------------------------------------
  // Properties
  // ---------------------------------------------------------------------

  lemma {:induction false} HintUpToAgree(a: nat, b: nat, n: nat)
    requires n <= |JointNames|
    requires forall i :: 0 <= i < n ==> ShadeOf(a, i) == ShadeOf(b, i)
    ensures HintUpTo(a, n) == HintUpTo(b, n)
  {
    if n > 0 {
      HintUpToAgree(a, b, n - 1);
    }
  }

  lemma {:induction false} HintUpToPrefix(len: nat, m: nat, n: nat)
    requires m <= n <= |JointNames|
    ensures HintUpTo(len, m) <= HintUpTo(len, n)
    decreases n
  {
    if m < n {
      HintUpToPrefix(len, m, n - 1);
      var p, q, r := HintUpTo(len, m), HintUpTo(len, n - 1), HintUpTo(len, n);
      assert p == q[..|p|] && q == r[..|q|];
      assert r[..|q|][..|p|] == r[..|p|];
    }
  }

  function Min13(n: nat): nat {
    if n < |JointNames| then n else |JointNames|
  }

  /**
    The panel shows exactly how far the annotation is: two counts give the
    same panel if and only if they agree once capped at thirteen.
   */
  lemma HintTextExact(a: nat, b: nat)
    ensures HintText(a) == HintText(b) <==> Min13(a) == Min13(b)
  {
    if Min13(a) == Min13(b) {
      HintUpToAgree(a, b, |JointNames|);
    } else if Min13(a) < Min13(b) {
      HintTextDiffers(a, b);
    } else {
      HintTextDiffers(b, a);
    }
  }

  lemma HintTextDiffers(a: nat, b: nat)
    requires Min13(a) < Min13(b)
    ensures HintText(a) != HintText(b)
  {
    var m := a;
    HintUpToAgree(a, b, m);
    var p := HintUpTo(a, m);
    var ta, tb := HintUpTo(a, m + 1), HintUpTo(b, m + 1);
    EntryShadeAt(Black, JointNames[m]);
    EntryShadeAt(Gray, JointNames[m]);
    assert ta[|p| + 13] == 'b' && tb[|p| + 13] == 'g';
    HintUpToPrefix(a, m + 1, |JointNames|);
    HintUpToPrefix(b, m + 1, |JointNames|);
    assert HintText(a)[|p| + 13] == 'b';
    assert HintText(b)[|p| + 13] == 'g';
  }

  /** The shade's first letter stands at position 13 of an entry. */
  lemma EntryShadeAt(c: Shade, name: string)
    ensures |Entry(c, name)| > 13 && Entry(c, name)[13] == ShadeName(c)[0]
  {
  }

  /** With thirteen or more keypoints entered every name is gray. */
  lemma HintAllDone(len: nat)
    requires len >= |JointNames|
    ensures HintText(len) == UniformHint(Gray)
  {
    HintUpToAgree(len, |JointNames|, |JointNames|);
    HintUniform(Gray, |JointNames|, |JointNames|);
  }

  /** Before any keypoint is entered every name is black. */
  lemma HintNoneDone()
    ensures HintText(0) == UniformHint(Black)
  {
    HintUniform(Black, 0, |JointNames|);
  }

  /** The panel with every name in one shade. */
  function UniformHint(c: Shade): string {
    UniformUpTo(c, |JointNames|)
  }

  function UniformUpTo(c: Shade, n: nat): string
    requires n <= |JointNames|
  {
    if n == 0 then "" else UniformUpTo(c, n - 1) + Entry(c, JointNames[n - 1])
  }

  lemma {:induction false} HintUniform(c: Shade, len: nat, n: nat)
    requires n <= |JointNames|
    requires forall i :: 0 <= i < n ==> ShadeOf(len, i) == c
    ensures HintUpTo(len, n) == UniformUpTo(c, n)
  {
    if n > 0 {
      HintUniform(c, len, n - 1);
    }
  }
}
