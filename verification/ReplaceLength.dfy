/**
 * How long the text gets when matches are replaced from the right, compared with the leftmost
 * replacement: the growing branch of `String::replace` reserves room for the latter.
 */
module ReplaceLength {
  import opened Memory
  import opened SearchReplace

  /** No non-empty proper suffix of `f` is a prefix of `r`. */
  ghost predicate NeverMeets(f: seq<byte>, r: seq<byte>) {
    forall k :: !SuffixStarts(f, r, k)
  }

  // --- Replacements that never meet the pattern -----------------------------------------------

  lemma NeverStraddles(a: seq<byte>, r: seq<byte>, rest: seq<byte>, f: seq<byte>)
    requires NeverMeets(f, r) && |r| >= |f|
    ensures NoStraddle(a, r + rest, f)
  {
    forall j | j < |a| && MatchAt(a + (r + rest), f, j) ensures j + |f| <= |a| {
      if j + |f| > |a| {
        StraddleMeetsFront(a, r, rest, f, j);
      }
    }
  }

  lemma GainAt(s: seq<byte>, f: seq<byte>, d: int, i: int)
    requires f != [] && i == FirstMatch(s, f, 0) && 0 <= i
    ensures i + |f| <= |s| && Gain(s, f, d) == d + Gain(s[i + |f|..], f, d)
  {
    hide FirstMatch;
  }

  lemma FirstMatchExtends(a: seq<byte>, b: seq<byte>, f: seq<byte>)
    requires f != [] && FirstMatch(a, f, 0) >= 0
    ensures FirstMatch(a + b, f, 0) == FirstMatch(a, f, 0)
  {
    var i := FirstMatch(a, f, 0);
    MatchInPrefix(a, b, f, i);
    FirstMatchLeast(a + b, f, 0, i);
    hide FirstMatch;
    FirstMatchInPrefix(a, b, f);
  }

  /** A match behind `x` gives the leftmost replacement at least one match more. */
  lemma {:induction false} OneMoreMatch(x: seq<byte>, f: seq<byte>, c: seq<byte>, d: int)
    requires f != [] && d > 0
    ensures Gain(x, f, d) + d <= Gain(x + f + c, f, d)
    decreases |x|
  {
    hide FirstMatch, Gain;
    var s := x + f + c;
    var i := FirstMatch(x, f, 0);
    if i >= 0 {
      assert s == x + (f + c);
      FirstMatchExtends(x, f + c, f);
      GainAt(x, f, d, i);
      GainAt(s, f, d, i);
      var y := x[i + |f|..];
      assert s[i + |f|..] == y + f + c;
      OneMoreMatch(y, f, c, d);
    } else {
      NoGain(x, f, d);
      assert MatchAt(s, f, |x|);
      FirstMatchLeast(s, f, 0, |x|);
      var j := FirstMatch(s, f, 0);
      GainAt(s, f, d, j);
      GainPositive(s[j + |f|..], f, d);
    }
  }

  lemma NoGain(s: seq<byte>, f: seq<byte>, d: int)
    requires f != [] && FirstMatch(s, f, 0) < 0
    ensures Gain(s, f, d) == 0
  {}

  lemma {:induction false} FromRightNoLonger(a: seq<byte>, b: seq<byte>, f: seq<byte>, r: seq<byte>, index: int)
    requires f != [] && NeverMeets(f, r) && |r| > |f| && NoStraddle(a, b, f)
    requires -1 <= index < |a| && forall j :: index < j < |a| ==> !MatchAt(a + b, f, j)
    ensures |FromRight(a + b, f, r, index)| <= |Leftmost(a, f, r)| + |b|
    decreases index
  {
    hide LastMatch, Leftmost, NeverMeets, FromRight, Gain;
    var s := a + b;
    var i := LastMatch(s, f, index);
    forall j | j < |a| && MatchAt(s, f, j) ensures j <= i {
      LastMatchGreatest(s, f, index, j);
    }
    LeftmostLength(a, f, r);
    GainPositive(a, f, |r| - |f|);
    if i < 0 {
      NoFurtherMatch(s, f, r, index);
    } else {
      var a', c := a[..i], a[i + |f|..];
      assert a == a' + f + c by { MatchInPrefix(a, b, f, i); }
      Regroup(a', f, c, b);
      FromRightStep(a', f, c + b, r, index);
      NeverStraddles(a', r, c + b, f);
      FromRightNoLonger(a', r + (c + b), f, r, i - 1);
      LeftmostLength(a', f, r);
      OneMoreMatch(a', f, c, |r| - |f|);
    }
  }

  /** Then replacing from the right makes at most as many replacements as from the left. */
  lemma RightmostNoLonger(s: seq<byte>, f: seq<byte>, r: seq<byte>)
    requires f != [] && |r| > |f| && NeverMeets(f, r)
    ensures |Rightmost(s, f, r)| <= |Leftmost(s, f, r)|
  {
    assert s + [] == s;
    hide NeverMeets, FromRight, Leftmost;
    FromRightNoLonger(s, [], f, r, |s| - 1);
  }

  /** Matches replaced from the end of the text on, no two of which overlap. */
  function FromEnd(s: seq<byte>, f: seq<byte>, r: seq<byte>): seq<byte>
    requires f != []
  {
    var i := LastMatch(s, f, |s| - 1);
    if i < 0 then s else FromEnd(s[..i], f, r) + (r + s[i + |f|..])
  }

  lemma FromEndStep(a: seq<byte>, f: seq<byte>, c: seq<byte>, r: seq<byte>)
    requires f != [] && LastMatch(a + f + c, f, |a + f + c| - 1) == |a|
    ensures FromEnd(a + f + c, f, r) == FromEnd(a, f, r) + (r + c)
  {
    hide LastMatch;
    var s := a + f + c;
    assert s[..|a|] == a && s[|a| + |f|..] == c;
  }

  lemma {:induction false} FromRightIsFromEnd(a: seq<byte>, b: seq<byte>, f: seq<byte>, r: seq<byte>, index: int)
    requires f != [] && NeverMeets(f, r) && |r| >= |f| && NoStraddle(a, b, f)
    requires -1 <= index < |a| && forall j :: index < j < |a| ==> !MatchAt(a + b, f, j)
    ensures FromRight(a + b, f, r, index) == FromEnd(a, f, r) + b
    decreases index
  {
    hide LastMatch, NeverMeets, FromRight, FromEnd;
    var s := a + b;
    var i := LastMatch(s, f, index);
    forall j | j < |a| && MatchAt(s, f, j) ensures j <= i {
      LastMatchGreatest(s, f, index, j);
    }
    if i < 0 {
      NoFurtherMatch(s, f, r, index);
      NoMatchBefore(a, b, f);
      NothingFromEnd(a, f, r);
    } else {
      var a', c := a[..i], a[i + |f|..];
      assert a == a' + f + c by { MatchInPrefix(a, b, f, i); }
      LastInPrefix(a', f, c, b, i);
      LastMatchIs(a, f, |a| - 1, i);
      FromEndStep(a', f, c, r);
      Regroup(a', f, c, b);
      FromRightStep(a', f, c + b, r, index);
      NeverStraddles(a', r, c + b, f);
      FromRightIsFromEnd(a', r + (c + b), f, r, i - 1);
      Regroup(FromEnd(a', f, r), r, c, b);
    }
  }

  lemma NothingFromEnd(s: seq<byte>, f: seq<byte>, r: seq<byte>)
    requires f != [] && NoMatch(s, f)
    ensures FromEnd(s, f, r) == s
  {}

  /** And it replaces the matches that do not overlap the one replaced before, the last one first. */
  lemma RightmostIsFromEnd(s: seq<byte>, f: seq<byte>, r: seq<byte>)
    requires f != [] && |r| >= |f| && NeverMeets(f, r)
    ensures Rightmost(s, f, r) == FromEnd(s, f, r)
  {
    assert s + [] == s;
    hide NeverMeets, FromRight, FromEnd;
    FromRightIsFromEnd(s, [], f, r, |s| - 1);
  }

  // --- Replacements that do ------------------------------------------------------------------------

  /** `pad` zero or more bytes that do not begin `f`, the front of `f`, and `f`. */
  function Trap(pad: seq<byte>, f: seq<byte>, k: int): seq<byte>
    requires 1 <= k < |f|
  {
    pad + f[..|f| - k] + f
  }

  ghost predicate Padding(pad: seq<byte>, f: seq<byte>) {
    f != [] && forall i :: 0 <= i < |pad| ==> pad[i] != f[0]
  }

  lemma NoMatchInPadding(pad: seq<byte>, rest: seq<byte>, f: seq<byte>, i: int)
    requires Padding(pad, f) && MatchAt(pad + rest, f, i)
    ensures i >= |pad|
  {
    MatchByte(pad + rest, f, i, 0);
  }

  /** The leftmost replacement finds one match in the trap. */
  lemma TrapLeftmost(pad: seq<byte>, f: seq<byte>, r: seq<byte>, k: int)
    requires 1 <= k < |f| < |r| && Padding(pad, f)
    ensures |Leftmost(Trap(pad, f, k), f, r)| <= |pad| + |f| - k + |r|
  {
    hide FirstMatch, Gain, Leftmost;
    var s, d := Trap(pad, f, k), |r| - |f|;
    LeftmostLength(s, f, r);
    var i := FirstMatch(s, f, 0);
    if i < 0 {
      NoGain(s, f, d);
    } else {
      assert s == pad + (f[..|f| - k] + f);
      NoMatchInPadding(pad, f[..|f| - k] + f, f, i);
      GainAt(s, f, d, i);
      ShortGain(s[i + |f|..], f, d);
    }
  }

  lemma ShortGain(s: seq<byte>, f: seq<byte>, d: int)
    requires |s| < |f|
    ensures Gain(s, f, d) == 0
  {}

  /** From the right the replacement makes a second match with the front of `f`. */
  lemma TrapRightmost(pad: seq<byte>, f: seq<byte>, r: seq<byte>, k: int)
    requires 1 <= k < |f| < |r| && SuffixStarts(f, r, k)
    ensures |Rightmost(Trap(pad, f, k), f, r)| > |pad| + |f| - k + |r|
  {
    var a, index := pad + f[..|f| - k], |pad| + |f| - k - 1;
    SecondMatch(pad, f, r, k);
    hide *;
    RightmostAtEnd(a, f, r, index);
    LastMatchGreatest(a + r, f, index, |pad|);
    FromRightGrows(a + r, f, r, index);
  }

  lemma SecondMatch(pad: seq<byte>, f: seq<byte>, r: seq<byte>, k: int)
    requires SuffixStarts(f, r, k)
    ensures MatchAt(pad + f[..|f| - k] + r, f, |pad|)
  {
    var front := f[..|f| - k];
    SpuriousMatch(f, r, k);
    assert pad + front + r == pad + (front + r);
    hide SuffixStarts;
    MatchInSuffix(pad, front + r, f, |pad|);
  }
}
