/**
 * Searching and replacing in byte strings, free of any buffer: what `strstr` and
 * `String::lastIndexOf` find, the leftmost replacement a caller expects of `String::replace`,
 * and the right-to-left replacement that its growing branch performs.
 */
module SearchReplace {
  import opened Memory

  predicate MatchAt(s: seq<byte>, f: seq<byte>, i: int) {
    0 <= i && i + |f| <= |s| && s[i..i + |f|] == f
  }

  lemma MatchByte(s: seq<byte>, f: seq<byte>, i: int, k: nat)
    requires MatchAt(s, f, i) && k < |f|
    ensures i + k < |s| && s[i + k] == f[k]
  {
    assert s[i..i + |f|][k] == s[i + k];
  }

  /** `strstr`: the first match at or after `from`, or -1. */
  function FirstMatch(s: seq<byte>, f: seq<byte>, from: nat): (i: int)
    requires from <= |s|
    ensures i == -1 || (from <= i && MatchAt(s, f, i))
    decreases |s| - from
  {
    if MatchAt(s, f, from) then from
    else if from == |s| then -1
    else FirstMatch(s, f, from + 1)
  }

  lemma {:induction false} FirstMatchLeast(s: seq<byte>, f: seq<byte>, from: nat, j: int)
    requires from <= j && MatchAt(s, f, j)
    ensures 0 <= FirstMatch(s, f, from) <= j
    decreases |s| - from
  {
    if !MatchAt(s, f, from) {
      FirstMatchLeast(s, f, from + 1, j);
    }
  }

  /** The last match at or before `upTo`, or -1. */
  function LastMatch(s: seq<byte>, f: seq<byte>, upTo: int): (i: int)
    requires -1 <= upTo
    ensures i == -1 || (i <= upTo && MatchAt(s, f, i))
  {
    if upTo == -1 then -1
    else if MatchAt(s, f, upTo) then upTo
    else LastMatch(s, f, upTo - 1)
  }

  lemma {:induction false} LastMatchGreatest(s: seq<byte>, f: seq<byte>, upTo: int, j: int)
    requires j <= upTo && MatchAt(s, f, j)
    ensures j <= LastMatch(s, f, upTo)
    decreases upTo
  {
    if !MatchAt(s, f, upTo) {
      LastMatchGreatest(s, f, upTo - 1, j);
    }
  }

  lemma FirstMatchIs(s: seq<byte>, f: seq<byte>, from: nat, i: int)
    requires from <= i && MatchAt(s, f, i) && forall j :: from <= j < i ==> !MatchAt(s, f, j)
    ensures FirstMatch(s, f, from) == i
  {
    FirstMatchLeast(s, f, from, i);
  }

  lemma {:induction false} FirstMatchIsNone(s: seq<byte>, f: seq<byte>, from: nat)
    requires from <= |s| && forall j :: from <= j <= |s| ==> !MatchAt(s, f, j)
    ensures FirstMatch(s, f, from) == -1
    decreases |s| - from
  {
    if from < |s| {
      FirstMatchIsNone(s, f, from + 1);
    }
  }

  lemma LastMatchIs(s: seq<byte>, f: seq<byte>, upTo: int, i: int)
    requires -1 <= upTo && (i == -1 || (i <= upTo && MatchAt(s, f, i)))
    requires forall j :: j <= upTo && MatchAt(s, f, j) ==> j <= i
    ensures LastMatch(s, f, upTo) == i
  {
    if i >= 0 {
      LastMatchGreatest(s, f, upTo, i);
    }
  }

  lemma LastMatchIsNone(s: seq<byte>, f: seq<byte>, upTo: int)
    requires -1 <= upTo && |f| > |s|
    ensures LastMatch(s, f, upTo) == -1
  {}

  /** `r` between the first `i` bytes of `s` and `rest`. */
  function Glue(s: seq<byte>, i: nat, r: seq<byte>, rest: seq<byte>): (t: seq<byte>)
    requires i <= |s|
    ensures |t| == i + |r| + |rest|
  {
    s[..i] + r + rest
  }

  /** Every match of `f` replaced by `r`, scanning from the left, matches not overlapping. */
  function Leftmost(s: seq<byte>, f: seq<byte>, r: seq<byte>): seq<byte>
    requires f != []
    decreases |s|
  {
    var i := FirstMatch(s, f, 0);
    if i < 0 then s else Glue(s, i, r, Leftmost(s[i + |f|..], f, r))
  }

  /** How much longer the text gets when every match `Leftmost` replaces adds `d` bytes. */
  function Gain(s: seq<byte>, f: seq<byte>, d: int): int
    requires f != []
    decreases |s|
  {
    var i := FirstMatch(s, f, 0);
    if i < 0 then 0 else d + Gain(s[i + |f|..], f, d)
  }

  lemma {:induction false} LeftmostLength(s: seq<byte>, f: seq<byte>, r: seq<byte>)
    requires f != []
    ensures |Leftmost(s, f, r)| == |s| + Gain(s, f, |r| - |f|)
    decreases |s|
  {
    hide FirstMatch;
    var i := FirstMatch(s, f, 0);
    if i >= 0 {
      LeftmostLength(s[i + |f|..], f, r);
    }
  }

  /**
   * Matches replaced from the right: the last match starting at or before `index` in the text as
   * it stands, then the last one starting before that, and so on.
   */
  function FromRight(s: seq<byte>, f: seq<byte>, r: seq<byte>, index: int): seq<byte>
    requires f != [] && -1 <= index
    decreases index
  {
    var i := LastMatch(s, f, index);
    if i < 0 then s else FromRight(Glue(s, i, r, s[i + |f|..]), f, r, i - 1)
  }

  function Rightmost(s: seq<byte>, f: seq<byte>, r: seq<byte>): seq<byte>
    requires f != []
  {
    FromRight(s, f, r, |s| - 1)
  }

  /** The last `k` bytes of `f`, some but not all of them, are how `t` begins. */
  predicate SuffixStarts(f: seq<byte>, t: seq<byte>, k: int) {
    1 <= k < |f| && f[|f| - k..] <= t
  }

  /** No non-empty proper suffix of `f` is a prefix of `f` or of `r`. */
  ghost predicate Clean(f: seq<byte>, r: seq<byte>) {
    forall k :: !SuffixStarts(f, f, k) && !SuffixStarts(f, r, k)
  }

  // --- Matches in parts of a text -----------------------------------------------------------

  /** A match that runs from `a` into `b` makes a suffix of `f` the beginning of `b`. */
  lemma StraddleMeets(a: seq<byte>, b: seq<byte>, f: seq<byte>, i: int)
    requires MatchAt(a + b, f, i) && i < |a| < i + |f| && |b| >= |f|
    ensures SuffixStarts(f, b, i + |f| - |a|)
  {
    var s, k := a + b, i + |f| - |a|;
    assert f[|f| - k..] == s[|a|..|a| + k];
    assert s[|a|..|a| + k] == b[..k];
  }

  /** Two overlapping matches make a suffix of `f` the beginning of `f`. */
  lemma OverlapMeets(s: seq<byte>, f: seq<byte>, i: int, j: int)
    requires MatchAt(s, f, i) && MatchAt(s, f, j) && i < j < i + |f|
    ensures SuffixStarts(f, f, i + |f| - j)
  {
    var k := i + |f| - j;
    assert f[|f| - k..] == s[j..j + k];
    assert f[..k] == s[j..j + k];
  }

  lemma NoOverlap(s: seq<byte>, f: seq<byte>, r: seq<byte>, i: int, j: int)
    requires Clean(f, r) && MatchAt(s, f, i) && MatchAt(s, f, j) && i < j
    ensures i + |f| <= j
  {
    if j < i + |f| {
      OverlapMeets(s, f, i, j);
    }
  }

  lemma MatchInPrefix(a: seq<byte>, b: seq<byte>, f: seq<byte>, i: int)
    requires i + |f| <= |a|
    ensures MatchAt(a + b, f, i) <==> MatchAt(a, f, i)
  {
    if 0 <= i {
      assert (a + b)[i..i + |f|] == a[i..i + |f|];
    }
  }

  lemma MatchInSuffix(a: seq<byte>, b: seq<byte>, f: seq<byte>, i: int)
    requires |a| <= i
    ensures MatchAt(a + b, f, i) <==> MatchAt(b, f, i - |a|)
  {
    if i + |f| <= |a + b| {
      assert (a + b)[i..i + |f|] == b[i - |a|..i - |a| + |f|];
    }
  }

  ghost predicate NoMatch(s: seq<byte>, f: seq<byte>) {
    forall j :: !MatchAt(s, f, j)
  }

  lemma NoMatchNoChange(s: seq<byte>, f: seq<byte>, r: seq<byte>)
    requires f != [] && NoMatch(s, f)
    ensures Leftmost(s, f, r) == s
  {}

  lemma LeftmostStep(s: seq<byte>, f: seq<byte>, r: seq<byte>, i: int)
    requires f != [] && i == FirstMatch(s, f, 0) && 0 <= i
    ensures i + |f| <= |s|
    ensures Leftmost(s, f, r) == Glue(s, i, r, Leftmost(s[i + |f|..], f, r))
  {
    hide FirstMatch, Glue;
  }

  lemma NoMatchBefore(a: seq<byte>, b: seq<byte>, f: seq<byte>)
    requires forall j :: j < |a| ==> !MatchAt(a + b, f, j)
    requires f != []
    ensures NoMatch(a, f)
  {
    forall j ensures !MatchAt(a, f, j) {
      if MatchAt(a, f, j) { MatchInPrefix(a, b, f, j); }
    }
  }

  lemma NoMatchAfter(a: seq<byte>, b: seq<byte>, f: seq<byte>)
    requires forall j :: |a| <= j ==> !MatchAt(a + b, f, j)
    ensures NoMatch(b, f)
  {
    forall j ensures !MatchAt(b, f, j) {
      if MatchAt(b, f, j) { MatchInSuffix(a, b, f, j + |a|); }
    }
  }

  lemma FirstMatchInPrefix(a: seq<byte>, b: seq<byte>, f: seq<byte>)
    requires f != [] && FirstMatch(a + b, f, 0) >= 0
    requires FirstMatch(a + b, f, 0) + |f| <= |a|
    ensures FirstMatch(a, f, 0) == FirstMatch(a + b, f, 0)
  {
    var first, found := FirstMatch(a + b, f, 0), FirstMatch(a, f, 0);
    MatchInPrefix(a, b, f, first);
    FirstMatchLeast(a, f, 0, first);
    MatchInPrefix(a, b, f, found);
    FirstMatchLeast(a + b, f, 0, found);
  }

  // --- Scanning on from a position ----------------------------------------------------------

  lemma MatchShift(s: seq<byte>, f: seq<byte>, from: nat, k: nat, at: nat)
    requires at == from + k <= |s|
    ensures MatchAt(s[from..], f, k) <==> MatchAt(s, f, at)
  {
    assert s == s[..from] + s[from..];
    MatchInSuffix(s[..from], s[from..], f, at);
  }

  lemma {:induction false} FirstMatchShift(s: seq<byte>, f: seq<byte>, from: nat, k: nat, at: nat)
    requires at == from + k <= |s|
    ensures var i := FirstMatch(s[from..], f, k);
      FirstMatch(s, f, at) == if i < 0 then -1 else i + from
    decreases |s| - at
  {
    hide MatchAt;
    MatchShift(s, f, from, k, at);
    if !MatchAt(s, f, at) && at < |s| {
      FirstMatchShift(s, f, from, k + 1, at + 1);
    }
  }

  lemma LaterGlued(s: seq<byte>, i: nat, next: nat, n: nat, r: seq<byte>, tail: seq<byte>)
    requires s != [] && next == i + 1 && next + n <= |s|
    ensures Glue(s, next, r, tail) == [s[0]] + Glue(s[1..], i, r, tail) && s[next + n..] == s[1..][i + n..]
  {
    assert s[..next] == [s[0]] + s[1..][..i];
  }

  lemma FirstMatchLater(s: seq<byte>, f: seq<byte>)
    requires f != [] && s != [] && !MatchAt(s, f, 0)
    ensures FirstMatch(s, f, 0) == if FirstMatch(s[1..], f, 0) < 0 then -1 else FirstMatch(s[1..], f, 0) + 1
  {
    FirstMatchShift(s, f, 1, 0, 1);
    assert FirstMatch(s, f, 0) == FirstMatch(s, f, 1);
  }

  /** Without a match at its start, the first byte of a text stays. */
  lemma LeftmostLater(s: seq<byte>, f: seq<byte>, r: seq<byte>)
    requires f != [] && s != [] && !MatchAt(s, f, 0)
    ensures Leftmost(s, f, r) == [s[0]] + Leftmost(s[1..], f, r)
  {
    var rest := s[1..];
    FirstMatchLater(s, f);
    var i := FirstMatch(rest, f, 0);
    if i < 0 {
      hide FirstMatch, MatchAt;
    } else {
      var next := i + 1;
      LeftmostStep(rest, f, r, i);
      LeftmostStep(s, f, r, next);
      hide FirstMatch, MatchAt, Glue, Leftmost;
      LaterGlued(s, i, next, |f|, r, Leftmost(s[next + |f|..], f, r));
    }
  }

  /** What `strstr` finds from `from` on depends on nothing before `from`. */
  lemma SameRest(s: seq<byte>, t: seq<byte>, f: seq<byte>, from: nat)
    requires |s| == |t| && from <= |s| && s[from..] == t[from..]
    ensures FirstMatch(s, f, from) == FirstMatch(t, f, from)
  {
    hide FirstMatch;
    FirstMatchShift(s, f, from, 0, from);
    FirstMatchShift(t, f, from, 0, from);
  }

  /** `Leftmost` of the text from `from` on, as a loop over positions computes it. */
  function LeftmostFrom(s: seq<byte>, f: seq<byte>, r: seq<byte>, from: nat): seq<byte>
    requires f != [] && from <= |s|
    decreases |s| - from
  {
    var i := FirstMatch(s, f, from);
    if i < 0 then s[from..] else s[from..i] + r + LeftmostFrom(s, f, r, i + |f|)
  }

  function GainFrom(s: seq<byte>, f: seq<byte>, d: int, from: nat): int
    requires f != [] && from <= |s|
    decreases |s| - from
  {
    var i := FirstMatch(s, f, from);
    if i < 0 then 0 else d + GainFrom(s, f, d, i + |f|)
  }

  lemma SuffixParts(s: seq<byte>, from: nat, i: nat, j: nat, next: nat, cut: nat)
    requires from <= i <= next <= |s| && i == from + j && next == from + cut
    ensures s[from..][cut..] == s[next..] && s[from..][..j] == s[from..i]
  {}

  lemma LeftmostFromNext(s: seq<byte>, f: seq<byte>, r: seq<byte>, from: nat, i: nat, next: nat)
    requires f != [] && from <= |s| && FirstMatch(s, f, from) == i && next == i + |f|
    ensures next <= |s| && LeftmostFrom(s, f, r, from) == s[from..i] + r + LeftmostFrom(s, f, r, next)
  {
    hide FirstMatch;
  }

  lemma {:induction false} LeftmostFromIs(s: seq<byte>, f: seq<byte>, r: seq<byte>, from: nat)
    requires f != [] && from <= |s|
    ensures LeftmostFrom(s, f, r, from) == Leftmost(s[from..], f, r)
    decreases |s| - from
  {
    hide FirstMatch, Leftmost, Glue;
    FirstMatchShift(s, f, from, 0, from);
    var rest := s[from..];
    var i, j := FirstMatch(s, f, from), FirstMatch(rest, f, 0);
    if j < 0 {
      LeftmostNone(rest, f, r);
    } else {
      var next, cut := i + |f|, j + |f|;
      LeftmostStep(rest, f, r, j);
      LeftmostFromIs(s, f, r, next);
      SuffixParts(s, from, i, j, next, cut);
      hide LeftmostFrom;
      GlueIs(rest, j, r, Leftmost(s[next..], f, r));
      LeftmostFromNext(s, f, r, from, i, next);
    }
  }

  lemma LeftmostNone(s: seq<byte>, f: seq<byte>, r: seq<byte>)
    requires f != [] && FirstMatch(s, f, 0) < 0
    ensures Leftmost(s, f, r) == s
  {
    hide FirstMatch;
  }

  lemma {:induction false} GainFromIs(s: seq<byte>, f: seq<byte>, d: int, from: nat)
    requires f != [] && from <= |s|
    ensures GainFrom(s, f, d, from) == Gain(s[from..], f, d)
    decreases |s| - from
  {
    hide FirstMatch;
    FirstMatchShift(s, f, from, 0, from);
    var rest := s[from..];
    var i, j := FirstMatch(s, f, from), FirstMatch(rest, f, 0);
    if j >= 0 {
      var next, cut := i + |f|, j + |f|;
      GainFromIs(s, f, d, next);
      assert rest[cut..] == s[next..];
    }
  }

  lemma {:induction false} LeftmostNulFree(s: seq<byte>, f: seq<byte>, r: seq<byte>)
    requires f != [] && NulFree(s) && NulFree(r)
    ensures NulFree(Leftmost(s, f, r))
    decreases |s|
  {
    hide FirstMatch;
    var i := FirstMatch(s, f, 0);
    if i >= 0 {
      LeftmostNulFree(s[i + |f|..], f, r);
    }
  }

  lemma NoGainNoMatch(s: seq<byte>, f: seq<byte>, r: seq<byte>)
    requires f != [] && |r| > |f| && Gain(s, f, |r| - |f|) == 0
    ensures Leftmost(s, f, r) == s && Rightmost(s, f, r) == s
  {
    hide FirstMatch, LastMatch;
    GainPositive(s, f, |r| - |f|);
    var last := LastMatch(s, f, |s| - 1);
    if last >= 0 {
      FirstMatchLeast(s, f, 0, last);
    }
  }

  lemma {:induction false} GainPositive(s: seq<byte>, f: seq<byte>, d: int)
    requires f != [] && d > 0
    ensures Gain(s, f, d) >= 0 && (Gain(s, f, d) == 0 ==> FirstMatch(s, f, 0) < 0)
    decreases |s|
  {
    hide FirstMatch;
    var i := FirstMatch(s, f, 0);
    if i >= 0 {
      GainPositive(s[i + |f|..], f, d);
    }
  }

  // --- Clean patterns: right to left is left to right -----------------------------------------

  lemma FirstIsLast(a: seq<byte>, c: seq<byte>, f: seq<byte>)
    requires f != [] && FirstMatch(a + f + c, f, 0) == |a|
    requires forall j :: MatchAt(a + f + c, f, j) ==> j <= |a|
    ensures NoMatch(a, f) && NoMatch(c, f)
  {
    var s, fc, af := a + f + c, f + c, a + f;
    Assoc(a, f, c);
    NothingEarlier(s, f, |a|);
    hide FirstMatch, MatchAt;
    NoMatchBefore(a, fc, f);
    NoMatchAfter(af, c, f);
  }

  lemma NothingEarlier(s: seq<byte>, f: seq<byte>, i: int)
    requires FirstMatch(s, f, 0) == i
    ensures forall j :: j < i ==> !MatchAt(s, f, j)
  {
    forall j | j < i ensures !MatchAt(s, f, j) {
      if MatchAt(s, f, j) {
        FirstMatchLeast(s, f, 0, j);
      }
    }
  }

  /** With nothing overlapping, `Leftmost` can be taken apart at the last match instead. */
  lemma {:induction false} LeftmostByLast(a: seq<byte>, c: seq<byte>, f: seq<byte>, r: seq<byte>)
    requires f != [] && Clean(f, r)
    requires forall j :: MatchAt(a + f + c, f, j) ==> j <= |a|
    ensures Leftmost(a + f + c, f, r) == Leftmost(a, f, r) + r + c
    decreases |a|
  {
    hide FirstMatch, Leftmost, Clean, MatchAt, Glue;
    var s := a + f + c;
    FirstMatchOfSum(a, c, f, r);
    var first := FirstMatch(s, f, 0);
    LeftmostStep(s, f, r, first);
    if first == |a| {
      FirstIsLast(a, c, f);
      NoMatchNoChange(a, f, r);
      NoMatchNoChange(c, f, r);
      assert s[|a| + |f|..] == c;
      GlueIs(s, |a|, r, c);
      assert s[..|a|] == a;
    } else {
      LeftmostStep(a, f, r, first);
      var cut := first + |f|;
      LastStaysLast(a, c, f, cut);
      LeftmostByLast(a[cut..], c, f, r);
      PeelFirst(s, a, first, Leftmost(a[cut..], f, r), c, r);
    }
  }

  lemma FirstMatchOfSum(a: seq<byte>, c: seq<byte>, f: seq<byte>, r: seq<byte>)
    requires f != [] && Clean(f, r)
    ensures var first := FirstMatch(a + f + c, f, 0);
      first == |a| ||
      (0 <= first && first + |f| <= |a| && FirstMatch(a, f, 0) == first && (a + f + c)[..first] == a[..first])
  {
    hide FirstMatch;
    var s := a + f + c;
    FirstMatchLeast(s, f, 0, |a|);
    var first := FirstMatch(s, f, 0);
    if first != |a| {
      NoOverlap(s, f, r, first, |a|);
      assert s == a + (f + c);
      FirstMatchInPrefix(a, f + c, f);
    }
  }

  lemma GlueIs(s: seq<byte>, i: nat, r: seq<byte>, rest: seq<byte>)
    requires i <= |s|
    ensures Glue(s, i, r, rest) == s[..i] + r + rest
  {}

  lemma LastStaysLast(a: seq<byte>, c: seq<byte>, f: seq<byte>, cut: nat)
    requires cut <= |a| && forall j :: MatchAt(a + f + c, f, j) ==> j <= |a|
    ensures (a + f + c)[cut..] == a[cut..] + f + c
    ensures forall j :: MatchAt(a[cut..] + f + c, f, j) ==> j <= |a| - cut
  {
    var s, t := a + f + c, a[cut..] + f + c;
    assert s == s[..cut] + t;
    forall j | MatchAt(t, f, j) ensures j <= |a| - cut {
      MatchInSuffix(s[..cut], t, f, j + cut);
    }
  }

  lemma PeelFirst(s: seq<byte>, a: seq<byte>, i: nat, y: seq<byte>, z: seq<byte>, r: seq<byte>)
    requires i <= |s| && i <= |a| && s[..i] == a[..i]
    ensures Glue(s, i, r, y + r + z) == Glue(a, i, r, y) + r + z
  {}

  /** No match of `f` in `a + b` starts in `a` and ends in `b`. */
  ghost predicate NoStraddle(a: seq<byte>, b: seq<byte>, f: seq<byte>) {
    forall j :: j < |a| && MatchAt(a + b, f, j) ==> j + |f| <= |a|
  }

  lemma StraddleMeetsFront(a: seq<byte>, r: seq<byte>, rest: seq<byte>, f: seq<byte>, j: int)
    requires MatchAt(a + (r + rest), f, j) && j < |a| < j + |f| && |r| >= |f|
    ensures SuffixStarts(f, r, j + |f| - |a|)
  {
    StraddleMeets(a, r + rest, f, j);
  }

  lemma CleanNoStraddle(a: seq<byte>, r: seq<byte>, rest: seq<byte>, f: seq<byte>)
    requires Clean(f, r) && |r| >= |f|
    ensures NoStraddle(a, r + rest, f)
  {
    forall j | j < |a| && MatchAt(a + (r + rest), f, j) ensures j + |f| <= |a| {
      if j + |f| > |a| {
        StraddleMeetsFront(a, r, rest, f, j);
      }
    }
  }

  lemma FromRightStep(a: seq<byte>, f: seq<byte>, c: seq<byte>, r: seq<byte>, index: int)
    requires f != [] && -1 <= index && LastMatch(a + f + c, f, index) == |a|
    ensures FromRight(a + f + c, f, r, index) == FromRight(a + (r + c), f, r, |a| - 1)
  {
    hide LastMatch;
    var s := a + f + c;
    assert Glue(s, |a|, r, s[|a| + |f|..]) == a + (r + c);
  }

  lemma Regroup(x: seq<byte>, y: seq<byte>, z: seq<byte>, w: seq<byte>)
    ensures x + y + z + w == x + y + (z + w) == x + (y + (z + w))
  {}

  lemma {:induction false} FromRightIsLeftmost(a: seq<byte>, b: seq<byte>, f: seq<byte>, r: seq<byte>, index: int)
    requires f != [] && Clean(f, r) && |r| >= |f| && NoStraddle(a, b, f)
    requires -1 <= index < |a| && forall j :: index < j < |a| ==> !MatchAt(a + b, f, j)
    ensures FromRight(a + b, f, r, index) == Leftmost(a, f, r) + b
    decreases index
  {
    hide LastMatch, Leftmost, Clean, FromRight;
    var s := a + b;
    var i := LastMatch(s, f, index);
    forall j | j < |a| && MatchAt(s, f, j) ensures j <= i {
      LastMatchGreatest(s, f, index, j);
    }
    if i < 0 {
      NoMatchBefore(a, b, f);
      NoMatchNoChange(a, f, r);
      NoFurtherMatch(s, f, r, index);
    } else {
      var a', c := a[..i], a[i + |f|..];
      assert a == a' + f + c by { MatchInPrefix(a, b, f, i); }
      LastInPrefix(a', f, c, b, i);
      LeftmostByLast(a', c, f, r);
      Regroup(a', f, c, b);
      FromRightStep(a', f, c + b, r, index);
      CleanNoStraddle(a', r, c + b, f);
      FromRightIsLeftmost(a', r + (c + b), f, r, i - 1);
      Regroup(Leftmost(a', f, r), r, c, b);
    }
  }

  lemma LastInPrefix(a: seq<byte>, f: seq<byte>, c: seq<byte>, b: seq<byte>, i: int)
    requires f != []
    requires forall j :: j < |a + f + c| && MatchAt(a + f + c + b, f, j) ==> j <= i
    ensures forall j :: MatchAt(a + f + c, f, j) ==> j <= i
  {
    forall j | MatchAt(a + f + c, f, j) ensures j <= i {
      MatchInPrefix(a + f + c, b, f, j);
    }
  }

  lemma CleanReplacesLeftmost(s: seq<byte>, f: seq<byte>, r: seq<byte>)
    requires f != [] && |r| >= |f| && Clean(f, r)
    ensures Rightmost(s, f, r) == Leftmost(s, f, r)
  {
    assert s + [] == s;
    FromRightIsLeftmost(s, [], f, r, |s| - 1);
  }

  /** One round of the right-to-left loop. */
  lemma FromRightRound(s: seq<byte>, f: seq<byte>, r: seq<byte>, index: int)
    requires f != [] && -1 <= index
    ensures var i := LastMatch(s, f, index);
      (i < 0 ==> FromRight(s, f, r, index) == s) &&
      (i >= 0 ==> i <= index && i + |f| <= |s|) &&
      (i >= 0 ==> FromRight(s, f, r, index) == FromRight(Glue(s, i, r, s[i + |f|..]), f, r, i - 1))
  {
    hide LastMatch;
  }

  // --- Patterns that are not clean ----------------------------------------------------------

  lemma {:induction false} FromRightGrows(s: seq<byte>, f: seq<byte>, r: seq<byte>, index: int)
    requires f != [] && -1 <= index && |r| > |f|
    ensures |FromRight(s, f, r, index)| >= |s|
    ensures LastMatch(s, f, index) >= 0 ==> |FromRight(s, f, r, index)| > |s|
    decreases index
  {
    hide LastMatch;
    var i := LastMatch(s, f, index);
    if i >= 0 {
      FromRightGrows(Glue(s, i, r, s[i + |f|..]), f, r, i - 1);
    }
  }

  /** The first replacement from the right, in a text that ends with a match. */
  lemma RightmostAtEnd(a: seq<byte>, f: seq<byte>, r: seq<byte>, index: int)
    requires f != [] && index == |a| - 1
    ensures Rightmost(a + f, f, r) == FromRight(a + r, f, r, index)
  {
    hide LastMatch;
    var s := a + f;
    assert MatchAt(s, f, |a|);
    LastMatchGreatest(s, f, |s| - 1, |a|);
    var i := LastMatch(s, f, |s| - 1);
    assert i == |a|;
    assert Glue(s, i, r, s[i + |f|..]) == a + r;
  }

  lemma LeftmostAtEnd(a: seq<byte>, f: seq<byte>, r: seq<byte>)
    requires |a| < |f| && forall j :: !SuffixStarts(f, f, j)
    ensures Leftmost(a + f, f, r) == a + r
  {
    hide FirstMatch, Leftmost, SuffixStarts;
    var s, m := a + f, |a|;
    FirstMatchLeast(s, f, 0, m);
    var first := FirstMatch(s, f, 0);
    if first < m {
      OverlapMeets(s, f, first, m);
    }
    LeftmostStep(s, f, r, m);
    var rest := s[m + |f|..];
    NoMatchNoChange(rest, f, r);
  }

  lemma SpuriousMatch(f: seq<byte>, r: seq<byte>, k: int)
    requires SuffixStarts(f, r, k)
    ensures MatchAt(f[..|f| - k] + r, f, 0)
  {
    var a := f[..|f| - k];
    assert (a + r)[..|f|] == a + r[..k];
    assert r[..k] == f[|f| - k..];
  }

  /** A suffix of `f` that begins `r`: the text below gets a second, spurious replacement. */
  lemma MeetsReplacementBreaks(a: seq<byte>, f: seq<byte>, r: seq<byte>, k: int)
    requires |r| > |f| && SuffixStarts(f, r, k) && forall j :: !SuffixStarts(f, f, j)
    requires a == f[..|f| - k]
    ensures Rightmost(a + f, f, r) != Leftmost(a + f, f, r)
  {
    var m := |a|;
    SpuriousMatch(f, r, k);
    LeftmostAtEnd(a, f, r);
    assert 0 < m;
    hide *;
    var s, index := a + r, m - 1;
    RightmostAtEnd(a, f, r, index);
    LastMatchGreatest(s, f, index, 0);
    FromRightGrows(s, f, r, index);
    assert |Rightmost(a + f, f, r)| > |s|;
  }

  /** The same text read as overlapping matches at its start and at its end. */
  lemma TwoReadings(f: seq<byte>, k: int)
    requires SuffixStarts(f, f, k)
    ensures f[..|f| - k] + f == f + f[k..]
  {
    assert f == f[..|f| - k] + f[|f| - k..];
    assert f == f[..k] + f[k..];
    assert f[|f| - k..] == f[..k];
  }

  lemma LeftmostAtStart(tail: seq<byte>, f: seq<byte>, r: seq<byte>)
    requires |tail| < |f|
    ensures Leftmost(f + tail, f, r) == r + tail
  {
    hide FirstMatch, Leftmost;
    var s := f + tail;
    assert MatchAt(s, f, 0);
    FirstMatchLeast(s, f, 0, 0);
    LeftmostStep(s, f, r, 0);
    assert s[|f|..] == tail;
    NoMatchNoChange(tail, f, r);
  }

  /** A border of `f`: in the text below the two directions pick different matches. */
  lemma BorderBreaks(f: seq<byte>, r: seq<byte>, k: int)
    requires |r| > |f| && SuffixStarts(f, f, k)
    ensures Rightmost(f[..|f| - k] + f, f, r) != Leftmost(f[..|f| - k] + f, f, r)
  {
    var m := |f| - k;
    assert 0 < m < |f|;
    var a, tail := f[..m], f[k..];
    TwoReadings(f, k);
    hide LastMatch, Leftmost, FromRight, Rightmost, SuffixStarts, MatchAt;
    LeftmostAtStart(tail, f, r);
    var s, index := a + r, m - 1;
    RightmostAtEnd(a, f, r, index);
    FromRightGrows(s, f, r, index);
    if LastMatch(s, f, index) < 0 {
      NoFurtherMatch(s, f, r, index);
      if s == r + tail {
        EarlyMatch(f, r, k);
        LastMatchGreatest(s, f, index, 0);
      }
    }
  }

  lemma EarlyMatch(f: seq<byte>, r: seq<byte>, k: int)
    requires SuffixStarts(f, f, k) && |r| > |f|
    requires f[..|f| - k] + r == r + f[k..]
    ensures MatchAt(f[..|f| - k] + r, f, 0)
  {
    PeriodicStart(f, r, k, |f|);
  }

  lemma NoFurtherMatch(s: seq<byte>, f: seq<byte>, r: seq<byte>, index: int)
    requires f != [] && -1 <= index && LastMatch(s, f, index) < 0
    ensures FromRight(s, f, r, index) == s
  {}

  /** If `f` has a border of length `k` and `r` continues it, `f` reappears `|f| - k` bytes early. */
  lemma {:induction false} PeriodicStart(f: seq<byte>, r: seq<byte>, k: int, n: nat)
    requires SuffixStarts(f, f, k) && |r| > |f| && n <= |f|
    requires f[..|f| - k] + r == r + f[k..]
    ensures r[..n] == f[..n] && (f[..|f| - k] + r)[..n] == f[..n]
    decreases n
  {
    if n > 0 {
      PeriodicStart(f, r, k, n - 1);
      var m, j := |f| - k, n - 1;
      assert (f[..m] + r)[j] == (r + f[k..])[j] == r[j];
      if j >= m {
        assert f[j] == f[m..][j - m] == f[..k][j - m] == f[j - m];
        assert (f[..m] + r)[j] == r[j - m] == r[..n - 1][j - m];
      }
    }
  }

  /**
   * For a replacement longer than the pattern, replacing from the right is the leftmost
   * replacement for every text exactly when the pattern is clean.
   */
  lemma RightmostIsLeftmostExactly(f: seq<byte>, r: seq<byte>)
    requires f != [] && |r| > |f|
    ensures (forall s :: Rightmost(s, f, r) == Leftmost(s, f, r)) <==> Clean(f, r)
  {
    if Clean(f, r) {
      forall s ensures Rightmost(s, f, r) == Leftmost(s, f, r) {
        CleanReplacesLeftmost(s, f, r);
      }
    } else if k :| SuffixStarts(f, f, k) {
      BorderBreaks(f, r, k);
    } else {
      var k :| SuffixStarts(f, r, k);
      MeetsReplacementBreaks(f[..|f| - k], f, r, k);
    }
  }
}
