/**
 * Searching a stream for a target: `Stream::findUntil` of cores/arduino/Stream.cpp. A stream is
 * the sequence of bytes that arrive before reading times out; no clock is modelled.
 */
module StreamFind {
  import opened Memory

  /** The number of bytes consumed when the search ends, and how it ended. */
  datatype Outcome = Found(at: nat) | Terminated(at: nat) | Exhausted(at: nat)

  /** The index into the target after byte `c`. */
  function Step(t: seq<byte>, i: nat, c: byte): (i': nat)
    requires i < |t|
    ensures i' <= i + 1 && (i' > 0 ==> t[i' - 1] == c)
  {
    var i0 := if c != t[i] then 0 else i;
    if c == t[i0] then i0 + 1 else i0
  }

  /** The index into the terminator; it does not look at the byte again after a mismatch. */
  function TermStep(u: seq<byte>, j: nat, c: byte): (j': nat)
    requires j < |u|
    ensures j' <= j + 1
  {
    if c == u[j] then j + 1 else 0
  }

  /** The search of `s` from byte `k` on for target `t`, ended by terminator `u` if that is not empty. */
  function Find(s: seq<byte>, k: nat, t: seq<byte>, u: seq<byte>, i: nat, j: nat): Outcome
    requires k <= |s| && i < |t| && (u == [] || j < |u|)
    decreases |s| - k
  {
    if k == |s| then Exhausted(k)
    else if s[k] == 0 then Exhausted(k + 1)
    else
      var i' := Step(t, i, s[k]);
      if i' >= |t| then Found(k + 1)
      else if u == [] then Find(s, k + 1, t, u, i', j)
      else
        var j' := TermStep(u, j, s[k]);
        if j' >= |u| then Terminated(k + 1) else Find(s, k + 1, t, u, i', j')
  }

  /** `findUntil`: an empty target is found at once, and so is one that starts with a NUL. */
  function FindUntil(s: seq<byte>, t: seq<byte>, u: seq<byte>): Outcome {
    if t == [] || t[0] == 0 then Found(0) else Find(s, 0, t, u, 0, 0)
  }

  // --- Soundness ------------------------------------------------------------------------------------

  /** The last `m` bytes of the first `k` bytes of `s` are the first `m` of `t`. */
  predicate EndsWith(s: seq<byte>, k: nat, t: seq<byte>, m: nat) {
    m <= k <= |s| && m <= |t| && s[k - m..k] == t[..m]
  }

  lemma EndsNext(s: seq<byte>, k: nat, t: seq<byte>, m: nat)
    requires k < |s| && m < |t|
    ensures EndsWith(s, k + 1, t, m + 1) <==> EndsWith(s, k, t, m) && s[k] == t[m]
  {
    if m <= k {
      assert s[k - m..k + 1] == s[k - m..k] + [s[k]];
      assert t[..m + 1] == t[..m] + [t[m]];
    }
  }

  lemma SoundNext(s: seq<byte>, k: nat, next: nat, t: seq<byte>, i: nat)
    requires k < |s| && next == k + 1 && i < |t| && EndsWith(s, k, t, i)
    ensures EndsWith(s, next, t, Step(t, i, s[k]))
  {
    EndsNext(s, k, t, i);
    EndsNext(s, k, t, 0);
    EndsEmpty(s, k, t);
    EndsEmpty(s, next, t);
    hide EndsWith;
  }

  lemma SoundTermNext(s: seq<byte>, k: nat, next: nat, u: seq<byte>, j: nat)
    requires k < |s| && next == k + 1 && j < |u| && EndsWith(s, k, u, j)
    ensures EndsWith(s, next, u, TermStep(u, j, s[k]))
  {
    EndsNext(s, k, u, j);
    EndsEmpty(s, next, u);
    hide EndsWith;
  }

  lemma {:induction false} FindSound(s: seq<byte>, k: nat, t: seq<byte>, u: seq<byte>, i: nat, j: nat)
    requires k <= |s| && i < |t| && (u == [] || j < |u|)
    requires EndsWith(s, k, t, i) && (u != [] ==> EndsWith(s, k, u, j))
    ensures match Find(s, k, t, u, i, j)
      case Found(at) => EndsWith(s, at, t, |t|)
      case Terminated(at) => u != [] && EndsWith(s, at, u, |u|)
      case Exhausted(at) => at == |s| || (0 < at <= |s| && s[at - 1] == 0)
    decreases |s| - k
  {
    hide EndsWith, Step, TermStep;
    if k < |s| && s[k] != 0 {
      var next, i' := k + 1, Step(t, i, s[k]);
      SoundNext(s, k, next, t, i);
      if u == [] {
        if i' < |t| {
          FindSound(s, next, t, u, i', j);
        }
      } else {
        var j' := TermStep(u, j, s[k]);
        SoundTermNext(s, k, next, u, j);
        if i' < |t| && j' < |u| {
          FindSound(s, next, t, u, i', j');
        }
      }
    }
  }

  lemma EndsEmpty(s: seq<byte>, k: nat, t: seq<byte>)
    requires k <= |s|
    ensures EndsWith(s, k, t, 0)
  {}

  /**
   * Soundness for every target and terminator: `true` means that the bytes just consumed are the
   * target, and a stop at the terminator means that they are the terminator.
   */
  lemma FindUntilSound(s: seq<byte>, t: seq<byte>, u: seq<byte>)
    requires t != [] && t[0] != 0
    ensures match FindUntil(s, t, u)
      case Found(at) => EndsWith(s, at, t, |t|)
      case Terminated(at) => u != [] && EndsWith(s, at, u, |u|)
      case Exhausted(at) => at == |s| || (0 < at <= |s| && s[at - 1] == 0)
  {
    EndsEmpty(s, 0, t);
    EndsEmpty(s, 0, u);
    FindSound(s, 0, t, u, 0, 0);
  }

  // --- Completeness -----------------------------------------------------------------------------------

  /** Wherever the first byte of the target comes again, the target goes on as it began. */
  predicate Restarts(t: seq<byte>) {
    forall p :: 0 < p < |t| && t[p] == t[0] ==> t[p..] <= t
  }

  /** The search is at the longest beginning of the target that ends here. */
  ghost predicate AtLongest(s: seq<byte>, k: nat, t: seq<byte>, i: nat) {
    i < |t| && EndsWith(s, k, t, i) && forall m :: i < m <= |t| ==> !EndsWith(s, k, t, m)
  }

  lemma StepStaysLongest(s: seq<byte>, k: nat, t: seq<byte>, i: nat)
    requires Restarts(t) && AtLongest(s, k, t, i) && k < |s|
    ensures var i' := Step(t, i, s[k]);
      if i' < |t| then AtLongest(s, k + 1, t, i') else EndsWith(s, k + 1, t, |t|)
  {
    var c, i' := s[k], Step(t, i, s[k]);
    EndsNext(s, k, t, i);
    EndsNext(s, k, t, 0);
    EndsEmpty(s, k, t);
    EndsEmpty(s, k + 1, t);
    var next := k + 1;
    forall m | i' < m <= |t| ensures !EndsWith(s, next, t, m) {
      NoLongerEnd(s, k, next, t, i, m);
    }
  }

  lemma NoLongerEnd(s: seq<byte>, k: nat, next: nat, t: seq<byte>, i: nat, m: nat)
    requires Restarts(t) && AtLongest(s, k, t, i) && k < |s| && next == k + 1
    requires Step(t, i, s[k]) < m <= |t|
    ensures !EndsWith(s, next, t, m)
  {
    EndsNext(s, k, t, m - 1);
    if 1 < m <= i && EndsWith(s, k, t, m - 1) {
      Overlap(s, k, t, i, m - 1);
    }
    hide EndsWith, Restarts;
  }

  /** Two beginnings of the target that end at the same place. */
  lemma Overlap(s: seq<byte>, k: nat, t: seq<byte>, i: nat, m: nat)
    requires EndsWith(s, k, t, i) && EndsWith(s, k, t, m) && 0 < m < i < |t| && Restarts(t)
    ensures t[i] == t[m]
  {
    var p := i - m;
    assert t[..i][p] == s[k - i..k][p] == s[k - m] == s[k - m..k][0] == t[..m][0];
    assert t[p..] <= t;
    assert t[p..][m] == t[m];
  }

  /** The target ends after `k` bytes of the stream and not before. */
  ghost predicate FirstEnd(s: seq<byte>, t: seq<byte>, k: nat) {
    EndsWith(s, k, t, |t|) && forall h :: 0 <= h < k ==> !EndsWith(s, h, t, |t|)
  }

  ghost predicate Occurs(s: seq<byte>, t: seq<byte>) {
    exists k :: 0 <= k <= |s| && EndsWith(s, k, t, |t|)
  }

  /**
   * The search for `t` in the stream `s` does what it should, with the terminator `u` or, if that is
   * empty, without: it stops at the first end of the target, unless it stops at the terminator
   * before there is one.
   */
  ghost predicate Complete(s: seq<byte>, t: seq<byte>, u: seq<byte>) {
    match FindUntil(s, t, u)
    case Found(at) => FirstEnd(s, t, at)
    case Terminated(at) => u != [] && NoEndUpTo(s, t, at)
    case Exhausted(at) => !Occurs(s, t)
  }

  /** The target ends nowhere among the first `k` bytes. */
  ghost predicate NoEndUpTo(s: seq<byte>, t: seq<byte>, k: nat) {
    forall h :: 0 <= h <= k ==> !EndsWith(s, h, t, |t|)
  }

  lemma NoEndNext(s: seq<byte>, t: seq<byte>, k: nat, next: nat)
    requires NoEndUpTo(s, t, k) && next == k + 1
    ensures if EndsWith(s, next, t, |t|) then FirstEnd(s, t, next) else NoEndUpTo(s, t, next)
  {
    hide EndsWith;
  }

  lemma NoEndAtAll(s: seq<byte>, t: seq<byte>)
    ensures NoEndUpTo(s, t, |s|) ==> !Occurs(s, t)
  {
    hide EndsWith;
  }

  lemma {:induction false} FindComplete(s: seq<byte>, k: nat, t: seq<byte>, u: seq<byte>, i: nat, j: nat)
    requires NulFree(s) && Restarts(t) && k <= |s| && AtLongest(s, k, t, i) && (u == [] || j < |u|)
    requires NoEndUpTo(s, t, k)
    ensures match Find(s, k, t, u, i, j)
      case Found(at) => FirstEnd(s, t, at)
      case Terminated(at) => u != [] && NoEndUpTo(s, t, at)
      case Exhausted(at) => !Occurs(s, t)
    decreases |s| - k
  {
    if k == |s| {
      NoEndAtAll(s, t);
    } else {
      var next, i' := k + 1, Step(t, i, s[k]);
      StepStaysLongest(s, k, t, i);
      assert i' < |t| ==> !EndsWith(s, next, t, |t|);
      NoEndNext(s, t, k, next);
      hide EndsWith, Restarts, NoEndUpTo, FirstEnd, AtLongest, Step, Occurs;
      if i' < |t| {
        if u == [] {
          FindComplete(s, next, t, u, i', j);
        } else if TermStep(u, j, s[k]) < |u| {
          FindComplete(s, next, t, u, i', TermStep(u, j, s[k]));
        }
      }
    }
  }

  /** On targets that restart, the first occurrence is found, in every stream without NUL. */
  lemma FindsFirstOccurrence(s: seq<byte>, t: seq<byte>, u: seq<byte>)
    requires t != [] && NulFree(t) && NulFree(s) && Restarts(t)
    ensures Complete(s, t, u)
  {
    EndsEmpty(s, 0, t);
    assert NoEndUpTo(s, t, 0);
    FindComplete(s, 0, t, u, 0, 0);
  }

  lemma {:induction false} IndexGrowsSlowly(s: seq<byte>, k: nat, t: seq<byte>, i: nat)
    requires k <= |s| && i < |t| && i + (|s| - k) < |t|
    ensures Find(s, k, t, [], i, 0).Exhausted?
    decreases |s| - k
  {
    if k < |s| && s[k] != 0 {
      IndexGrowsSlowly(s, k + 1, t, Step(t, i, s[k]));
    }
  }

  /** Reading the beginning of the target itself. */
  lemma {:induction false} FollowsTarget(s: seq<byte>, k: nat, t: seq<byte>, i: nat)
    requires k <= i < |t| && i <= |s| && s[..i] == t[..i] && NulFree(t)
    ensures Find(s, k, t, [], k, 0) == Find(s, i, t, [], i, 0)
    decreases i - k
  {
    if k < i {
      assert s[..i][k] == t[..i][k];
      FollowsTarget(s, k + 1, t, i);
    }
  }

  lemma TwoCopies(t: seq<byte>, p: nat, k: nat, i: nat)
    requires 0 < p < |t| && i == p + k < |t| && t[p..i] == t[..k]
    ensures (t[..p] + t)[..i] == t[..i] && (t[..p] + t)[i] == t[k]
  {
    assert t[..i] == t[..p] + t[p..i];
  }

  lemma EndsCopy(t: seq<byte>, p: nat)
    requires p <= |t|
    ensures Occurs(t[..p] + t, t)
  {
    var s := t[..p] + t;
    assert EndsWith(s, |s|, t, |t|);
  }

  /** The stream that defeats a target which does not restart: its first `p` bytes and then all of it. */
  lemma MissedOccurrence(t: seq<byte>, p: nat, k: nat, i: nat)
    requires NulFree(t) && 0 < p < |t| && 0 < k && i == p + k < |t| && t[p..i] == t[..k] && t[i] != t[k]
    ensures NulFree(t[..p] + t) && Occurs(t[..p] + t, t) && FindUntil(t[..p] + t, t, []).Exhausted?
  {
    TwoCopies(t, p, k, i);
    EndsCopy(t, p);
    var s := t[..p] + t;
    assert s[i] != 0 && s[i] != t[i];
    var i' := Step(t, i, s[i]);
    assert i' <= 1;
    assert Find(s, i, t, [], i, 0) == Find(s, i + 1, t, [], i', 0);
    FollowsTarget(s, 0, t, i);
    IndexGrowsSlowly(s, i + 1, t, i');
    hide Find, Occurs;
  }

  lemma {:induction false} FirstBreak(a: seq<byte>, b: seq<byte>) returns (k: nat)
    requires |a| <= |b| && !(a <= b)
    ensures k < |a| && a[k] != b[k] && a[..k] == b[..k]
  {
    if a[0] != b[0] {
      k := 0;
    } else {
      var j := FirstBreak(a[1..], b[1..]);
      k := j + 1;
      assert a[..k] == [a[0]] + a[1..][..j] && b[..k] == [b[0]] + b[1..][..j];
    }
  }

  lemma Breaks(t: seq<byte>) returns (p: nat, k: nat, i: nat)
    requires t != [] && !Restarts(t)
    ensures 0 < p < |t| && 0 < k && i == p + k < |t| && t[p..i] == t[..k] && t[i] != t[k]
  {
    var q :| 0 < q < |t| && t[q] == t[0] && !(t[q..] <= t);
    hide Restarts;
    p := q;
    k := FirstBreak(t[p..], t);
    i := p + k;
    assert t[p..][..k] == t[p..i];
    assert t[p..][0] == t[0];
  }

  lemma Defeated(t: seq<byte>) returns (s: seq<byte>)
    requires t != [] && NulFree(t) && !Restarts(t)
    ensures NulFree(s) && !Complete(s, t, [])
  {
    var p, k, i := Breaks(t);
    hide Find, FindUntil, Occurs, FirstEnd, Restarts;
    MissedOccurrence(t, p, k, i);
    s := t[..p] + t;
  }

  /**
   * Completeness, exactly: whatever the terminator, the search finds the first occurrence in every
   * stream without NUL, unless the terminator comes first, if and only if the target restarts
   * wherever its first byte comes again.
   */
  lemma CompleteExactly(t: seq<byte>)
    requires t != [] && NulFree(t)
    ensures (forall s, u: seq<byte> | NulFree(s) :: Complete(s, t, u)) <==> Restarts(t)
  {
    hide Restarts, Complete;
    if Restarts(t) {
      forall s, u: seq<byte> | NulFree(s) ensures Complete(s, t, u) {
        FindsFirstOccurrence(s, t, u);
      }
    } else {
      var s := Defeated(t);
      assert !Complete(s, t, []);
    }
  }

  /** A target whose first byte does not come again is always found. */
  lemma DistinctFirstByteRestarts(t: seq<byte>)
    requires t != [] && t[0] !in t[1..]
    ensures Restarts(t)
  {
    forall p | 0 < p < |t| ensures t[p] != t[0] {
      assert t[p] == t[1..][p - 1];
    }
  }

  // --- The terminator -----------------------------------------------------------------------------------

  /** The search stops at the first end of the terminator, unless it finds its target by then. */
  ghost predicate TermComplete(s: seq<byte>, t: seq<byte>, u: seq<byte>) {
    match FindUntil(s, t, u)
    case Found(at) => forall h :: 0 <= h < at ==> !EndsWith(s, h, u, |u|)
    case Terminated(at) => FirstEnd(s, u, at)
    case Exhausted(at) => !Occurs(s, u)
  }

  predicate AllEqual(u: seq<byte>) {
    forall i :: 0 <= i < |u| ==> u[i] == u[0]
  }

  lemma TermStaysLongest(s: seq<byte>, k: nat, u: seq<byte>, j: nat)
    requires AllEqual(u) && AtLongest(s, k, u, j) && k < |s|
    ensures var j' := TermStep(u, j, s[k]);
      if j' < |u| then AtLongest(s, k + 1, u, j') else EndsWith(s, k + 1, u, |u|)
  {
    var j', next := TermStep(u, j, s[k]), k + 1;
    EndsNext(s, k, u, j);
    EndsEmpty(s, next, u);
    forall m | j' < m <= |u| ensures !EndsWith(s, next, u, m) {
      EndsNext(s, k, u, m - 1);
    }
    hide EndsWith;
  }

  lemma {:induction false} TermFound(s: seq<byte>, k: nat, t: seq<byte>, u: seq<byte>, i: nat, j: nat)
    requires NulFree(s) && AllEqual(u) && k <= |s| && i < |t| && AtLongest(s, k, u, j)
    requires forall h :: 0 <= h <= k ==> !EndsWith(s, h, u, |u|)
    ensures match Find(s, k, t, u, i, j)
      case Found(at) => forall h :: 0 <= h < at ==> !EndsWith(s, h, u, |u|)
      case Terminated(at) => FirstEnd(s, u, at)
      case Exhausted(at) => !Occurs(s, u)
    decreases |s| - k
  {
    if k < |s| {
      TermStaysLongest(s, k, u, j);
      hide EndsWith, AllEqual;
      var i', j' := Step(t, i, s[k]), TermStep(u, j, s[k]);
      if i' < |t| && j' < |u| {
        assert !EndsWith(s, k + 1, u, |u|);
        TermFound(s, k + 1, t, u, i', j');
      }
    }
  }

  lemma EqualTerminatorComplete(s: seq<byte>, t: seq<byte>, u: seq<byte>)
    requires NulFree(s) && t != [] && t[0] != 0 && u != [] && AllEqual(u)
    ensures TermComplete(s, t, u)
  {
    EndsEmpty(s, 0, u);
    hide Find;
    TermFound(s, 0, t, u, 0, 0);
  }

  /** A terminator search that is behind cannot catch up with the end of the stream. */
  lemma {:induction false} TermGrowsSlowly(s: seq<byte>, k: nat, t: seq<byte>, u: seq<byte>, i: nat, j: nat)
    requires k <= |s| && i < |t| && i + (|s| - k) < |t| && j < |u| && j + (|s| - k) < |u|
    ensures Find(s, k, t, u, i, j).Exhausted?
    decreases |s| - k
  {
    if k < |s| && s[k] != 0 {
      TermGrowsSlowly(s, k + 1, t, u, Step(t, i, s[k]), TermStep(u, j, s[k]));
    }
  }

  /** Reading the first `p` bytes of the terminator itself, which are all the same. */
  lemma {:induction false} TermFollows(s: seq<byte>, k: nat, t: seq<byte>, u: seq<byte>, i: nat, p: nat) returns (i': nat)
    requires k <= p < |u| && p <= |s| && i + (|s| - k) < |t| && s[..p] == u[..p] && NulFree(u)
    ensures i' + (|s| - p) < |t|
    ensures Find(s, k, t, u, i, k) == Find(s, p, t, u, i', p)
    decreases p - k
  {
    if k == p {
      i' := i;
    } else {
      assert s[..p][k] == u[..p][k];
      i' := TermFollows(s, k + 1, t, u, Step(t, i, s[k]), p);
    }
  }

  lemma Ones(n: nat) returns (t: seq<byte>)
    ensures |t| == n && NulFree(t)
  {
    t := seq(n, _ => 1);
  }

  /** The stream that defeats a terminator with a second byte value: its first byte and then all of it. */
  lemma MissedTerminator(u: seq<byte>, p: nat) returns (s: seq<byte>, t: seq<byte>)
    requires NulFree(u) && 0 < p < |u| && u[p] != u[0] && forall i :: 0 <= i < p ==> u[i] == u[0]
    ensures NulFree(s) && t != [] && t[0] != 0 && Occurs(s, u) && FindUntil(s, t, u).Exhausted?
  {
    s := [u[0]] + u;
    t := Ones(|s| + 1);
    assert EndsWith(s, |s|, u, |u|);
    assert s[p] == u[p - 1] == u[0] != u[p] && s[p] != 0;
    forall i | 0 <= i < p ensures s[i] == u[i] {
      assert s[i] == u[if i == 0 then 0 else i - 1];
    }
    assert s[..p] == u[..p];
    var i := TermFollows(s, 0, t, u, 0, p);
    assert TermStep(u, p, s[p]) == 0;
    hide EndsWith;
    TermGrowsSlowly(s, p + 1, t, u, Step(t, i, s[p]), 0);
  }

  lemma {:induction false} FirstOther(u: seq<byte>, k: nat) returns (p: nat)
    requires u != [] && k <= |u| && !AllEqual(u) && forall i :: 0 <= i < k ==> u[i] == u[0]
    ensures 0 < p < |u| && u[p] != u[0] && forall i :: 0 <= i < p ==> u[i] == u[0]
    decreases |u| - k
  {
    if k < |u| && u[k] != u[0] {
      p := k;
    } else {
      p := FirstOther(u, k + 1);
    }
  }

  /**
   * The terminator is found at its first occurrence, in every stream without NUL that does not yield
   * the target first and for every target, if and only if all its bytes are equal.
   */
  lemma TerminatorCompleteExactly(u: seq<byte>)
    requires u != [] && NulFree(u)
    ensures (forall s, t: seq<byte> | NulFree(s) && t != [] && t[0] != 0 :: TermComplete(s, t, u)) <==> AllEqual(u)
  {
    hide TermComplete;
    if AllEqual(u) {
      forall s, t: seq<byte> | NulFree(s) && t != [] && t[0] != 0 ensures TermComplete(s, t, u) {
        EqualTerminatorComplete(s, t, u);
      }
    } else {
      var s, t := DefeatedTerminator(u);
      assert !TermComplete(s, t, u);
    }
  }

  lemma DefeatedTerminator(u: seq<byte>) returns (s: seq<byte>, t: seq<byte>)
    requires u != [] && NulFree(u) && !AllEqual(u)
    ensures NulFree(s) && t != [] && t[0] != 0 && !TermComplete(s, t, u)
  {
    var p := FirstOther(u, 0);
    hide FindUntil, Occurs, AllEqual;
    s, t := MissedTerminator(u, p);
  }

  // --- Streams with NUL --------------------------------------------------------------------------------

  lemma {:induction false} FindInFront(a: seq<byte>, b: seq<byte>, k: nat, t: seq<byte>, u: seq<byte>, i: nat, j: nat)
    requires NulFree(a) && k <= |a| && i < |t| && (u == [] || j < |u|)
    ensures var o := Find(a, k, t, u, i, j);
      Find(a + [0] + b, k, t, u, i, j) == if o.Exhausted? then Exhausted(|a| + 1) else o
    decreases |a| - k
  {
    var s := a + [0] + b;
    if k == |a| {
      assert s[k] == 0;
    } else {
      assert s[k] == a[k] != 0;
      var i' := Step(t, i, a[k]);
      if i' < |t| {
        if u == [] {
          FindInFront(a, b, k + 1, t, u, i', j);
        } else if TermStep(u, j, a[k]) < |u| {
          FindInFront(a, b, k + 1, t, u, i', TermStep(u, j, a[k]));
        }
      }
    }
  }

  /** A NUL in the stream ends the search behind it, whatever follows. */
  lemma NulEndsSearch(a: seq<byte>, b: seq<byte>, t: seq<byte>, u: seq<byte>)
    requires NulFree(a) && t != [] && t[0] != 0
    ensures var o := FindUntil(a, t, u);
      FindUntil(a + [0] + b, t, u) == if o.Exhausted? then Exhausted(|a| + 1) else o
  {
    hide Find;
    FindInFront(a, b, 0, t, u, 0, 0);
  }

  // --- The method -------------------------------------------------------------------------------------

  class Stream {
    const bytes: seq<byte>
    var pos: nat

    ghost predicate Valid()
      reads this
    {
      pos <= |bytes|
    }

    constructor (bytes: seq<byte>)
      ensures Valid() && this.bytes == bytes && pos == 0
    {
      this.bytes, pos := bytes, 0;
    }

    /** `timedPeek`: the next byte, or -1 when none comes in time. */
    method TimedPeek() returns (c: int)
      requires Valid()
      ensures c == if pos < |bytes| then bytes[pos] else -1
    {
      c := if pos < |bytes| then bytes[pos] else -1;
    }

    /** `timedRead`: the same byte, consumed. */
    method TimedRead() returns (c: int)
      requires Valid()
      modifies this
      ensures Valid()
      ensures if old(pos) < |bytes| then c == bytes[old(pos)] && pos == old(pos) + 1 else c == -1 && pos == old(pos)
    {
      c := TimedPeek();
      if c >= 0 {
        pos := pos + 1;
      }
    }

    /** `findUntil` from the current position on. */
    method Until(target: seq<byte>, terminator: seq<byte>) returns (found: bool)
      requires Valid()
      modifies this
      ensures Valid()
      ensures var o := FindUntil(bytes[old(pos)..], target, terminator);
        found == o.Found? && pos == old(pos) + o.at
    {
      var index, termIndex := 0, 0;
      if target == [] || target[0] == 0 {
        return true;
      }
      ghost var start, s := pos, bytes[pos..];
      while true
        invariant start <= pos <= |bytes| && index < |target|
        invariant if terminator == [] then termIndex == 0 else termIndex < |terminator|
        invariant Find(s, pos - start, target, terminator, index, termIndex) == FindUntil(s, target, terminator)
        decreases |bytes| - pos
      {
        var c := TimedRead();
        if c <= 0 {
          return false;
        }
        if c != target[index] {
          index := 0;
        }
        if c == target[index] {
          index := index + 1;
          if index >= |target| {
            return true;
          }
        }
        if |terminator| > 0 && c == terminator[termIndex] {
          termIndex := termIndex + 1;
          if termIndex >= |terminator| {
            return false;
          }
        } else {
          termIndex := 0;
        }
      }
    }
  }
}
