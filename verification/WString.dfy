/**
 * The heap string of cores/arduino/WString.cpp. Allocation succeeds; arguments of type `String`
 * are other objects; arguments of type `const char *` are their bytes without the final NUL.
 */
module WString {
  import opened Memory
  import opened SearchReplace
  import opened ReplaceLength

  /** The C library searches, over the bytes of a block that a NUL ends at `end`. */
  ghost predicate CString(a: array<byte>, from: nat, end: nat)
    reads a
  {
    from <= end < a.Length && a[end] == 0 && NulFree(a[from..end])
  }

  /** `strstr(a + from, pat)` as an index, or -1. */
  method StrStr(a: array<byte>, from: nat, pat: seq<byte>, ghost end: nat) returns (i: int)
    requires CString(a, from, end) && NulFree(pat) && pat != []
    ensures i == FirstMatch(a[..end], pat, from)
  {
    hide FirstMatch;
    ghost var s := a[..end];
    var p := from;
    while true
      invariant from <= p <= end
      invariant forall j :: from <= j < p ==> !MatchAt(s, pat, j)
      decreases end - p
    {
      var k := 0;
      while k < |pat| && a[p + k] == pat[k]
        invariant 0 <= k <= |pat| && p + k <= end
        invariant forall j :: p <= j < p + k ==> a[j] == pat[j - p]
      {
        assert p + k != end;
        k := k + 1;
      }
      if k == |pat| {
        assert s[p..p + |pat|] == pat;
        FirstMatchIs(s, pat, from, p);
        return p;
      }
      if MatchAt(s, pat, p) {
        MatchByte(s, pat, p, k);
      }
      if a[p] == 0 {
        FirstMatchIsNone(s, pat, from);
        return -1;
      }
      p := p + 1;
    }
  }

  /** `strrchr(a, c)` as an index, or -1; the final NUL counts as part of the string. */
  method StrRChr(a: array<byte>, c: byte, ghost end: nat) returns (i: int)
    requires CString(a, 0, end)
    ensures i == -1 || (0 <= i <= end && a[i] == c)
    ensures forall j :: 0 <= j <= end && a[j] == c ==> j <= i
  {
    i := -1;
    var p := 0;
    while true
      invariant 0 <= p <= end
      invariant i == -1 || (0 <= i < p && a[i] == c)
      invariant forall j :: 0 <= j < p && a[j] == c ==> j <= i
      decreases end - p
    {
      if a[p] == c {
        i := p;
      }
      if a[p] == 0 {
        return;
      }
      p := p + 1;
    }
  }

  /** The buffer size that `changeBuffer` asks for: the next multiple of 16 that holds a NUL too. */
  function Rounded(maxStrLen: nat): (n: nat)
    ensures n % 16 == 0 && maxStrLen < n <= maxStrLen + 16
  {
    (maxStrLen + 16) / 16 * 16
  }

  /** The C string at `lo` once the byte at `hi` is a NUL. */
  lemma PokedCString(b: seq<byte>, lo: nat, hi: nat)
    requires lo <= hi < |b| && NulFree(b[lo..hi])
    ensures CStr(b[hi := 0][lo..]) == b[lo..hi]
  {
    CStrIs(b[hi := 0][lo..], b[lo..hi]);
  }

  /** Moving the rest of a text of `n` bytes down over the `gap` bytes at `at`. */
  lemma CloseGap(b: seq<byte>, at: nat, gap: nat, n: nat)
    requires at + gap <= n <= |b|
    ensures Splice(b, at, b[at + gap..n])[..n - gap] == b[..n][..at] + b[..n][at + gap..]
  {}

  /** What `replace` makes of a text, branch by branch. */
  function Replaced(s: seq<byte>, f: seq<byte>, r: seq<byte>): seq<byte> {
    if s == [] || f == [] then s
    else if |r| <= |f| then Leftmost(s, f, r)
    else Rightmost(s, f, r)
  }

  /** The capacity once room for `size` bytes is reserved. */
  function Room(size: nat, capacity: nat): nat {
    if size > capacity then Rounded(size) - 1 else capacity
  }

  /** The growing branch, which reserves room for the leftmost result, stays inside its buffer. */
  predicate GrowthFits(s: seq<byte>, capacity: nat, f: seq<byte>, r: seq<byte>) {
    f != [] && |r| > |f| ==> |Rightmost(s, f, r)| <= Room(|Leftmost(s, f, r)|, capacity)
  }

  lemma GrowthSize(t: seq<byte>, capacity: nat, f: seq<byte>, r: seq<byte>, size: nat)
    requires 0 < |f| < |r| && size == |t| + Gain(t, f, |r| - |f|)
    ensures size >= |t| && (GrowthFits(t, capacity, f, r) <==> |Rightmost(t, f, r)| <= Room(size, capacity))
    ensures size == |t| ==> Rightmost(t, f, r) == t
  {
    LeftmostLength(t, f, r);
    GainPositive(t, f, |r| - |f|);
    if size == |t| {
      NoGainNoMatch(t, f, r);
    }
    hide Rightmost, Leftmost, Gain;
  }

  /** Text, capacity and arguments as a string can have them. */
  predicate Possible(s: seq<byte>, capacity: nat) {
    NulFree(s) && |s| <= capacity && (capacity + 1) % 16 == 0
  }

  /**
   * Memory safety of the growing branch, exactly: it stays inside its buffer for every text and
   * every capacity if and only if no non-empty proper suffix of the pattern begins the replacement.
   */
  lemma NeverOutgrowsExactly(f: seq<byte>, r: seq<byte>)
    requires f != [] && |r| > |f| && NulFree(f)
    ensures (forall s, capacity: nat | Possible(s, capacity) :: GrowthFits(s, capacity, f, r)) <==> NeverMeets(f, r)
  {
    hide GrowthFits, SuffixStarts, Possible;
    if NeverMeets(f, r) {
      forall s, capacity: nat | Possible(s, capacity) ensures GrowthFits(s, capacity, f, r) {
        FitsUnlessMet(s, capacity, f, r);
      }
    } else {
      var k :| SuffixStarts(f, r, k);
      var s, capacity := OutgrowingText(f, r, k);
      assert Possible(s, capacity) && !GrowthFits(s, capacity, f, r);
    }
  }

  lemma RoomEnough(size: nat, capacity: nat)
    ensures size <= Room(size, capacity)
  {}

  lemma FitsUnlessMet(s: seq<byte>, capacity: nat, f: seq<byte>, r: seq<byte>)
    requires f != [] && |r| > |f| && NeverMeets(f, r)
    ensures GrowthFits(s, capacity, f, r)
  {
    RightmostNoLonger(s, f, r);
    hide Rightmost, Leftmost, NeverMeets;
  }

  /** A text that outgrows its buffer, for any suffix that begins the replacement. */
  lemma OutgrowingText(f: seq<byte>, r: seq<byte>, k: int) returns (s: seq<byte>, capacity: nat)
    requires |r| > |f| && NulFree(f) && SuffixStarts(f, r, k)
    ensures Possible(s, capacity) && !GrowthFits(s, capacity, f, r)
  {
    var n := |f| - k + |r|;
    var fill := 15 - n % 16;
    FullCapacity(n, fill);
    capacity := fill + n;
    var pad := PaddingOf(fill, f);
    s := Trap(pad, f, k);
    hide Rightmost, Leftmost, Trap, NulFree, Padding, SuffixStarts, FirstMatch;
    TrapNulFree(pad, f, k);
    TrapLeftmost(pad, f, r, k);
    TrapRightmost(pad, f, r, k);
  }

  lemma PaddingOf(n: nat, f: seq<byte>) returns (pad: seq<byte>)
    requires f != []
    ensures |pad| == n && Padding(pad, f) && NulFree(pad)
  {
    var z: byte := if f[0] == 1 then 2 else 1;
    pad := seq(n, _ => z);
  }

  lemma FullCapacity(n: nat, fill: nat)
    requires fill == 15 - n % 16
    ensures (fill + n + 1) % 16 == 0
  {}

  lemma TrapNulFree(pad: seq<byte>, f: seq<byte>, k: int)
    requires 1 <= k < |f| && NulFree(pad) && NulFree(f)
    ensures NulFree(Trap(pad, f, k)) && |Trap(pad, f, k)| == |pad| + |f| - k + |f|
  {}

  /** The smallest block: "aab" with "ab" replaced by a 'b' and sixteen bytes more does not fit. */
  lemma OutgrowsSmallestBlock()
    ensures !GrowthFits([97, 97, 98], 15, [97, 98], [98] + seq(16, _ => 99))
  {
    var f: seq<byte>, r: seq<byte> := [97, 98], [98] + seq(16, _ => 99);
    var s: seq<byte>, mid: seq<byte> := [97, 97, 98], [97] + r;
    TrapLeftmost([], f, r, 1);
    assert Trap([], f, 1) == s && s == [97] + f;
    assert MatchAt(mid, f, 0);
    hide FromRight, Leftmost, LastMatch, Trap, Rightmost;
    RightmostAtEnd([97], f, r, 0);
    LastMatchGreatest(mid, f, 0, 0);
    SecondRound(mid, f, r);
  }

  lemma SecondRound(mid: seq<byte>, f: seq<byte>, r: seq<byte>)
    requires f != [] && |r| > |f| && LastMatch(mid, f, 0) == 0 && |f| <= |mid|
    ensures |FromRight(mid, f, r, 0)| >= |mid| + |r| - |f|
  {
    hide FromRight, LastMatch;
    FromRightRound(mid, f, r, 0);
    FromRightGrows(Glue(mid, 0, r, mid[|f|..]), f, r, -1);
  }

  lemma EmptyUnchanged(s: seq<byte>, capacity: nat, f: seq<byte>, r: seq<byte>)
    requires s == [] || f == []
    ensures Replaced(s, f, r) == s && GrowthFits(s, capacity, f, r)
  {}

  lemma SpliceSelf(b: seq<byte>, at: nat, end: nat)
    requires at <= end <= |b|
    ensures Splice(b, at, b[at..end]) == b
  {}

  /**
   * The state of a left-to-right replacement loop over the text `t`: the block `b` holds the
   * result so far up to `to`, and from `from` on it still holds the end of `t`.
   */
  ghost predicate Halfway(b: seq<byte>, to: nat, from: nat, t: seq<byte>, f: seq<byte>, r: seq<byte>) {
    f != [] && to <= from <= |t| < |b| && b[|t|] == 0 && NulFree(t) &&
    b[from..|t|] == t[from..] &&
    Leftmost(t, f, r) == b[..to] + LeftmostFrom(t, f, r, from)
  }

  lemma HalfwayStart(b: seq<byte>, t: seq<byte>, f: seq<byte>, r: seq<byte>)
    requires f != [] && |t| < |b| && b[..|t|] == t && b[|t|] == 0 && NulFree(t)
    ensures Halfway(b, 0, 0, t, f, r)
  {
    hide Leftmost, LeftmostFrom;
    assert t[0..] == t;
    LeftmostFromIs(t, f, r, 0);
  }

  lemma HalfwaySearch(a: array<byte>, to: nat, from: nat, n: nat, t: seq<byte>, f: seq<byte>, r: seq<byte>)
    requires Halfway(a[..], to, from, t, f, r) && n == |t|
    ensures to <= from <= n < a.Length && CString(a, from, n)
    ensures FirstMatch(a[..n], f, from) == FirstMatch(t, f, from)
    ensures FirstMatch(t, f, from) >= 0 ==> from <= FirstMatch(t, f, from) && FirstMatch(t, f, from) + |f| <= n
  {
    hide Leftmost, LeftmostFrom, FirstMatch;
    assert a[..n][from..] == a[..][from..n] == a[from..n];
    SameRest(a[..n], t, f, from);
  }

  /** The match at `i` is replaced: the text before it moves down (`b1`), and `r` follows (`b2`). */
  lemma HalfwayRound(b: seq<byte>, b1: seq<byte>, b2: seq<byte>, to: nat, mid: nat, to': nat,
                     from: nat, i: nat, next: nat, t: seq<byte>, f: seq<byte>, r: seq<byte>)
    requires Halfway(b, to, from, t, f, r) && i == FirstMatch(t, f, from) && |r| <= |f|
    requires next == i + |f| && mid == to + (i - from) && to' == mid + |r|
    requires b1 == Splice(b, to, b[from..i]) && b2 == Splice(b1, mid, r)
    ensures Halfway(b2, to', next, t, f, r)
  {
    hide Leftmost, FirstMatch, LeftmostFrom;
    var x := b[from..i];
    var rest := LeftmostFrom(t, f, r, next);
    LeftmostFromStep(t, f, r, from, i, next);
    SameBytes(b, t, from, i, next);
    TwoCopies(b, b1, b2, to, mid, to', x, r);
    hide Splice;
    Regroup(b[..to], x, r, rest);
    SameTail(b, b2, to', next, |t|);
  }

  lemma SameTail(b: seq<byte>, b': seq<byte>, from: nat, at: nat, n: nat)
    requires from <= at <= n <= |b| == |b'| && forall k :: from <= k < |b| ==> b'[k] == b[k]
    ensures b'[at..n] == b[at..n]
  {}

  lemma SameBytes(b: seq<byte>, t: seq<byte>, from: nat, i: nat, next: nat)
    requires from <= i <= next <= |t| <= |b| && b[from..|t|] == t[from..]
    ensures b[from..i] == t[from..i] && b[next..|t|] == t[next..]
  {
    var x := b[from..|t|];
    assert forall k :: from <= k < |t| ==> b[k] == x[k - from] == t[k];
  }

  lemma LeftmostFromStep(s: seq<byte>, f: seq<byte>, r: seq<byte>, from: nat, i: nat, next: nat)
    requires f != [] && from <= |s| && i == FirstMatch(s, f, from) && next == i + |f|
    ensures next <= |s| && LeftmostFrom(s, f, r, from) == s[from..i] + r + LeftmostFrom(s, f, r, next)
  {
    hide FirstMatch;
  }

  /** Two copies, one right behind the other. */
  lemma TwoCopies(b: seq<byte>, b1: seq<byte>, b2: seq<byte>, to: nat, mid: nat, to': nat,
                  x: seq<byte>, y: seq<byte>)
    requires mid == to + |x| && to' == mid + |y| <= |b|
    requires b1 == Splice(b, to, x) && b2 == Splice(b1, mid, y)
    ensures b2[..to'] == b[..to] + x + y
    ensures forall k :: to' <= k < |b| ==> b2[k] == b[k]
  {}

  /** No match is left: what follows moves down, with its NUL (`b'`). */
  lemma HalfwayEnd(b: seq<byte>, b': seq<byte>, to: nat, from: nat, n: nat,
                   t: seq<byte>, f: seq<byte>, r: seq<byte>)
    requires Halfway(b, to, from, t, f, r) && FirstMatch(t, f, from) < 0
    requires n == to + |t| - from && b' == Splice(b, to, b[from..|t| + 1])
    ensures n == |Leftmost(t, f, r)| && b'[..n] == Leftmost(t, f, r) && b'[n] == 0
  {
    hide Leftmost, FirstMatch;
    assert LeftmostFrom(t, f, r, from) == t[from..];
    assert b[from..|t| + 1] == t[from..] + [0];
  }

  /** One round of the growing loop: the end of the text moves up, is ended anew, and `r` goes in. */
  lemma GapFilled(b0: seq<byte>, b1: seq<byte>, b2: seq<byte>, b3: seq<byte>, i: nat, from: nat, to: nat,
                  n: nat, n': nat, r: seq<byte>, t': seq<byte>)
    requires i <= from <= n < |b0| && to == i + |r| && from < to && n' == n + (to - from) < |b0|
    requires b1 == Splice(b0, to, b0[from..n]) && b2 == b1[n' := 0] && b3 == Splice(b2, i, r)
    requires t' == Glue(b0[..n], i, r, b0[..n][from..])
    ensures b3[..n'] == t' && b3[n'] == 0
  {
    assert b0[..n][from..] == b0[from..n];
    SpliceAt(b0, to, b0[from..n]);
    SpliceAt(b2, i, r);
  }

  /** The state of the growing loop: replacing on from `index` turns `s` into `goal`. */
  ghost predicate OnTheWay(s: seq<byte>, f: seq<byte>, r: seq<byte>, index: int, goal: seq<byte>) {
    0 < |f| < |r| && -1 <= index < |s| && FromRight(s, f, r, index) == goal
  }

  lemma OnTheWayStart(s: seq<byte>, f: seq<byte>, r: seq<byte>, goal: seq<byte>)
    requires 0 < |f| < |r| && goal == Rightmost(s, f, r)
    ensures OnTheWay(s, f, r, |s| - 1, goal)
  {
    hide FromRight;
  }

  lemma OnTheWayBounds(s: seq<byte>, f: seq<byte>, r: seq<byte>, index: int, goal: seq<byte>)
    requires OnTheWay(s, f, r, index, goal)
    ensures -1 <= index < |s| && f != []
  {
    hide FromRight;
  }

  lemma OnTheWayNoMatch(s: seq<byte>, f: seq<byte>, r: seq<byte>, index: int, goal: seq<byte>)
    requires OnTheWay(s, f, r, index, goal) && LastMatch(s, f, index) < 0
    ensures s == goal
  {
    hide LastMatch;
  }

  lemma OnTheWayStop(s: seq<byte>, f: seq<byte>, r: seq<byte>, goal: seq<byte>)
    requires OnTheWay(s, f, r, -1, goal)
    ensures s == goal
  {}

  lemma OnTheWayRound(s: seq<byte>, f: seq<byte>, r: seq<byte>, index: int, i: nat, goal: seq<byte>)
    returns (s': seq<byte>)
    requires OnTheWay(s, f, r, index, goal) && i == LastMatch(s, f, index)
    ensures |f| < |r| && i + |f| <= |s| && |s| + |r| - |f| <= |goal|
    ensures s' == Glue(s, i, r, s[i + |f|..]) && OnTheWay(s', f, r, i - 1, goal)
  {
    hide LastMatch, Glue;
    FromRightRound(s, f, r, index);
    s' := Glue(s, i, r, s[i + |f|..]);
    FromRightGrows(s', f, r, i - 1);
  }

  /** A clean pattern never needs more than the reserved buffer and is replaced leftmost. */
  lemma CleanReplace(s: seq<byte>, capacity: nat, f: seq<byte>, r: seq<byte>)
    requires Clean(f, r) || |r| <= |f|
    ensures GrowthFits(s, capacity, f, r)
    ensures Replaced(s, f, r) == if f == [] then s else Leftmost(s, f, r)
  {
    if f != [] {
      if |r| > |f| {
        CleanReplacesLeftmost(s, f, r);
      } else if s == [] {
        NoMatchNoChange(s, f, r);
      }
    }
  }

  lemma TrimBounds(s: seq<byte>, i: nat, j: nat)
    requires i <= j <= |s| && AllSpace(s[..i]) && AllSpace(s[j..])
    requires i < j ==> !IsSpace(s[i]) && !IsSpace(s[j - 1])
    ensures NoSpaceAtEnds(s[i..j]) && IsTrimOf(s[i..j], s)
  {}

  predicate NoSpaceAtEnds(s: seq<byte>) {
    s == [] || (!IsSpace(s[0]) && !IsSpace(s[|s| - 1]))
  }

  predicate IsSpace(c: byte) {
    c == 32 || 9 <= c <= 13
  }

  /** Space, tab, line feed, vertical tab, form feed and carriage return. */
  lemma SpaceIs(c: byte)
    ensures IsSpace(c) <==>
      c == ' ' as int || c == '\t' as int || c == '\n' as int || c == 11 || c == 12 || c == '\r' as int
  {}

  /** `t` is `s` without some spaces at either end. */
  ghost predicate IsTrimOf(t: seq<byte>, s: seq<byte>) {
    exists i, j :: 0 <= i <= j <= |s| && t == s[i..j] && AllSpace(s[..i]) && AllSpace(s[j..])
  }

  predicate AllSpace(s: seq<byte>) {
    forall k :: 0 <= k < |s| ==> IsSpace(s[k])
  }

  class String {
    var buffer: array?<byte>
    var capacity: nat
    var len: nat

    ghost predicate Valid()
      reads this, buffer
    {
      if buffer == null then capacity == 0 && len == 0
      else
        buffer.Length == capacity + 1 && (capacity + 1) % 16 == 0 &&
        len <= capacity && CString(buffer, 0, len)
    }

    ghost function Text(): (s: seq<byte>)
      requires Valid()
      reads this, buffer
      ensures |s| == len && NulFree(s)
    {
      if buffer == null then [] else buffer[..len]
    }

    /** A block of the right size that holds `t` and a NUL is a valid string with text `t`. */
    lemma Holds(t: seq<byte>)
      requires buffer != null && buffer.Length == capacity + 1 && (capacity + 1) % 16 == 0
      requires |t| == len <= capacity && buffer[..len] == t && buffer[len] == 0 && NulFree(t)
      ensures Valid() && Text() == t
    {
      assert buffer[0..len] == t;
    }

    constructor ()
      ensures Valid() && Text() == [] && buffer == null
    {
      buffer := null;
      capacity := 0;
      len := 0;
    }

    method Invalidate()
      modifies this
      ensures Valid() && Text() == [] && buffer == null
    {
      buffer := null;
      capacity := 0;
      len := 0;
    }

    method ChangeBuffer(maxStrLen: nat)
      requires Valid() && (buffer == null || capacity < maxStrLen)
      modifies this`buffer, this`capacity
      ensures buffer != null && fresh(buffer)
      ensures buffer.Length == capacity + 1 == Rounded(maxStrLen)
      ensures old(buffer) != null ==>
        old(buffer).Length <= buffer.Length && buffer[..old(buffer).Length] == old(buffer[..])
      ensures forall k :: old(capacity) + 1 <= k < buffer.Length ==> buffer[k] == 0
    {
      var newSize := Rounded(maxStrLen);
      var newBuffer := new byte[newSize];
      if buffer != null {
        MemCpy(newBuffer, 0, buffer, 0, buffer.Length);
      }
      var oldSize := capacity + 1;
      if newSize > oldSize {
        ghost var was := newBuffer[..];
        Store(newBuffer, oldSize, seq(newSize - oldSize, _ => 0));
        SpliceAt(was, oldSize, seq(newSize - oldSize, _ => 0));
        assert forall k :: oldSize <= k < newSize ==> newBuffer[..][k] == 0;
      }
      capacity := newSize - 1;
      buffer := newBuffer;
    }

    method Reserve(size: nat)
      requires Valid()
      modifies this`buffer, this`capacity
      ensures Valid() && Text() == old(Text()) && buffer != null && size <= capacity
      ensures buffer == old(buffer) || fresh(buffer)
      ensures capacity == if old(buffer) != null && old(capacity) >= size then old(capacity) else Rounded(size) - 1
    {
      if buffer != null && capacity >= size {
        return;
      }
      ChangeBuffer(size);
      if len == 0 {
        buffer[0] := 0;
      } else {
        assert buffer[..len] == old(buffer[..][..len]);
        assert buffer[len] == old(buffer[..][len]);
      }
    }

    /** `copy`, and with it assignment from a C string. */
    method Copy(cstr: seq<byte>)
      requires Valid() && NulFree(cstr)
      modifies this, buffer
      ensures Valid() && Text() == cstr && buffer != null
      ensures buffer == old(buffer) || fresh(buffer)
    {
      Reserve(|cstr|);
      len := |cstr|;
      Store(buffer, 0, cstr + [0]);
      assert buffer[..len] == cstr;
    }

    method Assign(rhs: String)
      requires Valid() && rhs.Valid() && (this != rhs && buffer != null ==> buffer != rhs.buffer)
      modifies this, buffer
      ensures Valid() && Text() == old(rhs.Text())
      ensures this != rhs ==> rhs.Valid() && unchanged(rhs) && rhs.Text() == old(rhs.Text())
      ensures buffer == old(buffer) || buffer == null || fresh(buffer)
    {
      if this == rhs {
        return;
      }
      if rhs.buffer != null {
        Copy(rhs.buffer[..rhs.len]);
      } else {
        Invalidate();
      }
    }

    /**
     * `move`: takes the other string's buffer, or copies out of it when its own is large enough.
     * In the second case the other string keeps its bytes but gets length 0, so that it is a
     * well-formed empty string afterwards only if it was empty before. `fromNull` reports a copy
     * out of a string that has no buffer; what the original does then is not determined.
     */
    method Move(rhs: String) returns (fromNull: bool)
      requires Valid() && rhs.Valid() && this != rhs && (buffer != null ==> buffer != rhs.buffer)
      modifies this, buffer, rhs
      ensures fromNull <==> old(buffer != null && rhs.buffer == null)
      ensures !fromNull ==> Valid() && Text() == old(rhs.Text())
      ensures !fromNull ==> rhs.len == 0
      ensures !fromNull ==> (rhs.Valid() <==> old(buffer == null || capacity < rhs.len || rhs.len == 0))
    {
      fromNull := false;
      if buffer != null && capacity >= rhs.len && rhs.buffer == null {
        return true;
      }
      if buffer != null && capacity >= rhs.len {
        Store(buffer, 0, rhs.buffer[..rhs.len] + [0]);
        len := rhs.len;
        assert buffer[..len] == old(rhs.buffer[..rhs.len]);
        assert rhs.buffer[0] == 0 <==> rhs.len == 0 by {
          if rhs.len > 0 { assert rhs.buffer[..rhs.len][0] != 0; }
        }
        rhs.len := 0;
        return;
      }
      buffer := rhs.buffer;
      capacity := rhs.capacity;
      len := rhs.len;
      rhs.buffer := null;
      rhs.capacity := 0;
      rhs.len := 0;
    }

    /** `concat(cstr, length)` for a C string that is not NULL. */
    method Concat(cstr: seq<byte>) returns (ok: bool)
      requires Valid() && NulFree(cstr)
      modifies this, buffer
      ensures Valid() && ok && Text() == old(Text()) + cstr
      ensures buffer == old(buffer) || fresh(buffer)
    {
      var newlen := len + |cstr|;
      if |cstr| == 0 {
        return true;
      }
      Reserve(newlen);
      ghost var text := Text();
      Store(buffer, len, cstr + [0]);
      len := newlen;
      assert buffer[..len] == text + cstr;
      return true;
    }

    method ConcatString(s: String) returns (ok: bool)
      requires Valid() && s.Valid() && this != s && (buffer != null ==> buffer != s.buffer)
      modifies this, buffer
      ensures Valid() && Text() == old(Text()) + s.Text()
      ensures s.Valid() && s.Text() == old(s.Text())
      ensures ok == (s.buffer != null)
      ensures buffer == old(buffer) || fresh(buffer)
    {
      if s.buffer == null {
        return false;
      }
      ok := Concat(s.buffer[..s.len]);
    }

    /**
     * Ends the string after `fromIndex` for the search and puts the byte back. A search for NUL
     * finds that end.
     */
    method LastIndexOfChar(ch: byte, fromIndex: nat) returns (r: int)
      requires Valid()
      modifies buffer
      ensures Valid() && (buffer != null ==> buffer[..] == old(buffer[..]))
      ensures ch != 0 ==> r == -1 || (0 <= r <= fromIndex && r < len && Text()[r] == ch)
      ensures fromIndex < len ==> forall j :: 0 <= j <= fromIndex && Text()[j] == ch ==> j <= r
      ensures fromIndex < len && ch == 0 ==> r == fromIndex + 1
      ensures fromIndex >= len ==> r == -1
    {
      if fromIndex >= len {
        return -1;
      }
      ghost var was := buffer[..];
      var tempchar := buffer[fromIndex + 1];
      buffer[fromIndex + 1] := 0;
      assert NulFree(buffer[0..fromIndex + 1]) by {
        assert buffer[0..fromIndex + 1] == was[..len][..fromIndex + 1];
      }
      r := StrRChr(buffer, ch, fromIndex + 1);
      assert forall j :: 0 <= j <= fromIndex ==> buffer[j] == was[j];
      buffer[fromIndex + 1] := tempchar;
      assert buffer[..] == was;
    }

    /** `lastIndexOf(s2, fromIndex)`: a left-to-right scan that remembers the last hit. */
    method LastIndexOf(pat: seq<byte>, fromIndex: nat) returns (found: int)
      requires Valid() && NulFree(pat)
      ensures found == if pat == [] || len == 0 then -1
                       else LastMatch(Text(), pat, if fromIndex >= len then len - 1 else fromIndex)
    {
      hide FirstMatch;
      if |pat| == 0 || len == 0 || |pat| > len {
        if pat != [] && len != 0 {
          LastMatchIsNone(Text(), pat, if fromIndex >= len then len - 1 else fromIndex);
        }
        return -1;
      }
      hide LastMatch;
      var last := if fromIndex >= len then len - 1 else fromIndex;
      found := -1;
      var p := 0;
      while p <= last
        invariant 0 <= p <= len + 1
        invariant found == -1 || (found <= last && MatchAt(Text(), pat, found))
        invariant forall j :: j < p && j <= last && MatchAt(Text(), pat, j) ==> j <= found
      {
        assert NulFree(buffer[p..len]) by { assert buffer[p..len] == Text()[p..]; }
        var q := StrStr(buffer, p, pat, len);
        forall j | p <= j && MatchAt(Text(), pat, j) ensures 0 <= q <= j {
          FirstMatchLeast(Text(), pat, p, j);
        }
        if q < 0 {
          break;
        }
        p := q;
        if p <= last {
          found := p;
        }
        p := p + 1;
      }
      LastMatchIs(Text(), pat, last, found);
    }

    /** The text between the two indices, in either order; the byte poked to NUL is put back. */
    method Substring(left: nat, right: nat) returns (out: String)
      requires Valid()
      modifies buffer
      ensures Valid() && (buffer != null ==> buffer[..] == old(buffer[..]))
      ensures out.Valid() && fresh(out) && (out.buffer != null ==> fresh(out.buffer))
      ensures var lo, hi := if left > right then right else left, if left > right then left else right;
        out.Text() == if lo >= len then [] else Text()[lo..if hi > len then len else hi]
    {
      var lo, hi := left, right;
      if left > right {
        lo, hi := right, left;
      }
      out := new String();
      if lo >= len {
        return;
      }
      if hi > len {
        hi := len;
      }
      CopyRange(out, lo, hi);
    }

    /** The second half of `substring`: ends the text at `hi` while `out` copies from `lo`. */
    method CopyRange(out: String, lo: nat, hi: nat)
      requires Valid() && out.Valid() && out != this && out.buffer == null
      requires buffer != null && lo <= hi <= len
      modifies buffer, out
      ensures buffer[..] == old(buffer[..])
      ensures out.Valid() && out.Text() == old(Text())[lo..hi] && fresh(out.buffer)
    {
      ghost var was := buffer[..];
      assert was[lo..hi] == Text()[lo..hi];
      PokedCString(was, lo, hi);
      hide *;
      var temp := buffer[hi];
      buffer[hi] := 0;
      assert buffer[..] == was[hi := 0];
      var middle := CStr(buffer[..][lo..]);
      out.Copy(middle);
      assert buffer[..] == was[hi := 0];
      buffer[hi] := temp;
      assert buffer[..] == was;
    }

    /** Replacing by NUL leaves a string that is longer than its text, unless nothing is replaced. */
    method ReplaceChar(find: byte, replace: byte)
      requires Valid()
      modifies buffer
      ensures Valid() <==> replace != 0 || find !in old(Text())
      ensures buffer != null ==> forall k :: 0 <= k < len ==>
        buffer[k] == if old(Text())[k] == find then replace else old(Text())[k]
    {
      if buffer == null {
        return;
      }
      ghost var was := Text();
      var p := 0;
      while buffer[p] != 0
        invariant 0 <= p <= len && buffer[len] == 0
        invariant forall k :: 0 <= k < p ==> buffer[k] == if was[k] == find then replace else was[k]
        invariant forall k :: p <= k < len ==> buffer[k] == was[k] != 0
        decreases len - p
      {
        if buffer[p] == find {
          buffer[p] := replace;
        }
        p := p + 1;
      }
      if replace == 0 && find in was {
        var k :| 0 <= k < len && was[k] == find;
        assert buffer[0..len][k] == 0;
      }
    }

    /**
     * `replace(find, replace)`. The two shrinking and equal-length branches replace the leftmost
     * matches; the growing branch replaces from the right, which is the same exactly for the clean
     * patterns of SearchReplace. `overrun` reports that it is about to write behind the buffer that
     * was reserved for the leftmost result; what the original does then is not determined.
     */
    method Replace(find: String, replace: String) returns (overrun: bool)
      requires Valid() && find.Valid() && replace.Valid() && this != find && this != replace
      requires buffer != null ==> buffer != find.buffer && buffer != replace.buffer
      modifies this, buffer
      ensures overrun <==> !GrowthFits(old(Text()), old(capacity), old(find.Text()), old(replace.Text()))
      ensures buffer == old(buffer) || fresh(buffer)
      ensures !overrun ==> Valid() && Text() == Replaced(old(Text()), old(find.Text()), old(replace.Text()))
    {
      overrun := false;
      if len == 0 || find.len == 0 {
        EmptyUnchanged(Text(), capacity, find.Text(), replace.Text());
        return;
      }
      var f, r := find.buffer[..find.len], if replace.buffer == null then [] else replace.buffer[..replace.len];
      assert f == find.Text() && r == replace.Text();
      var diff := replace.len - find.len;
      if diff == 0 {
        ReplaceEqual(f, r);
      } else if diff < 0 {
        ReplaceShrinking(f, r);
      } else {
        overrun := ReplaceGrowing(f, r);
      }
    }

    method ReplaceEqual(f: seq<byte>, r: seq<byte>)
      requires Valid() && buffer != null && NulFree(f) && NulFree(r) && |r| == |f| > 0
      modifies buffer
      ensures Valid() && Text() == Leftmost(old(Text()), f, r)
    {
      ghost var t := Text();
      LeftmostNulFree(t, f, r);
      HalfwayStart(buffer[..], t, f, r);
      hide *;
      var readFrom := 0;
      while true
        invariant Halfway(buffer[..], readFrom, readFrom, t, f, r)
        decreases len - readFrom
      {
        ghost var b := buffer[..];
        HalfwaySearch(buffer, readFrom, readFrom, len, t, f, r);
        var foundAt := StrStr(buffer, readFrom, f, len);
        if foundAt == -1 {
          SpliceSelf(b, readFrom, len + 1);
          HalfwayEnd(b, b, readFrom, readFrom, len, t, f, r);
          break;
        }
        var next := foundAt + |r|;
        Store(buffer, foundAt, r);
        SpliceSelf(b, readFrom, foundAt);
        HalfwayRound(b, b, buffer[..], readFrom, foundAt, next, readFrom, foundAt, next, t, f, r);
        readFrom := next;
      }
      Holds(Leftmost(t, f, r));
    }

    method ReplaceShrinking(f: seq<byte>, r: seq<byte>)
      requires Valid() && buffer != null && NulFree(f) && NulFree(r) && |r| < |f|
      modifies this`len, buffer
      ensures Valid() && Text() == Leftmost(old(Text()), f, r)
    {
      ghost var t, n := Text(), len;
      LeftmostNulFree(t, f, r);
      HalfwayStart(buffer[..], t, f, r);
      hide *;
      var readFrom, writeTo := CompactAll(f, r, t);
      ghost var b := buffer[..];
      HalfwaySearch(buffer, writeTo, readFrom, n, t, f, r);
      StrCpyDown(buffer, writeTo, readFrom, n);
      HalfwayEnd(b, buffer[..], writeTo, readFrom, len, t, f, r);
      assert buffer[..len] == buffer[..][..len];
      Holds(Leftmost(t, f, r));
    }

    /** The loop of the shrinking branch; the two results are the final pointers. */
    method CompactAll(f: seq<byte>, r: seq<byte>, ghost t: seq<byte>) returns (readFrom: nat, writeTo: nat)
      requires buffer != null && |t| == len && NulFree(f) && |r| < |f| && Halfway(buffer[..], 0, 0, t, f, r)
      modifies this`len, buffer
      ensures Halfway(buffer[..], writeTo, readFrom, t, f, r) && FirstMatch(t, f, readFrom) < 0
      ensures len == |t| - readFrom + writeTo
    {
      hide *;
      var diff := |r| - |f|;
      readFrom, writeTo := 0, 0;
      while true
        invariant Halfway(buffer[..], writeTo, readFrom, t, f, r)
        invariant len == |t| - readFrom + writeTo
        decreases |t| - readFrom
      {
        HalfwaySearch(buffer, writeTo, readFrom, |t|, t, f, r);
        var foundAt := StrStr(buffer, readFrom, f, |t|);
        if foundAt == -1 {
          return;
        }
        ghost var b := buffer[..];
        var mid, next := writeTo + (foundAt - readFrom), foundAt + |f|;
        ghost var b1 := MoveAndPut(writeTo, readFrom, foundAt, mid, r);
        HalfwayRound(b, b1, buffer[..], writeTo, mid, mid + |r|, readFrom, foundAt, next, t, f, r);
        writeTo := mid + |r|;
        readFrom := next;
        len := len + diff;
      }
    }

    /** The two copies of one round. */
    method MoveAndPut(writeTo: nat, readFrom: nat, foundAt: nat, mid: nat, r: seq<byte>) returns (ghost b1: seq<byte>)
      requires buffer != null && writeTo <= readFrom <= foundAt <= buffer.Length
      requires mid == writeTo + (foundAt - readFrom) && mid + |r| <= buffer.Length
      modifies buffer
      ensures b1 == Splice(old(buffer[..]), writeTo, old(buffer[..])[readFrom..foundAt])
      ensures buffer[..] == Splice(b1, mid, r)
    {
      hide Splice;
      var gap := foundAt - readFrom;
      assert buffer[..][readFrom..foundAt] == buffer[readFrom..readFrom + gap];
      MemCpy(buffer, writeTo, buffer, readFrom, gap);
      b1 := buffer[..];
      Store(buffer, mid, r);
    }

    method ReplaceGrowing(f: seq<byte>, r: seq<byte>) returns (overrun: bool)
      requires Valid() && buffer != null && len > 0 && NulFree(f) && NulFree(r) && 0 < |f| < |r|
      modifies this, buffer
      ensures overrun <==> !GrowthFits(old(Text()), old(capacity), f, r)
      ensures !overrun ==> Valid() && Text() == Rightmost(old(Text()), f, r)
      ensures buffer == old(buffer) || fresh(buffer)
    {
      ghost var t, goal, room := Text(), Rightmost(Text(), f, r), capacity;
      var diff := |r| - |f|;
      Fits();
      hide *;
      var size := LeftmostSize(f, diff);
      GrowthSize(t, room, f, r, size);
      if size == len {
        RoomEnough(size, room);
        return false;
      }
      overrun := Grow(size, f, r, goal);
    }

    method Grow(size: nat, f: seq<byte>, r: seq<byte>, ghost goal: seq<byte>) returns (overrun: bool)
      requires Valid() && buffer != null && NulFree(f) && NulFree(r) && 0 < |f| < |r|
      requires goal == Rightmost(Text(), f, r) && size > len
      modifies this, buffer
      ensures overrun <==> |goal| > Room(size, old(capacity))
      ensures !overrun ==> Valid() && Text() == goal
      ensures buffer == old(buffer) || fresh(buffer)
    {
      Fits();
      OnTheWayStart(Text(), f, r, goal);
      hide *;
      MakeRoom(size);
      overrun := RewriteFromRight(f, r, goal);
    }

    method MakeRoom(size: nat)
      requires Valid() && buffer != null && size > len
      modifies this`buffer, this`capacity
      ensures Valid() && buffer != null && Text() == old(Text())
      ensures capacity == Room(size, old(capacity))
      ensures buffer == old(buffer) || fresh(buffer)
    {
      if size > capacity {
        ghost var t := Text();
        ChangeBuffer(size);
        assert buffer[..len] == old(buffer[..][..len]) && buffer[len] == old(buffer[..][len]);
        Holds(t);
      }
    }

    /** The rewriting loop. */
    method RewriteFromRight(f: seq<byte>, r: seq<byte>, ghost goal: seq<byte>) returns (overrun: bool)
      requires Valid() && buffer != null && NulFree(f) && NulFree(r)
      requires OnTheWay(Text(), f, r, len - 1, goal)
      modifies this`len, buffer
      ensures overrun <==> |goal| > capacity
      ensures !overrun ==> Valid() && Text() == goal
    {
      hide *;
      var index := len - 1;
      ghost var s := Text();
      OnTheWayBounds(s, f, r, index, goal);
      while index >= 0
        invariant Valid() && buffer != null && s == Text() && -1 <= index
        invariant OnTheWay(s, f, r, index, goal)
        decreases index
      {
        OnTheWayBounds(s, f, r, index, goal);
        var i := LastIndexOf(f, index);
        if i < 0 {
          OnTheWayNoMatch(s, f, r, index, goal);
          Fits();
          return false;
        }
        ghost var s' := OnTheWayRound(s, f, r, index, i, goal);
        if len + |r| - |f| > capacity {
          return true;
        }
        ReplaceAt(i, |f|, r);
        s := s';
        index := i - 1;
      }
      OnTheWayStop(s, f, r, goal);
      Fits();
      return false;
    }

    lemma Fits()
      requires Valid()
      ensures |Text()| == len <= capacity
    {}

    /** The counting loop: the length of the leftmost result. */
    method LeftmostSize(f: seq<byte>, diff: nat) returns (size: nat)
      requires Valid() && buffer != null && NulFree(f) && f != [] && diff > 0
      ensures size == len + Gain(Text(), f, diff)
    {
      ghost var t := Text();
      assert t[0..] == t;
      GainFromIs(t, f, diff, 0);
      size := len;
      var readFrom := 0;
      while true
        invariant 0 <= readFrom <= len
        invariant size + GainFrom(t, f, diff, readFrom) == len + Gain(t, f, diff)
        decreases len - readFrom
      {
        RestIsCString(readFrom);
        hide Gain, FirstMatch, Valid;
        var foundAt := StrStr(buffer, readFrom, f, len);
        if foundAt == -1 {
          return;
        }
        readFrom := foundAt + |f|;
        size := size + diff;
      }
    }

    lemma RestIsCString(from: nat)
      requires Valid() && buffer != null && from <= len
      ensures CString(buffer, from, len) && buffer[..len] == Text()
    {
      assert buffer[from..len] == Text()[from..];
    }

    /** One round of the rewriting loop: opens a gap behind the match at `i` and fills in `r`. */
    method ReplaceAt(i: nat, n: nat, r: seq<byte>)
      requires Valid() && buffer != null && NulFree(r) && n < |r|
      requires i + n <= len && len + |r| - n <= capacity
      modifies this`len, buffer
      ensures Valid() && Text() == Glue(old(Text()), i, r, old(Text())[i + n..])
    {
      ghost var t := Text();
      ghost var t' := Glue(t, i, r, t[i + n..]);
      assert NulFree(t');
      ghost var b0 := buffer[..];
      assert t == b0[..|t|];
      hide *;
      var readFrom := i + n;
      var diff := |r| - n;
      var to := readFrom + diff;
      ghost var b1, b2 := OpenGap(readFrom, to, len, len + diff);
      len := len + diff;
      Store(buffer, i, r);
      GapFilled(b0, b1, b2, buffer[..], i, readFrom, to, |t|, len, r, t');
      Holds(t');
    }

    /** The rest of a text of `n` bytes moves up from `from` to `to`, and gets its NUL. */
    method OpenGap(from: nat, to: nat, n: nat, end: nat) returns (ghost b1: seq<byte>, ghost b2: seq<byte>)
      requires buffer != null && from <= n && from < to && end == to + (n - from) < buffer.Length
      modifies buffer
      ensures b1 == Splice(old(buffer[..]), to, old(buffer[..])[from..n])
      ensures b2 == b1[end := 0] && buffer[..] == b2
    {
      hide Splice;
      var count := n - from;
      assert buffer[from..from + count] == buffer[..][from..n];
      MemMoveUp(buffer, to, from, count);
      b1 := buffer[..];
      buffer[end] := 0;
      b2 := buffer[..];
    }

    method Remove(index: nat, count: nat)
      requires Valid()
      modifies this`len, buffer
      ensures Valid()
      ensures Text() ==
        if index >= |old(Text())| then old(Text())
        else if count > |old(Text())| - index then old(Text())[..index]
        else old(Text())[..index] + old(Text())[index + count..]
    {
      if index >= len || count <= 0 {
        return;
      }
      CutOut(index, if count > len - index then len - index else count);
    }

    /** The last lines of `remove`: the text after the cut moves down over it. */
    method CutOut(index: nat, n: nat)
      requires Valid() && buffer != null && index + n <= len
      modifies this`len, buffer
      ensures Valid() && Text() == old(Text())[..index] + old(Text())[index + n..]
    {
      ghost var t := Text()[..index] + Text()[index + n..];
      assert NulFree(t);
      CloseGap(buffer[..], index, n, len);
      len := len - n;
      hide *;
      MemCpy(buffer, index, buffer, index + n, len - index);
      assert buffer[..len] == t;
      buffer[len] := 0;
      assert buffer[..len] == t;
      Holds(t);
    }

    method Trim()
      requires Valid()
      modifies this`len, buffer
      ensures Valid()
      ensures NoSpaceAtEnds(Text())
      ensures IsTrimOf(Text(), old(Text()))
    {
      if buffer == null || len == 0 {
        assert Text() == Text()[0..0];
        TrimBounds(Text(), 0, 0);
        return;
      }
      hide *;
      var begin := FrontSpaces();
      var end := BackSpaces(begin);
      Fits();
      TrimBounds(Text(), begin, end);
      KeepRange(begin, end);
    }

    /** The first loop of `trim`. */
    method FrontSpaces() returns (begin: nat)
      requires Valid() && buffer != null
      ensures begin <= len && AllSpace(Text()[..begin]) && (begin < len ==> !IsSpace(Text()[begin]))
    {
      ghost var was := Text();
      assert buffer[len] == 0 && forall k :: 0 <= k < len ==> buffer[k] == was[k];
      hide Valid, CString, NulFree;
      begin := 0;
      while IsSpace(buffer[begin])
        invariant 0 <= begin <= len
        invariant forall k :: 0 <= k < begin ==> IsSpace(was[k])
        decreases len - begin
      {
        begin := begin + 1;
      }
    }

    /** Its second loop; `end` is the index behind the last byte that stays. */
    method BackSpaces(begin: nat) returns (end: nat)
      requires Valid() && buffer != null && 0 < len && begin <= len
      requires begin < len ==> !IsSpace(Text()[begin])
      ensures begin <= end <= len && AllSpace(Text()[end..])
      ensures begin < end ==> !IsSpace(Text()[begin]) && !IsSpace(Text()[end - 1])
    {
      ghost var was := Text();
      assert forall k :: 0 <= k < len ==> buffer[k] == was[k];
      hide Valid, CString, NulFree;
      var last := len - 1;
      while IsSpace(buffer[last]) && last >= begin
        invariant 0 <= last < len && begin <= last + 1
        invariant forall k :: last < k < len ==> IsSpace(was[k])
        decreases last
      {
        last := last - 1;
      }
      end := last + 1;
    }

    /** The last lines of `trim`: the bytes from `begin` to `end` become the text. */
    method KeepRange(begin: nat, end: nat)
      requires Valid() && buffer != null && begin <= end <= len
      modifies this`len, buffer
      ensures Valid() && Text() == old(Text())[begin..end]
    {
      ghost var t := Text()[begin..end];
      var n := end - begin;
      assert buffer[begin..begin + n] == t && NulFree(t);
      hide *;
      len := n;
      MoveToFront(begin, n, t);
      EndAt(n, t);
      Holds(t);
    }

    method MoveToFront(begin: nat, n: nat, ghost t: seq<byte>)
      requires buffer != null && begin + n <= buffer.Length && buffer[begin..begin + n] == t
      modifies buffer
      ensures buffer[..n] == t
    {
      if begin > 0 {
        MemCpy(buffer, 0, buffer, begin, n);
      }
    }

    method EndAt(n: nat, ghost t: seq<byte>)
      requires buffer != null && n < buffer.Length && buffer[..n] == t
      modifies buffer
      ensures buffer[..n] == t && buffer[n] == 0
    {
      buffer[n] := 0;
    }
  }
}
