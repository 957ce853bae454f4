/** Bytes, C strings and the C library's block copies, as the other modules use them. */
module Memory {

  type byte = b: int | 0 <= b < 256

  /** `a` with the bytes from `at` on overwritten by `b`. */
  function Splice(a: seq<byte>, at: nat, b: seq<byte>): (r: seq<byte>)
    requires at + |b| <= |a|
    ensures |r| == |a|
  {
    a[..at] + b + a[at + |b|..]
  }

  lemma SpliceAt(a: seq<byte>, at: nat, b: seq<byte>)
    requires at + |b| <= |a|
    ensures forall k :: 0 <= k < |a| ==>
      Splice(a, at, b)[k] == if at <= k < at + |b| then b[k - at] else a[k]
  {}

  /** The bytes of `s` are the characters of `text`. */
  predicate Spells(s: seq<byte>, text: string) {
    |s| == |text| && forall i :: 0 <= i < |s| ==> s[i] == text[i] as int
  }

  /** No byte of `s` is a NUL. */
  predicate NulFree(s: seq<byte>) {
    forall k :: 0 <= k < |s| ==> s[k] != 0
  }

  /** The C string that starts at the first byte of `s`: everything before the first NUL. */
  function CStr(s: seq<byte>): (r: seq<byte>)
    ensures r <= s && NulFree(r)
    ensures r == s || s[|r|] == 0
  {
    if s == [] || s[0] == 0 then [] else [s[0]] + CStr(s[1..])
  }

  lemma {:induction false} CStrIs(s: seq<byte>, t: seq<byte>)
    requires NulFree(t) && t < s && s[|t|] == 0
    ensures CStr(s) == t
  {
    if t != [] {
      CStrIs(s[1..], t[1..]);
    }
  }

  lemma {:induction false} CStrAll(s: seq<byte>)
    requires NulFree(s)
    ensures CStr(s) == s
  {
    if s != [] {
      CStrAll(s[1..]);
    }
  }

  /** At most `n` bytes of `s`. */
  function Cut(s: seq<byte>, n: nat): seq<byte> {
    if |s| <= n then s else s[..n]
  }

  /** Pieces one behind the other. */
  function Cat(pieces: seq<seq<byte>>): seq<byte> {
    if pieces == [] then [] else pieces[0] + Cat(pieces[1..])
  }

  lemma CatAhead(pieces: seq<seq<byte>>, tail: seq<byte>)
    requires pieces != []
    ensures Cat(pieces) + tail == pieces[0] + (Cat(pieces[1..]) + tail)
  {}

  /** The value of a hexadecimal digit, -1 for any other byte. */
  function HexDigit(c: byte): (d: int)
    ensures -1 <= d < 16
  {
    if 48 <= c <= 57 then c - 48
    else if 65 <= c <= 70 then c - 65 + 10
    else if 97 <= c <= 102 then c - 97 + 10
    else -1
  }

  /** The bytes with a value are the hexadecimal digits in either case. */
  lemma HexDigitIs(c: byte, d: nat)
    requires d < 16
    ensures HexDigit(c) == d <==> c == "0123456789ABCDEF"[d] as int || c == "0123456789abcdef"[d] as int
  {}

  lemma Assoc(x: seq<byte>, y: seq<byte>, z: seq<byte>)
    ensures x + y + z == x + (y + z)
  {}

  lemma SpliceGrows(a: seq<byte>, at: nat, b: seq<byte>, k: nat)
    requires at + |b| <= |a| && k < |b|
    ensures Splice(a, at, b[..k])[at + k := b[k]] == Splice(a, at, b[..k + 1])
  {}

  /** memcpy, or memmove towards lower addresses: a forward byte loop. */
  method MemCpy(dst: array<byte>, d: nat, src: array<byte>, s: nat, n: nat)
    requires d + n <= dst.Length && s + n <= src.Length
    requires dst == src ==> d <= s
    modifies dst
    ensures dst[..] == Splice(old(dst[..]), d, old(src[s..s + n]))
  {
    ghost var from := src[s..s + n];
    assert dst[..] == Splice(dst[..], d, from[..0]);
    hide Splice;
    for k := 0 to n
      invariant dst[..] == Splice(old(dst[..]), d, from[..k])
      invariant forall j :: k <= j < n ==> src[..][s + j] == from[j]
    {
      SpliceGrows(old(dst[..]), d, from, k);
      ghost var was := dst[..];
      assert src[..][s + k] == from[k];
      dst[d + k] := src[s + k];
      assert dst[..] == was[d + k := from[k]];
    }
    assert from[..n] == from;
  }

  /** The first `k` bytes of `from` are copied from `s` down to `d`; the others are still at `s`. */
  ghost predicate CopiedDown(b: seq<byte>, b0: seq<byte>, d: nat, s: nat, from: seq<byte>, k: nat) {
    k <= |from| && d <= s && s + |from| <= |b0| && b == Splice(b0, d, from[..k]) &&
    forall j :: k <= j < |from| ==> b[s + j] == from[j]
  }

  lemma CopyDown(b: seq<byte>, b0: seq<byte>, d: nat, s: nat, from: seq<byte>, k: nat, next: nat)
    requires CopiedDown(b, b0, d, s, from, k) && k < |from| && next == k + 1
    ensures d <= s && s + k < |b| == |b0| && b[s + k] == from[k] && CopiedDown(b[d + k := from[k]], b0, d, s, from, next)
  {
    SpliceGrows(b0, d, from, k);
    hide Splice;
  }

  lemma NulIsLast(from: seq<byte>, inner: seq<byte>, k: nat)
    requires NulFree(inner) && from == inner + [0] && k < |from|
    ensures from[k] == 0 <==> k + 1 == |from|
  {}

  lemma CopyDownEnds(b: seq<byte>, b0: seq<byte>, d: nat, s: nat, from: seq<byte>, k: nat)
    requires CopiedDown(b, b0, d, s, from, k) && k == |from|
    ensures b == Splice(b0, d, from)
  {
    assert from[..k] == from;
  }

  /** strcpy towards lower addresses inside one block; a NUL ends the source at `end`. */
  method StrCpyDown(a: array<byte>, d: nat, s: nat, ghost end: nat)
    requires d <= s <= end < a.Length && a[end] == 0 && NulFree(a[s..end])
    modifies a
    ensures a[..] == Splice(old(a[..]), d, old(a[s..end + 1]))
  {
    ghost var from, b0, inner := a[s..end + 1], a[..], a[s..end];
    assert from == inner + [0];
    var k := 0;
    CopyDownStarts(b0, d, s, from);
    hide *;
    while true
      invariant 0 <= k < |from| && CopiedDown(a[..], b0, d, s, from, k)
      decreases |from| - k
    {
      ghost var was := a[..];
      CopyDown(was, b0, d, s, from, k, k + 1);
      a[d + k] := a[s + k];
      assert a[..] == was[d + k := from[k]];
      NulIsLast(from, inner, k);
      if a[d + k] == 0 {
        CopyDownEnds(a[..], b0, d, s, from, k + 1);
        return;
      }
      k := k + 1;
    }
  }

  lemma CopyDownStarts(b0: seq<byte>, d: nat, s: nat, from: seq<byte>)
    requires d <= s && s + |from| <= |b0| && from == b0[s..s + |from|]
    ensures CopiedDown(b0, b0, d, s, from, 0)
  {
    assert b0 == Splice(b0, d, from[..0]);
  }

  /** memmove towards higher addresses inside one block: a backward byte loop. */
  method MemMoveUp(a: array<byte>, d: nat, s: nat, n: nat)
    requires s <= d && d + n <= a.Length
    modifies a
    ensures a[..] == Splice(old(a[..]), d, old(a[s..s + n]))
  {
    ghost var was := a[..];
    var k := n;
    while k > 0
      invariant 0 <= k <= n
      invariant forall j :: 0 <= j < d + k || d + n <= j < a.Length ==> a[j] == was[j]
      invariant forall j :: d + k <= j < d + n ==> a[j] == was[s + j - d]
    {
      k := k - 1;
      a[d + k] := a[s + k];
    }
    assert a[..] == Splice(was, d, was[s..s + n]);
  }

  /** Copying the bytes of a value into a block. */
  method Store(dst: array<byte>, d: nat, data: seq<byte>)
    requires d + |data| <= dst.Length
    modifies dst
    ensures dst[..] == Splice(old(dst[..]), d, data)
  {
    assert dst[..] == Splice(dst[..], d, data[..0]);
    hide Splice;
    for k := 0 to |data|
      invariant dst[..] == Splice(old(dst[..]), d, data[..k])
    {
      SpliceGrows(old(dst[..]), d, data, k);
      ghost var was := dst[..];
      dst[d + k] := data[k];
      assert dst[..] == was[d + k := data[k]];
    }
    assert data[..|data|] == data;
  }

  /** A new block with the bytes of a value. */
  method Copied(data: seq<byte>) returns (a: array<byte>)
    ensures fresh(a) && a[..] == data
  {
    a := new byte[|data|];
    Store(a, 0, data);
  }
}
