/**
 * Numbers as text: `printNumber` and `print(long, int)` of cores/arduino/Print.cpp, and
 * `peekNextDigit` and `parseInt` of cores/arduino/Stream.cpp. Values are unbounded here; when they
 * stay in the original's 32 bits is a theorem.
 */
module NumberText {
  import opened Memory
  import SF = StreamFind

  // --- Writing ---------------------------------------------------------------------------------------

  /** '0' to '9', then letters from 'A' on, cut to eight bits. */
  function DigitChar(d: nat): byte {
    if d < 10 then d + 48 else (d + 55) % 256
  }

  function Numeral(n: nat, base: nat): (s: seq<byte>)
    requires base >= 2
    ensures s != []
    decreases n
  {
    if n < base then [DigitChar(n)]
    else
      DivShrinks(n, base);
      Numeral(n / base, base) + [DigitChar(n % base)]
  }

  lemma DivShrinks(n: nat, base: nat)
    requires base >= 2 && n > 0
    ensures 2 * (n / base) <= n && n == base * (n / base) + n % base && 0 <= n / base < n
  {
    var q := n / base;
    assert n == base * q + n % base;
    if q > 0 {
      assert base * q >= 2 * q;
    }
  }

  function Pow2(k: nat): nat {
    if k == 0 then 1 else 2 * Pow2(k - 1)
  }

  /** A number below 2^k has at most k digits in every base. */
  lemma {:induction false} NumeralLength(n: nat, base: nat, k: nat)
    requires base >= 2 && k > 0 && n < Pow2(k)
    ensures |Numeral(n, base)| <= k
    decreases k
  {
    if n >= base {
      DivShrinks(n, base);
      NumeralLength(n / base, base, k - 1);
    }
  }

  lemma FitsIn32(n: nat, base: nat)
    requires base >= 2 && n < 0x1_0000_0000
    ensures |Numeral(n, base)| <= 32
  {
    assert Pow2(8) == 256 && Pow2(16) == 65536 && Pow2(24) == 16777216 && Pow2(32) == 0x1_0000_0000;
    NumeralLength(n, base, 32);
  }

  /** What `print(n)` writes. */
  function Printed(n: int): seq<byte> {
    if n < 0 then [45] + Numeral(-n, 10) else Numeral(n, 10)
  }

  /**
   * `printNumber`: the digits are put into a buffer of 33 bytes from its end downwards, and written as
   * a C string.
   */
  method PrintNumber(n0: nat, base0: nat) returns (text: seq<byte>)
    requires n0 < 0x1_0000_0000 && base0 < 256
    ensures text == CStr(Numeral(n0, if base0 < 2 then 10 else base0)) && |text| <= 32
  {
    var n, base, str := n0, base0, 32;
    var buf := new byte[33];
    buf[str] := 0;
    if base < 2 {
      base := 10;
    }
    FitsIn32(n0, base);
    hide *;
    str := DigitsInto(buf, n, base);
    NulAtEnd(buf[..], str);
    text := CStr(buf[str..]);
  }

  lemma NulAtEnd(buf: seq<byte>, str: nat)
    requires |buf| == 33 && str <= 32 && buf[32] == 0
    ensures CStr(buf[str..]) == CStr(buf[str..32])
  {
    assert buf[str..] == buf[str..32] + [0];
    CStrStops(buf[str..32]);
  }

  /** The digits of `n0`, in front of the NUL at the end of the buffer. */
  method DigitsInto(buf: array<byte>, n0: nat, base: nat) returns (str: nat)
    requires buf.Length == 33 && buf[32] == 0 && base >= 2 && |Numeral(n0, base)| <= 32
    modifies buf
    ensures str <= 32 && buf[32] == 0 && buf[str..32] == Numeral(n0, base)
  {
    var n := n0;
    str := 32;
    ghost var goal := Numeral(n0, base);
    assert goal + buf[32..32] == goal;
    hide *;
    while true
      invariant 0 <= n && 1 <= str <= 32 && Numeral(n, base) + buf[str..32] == goal && buf[32] == 0
      decreases n
    {
      var m := n;
      ghost var low := buf[str..32];
      n := n / base;
      var c := m - base * n;
      DigitRound(m, n, c, base, low, goal);
      str := str - 1;
      buf[str] := DigitChar(c);
      assert buf[str..32] == [DigitChar(c)] + low;
      if n == 0 {
        break;
      }
    }
  }

  lemma DigitRound(n: nat, next: nat, c: int, base: nat, low: seq<byte>, goal: seq<byte>)
    requires base >= 2 && Numeral(n, base) + low == goal && next == n / base && c == n - base * next
    ensures c >= 0 && (n > 0 ==> next < n)
    ensures (if next == 0 then [] else Numeral(next, base)) + ([DigitChar(c)] + low) == goal
    ensures next > 0 ==> |low| + 2 <= |goal|
  {
    DigitSplit(n, base);
    Assoc(if next == 0 then [] else Numeral(next, base), [DigitChar(c)], low);
    hide Numeral;
  }

  lemma {:induction false} CStrStops(s: seq<byte>)
    ensures CStr(s + [0]) == CStr(s)
  {
    if s != [] {
      assert (s + [0])[1..] == s[1..] + [0];
      CStrStops(s[1..]);
    }
  }

  lemma DigitSplit(n: nat, base: nat)
    requires base >= 2
    ensures n - base * (n / base) == n % base && 0 <= n / base && (n > 0 ==> n / base < n) && 0 <= n % base
    ensures Numeral(n, base) ==
      (if n / base == 0 then [] else Numeral(n / base, base)) + [DigitChar(n % base)]
  {
    if n >= base {
      DivShrinks(n, base);
      DivPositive(n, base);
    } else {
      SmallDiv(n, base);
      assert [] + [DigitChar(n)] == [DigitChar(n)];
    }
  }

  lemma DivPositive(n: nat, base: nat)
    requires 2 <= base <= n
    ensures n / base >= 1
  {
    var q := n / base;
    assert n == base * q + n % base && n % base < base;
  }

  lemma SmallDiv(n: nat, base: nat)
    requires n < base
    ensures n / base == 0 && n % base == n && base * (n / base) == 0
  {}

  /** The conversion to `unsigned long`. */
  function Unsigned(n: int): (u: nat)
    requires -0x8000_0000 <= n < 0x1_0000_0000
    ensures u < 0x1_0000_0000
  {
    if n < 0 then n + 0x1_0000_0000 else n
  }

  /** What `print(n, base)` writes: base 0 is the byte itself, and only base 10 has a sign. */
  function PrintedIn(n: int, base: int): seq<byte>
    requires -0x8000_0000 <= n < 0x8000_0000
  {
    if base == 0 then [n % 256]
    else if base == 10 then Printed(n)
    else CStr(Numeral(Unsigned(n), if base % 256 < 2 then 10 else base % 256))
  }

  /**
   * `print(n, base)` of a long. The negation wraps around for the least long, which is why its
   * digits come out right.
   */
  method PrintLong(n0: int, base: int) returns (text: seq<byte>)
    requires -0x8000_0000 <= n0 < 0x8000_0000
    ensures text == PrintedIn(n0, base)
  {
    var n := n0;
    if base == 0 {
      return [n % 256];
    } else if base == 10 {
      DecimalWhole(if n < 0 then -n else n);
      if n < 0 {
        n := if n == -0x8000_0000 then n else -n;
        var digits := PrintNumber(Unsigned(n), 10);
        return [45] + digits;
      }
      text := PrintNumber(Unsigned(n), 10);
    } else {
      text := PrintNumber(Unsigned(n), base % 256);
    }
  }

  // --- Reading -----------------------------------------------------------------------------------------

  predicate IsDigit(c: int) {
    48 <= c <= 57
  }

  /** The value read, and how many bytes were consumed. */
  datatype Parsed = Parsed(value: int, at: nat)

  /** The first digit or minus sign at `k` or later. */
  function SkipTo(s: seq<byte>, k: nat): (j: nat)
    requires k <= |s|
    ensures k <= j <= |s|
    decreases |s| - k
  {
    if k == |s| || s[k] == 45 || IsDigit(s[k]) then k else SkipTo(s, k + 1)
  }

  function NextValue(value: int, c: byte, skip: byte): int {
    if c == skip || c == 45 then value else value * 10 + c - 48
  }

  function Run(s: seq<byte>, k: nat, value: int, skip: byte): (r: Parsed)
    requires k <= |s|
    ensures k <= r.at <= |s|
    decreases |s| - k
  {
    if k == |s| || !(IsDigit(s[k]) || s[k] == skip) then Parsed(value, k)
    else Run(s, k + 1, NextValue(value, s[k], skip), skip)
  }

  /** `parseInt` from position `start` on. */
  function ParseInt(s: seq<byte>, start: nat, skip: byte): Parsed
    requires start <= |s|
  {
    var k := SkipTo(s, start);
    if k == |s| then Parsed(0, k)
    else Signed(Run(s, k + 1, NextValue(0, s[k], skip), skip), s[k] != skip && s[k] == 45)
  }

  function Signed(r: Parsed, negative: bool): Parsed {
    if negative then r.(value := -r.value) else r
  }

  /** `peekNextDigit`. */
  method PeekNextDigit(stream: SF.Stream) returns (c: int)
    requires stream.Valid()
    modifies stream
    ensures stream.Valid() && stream.pos == SkipTo(stream.bytes, old(stream.pos))
    ensures c == if stream.pos < |stream.bytes| then stream.bytes[stream.pos] else -1
  {
    while true
      invariant stream.Valid() && SkipTo(stream.bytes, stream.pos) == SkipTo(stream.bytes, old(stream.pos))
      decreases |stream.bytes| - stream.pos
    {
      c := stream.TimedPeek();
      if c < 0 {
        return;
      }
      if c == 45 {
        return;
      }
      if c >= 48 && c <= 57 {
        return;
      }
      var discarded := stream.TimedRead();
    }
  }

  /** The loop of `parseInt` behind its first byte. */
  method ReadDigits(stream: SF.Stream, first: int, skip: byte) returns (value: int)
    requires stream.Valid()
    modifies stream
    ensures stream.Valid()
    ensures Run(stream.bytes, old(stream.pos), first, skip) == Parsed(value, stream.pos)
  {
    value := first;
    var c := stream.TimedPeek();
    while (c >= 48 && c <= 57) || c == skip
      invariant stream.Valid()
      invariant Run(stream.bytes, stream.pos, value, skip) == Run(stream.bytes, old(stream.pos), first, skip)
      invariant c == if stream.pos < |stream.bytes| then stream.bytes[stream.pos] else -1
      decreases |stream.bytes| - stream.pos
    {
      value := NextValue(value, c, skip);
      var consumed := stream.TimedRead();
      c := stream.TimedPeek();
    }
  }

  /** `parseInt(skipChar)`. */
  method ReadInt(stream: SF.Stream, skip: byte) returns (value: int)
    requires stream.Valid()
    modifies stream
    ensures stream.Valid()
    ensures ParseInt(stream.bytes, old(stream.pos), skip) == Parsed(value, stream.pos)
  {
    var c := PeekNextDigit(stream);
    if c < 0 {
      return 0;
    }
    var isNegative := c != skip && c == 45;
    var consumed := stream.TimedRead();
    value := ReadDigits(stream, NextValue(0, c, skip), skip);
    if isNegative {
      value := -value;
    }
  }

  /** The value of a digit in bases up to 36, -1 for any other byte. */
  function DigitValue(c: byte): int {
    if 48 <= c <= 57 then c - 48 else if 65 <= c <= 90 then c - 55 else -1
  }

  lemma DigitCharIs(d: nat)
    requires d < 36
    ensures DigitChar(d) == (if d < 10 then '0' as int + d else 'A' as int + (d - 10)) && DigitValue(DigitChar(d)) == d
  {}

  /** The value of digits in a base, on top of `value`. */
  function ValueIn(d: seq<byte>, base: nat, value: int): int {
    if d == [] then value else ValueIn(d[1..], base, value * base + DigitValue(d[0]))
  }

  lemma {:induction false} ValueSnoc(d: seq<byte>, c: byte, base: nat, value: int)
    ensures ValueIn(d + [c], base, value) == ValueIn(d, base, value) * base + DigitValue(c)
    decreases |d|
  {
    if d == [] {
      assert d + [c] == [c];
    } else {
      assert (d + [c])[1..] == d[1..] + [c];
      ValueSnoc(d[1..], c, base, value * base + DigitValue(d[0]));
    }
  }

  predicate DigitsBelow(d: seq<byte>, base: nat) {
    forall i :: 0 <= i < |d| ==> 0 <= DigitValue(d[i]) < base
  }

  /** In bases up to 36: digits of the base, no leading zero, and the value of the number. */
  lemma {:induction false} NumeralInBase(n: nat, base: nat)
    requires 2 <= base <= 36
    ensures DigitsBelow(Numeral(n, base), base) && ValueIn(Numeral(n, base), base, 0) == n
    ensures n > 0 ==> Numeral(n, base)[0] != 48
    decreases n
  {
    if n < base {
      DigitCharIs(n);
      LoneDigit(n, base);
    } else {
      DivShrinks(n, base);
      DivPositive(n, base);
      var high, low := n / base, n % base;
      DigitCharIs(low);
      NumeralInBase(high, base);
      ValueSnoc(Numeral(high, base), DigitChar(low), base, 0);
      Commutes(high, base);
      hide ValueIn, DigitChar, DigitValue;
    }
  }

  lemma LoneDigit(n: nat, base: nat)
    requires n < base && n < 36 && base >= 2 && DigitValue(DigitChar(n)) == n
    ensures ValueIn([DigitChar(n)], base, 0) == n
  {
    assert [DigitChar(n)][1..] == [];
  }

  lemma Commutes(a: nat, b: nat)
    ensures a * b == b * a
  {}

  lemma {:induction false} NoNulDigit(n: nat, base: nat)
    requires 2 <= base <= 201
    ensures NulFree(Numeral(n, base))
    decreases n
  {
    if n >= base {
      DivShrinks(n, base);
      NoNulDigit(n / base, base);
      assert DigitChar(n % base) != 0;
    }
  }

  /** The digit 201 is a NUL, so a base shows all numbers in full exactly if it has no such digit. */
  lemma WholeExactly(base: nat)
    requires 2 <= base < 256
    ensures (forall n: nat | n < 0x1_0000_0000 :: CStr(Numeral(n, base)) == Numeral(n, base)) <==> base <= 201
  {
    if base <= 201 {
      forall n: nat | n < 0x1_0000_0000 ensures CStr(Numeral(n, base)) == Numeral(n, base) {
        NoNulDigit(n, base);
        CStrAll(Numeral(n, base));
      }
    } else {
      assert Numeral(201, base) == [0];
      assert CStr(Numeral(201, base)) == [];
    }
  }

  predicate Means(text: seq<byte>, base: nat, n: int) {
    DigitsBelow(text, base) && ValueIn(text, base, 0) == n
  }

  /**
   * What `print(n, base)` writes has, in the base, the value of the long read as an unsigned number; in
   * base 10 alone it has a sign instead.
   */
  lemma PrintedInMeans(n: int, base: int)
    requires -0x8000_0000 <= n < 0x8000_0000 && 2 <= base <= 36
    ensures if base == 10 && n < 0 then
        PrintedIn(n, base) != [] && PrintedIn(n, base)[0] == 45 && Means(PrintedIn(n, base)[1..], 10, -n)
      else Means(PrintedIn(n, base), base, if n < 0 then n + 0x1_0000_0000 else n)
  {
    var m := if base == 10 && n < 0 then -n else Unsigned(n);
    NumeralInBase(m, base);
    NoNulDigit(m, base);
    CStrAll(Numeral(m, base));
    hide Numeral, DigitsBelow, ValueIn;
  }

  lemma DecimalWhole(n: nat)
    ensures CStr(Numeral(n, 10)) == Numeral(n, 10)
  {
    NoNulDigit(n, 10);
    CStrAll(Numeral(n, 10));
  }

  // --- What is printed is read back ------------------------------------------------------------------------

  predicate Digits(d: seq<byte>) {
    forall i :: 0 <= i < |d| ==> IsDigit(d[i])
  }

  /** The value of more digits behind a number. */
  function ValueFrom(d: seq<byte>, value: int): int {
    if d == [] then value else ValueFrom(d[1..], value * 10 + d[0] - 48)
  }

  /** Every sum that is formed on the way, `value * 10 + c` before the '0' is taken off, fits a 32-bit long. */
  predicate SumsFit(d: seq<byte>, value: int) {
    d == [] || (value * 10 + d[0] <= 0x7fff_ffff && SumsFit(d[1..], value * 10 + d[0] - 48))
  }

  lemma {:induction false} OneMoreDigit(d: seq<byte>, c: byte, value: int)
    ensures ValueFrom(d + [c], value) == ValueFrom(d, value) * 10 + c - 48
    ensures SumsFit(d + [c], value) <==> SumsFit(d, value) && ValueFrom(d, value) * 10 + c <= 0x7fff_ffff
    decreases |d|
  {
    if d == [] {
      assert d + [c] == [c];
    } else {
      assert (d + [c])[1..] == d[1..] + [c];
      OneMoreDigit(d[1..], c, value * 10 + d[0] - 48);
    }
  }

  /** A decimal numeral has digits only, its value is the number, and its sums fit 32 bits exactly up to 2^31 - 1 - 48. */
  lemma {:induction false} NumeralMeans(n: nat)
    ensures Digits(Numeral(n, 10)) && ValueFrom(Numeral(n, 10), 0) == n
    ensures SumsFit(Numeral(n, 10), 0) <==> n <= 0x7fff_ffff - 48
    ensures n > 0 ==> Numeral(n, 10)[0] != 48
    decreases n
  {
    if n >= 10 {
      NumeralMeans(n / 10);
      OneMoreDigit(Numeral(n / 10, 10), DigitChar(n % 10), 0);
    } else {
      assert Numeral(n, 10) == [DigitChar(n)];
      assert Numeral(n, 10)[1..] == [];
    }
  }

  lemma {:induction false} RunDigits(s: seq<byte>, k: nat, d: seq<byte>, value: int, skip: byte)
    requires Digits(d) && k + |d| <= |s| && s[k..k + |d|] == d && !IsDigit(skip)
    ensures Run(s, k, value, skip) == Run(s, k + |d|, ValueFrom(d, value), skip)
    decreases |d|
  {
    if d != [] {
      assert s[k] == d[0];
      assert s[k + 1..k + |d|] == d[1..];
      RunDigits(s, k + 1, d[1..], value * 10 + d[0] - 48, skip);
    }
  }

  lemma {:induction false} SkipsPrefix(s: seq<byte>, k: nat, m: nat)
    requires k <= m <= |s| && forall i :: k <= i < m ==> s[i] != 45 && !IsDigit(s[i])
    ensures SkipTo(s, k) == SkipTo(s, m)
    decreases m - k
  {
    if k < m {
      SkipsPrefix(s, k + 1, m);
    }
  }

  predicate NoNumber(prefix: seq<byte>) {
    forall i :: 0 <= i < |prefix| ==> prefix[i] != 45 && !IsDigit(prefix[i])
  }

  /**
   * Whatever number is printed behind text without digits and minus signs, `parseInt` reads it
   * back and consumes exactly that text and the number, if and only if the next byte is neither a
   * digit nor the byte 1 that `parseInt` skips by default.
   */
  lemma PrintedIsReadExactly(n: int, prefix: seq<byte>, suffix: seq<byte>)
    requires NoNumber(prefix)
    ensures var r := ParseInt(prefix + Printed(n) + suffix, 0, 1);
      r == Parsed(n, |prefix| + |Printed(n)|) <==> (suffix == [] || !(IsDigit(suffix[0]) || suffix[0] == 1))
  {
    var s, k, m := prefix + Printed(n) + suffix, |prefix|, if n < 0 then -n else n;
    var d := Numeral(m, 10);
    NumeralMeans(m);
    var at := if n < 0 then k + 1 else k;
    var end := at + |d|;
    PrintedAt(n, prefix, suffix, s, d, at, end);
    hide *;
    SkipsPrefix(s, 0, k);
    ParseAt(s, k, at, n < 0);
    RunDigits(s, at, d, 0, 1);
    RunStops(s, end, m, 1);
    SignedIs(Run(s, end, m, 1), n, m, end);
  }

  lemma SignedIs(r: Parsed, n: int, m: nat, end: nat)
    requires m == (if n < 0 then -n else n) && (r == Parsed(m, end) || r.at > end)
    ensures Signed(r, n < 0) == Parsed(n, end) <==> r == Parsed(m, end)
  {}

  lemma PrintedAt(n: int, prefix: seq<byte>, suffix: seq<byte>, s: seq<byte>, d: seq<byte>, at: nat, end: nat)
    requires NoNumber(prefix) && s == prefix + Printed(n) + suffix && d == Numeral(if n < 0 then -n else n, 10) && Digits(d)
    requires at == (if n < 0 then |prefix| + 1 else |prefix|) && end == at + |d|
    ensures |prefix| + |Printed(n)| == end <= |s| && |prefix| < |s| && s[at..end] == d && !IsDigit(1)
    ensures forall i :: 0 <= i < |prefix| ==> s[i] != 45 && !IsDigit(s[i])
    ensures if n < 0 then s[|prefix|] == 45 else IsDigit(s[|prefix|])
    ensures (end == |s| <==> suffix == []) && (end < |s| ==> s[end] == suffix[0])
  {
    assert s[|prefix|] == Printed(n)[0];
    hide Numeral;
  }

  lemma ParseAt(s: seq<byte>, k: nat, at: nat, negative: bool)
    requires k < |s| && SkipTo(s, 0) == SkipTo(s, k)
    requires if negative then s[k] == 45 && at == k + 1 else IsDigit(s[k]) && at == k
    ensures ParseInt(s, 0, 1) == Signed(Run(s, at, 0, 1), negative)
  {}

  lemma RunStops(s: seq<byte>, k: nat, value: int, skip: byte)
    requires k <= |s|
    ensures if k < |s| && (IsDigit(s[k]) || s[k] == skip) then Run(s, k, value, skip).at > k
      else Run(s, k, value, skip) == Parsed(value, k)
  {}

  /** For which numbers every sum that `parseInt` forms stays within 32 bits. */
  lemma ReadsWithin32BitsExactly(n: int)
    ensures SumsFit(Numeral(if n < 0 then -n else n, 10), 0) <==> -(0x7fff_ffff - 48) <= n <= 0x7fff_ffff - 48
  {
    NumeralMeans(if n < 0 then -n else n);
  }

  // --- Numbers in any text ---------------------------------------------------------------------------------

  /** The bytes that count: neither the skip character nor a minus sign. */
  function Kept(body: seq<byte>, skip: byte): seq<byte> {
    if body == [] then []
    else (if body[0] == skip || body[0] == 45 then [] else [body[0]]) + Kept(body[1..], skip)
  }

  lemma {:induction false} RunBody(s: seq<byte>, k: nat, end: nat, value: int, skip: byte)
    requires k <= end <= |s| && forall i :: k <= i < end ==> IsDigit(s[i]) || s[i] == skip
    requires end == |s| || !(IsDigit(s[end]) || s[end] == skip)
    ensures Run(s, k, value, skip) == Parsed(ValueFrom(Kept(s[k..end], skip), value), end)
    decreases end - k
  {
    if k < end {
      var next := k + 1;
      RunBody(s, next, end, NextValue(value, s[k], skip), skip);
      KeptNext(s, k, next, end, value, skip);
    }
  }

  lemma KeptNext(s: seq<byte>, k: nat, next: nat, end: nat, value: int, skip: byte)
    requires k < end <= |s| && next == k + 1
    ensures ValueFrom(Kept(s[k..end], skip), value) == ValueFrom(Kept(s[next..end], skip), NextValue(value, s[k], skip))
  {
    assert s[k..end][1..] == s[next..end];
    var more := Kept(s[next..end], skip);
    if s[k] == skip || s[k] == 45 {
      assert [] + more == more;
    } else {
      assert ([s[k]] + more)[0] == s[k] && ([s[k]] + more)[1..] == more;
    }
  }

  /**
   * `parseInt` on every text that holds a number: from the first digit or minus sign up to the first
   * byte that is neither a digit nor the skip character, which is left out. A minus sign in front
   * counts unless it is the skip character.
   */
  lemma ParseIntIs(s: seq<byte>, start: nat, k: nat, end: nat, skip: byte)
    requires start <= k < end <= |s| && NoNumber(s[start..k]) && (s[k] == 45 || IsDigit(s[k]))
    requires forall i :: k < i < end ==> IsDigit(s[i]) || s[i] == skip
    requires end == |s| || !(IsDigit(s[end]) || s[end] == skip)
    ensures ParseInt(s, start, skip) ==
      Signed(Parsed(ValueFrom(Kept(s[k..end], skip), 0), end), s[k] == 45 && skip != 45)
  {
    forall i | start <= i < k ensures s[i] != 45 && !IsDigit(s[i]) {
      var j := i - start;
      assert s[start..k][j] == s[i];
    }
    SkipsPrefix(s, start, k);
    var next := k + 1;
    RunBody(s, next, end, NextValue(0, s[k], skip), skip);
    KeptNext(s, k, next, end, 0, skip);
    hide Run, ValueFrom, Kept, NextValue;
  }

  /** And on a text that holds none. */
  lemma ParseNothing(s: seq<byte>, start: nat, skip: byte)
    requires start <= |s| && NoNumber(s[start..])
    ensures ParseInt(s, start, skip) == Parsed(0, |s|)
  {
    forall i | start <= i < |s| ensures s[i] != 45 && !IsDigit(s[i]) {
      var j := i - start;
      assert s[start..][j] == s[i];
    }
    SkipsPrefix(s, start, |s|);
  }
}
