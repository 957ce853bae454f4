/**
 * Chunked responses: `httpd_send`, `httpd_send_chunk_begin`, `httpd_send_chunk` and
 * `httpd_send_last_chunk` of cores/arduino/httpserver/httpd_handle.c, against a decoder for
 * section 4.1 of RFC 7230 (without the extensions and trailers that are never sent).
 */
module Chunked {
  import opened Memory

  const CRLF: seq<byte> := [13, 10]
  /** "0\r\n\r\n" */
  const LAST_CHUNK: seq<byte> := [48, 13, 10, 13, 10]

  // --- Sizes -----------------------------------------------------------------------------------------

  function HexChar(d: nat): byte
    requires d < 16
  {
    if d > 9 then d - 10 + 97 else d + 48
  }

  lemma HexCharIs(d: nat)
    requires d < 16
    ensures HexChar(d) == "0123456789abcdef"[d] as int
  {}

  function Hex(n: nat): (s: seq<byte>)
    ensures s != []
  {
    if n < 16 then [HexChar(n)] else Hex(n / 16) + [HexChar(n % 16)]
  }

  /** A number at the front of a text, on top of the digits before it, and what follows it. */
  datatype Number = Number(value: nat, rest: seq<byte>)

  function ReadHex(s: seq<byte>, value: nat): (r: Number)
    ensures |r.rest| <= |s|
  {
    if s == [] || HexDigit(s[0]) == -1 then Number(value, s) else ReadHex(s[1..], 16 * value + HexDigit(s[0]))
  }

  predicate AllHex(d: seq<byte>) {
    forall i :: 0 <= i < |d| ==> HexDigit(d[i]) != -1
  }

  lemma {:induction false} ReadHexSnoc(d: seq<byte>, c: byte, more: seq<byte>, value: nat)
    requires AllHex(d) && HexDigit(c) != -1 && (more == [] || HexDigit(more[0]) == -1)
    ensures ReadHex(d + more, value).rest == more
    ensures ReadHex(d + [c] + more, value) == Number(16 * ReadHex(d + more, value).value + HexDigit(c), more)
    decreases |d|
  {
    var whole := d + [c] + more;
    if d == [] {
      assert d + more == more && whole[1..] == more;
    } else {
      assert (d + more)[1..] == d[1..] + more && whole[1..] == d[1..] + [c] + more;
      ReadHexSnoc(d[1..], c, more, 16 * value + HexDigit(d[0]));
    }
  }

  /** A written size is read back, whatever follows it, and has no leading zeros. */
  lemma {:induction false} HexIsRead(n: nat, more: seq<byte>)
    requires more == [] || HexDigit(more[0]) == -1
    ensures AllHex(Hex(n)) && ReadHex(Hex(n) + more, 0) == Number(n, more)
    ensures n > 0 ==> Hex(n)[0] != 48
    decreases n
  {
    if n < 16 {
      assert (Hex(n) + more)[1..] == more;
    } else {
      HexIsRead(n / 16, more);
      ReadHexSnoc(Hex(n / 16), HexChar(n % 16), more, 0);
      hide ReadHex;
    }
  }

  lemma {:induction false} HexLength(n: nat, k: nat)
    requires 0 < k <= 8 && n < (if k == 1 then 16 else if k == 2 then 256 else if k == 3 then 4096
      else if k == 4 then 65536 else if k == 5 then 1048576 else if k == 6 then 16777216
      else if k == 7 then 268435456 else 4294967296)
    ensures |Hex(n)| <= k
    decreases k
  {
    if n >= 16 {
      HexLength(n / 16, k - 1);
    }
  }

  // --- Chunks ----------------------------------------------------------------------------------------

  /** What `httpd_send_chunk` puts on the wire. */
  function ChunkText(data: seq<byte>): seq<byte> {
    if data == [] then LAST_CHUNK else Hex(|data|) + (CRLF + (data + CRLF))
  }

  /** A list of buffers sent one by one, and then the last chunk. */
  function Wire(bufs: seq<seq<byte>>, next: seq<byte>): seq<byte> {
    if bufs == [] then LAST_CHUNK + next else ChunkText(bufs[0]) + Wire(bufs[1..], next)
  }

  /** A decoded body and what follows it on the connection. */
  datatype Decoded = Malformed | Body(data: seq<byte>, rest: seq<byte>)

  predicate StartsWithCrlf(s: seq<byte>) {
    |s| >= 2 && s[0] == 13 && s[1] == 10
  }

  /** The chunked-body rule: chunk-size CRLF chunk-data CRLF, repeated; size 0 ends it. */
  function Decode(s: seq<byte>): (d: Decoded)
    decreases |s|
  {
    var n := ReadHex(s, 0);
    if |n.rest| == |s| || !StartsWithCrlf(n.rest) then Malformed
    else
      var rest := n.rest[2..];
      if n.value == 0 then (if StartsWithCrlf(rest) then Body([], rest[2..]) else Malformed)
      else if |rest| < n.value || !StartsWithCrlf(rest[n.value..]) then Malformed
      else
        match Decode(rest[n.value..][2..])
        case Malformed => Malformed
        case Body(data, after) => Body(rest[..n.value] + data, after)
  }

  lemma DecodeLast(next: seq<byte>)
    ensures Decode(LAST_CHUNK + next) == Body([], next)
  {
    var more := CRLF + (CRLF + next);
    HexIsRead(0, more);
    assert LAST_CHUNK + next == Hex(0) + more;
    assert more[2..] == CRLF + next && (CRLF + next)[2..] == next;
  }

  lemma DecodeChunk(data: seq<byte>, more: seq<byte>)
    requires data != []
    ensures Decode(ChunkText(data) + more) ==
      match Decode(more) case Malformed => Malformed case Body(d, after) => Body(data + d, after)
  {
    var rest := data + (CRLF + more);
    var tail := CRLF + rest;
    HexIsRead(|data|, tail);
    assert ChunkText(data) + more == Hex(|data|) + tail;
    assert tail[2..] == rest;
    assert rest[|data|..] == CRLF + more && rest[..|data|] == data;
    assert (CRLF + more)[2..] == more;
    hide ReadHex, Hex;
  }

  ghost predicate NonEmpty(bufs: seq<seq<byte>>) {
    forall i :: 0 <= i < |bufs| ==> bufs[i] != []
  }

  lemma {:induction false} DecodeWire(bufs: seq<seq<byte>>, next: seq<byte>)
    requires NonEmpty(bufs)
    ensures Decode(Wire(bufs, next)) == Body(Cat(bufs), next)
  {
    if bufs == [] {
      DecodeLast(next);
    } else {
      DecodeChunk(bufs[0], Wire(bufs[1..], next));
      hide Decode, ChunkText;
      DecodeWire(bufs[1..], next);
    }
  }

  /** An empty buffer ends the body where it is sent. */
  lemma {:induction false} EmptyEndsBody(bufs: seq<seq<byte>>, next: seq<byte>)
    requires !NonEmpty(bufs)
    ensures var d := Decode(Wire(bufs, next)); d.Body? && |d.rest| > |next|
  {
    var more := Wire(bufs[1..], next);
    if bufs[0] == [] {
      DecodeLast(more);
      WireLength(bufs[1..], next);
    } else {
      DecodeChunk(bufs[0], more);
      hide Decode, ChunkText;
      EmptyEndsBody(bufs[1..], next);
    }
  }

  lemma {:induction false} WireLength(bufs: seq<seq<byte>>, next: seq<byte>)
    ensures |Wire(bufs, next)| > |next|
  {
    if bufs != [] {
      WireLength(bufs[1..], next);
    }
  }

  /**
   * Chunked framing, exactly: a receiver gets the concatenation of the buffers and stops at the
   * end of the last chunk if and only if no buffer is empty.
   */
  lemma RoundTripExactly(bufs: seq<seq<byte>>, next: seq<byte>)
    ensures Decode(Wire(bufs, next)) == Body(Cat(bufs), next) <==> NonEmpty(bufs)
  {
    if NonEmpty(bufs) {
      DecodeWire(bufs, next);
    } else {
      EmptyEndsBody(bufs, next);
      hide Decode, Wire;
    }
  }

  // --- Sending -----------------------------------------------------------------------------------------

  class Connection {
    var wire: seq<byte>  // everything handed to the network so far
    const reliable: bool  // no call fails

    constructor (reliable: bool)
      ensures wire == [] && this.reliable == reliable
    {
      wire, this.reliable := [], reliable;
    }

    /** The socket's `send`: takes some of the bytes, at least one if there is one. */
    method SocketSend(data: seq<byte>) returns (num: int)
      modifies this
      ensures -1 <= num <= |data| && (num == 0 ==> data == []) && (reliable ==> num >= 0)
      ensures wire == if num < 0 then old(wire) else old(wire) + data[..num]
    {
      if !reliable {
        var fails: bool := *;
        if fails {
          return -1;
        }
      }
      var k: int := *;
      if k < 1 || k > |data| {
        k := |data|;
      }
      wire := wire + data[..k];
      return k;
    }

    /** `httpd_send`. */
    method Send(data: seq<byte>) returns (err: int)
      modifies this
      ensures (err == 0 || err == -1) && (reliable ==> err == 0)
      ensures err == 0 ==> wire == old(wire) + data
      ensures err != 0 ==> old(wire) <= wire <= old(wire) + data
    {
      var sent, len := 0, |data|;
      assert data[..0] == [];
      while true
        invariant 0 <= sent <= |data| && sent + len == |data| && wire == old(wire) + data[..sent]
        decreases len
      {
        var num := SocketSend(data[sent..]);
        if num < 0 {
          return -1;
        }
        assert data[..sent] + data[sent..][..num] == data[..sent + num];
        len := len - num;
        sent := sent + num;
        if len <= 0 {
          break;
        }
      }
      assert data[..sent] == data;
      return 0;
    }

    /**
     * `httpd_send_chunk_begin`: the digits go into a buffer of 16 bytes from its end downwards.
     * `underrun` reports a negative size, whose digits do not end before the buffer does; what the
     * original then sends is not determined.
     */
    method SendChunkBegin(size0: int) returns (err: int, underrun: bool)
      requires -0x8000_0000 <= size0 < 0x8000_0000
      modifies this
      ensures (underrun <==> size0 < 0) && (underrun ==> err == -1)
      ensures (err == 0 || err == -1) && (reliable && !underrun ==> err == 0)
      ensures err == 0 && !underrun ==> wire == old(wire) + (Hex(size0) + CRLF)
      ensures err != 0 && !underrun ==> old(wire) <= wire <= old(wire) + (Hex(size0) + CRLF)
    {
      var digits;
      digits, underrun := ChunkSize(size0);
      if underrun {
        return -1, true;
      }
      hide Hex;
      err := Send(digits);
      if err != 0 {
        return;
      }
      err := Send(CRLF);
    }

    /** `httpd_send_last_chunk`. */
    method SendLastChunk() returns (err: int)
      modifies this
      ensures (err == 0 || err == -1) && (reliable ==> err == 0)
      ensures err == 0 ==> wire == old(wire) + LAST_CHUNK
      ensures err != 0 ==> old(wire) <= wire <= old(wire) + LAST_CHUNK
    {
      err := Send(LAST_CHUNK);
    }

    /** `httpd_send_chunk` of the first `len` bytes of `buf`. */
    method SendChunk(buf: seq<byte>, len: int) returns (err: int, underrun: bool)
      requires -0x8000_0000 <= len < 0x8000_0000 && len <= |buf|
      modifies this
      ensures (underrun <==> len < 0) && (underrun ==> err == -1)
      ensures (err == 0 || err == -1) && (reliable && !underrun ==> err == 0)
      ensures err == 0 && !underrun ==> wire == old(wire) + ChunkText(buf[..len])
      ensures err != 0 && !underrun ==> old(wire) <= wire <= old(wire) + ChunkText(buf[..len])
    {
      underrun := false;
      if len == 0 {
        err := Send(LAST_CHUNK);
        return;
      }
      ghost var before := wire;
      err, underrun := SendChunkBegin(len);
      if underrun {
        return;
      }
      ghost var front := Hex(len) + CRLF;
      ChunkParts(buf[..len], front);
      hide *;
      if err != 0 {
        PartSent(before, wire, front, buf[..len] + CRLF);
        return;
      }
      err := SendData(buf[..len], front, before);
    }

    /** The data of a chunk and its CRLF, behind what `front` was sent of it since `before`. */
    method SendData(data: seq<byte>, ghost front: seq<byte>, ghost before: seq<byte>) returns (err: int)
      requires wire == before + front
      modifies this
      ensures (err == 0 || err == -1) && (reliable ==> err == 0)
      ensures err == 0 ==> wire == before + (front + (data + CRLF))
      ensures err != 0 ==> before <= wire <= before + (front + (data + CRLF))
    {
      err := Send(data);
      if err != 0 {
        return;
      }
      err := Send(CRLF);
    }
  }

  lemma ChunkParts(data: seq<byte>, front: seq<byte>)
    requires data != [] && front == Hex(|data|) + CRLF
    ensures ChunkText(data) == front + (data + CRLF)
  {}

  lemma PartSent(before: seq<byte>, after: seq<byte>, front: seq<byte>, rest: seq<byte>)
    requires before <= after <= before + front
    ensures after <= before + (front + rest)
  {
    assert before + (front + rest) == before + front + rest;
  }

  /** The digits, or `underrun` if there is still something left of the size after sixteen of them. */
  method ChunkSize(size0: int) returns (digits: seq<byte>, underrun: bool)
    requires -0x8000_0000 <= size0 < 0x8000_0000
    ensures underrun <==> size0 < 0
    ensures !underrun ==> digits == Hex(size0)
  {
    var buf := new byte[16];
    var size, begin, i := size0, true, 15;
    ghost var high := if size0 >= 0 then Hex(size0) else [];
    if size0 >= 0 {
      HexLength(size0, 8);
      assert high + buf[16..16] == high;
    }
    while i >= 0
      invariant -1 <= i <= 15 && (begin ==> i == 15 && size == size0) && (i == 15 ==> begin)
      invariant size < 0 <==> size0 < 0
      invariant size0 >= 0 ==> 0 <= i && high == (if begin || size > 0 then Hex(size) else [])
      invariant size0 >= 0 ==> high + buf[i + 1..16] == Hex(size0)
      decreases i
    {
      var digit := size % 16;
      if !begin && size == 0 {
        i := i + 1;
        break;
      }
      ghost var low := buf[i + 1..16];
      buf[i] := HexChar(digit);
      assert buf[i..16] == [HexChar(digit)] + low;
      if size0 >= 0 {
        ghost var high' := if size / 16 > 0 then Hex(size / 16) else [];
        assert high == high' + [HexChar(digit)];
        assert high' + ([HexChar(digit)] + low) == high + low;
        high := high';
      }
      size := size / 16;
      begin := false;
      i := i - 1;
    }
    if i < 0 {
      return [], true;
    }
    return buf[i..], false;
  }
}
