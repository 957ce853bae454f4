/** The byte queue of cores/arduino/RingBuffer.cpp: its state as a value, and the class itself. */
module RingBuffers {
  import opened Memory

  /**
   * The fields `buf`, `addr_w` and `addr_r` of a ring buffer. One slot always stays
   * free, so equal indices mean an empty queue.
   */
  datatype Ring = Ring(buf: seq<byte>, w: nat, r: nat) {

    predicate Valid() {
      w < |buf| && r < |buf|
    }

    /** The queued bytes, oldest first. */
    function Contents(): (q: seq<byte>)
      requires Valid()
      ensures |q| < |buf|
    {
      if r <= w then buf[r..w] else buf[r..] + buf[..w]
    }

    function Use(): int {
      if w < r then |buf| - (r - w) else w - r
    }

    function Available(): int {
      if w < r then r - w - 1 else |buf| - w + r - 1
    }

    function Next(i: nat): (n: nat)
      requires Valid() && i < |buf|
      ensures n == if i + 1 < |buf| then i + 1 else 0
    {
      (i + 1) % |buf|
    }
  }

  /** The two counters are the queue's length and the room left, and together the capacity. */
  lemma CountersAgree(q: Ring)
    requires q.Valid()
    ensures q.Use() == |q.Contents()|
    ensures q.Use() + q.Available() == |q.buf| - 1
    ensures q.Use() == 0 <==> q.w == q.r
    ensures q.Available() == 0 <==> q.Next(q.w) == q.r
  {
  }

  /** Storing at `w` and then publishing the next index appends exactly that byte. */
  lemma PublishAppends(q: Ring, data: byte)
    requires q.Valid() && q.Next(q.w) != q.r
    ensures q.(buf := q.buf[q.w := data]).Contents() == q.Contents()
    ensures q.(buf := q.buf[q.w := data], w := q.Next(q.w)).Contents() == q.Contents() + [data]
  {
    var b := q.buf[q.w := data];
    if q.w + 1 < |q.buf| {
      assert b[..q.w + 1] == q.buf[..q.w] + [data];
    } else {
      assert b[q.r..] == q.buf[q.r..q.w] + [data];
    }
  }

  /** Publishing the next read index removes exactly the oldest byte. */
  lemma PublishRemoves(q: Ring)
    requires q.Valid() && q.w != q.r
    ensures q.Contents() == [q.buf[q.r]] + q.(r := q.Next(q.r)).Contents()
  {
    DrainedRemoves(q, 1);
    assert Taken(q, 1) == [q.buf[q.r]];
    assert Drained(q, 1) == q.(r := q.Next(q.r));
    hide Ring.Contents, Taken, Drained;
  }

  /** `put`: the ring after `data` is copied in behind `w`, in one piece or wrapped. */
  function Filled(q: Ring, data: seq<byte>): (q': Ring)
    requires q.Valid() && |data| <= q.Available()
    ensures q'.Valid() && q'.r == q.r
  {
    if q.w + |data| < |q.buf| then
      q.(buf := Splice(q.buf, q.w, data), w := q.w + |data|)
    else
      var first := |q.buf| - q.w;
      q.(buf := Splice(Splice(q.buf, q.w, data[..first]), 0, data[first..]), w := |data| - first)
  }

  lemma FilledAppends(q: Ring, data: seq<byte>)
    requires q.Valid() && |data| <= q.Available()
    ensures Filled(q, data).Contents() == q.Contents() + data
  {
    if q.w + |data| < |q.buf| {
      FilledStraight(q, data);
    } else {
      FilledWrapped(q, data);
    }
  }

  lemma FilledStraight(q: Ring, data: seq<byte>)
    requires q.Valid() && |data| <= q.Available() && q.w + |data| < |q.buf|
    ensures Filled(q, data).Contents() == q.Contents() + data
  {
    var b, w := Splice(q.buf, q.w, data), q.w + |data|;
    assert b[..w] == q.buf[..q.w] + data && b[w..] == q.buf[w..];
    hide Splice;
    if q.w < q.r {
      assert b[q.r..] == b[w..][q.r - w..] == q.buf[q.r..];
    } else {
      assert b[q.r..w] == b[..w][q.r..] == q.buf[q.r..q.w] + data;
    }
  }

  lemma FilledWrapped(q: Ring, data: seq<byte>)
    requires q.Valid() && |data| <= q.Available() && q.w + |data| >= |q.buf|
    ensures Filled(q, data).Contents() == q.Contents() + data
  {
    var first := |q.buf| - q.w;
    var head, tail := data[..first], data[first..];
    var middle := q.buf[|tail|..q.w];
    assert Splice(q.buf, q.w, head) == q.buf[..q.w] + head;
    assert Filled(q, data).buf == tail + middle + head;
    assert (tail + middle + head)[q.r..] == middle[q.r - |tail|..] + head;
    assert middle[q.r - |tail|..] == q.buf[q.r..q.w];
    assert data == head + tail;
  }

  /** `get`: the read index after the oldest `n` bytes are taken, in one piece or wrapped. */
  function Drained(q: Ring, n: nat): (q': Ring)
    requires q.Valid() && n <= q.Use()
    ensures q'.Valid() && q'.buf == q.buf && q'.w == q.w
  {
    q.(r := if q.r + n < |q.buf| then q.r + n else n - (|q.buf| - q.r))
  }

  /** The oldest `n` bytes, in the pieces in which they lie in the buffer. */
  function Taken(q: Ring, n: nat): (t: seq<byte>)
    requires q.Valid() && n <= q.Use()
    ensures |t| == n
  {
    if q.r + n < |q.buf| then q.buf[q.r..q.r + n] else q.buf[q.r..] + q.buf[..n - (|q.buf| - q.r)]
  }

  lemma DrainedRemoves(q: Ring, n: nat)
    requires q.Valid() && n <= q.Use()
    ensures n <= |q.Contents()|
    ensures q.Contents() == Taken(q, n) + Drained(q, n).Contents()
  {
    if q.r + n < |q.buf| {
      var m := q.r + n;
      if q.r <= q.w {
        assert q.buf[q.r..q.w] == q.buf[q.r..m] + q.buf[m..q.w];
      } else {
        assert q.buf[q.r..] == q.buf[q.r..m] + q.buf[m..];
      }
    } else {
      var m := n - (|q.buf| - q.r);
      assert q.buf[..q.w] == q.buf[..m] + q.buf[m..q.w];
    }
  }

  class RingBuffer {
    var buf: array<byte>
    var size: int
    var addrW: int
    var addrR: int

    ghost predicate Valid()
      reads this
    {
      size == buf.Length && 0 <= addrW < size && 0 <= addrR < size
    }

    ghost function State(): (q: Ring)
      requires Valid()
      reads this, buf
      ensures q.Valid()
    {
      Ring(buf[..], addrW, addrR)
    }

    constructor (pSize: nat)
      ensures Valid() && fresh(buf)
      ensures State().Contents() == [] && size == pSize + 1
    {
      size := pSize + 1;
      buf := new byte[pSize + 1];
      addrW := 0;
      addrR := 0;
    }

    /** The source returns -1 whether or not the byte was queued. */
    method Putc(data: byte) returns (rc: int)
      requires Valid()
      modifies this`addrW, buf
      ensures Valid() && rc == -1
      ensures State().Contents() ==
        if |old(State().Contents())| == size - 1 then old(State().Contents())
        else old(State().Contents()) + [data]
    {
      ghost var q := State();
      CountersAgree(q);
      var next := (addrW + 1) % size;
      if next == addrR {
        return -1;
      }
      PublishAppends(q, data);
      buf[addrW] := data;
      addrW := next;
      assert buf[..] == q.buf[q.w := data];
      return -1;
    }

    /** Queues the first `len` bytes of `data`, or as many as there is room for. */
    method Put(data: array<byte>, len: nat) returns (n: int)
      requires Valid() && data != buf && len <= data.Length
      modifies this`addrW, buf
      ensures Valid()
      ensures n == if len < size - 1 - |old(State().Contents())| then len
                   else size - 1 - |old(State().Contents())|
      ensures State().Contents() == old(State().Contents()) + data[..n]
    {
      ghost var q := State();
      CountersAgree(q);
      var room := AvailableNow();
      n := if len < room then len else room;
      CopyIn(data, n);
      FilledAppends(q, data[..n]);
    }

    /** The copying half of `put`. */
    method CopyIn(data: array<byte>, n: nat)
      requires Valid() && data != buf && n <= data.Length && n <= State().Available()
      modifies this`addrW, buf
      ensures Valid() && State() == Filled(old(State()), data[..n])
    {
      ghost var q, d := State(), data[..n];
      if addrW + n < size {
        assert data[0..0 + n] == d;
        hide Splice;
        MemCpy(buf, addrW, data, 0, n);
        addrW := addrW + n;
      } else {
        var remaining := size - addrW;
        var rest := n - remaining;
        assert data[0..0 + remaining] == d[..remaining] && data[remaining..remaining + rest] == d[remaining..];
        hide Splice;
        MemCpy(buf, addrW, data, 0, remaining);
        MemCpy(buf, 0, data, remaining, rest);
        addrW := rest;
      }
    }

    method Peek() returns (c: int)
      requires Valid()
      ensures c == if State().Contents() == [] then -1 else State().Contents()[0] as int
    {
      CountersAgree(State());
      if addrR == addrW {
        return -1;
      }
      PublishRemoves(State());
      return buf[addrR];
    }

    method Getc() returns (c: int)
      requires Valid()
      modifies this`addrR
      ensures Valid()
      ensures old(State().Contents()) == [] ==> c == -1 && State() == old(State())
      ensures old(State().Contents()) != [] ==>
        0 <= c < 256 && old(State().Contents()) == [c as byte] + State().Contents()
    {
      CountersAgree(State());
      if addrR == addrW {
        return -1;
      }
      PublishRemoves(State());
      c := buf[addrR];
      addrR := (addrR + 1) % size;
    }

    /** Moves the oldest `len` bytes into `data`, or as many as are queued. */
    method Get(data: array<byte>, len: nat) returns (n: int)
      requires Valid() && data != buf && len <= data.Length
      modifies this`addrR, data
      ensures Valid()
      ensures n == if len < |old(State().Contents())| then len else |old(State().Contents())|
      ensures old(State().Contents()) == data[..n] + State().Contents()
      ensures data[n..] == old(data[n..])
    {
      ghost var q := State();
      CountersAgree(q);
      var used := UseNow();
      n := if len < used then len else used;
      DrainedRemoves(q, n);
      hide Drained, Taken, Ring.Contents;
      CopyOut(data, n);
    }

    /** The copying half of `get`. */
    method CopyOut(data: array<byte>, n: nat)
      requires Valid() && data != buf && n <= data.Length && n <= State().Use()
      modifies this`addrR, data
      ensures Valid() && State() == Drained(old(State()), n)
      ensures data[..n] == Taken(old(State()), n)
      ensures data[n..] == old(data[n..])
    {
      ghost var q, d := State(), data[..];
      if addrR + n < size {
        MemCpy(data, 0, buf, addrR, n);
        SplicedHead(d, data[..], Taken(q, n), n);
        addrR := addrR + n;
      } else {
        var remaining := size - addrR;
        var rest := n - remaining;
        assert buf[addrR..addrR + remaining] == q.buf[addrR..];
        MemCpy(data, 0, buf, addrR, remaining);
        ghost var d1 := data[..];
        assert buf[0..0 + rest] == q.buf[..rest];
        hide Splice;
        MemCpy(data, remaining, buf, 0, rest);
        SplicedTwice(d, d1, data[..], q.buf[addrR..], q.buf[..rest], n);
        addrR := rest;
      }
    }

    method AvailableNow() returns (n: int)
      requires Valid()
      ensures n == size - 1 - |State().Contents()|
    {
      CountersAgree(State());
      if addrW < addrR {
        return addrR - addrW - 1;
      } else {
        return (size - addrW) + addrR - 1;
      }
    }

    method UseNow() returns (n: int)
      requires Valid()
      ensures n == |State().Contents()|
    {
      CountersAgree(State());
      if addrW < addrR {
        return size - (addrR - addrW);
      } else {
        return addrW - addrR;
      }
    }

    method Clear()
      requires Valid()
      modifies this`addrW, this`addrR
      ensures Valid() && State().Contents() == []
    {
      addrW := 0;
      addrR := 0;
    }
  }

  lemma SplicedHead(d: seq<byte>, d': seq<byte>, x: seq<byte>, n: nat)
    requires |x| == n <= |d| && d' == Splice(d, 0, x)
    ensures d'[..n] == x && d'[n..] == d[n..]
  {}

  lemma SplicedTwice(d: seq<byte>, d1: seq<byte>, d2: seq<byte>, x: seq<byte>, y: seq<byte>, n: nat)
    requires |x| + |y| == n <= |d| && d1 == Splice(d, 0, x) && d2 == Splice(d1, |x|, y)
    ensures d2[..n] == x + y && d2[n..] == d[n..]
  {}
}
