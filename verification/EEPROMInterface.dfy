/**
 * cores/arduino/EEPROMInterface.cpp: reads and writes of secure-element zones, plain or, once the
 * host secure channel is enabled, as envelopes of at most 480 bytes at a stride of 488.
 */
module EEPROMInterface {
  import opened Memory
  import opened SecureElement

  // --- Slots ---------------------------------------------------------------------------------

  /** The raw offset of the envelope with number `i`. */
  function SlotAt(i: nat): nat {
    488 * i
  }

  function PayloadSize(size: nat, i: nat): int {
    if size - 480 * i < 480 then size - 480 * i else 480
  }

  /** The bytes of a zone's content `flat` that envelope `i` carries. */
  function Part(flat: seq<byte>, size: nat, i: nat): (p: seq<byte>)
    requires size <= |flat| && 480 * i < size
    ensures |p| == PayloadSize(size, i)
  {
    flat[480 * i..480 * i + PayloadSize(size, i)]
  }

  predicate SlotValid(env: Envelopes, size: nat, i: nat) {
    SlotAt(i) in env && |env[SlotAt(i)]| == PayloadSize(size, i)
  }

  /** The envelopes that carry the first `n` bytes are all intact. */
  ghost predicate RangeValid(env: Envelopes, size: nat, n: nat) {
    forall i: nat :: 480 * i < n ==> SlotValid(env, size, i)
  }

  /** The envelopes that carry the first `n` bytes hold exactly those of `flat`. */
  ghost predicate Holds(env: Envelopes, size: nat, n: nat, flat: seq<byte>) {
    n <= size == |flat| &&
    forall i: nat :: 480 * i < n ==> SlotAt(i) in env && env[SlotAt(i)] == Part(flat, size, i)
  }

  lemma RangeNarrowed(env: Envelopes, size: nat, n: nat, m: nat)
    requires m <= n
    ensures RangeValid(env, size, n) ==> RangeValid(env, size, m)
  {}

  /** A sealed slot is intact, and no other slot of the zone is affected. */
  lemma SealSlot(env: Envelopes, size: nat, i: nat, payload: seq<byte>, j: nat)
    requires 480 * i < size && |payload| == PayloadSize(size, i) && i != j && 480 * j < size
    ensures var env' := Sealed(env, SlotAt(i), payload);
      SlotAt(i) in env' && env'[SlotAt(i)] == payload &&
      (SlotValid(env', size, j) <==> SlotValid(env, size, j)) &&
      (SlotValid(env, size, j) ==> env'[SlotAt(j)] == env[SlotAt(j)])
  {
    if i < j {
      assert SlotAt(i) + 8 + |payload| <= SlotAt(j);
    } else {
      assert SlotAt(j) + 8 + PayloadSize(size, j) <= SlotAt(i);
    }
  }

  /**
   * The raw layout: the envelopes of a zone are pairwise disjoint and end within the zone size
   * plus 8 bytes for each of its ceil(size / 480) envelopes.
   */
  lemma SlotsDisjointAndFit(size: nat, i: nat, j: nat)
    requires 480 * i < size && 480 * j < size
    ensures i != j ==> Apart(SlotAt(i), 8 + PayloadSize(size, i), SlotAt(j), 8 + PayloadSize(size, j))
    ensures SlotAt(i) + 8 + PayloadSize(size, i) <= size + 8 * ((size + 479) / 480)
  {
    assert i + 1 <= (size + 479) / 480;
  }

  // --- The content of a zone -------------------------------------------------------------------

  lemma {:induction false} HoldsSomething(env: Envelopes, size: nat, i: nat) returns (flat: seq<byte>)
    requires RangeValid(env, size, size) && 480 * i <= size + 479
    ensures Holds(env, size, if 480 * i < size then 480 * i else size, flat)
    decreases i
  {
    if i == 0 {
      flat := seq(size, _ => 0);
    } else {
      var k := i - 1;
      flat := HoldsSomething(env, size, k);
      assert SlotValid(env, size, k);
      var payload := env[SlotAt(k)];
      var flat' := Splice(flat, 480 * k, payload);
      forall j: nat | 480 * j < 480 * i && 480 * j < size
        ensures SlotAt(j) in env && env[SlotAt(j)] == Part(flat', size, j)
      {
        if j < k {
          assert Part(flat', size, j) == Part(flat, size, j);
        }
      }
      flat := flat';
    }
  }

  lemma HoldsUnique(env: Envelopes, size: nat, a: seq<byte>, b: seq<byte>)
    requires Holds(env, size, size, a) && Holds(env, size, size, b)
    ensures a == b
  {
    forall k | 0 <= k < size ensures a[k] == b[k] {
      var i := k / 480;
      assert env[SlotAt(i)] == Part(a, size, i) == Part(b, size, i);
      assert a[k] == Part(a, size, i)[k - 480 * i] && b[k] == Part(b, size, i)[k - 480 * i];
    }
  }

  /** The content of a zone all of whose envelopes are intact. */
  ghost function Content(env: Envelopes, size: nat): (flat: seq<byte>)
    requires RangeValid(env, size, size)
    ensures Holds(env, size, size, flat)
  {
    SomethingHeld(env, size);
    var flat :| Holds(env, size, size, flat);
    flat
  }

  lemma SomethingHeld(env: Envelopes, size: nat)
    requires RangeValid(env, size, size)
    ensures exists flat :: Holds(env, size, size, flat)
  {
    var flat := HoldsSomething(env, size, (size + 479) / 480);
  }

  lemma ContentIs(env: Envelopes, size: nat, flat: seq<byte>)
    requires Holds(env, size, size, flat)
    ensures RangeValid(env, size, size) && Content(env, size) == flat
  {
    HoldsUnique(env, size, Content(env, size), flat);
  }

  // --- Self-repair -------------------------------------------------------------------------------

  /** The first damaged envelope among those of the first `n` bytes, from number `i` on, or -1. */
  function FirstInvalid(env: Envelopes, size: nat, n: nat, i: nat): (k: int)
    ensures k == -1 || (i <= k && 480 * k < n && !SlotValid(env, size, k))
    decreases n - 480 * i
  {
    if 480 * i >= n then -1
    else if !SlotValid(env, size, i) then i
    else FirstInvalid(env, size, n, i + 1)
  }

  lemma {:induction false} FirstInvalidNone(env: Envelopes, size: nat, n: nat, i: nat)
    ensures FirstInvalid(env, size, n, i) == -1 <==>
      forall j: nat :: i <= j && 480 * j < n ==> SlotValid(env, size, j)
    decreases n - 480 * i
  {
    if 480 * i < n {
      FirstInvalidNone(env, size, n, i + 1);
    }
  }

  lemma {:induction false} FirstInvalidIs(env: Envelopes, size: nat, n: nat, i: nat, k: nat)
    requires i <= k && 480 * k < n && !SlotValid(env, size, k)
    requires forall j: nat :: i <= j < k ==> SlotValid(env, size, j)
    ensures FirstInvalid(env, size, n, i) == k
    decreases k - i
  {
    if i < k {
      FirstInvalidIs(env, size, n, i + 1, k);
    }
  }

  function Zeros(n: nat): (z: seq<byte>)
    ensures |z| == n
  {
    seq(n, _ => 0)
  }

  /** What an enveloped read of the first `n` bytes leaves behind: one damaged envelope zeroed. */
  function Repaired(env: Envelopes, size: nat, n: nat): Envelopes
    requires n <= size
  {
    var i := FirstInvalid(env, size, n, 0);
    if i < 0 then env else Sealed(env, SlotAt(i), Zeros(PayloadSize(size, i)))
  }

  /** After a failed read: the repair, or nothing if a store may fail. */
  ghost predicate RepairTried(env: Envelopes, env': Envelopes, reliable: bool, size: nat, n: nat)
    requires n <= size
  {
    env' == Repaired(env, size, n) || (!reliable && env' == env)
  }

  function InvalidCount(env: Envelopes, size: nat, n: nat, i: nat): nat
    decreases n - 480 * i
  {
    if 480 * i >= n then 0
    else (if SlotValid(env, size, i) then 0 else 1) + InvalidCount(env, size, n, i + 1)
  }

  lemma {:induction false} InvalidCountBounds(env: Envelopes, size: nat, n: nat, i: nat)
    requires 480 * i <= n + 479
    ensures InvalidCount(env, size, n, i) <= (n + 479) / 480 - i
    ensures InvalidCount(env, size, n, i) == 0 <==> FirstInvalid(env, size, n, i) == -1
    decreases n - 480 * i
  {
    if 480 * i < n {
      InvalidCountBounds(env, size, n, i + 1);
    }
  }

  /** Repair makes one damaged envelope a valid one full of zeros and touches no other. */
  lemma RepairedExactlyOne(env: Envelopes, size: nat, n: nat, j: nat)
    requires n <= size && FirstInvalid(env, size, n, 0) >= 0 && 480 * j < size
    ensures var i, env' := FirstInvalid(env, size, n, 0), Repaired(env, size, n);
      if j == i then !SlotValid(env, size, j) && SlotValid(env', size, j) && env'[SlotAt(j)] == Zeros(PayloadSize(size, j))
      else (SlotValid(env', size, j) <==> SlotValid(env, size, j)) &&
           (SlotValid(env, size, j) ==> env'[SlotAt(j)] == env[SlotAt(j)])
  {
    hide FirstInvalid, Sealed;
    var i := FirstInvalid(env, size, n, 0);
    if j == i {
      SealedSlot(env, size, i, Zeros(PayloadSize(size, i)));
    } else {
      SealSlot(env, size, i, Zeros(PayloadSize(size, i)), j);
    }
  }

  lemma SealedSlot(env: Envelopes, size: nat, i: nat, payload: seq<byte>)
    requires 480 * i < size && |payload| == PayloadSize(size, i)
    ensures var env' := Sealed(env, SlotAt(i), payload); SlotAt(i) in env' && env'[SlotAt(i)] == payload
  {}

  lemma {:induction false} RepairCounts(env: Envelopes, size: nat, n: nat, i: nat)
    requires n <= size && FirstInvalid(env, size, n, 0) >= 0
    ensures InvalidCount(Repaired(env, size, n), size, n, i) ==
      InvalidCount(env, size, n, i) - if i <= FirstInvalid(env, size, n, 0) then 1 else 0
    decreases n - 480 * i
  {
    hide FirstInvalid, Repaired, SlotValid;
    if 480 * i < n {
      RepairedExactlyOne(env, size, n, i);
      RepairCounts(env, size, n, i + 1);
    }
  }

  /** The zone after `k` enveloped reads of its first `n` bytes, every repair store succeeding. */
  function AfterReads(env: Envelopes, size: nat, n: nat, k: nat): Envelopes
    requires n <= size
    decreases k
  {
    if k == 0 then env else AfterReads(Repaired(env, size, n), size, n, k - 1)
  }

  /**
   * Self-repair terminates: of any sequence of reads of the same range, exactly the first
   * InvalidCount fail, at most ceil(n / 480) of them, and all later ones succeed.
   */
  lemma {:induction false} SelfRepairTerminates(env: Envelopes, size: nat, n: nat, k: nat)
    requires n <= size
    ensures RangeValid(AfterReads(env, size, n, k), size, n) <==> k >= InvalidCount(env, size, n, 0)
    ensures InvalidCount(env, size, n, 0) <= (n + 479) / 480
    decreases k
  {
    hide FirstInvalid, InvalidCount, SlotValid;
    InvalidCountBounds(env, size, n, 0);
    FirstInvalidNone(env, size, n, 0);
    if k > 0 {
      SelfRepairTerminates(Repaired(env, size, n), size, n, k - 1);
      if FirstInvalid(env, size, n, 0) >= 0 {
        RepairCounts(env, size, n, 0);
      }
    }
  }

  // --- The class ---------------------------------------------------------------------------------

  class EEPROM {
    const hal: Element
    var secure: bool  // isHostSecureChannelEnabled

    ghost predicate Valid()
      reads this, hal
    {
      hal.Valid()
    }

    /** Every envelope of the zone is intact, or envelopes are not in use. */
    ghost predicate Ready(zone: int)
      requires Valid() && ZoneSize(zone) != 0
      reads this, hal
    {
      ZoneSizeBound(zone);
      secure ==> RangeValid(hal.env[zone], ZoneSize(zone), ZoneSize(zone))
    }

    /** The bytes of a zone, however they are stored. */
    ghost function Flat(zone: int): (flat: seq<byte>)
      requires Valid() && ZoneSize(zone) != 0 && Ready(zone)
      reads this, hal
      ensures |flat| == ZoneSize(zone)
    {
      ZoneSizeBound(zone);
      if secure then Content(hal.env[zone], ZoneSize(zone)) else hal.plain[zone]
    }

    constructor (hal: Element, secure: bool)
      ensures this.hal == hal && this.secure == secure
    {
      this.hal, this.secure := hal, secure;
    }

    /** `bad`, or the size, cut down to the zone for reads. */
    method CheckZoneSize(zone: int, size: int, write: bool) returns (bad: bool, size': int)
      ensures bad <==> ZoneSize(zone) == 0 || size <= 0 || (write && size > ZoneSize(zone))
      ensures !bad ==> size' == if size > ZoneSize(zone) then ZoneSize(zone) else size
    {
      if zone < 0 || zone > 10 || ZoneSize(zone) == 0 {
        return true, size;
      }
      if size <= 0 {
        return true, size;
      }
      var segmentLength := ZoneSize(zone);
      if write && size > segmentLength {
        return true, size;
      }
      if size > segmentLength {
        return false, segmentLength;
      }
      return false, size;
    }

    /**
     * `readWithEnvelope`: fetches the envelopes of the first `offset + n` bytes. If one of them is
     * damaged, it is replaced by zeros and the read fails. `whole` is the scratch buffer.
     */
    method ReadWithEnvelope(data: array<byte>, at: nat, n: nat, offset: nat, zone: nat)
      returns (r: int, ghost whole: seq<byte>)
      requires Valid() && zone < 11 && 0 < n && n + offset <= ZoneSize(zone) && at + n <= data.Length
      modifies data, hal
      ensures Valid()
      ensures r == if RangeValid(old(hal.env[zone]), ZoneSize(zone), n + offset) then n else -1
      ensures r == n ==> hal.env == old(hal.env) && hal.plain == old(hal.plain)
      ensures r == n ==> Holds(hal.env[zone], ZoneSize(zone), n + offset, whole)
      ensures r == n ==> data[..] == Splice(old(data[..]), at, whole[offset..offset + n])
      ensures r == -1 ==> data[..] == old(data[..])
      ensures forall z :: 0 <= z < 11 && z != zone ==> hal.env[z] == old(hal.env[z]) && hal.plain[z] == old(hal.plain[z])
      ensures r == -1 ==> RepairTried(old(hal.env[zone]), hal.env[zone], hal.reliable, ZoneSize(zone), n + offset)
    {
      ZoneSizeBound(zone);
      var size, end := ZoneSize(zone), n + offset;
      ghost var env := hal.env[zone];
      var buf := new byte[1000];
      var i := FetchEnvelopes(buf, zone, end);
      if i >= 0 {
        whole := [];
        ZeroEnvelope(buf, zone, end, i);
        return -1, whole;
      }
      ghost var b := buf[..];
      whole := b[..size];
      PartsAreHeld(env, size, end, b);
      SliceOfPrefix(b, size, offset, end);
      hide *;
      MemCpy(data, at, buf, offset, n);
      r := n;
    }

    /** Fetches the envelopes of the first `end` bytes; the result is the number of the one that failed, or -1. */
    method FetchEnvelopes(buf: array<byte>, zone: nat, end: nat) returns (failed: int)
      requires Valid() && zone < 11 && end <= ZoneSize(zone) && buf.Length == 1000
      modifies buf
      ensures failed >= 0 ==> 480 * failed < end && !SlotValid(hal.env[zone], ZoneSize(zone), failed)
      ensures failed >= 0 ==> forall j: nat :: j < failed ==> SlotValid(hal.env[zone], ZoneSize(zone), j)
      ensures failed < 0 ==> failed == -1 && ZoneSize(zone) <= 976
      ensures failed < 0 ==> forall j: nat :: 480 * j < end ==>
        SlotValid(hal.env[zone], ZoneSize(zone), j) && hal.env[zone][SlotAt(j)] == Part(buf[..], ZoneSize(zone), j)
    {
      ZoneSizeBound(zone);
      var size, i := ZoneSize(zone), 0;
      ghost var env := hal.env[zone];
      while i * 480 < end
        invariant 0 <= i && (i == 0 || (i - 1) * 480 < end)
        invariant forall j: nat :: j < i ==> SlotValid(env, size, j) && env[SlotAt(j)] == Part(buf[..], size, j)
      {
        var dataSize := if size - i * 480 < 480 then size - i * 480 else 480;
        ghost var was := buf[..];
        var rc := hal.GetEnvelope(zone, dataSize, buf, i * 480, SlotAt(i));
        if rc != 0 {
          return i;
        }
        NextPart(was, buf[..], size, i, env);
        i := i + 1;
      }
      return -1;
    }

    /** Replaces a damaged envelope by zeros; the result of the store is ignored. */
    method ZeroEnvelope(buf: array<byte>, zone: nat, end: nat, i: nat)
      requires Valid() && zone < 11 && end <= ZoneSize(zone) && buf.Length == 1000 && 480 * i < end
      requires !SlotValid(hal.env[zone], ZoneSize(zone), i)
      requires forall j: nat :: j < i ==> SlotValid(hal.env[zone], ZoneSize(zone), j)
      modifies buf, hal
      ensures Valid() && !RangeValid(old(hal.env[zone]), ZoneSize(zone), end)
      ensures forall z :: 0 <= z < 11 && z != zone ==> hal.env[z] == old(hal.env[z]) && hal.plain[z] == old(hal.plain[z])
      ensures RepairTried(old(hal.env[zone]), hal.env[zone], hal.reliable, ZoneSize(zone), end)
    {
      ZoneSizeBound(zone);
      var size := ZoneSize(zone);
      ghost var env := hal.env[zone];
      var dataSize := if size - i * 480 < 480 then size - i * 480 else 480;
      FirstInvalidIs(env, size, end, 0, i);
      FirstInvalidNone(env, size, end, 0);
      Store(buf, 0, Zeros(dataSize));
      assert buf[..dataSize] == Zeros(PayloadSize(size, i));
      assert Repaired(env, size, end) == Sealed(env, SlotAt(i), buf[..dataSize]);
      var stored := hal.StoreEnvelope(zone, buf[..dataSize], SlotAt(i));
    }

    /** The storing loop that `writeWithEnvelope` and `enableHostSecureChannel` share. */
    method StoreEnvelopes(buf: array<byte>, n: nat, zone: nat, ghost flat: seq<byte>) returns (rc: int)
      requires Valid() && zone < 11 && n <= ZoneSize(zone) == |flat| && n <= buf.Length
      requires n == ZoneSize(zone) || n % 480 == 0
      requires buf[..n] == flat[..n]
      modifies hal
      ensures Valid() && (rc == 0 || rc == -1) && (hal.reliable ==> rc == 0)
      ensures forall z :: 0 <= z < 11 && z != zone ==> hal.env[z] == old(hal.env[z]) && hal.plain[z] == old(hal.plain[z])
      ensures rc == 0 ==> Holds(hal.env[zone], ZoneSize(zone), n, flat)
      ensures rc == 0 ==> TailKept(old(hal.env[zone]), hal.env[zone], ZoneSize(zone), n)
      ensures rc != 0 ==> HalfWay(old(hal.env[zone]), hal.env[zone], ZoneSize(zone), n, flat)
    {
      var size, i := ZoneSize(zone), 0;
      ghost var env0 := hal.env[zone];
      while i * 480 < n
        invariant 0 <= i && (i == 0 || (i - 1) * 480 < n) && hal.Valid()
        invariant forall z :: 0 <= z < 11 && z != zone ==> hal.env[z] == old(hal.env[z]) && hal.plain[z] == old(hal.plain[z])
        invariant HeadHeld(hal.env[zone], size, i, flat) && TailKept(env0, hal.env[zone], size, 480 * i)
        decreases n - i * 480
      {
        var dataSize := if n - i * 480 < 480 then n - i * 480 else 480;
        ghost var payload := buf[..][i * 480..i * 480 + dataSize];
        ChunkIsPart(buf[..], flat, size, n, i, dataSize);
        ghost var env := hal.env[zone];
        hide HeadHeld, TailKept, Sealed, SlotAt;
        assert buf[i * 480..i * 480 + dataSize] == payload;
        var failed := hal.StoreEnvelope(zone, buf[i * 480..i * 480 + dataSize], SlotAt(i));
        if failed != 0 {
          StoppedThere(env0, env, size, n, flat, i);
          return -1;
        }
        SealHead(env, size, i, flat, payload);
        SealTail(env0, env, size, i, i + 1, payload);
        i := i + 1;
      }
      AllHeld(hal.env[zone], size, i, n, flat);
      TailShrinks(env0, hal.env[zone], size, i, n);
      return 0;
    }

    /**
     * `writeWithEnvelope`: reads what it is going to replace a part of, and seals it anew.
     */
    method WriteWithEnvelope(data: array<byte>, at: nat, n: nat, zone: nat) returns (r: int)
      requires Valid() && zone < 11 && 0 < n <= ZoneSize(zone) && at + n <= data.Length
      modifies hal
      ensures Valid()
      ensures SecureWrite(old(hal.env[zone]), hal.env[zone], hal.reliable, ZoneSize(zone), data[at..at + n], r)
      ensures forall z :: 0 <= z < 11 && z != zone ==> hal.env[z] == old(hal.env[z]) && hal.plain[z] == old(hal.plain[z])
      ensures RangeValid(old(hal.env[zone]), ZoneSize(zone), ZoneSize(zone)) && r == 0 ==>
        Holds(hal.env[zone], ZoneSize(zone), ZoneSize(zone),
          Splice(Content(old(hal.env[zone]), ZoneSize(zone)), 0, data[at..at + n]))
    {
      ZoneSizeBound(zone);
      var size := ZoneSize(zone);
      ghost var env, new_ := hal.env[zone], data[at..at + n];
      var readSize := ((n - 1) / 480 + 1) * 480;
      if size < readSize {
        readSize := size;
      }
      assert SameCarriers(n, readSize);
      hide SecureWrite, RangeValid, Holds, RepairTried, TailKept, Content, SlotAt, Splice;
      var buf := new byte[1000];
      ghost var buf0 := buf[..];
      var readResult, whole := ReadWithEnvelope(buf, 0, readSize, 0, zone);
      if readResult != readSize {
        WriteRefused(env, hal.env[zone], hal.reliable, size, new_, readSize);
        return -1;
      }
      ghost var buf1 := buf[..];
      MemCpy(buf, 0, data, at, n);
      HeadReplaced(buf0, buf1, buf[..], whole, new_, readSize, size);
      r := StoreEnvelopes(buf, readSize, zone, Splice(whole, 0, new_));
      WriteTried(env, hal.env[zone], hal.reliable, size, new_, readSize, whole, r);
    }

    /** The state of the secure element, as `write` and `read` see it. */
    ghost function Now(): Snapshot
      reads this, hal
    {
      Snapshot(secure, hal.plain, hal.env)
    }

    /** Replaces the first `n` bytes of a zone. */
    method Write(data: array?<byte>, at: nat, n: int, zone: int) returns (r: int)
      requires Valid() && (data != null ==> at + n <= data.Length)
      modifies hal
      ensures Valid()
      ensures data == null || ZoneSize(zone) == 0 || n <= 0 || n > ZoneSize(zone) ==>
        r == -1 && Now() == old(Now())
      ensures data != null && 0 < n <= ZoneSize(zone) ==>
        Wrote(old(Now()), Now(), hal.reliable, zone, data[at..at + n], r)
      ensures data != null && 0 < n <= ZoneSize(zone) && old(Ready(zone)) && (hal.reliable || r == 0) ==>
        r == 0 && Ready(zone) && Flat(zone) == Splice(old(Flat(zone)), 0, data[at..at + n])
    {
      ZoneSizeBound(zone);
      if data == null {
        return -1;
      }
      var bad, size := CheckZoneSize(zone, n, true);
      if bad {
        return -1;
      }
      hide Splice, SecureWrite, Holds;
      if secure {
        r := WriteSecure(data, at, n, zone);
      } else {
        var failed := hal.StorePlain(zone, data[at..at + n]);
        r := if failed != 0 then -1 else 0;
      }
    }

    /** The enveloped branch of `write`. */
    method WriteSecure(data: array<byte>, at: nat, n: nat, zone: nat) returns (r: int)
      requires Valid() && secure && zone < 11 && 0 < n <= ZoneSize(zone) && at + n <= data.Length
      modifies hal
      ensures Valid() && Wrote(old(Now()), Now(), hal.reliable, zone, data[at..at + n], r)
      ensures old(Ready(zone)) && (hal.reliable || r == 0) ==>
        r == 0 && Ready(zone) && Flat(zone) == Splice(old(Flat(zone)), 0, data[at..at + n])
    {
      ZoneSizeBound(zone);
      ghost var size, env, new_ := ZoneSize(zone), hal.env[zone], data[at..at + n];
      r := WriteWithEnvelope(data, at, n, zone);
      if RangeValid(env, size, size) {
        RangeNarrowed(env, size, size, n);
        if r == 0 {
          ContentIs(hal.env[zone], size, Splice(Content(env, size), 0, new_));
        }
      }
    }

    /** Reads up to `n` bytes of a zone from `offset` on; the result is how many there were. */
    method Read(data: array?<byte>, at: nat, n: int, offset: nat, zone: int) returns (r: int)
      requires Valid() && offset < 65536 && (data != null ==> at + n <= data.Length)
      modifies data, hal
      ensures Valid()
      ensures data == null || n <= 0 || ZoneSize(zone) == 0 || offset >= ZoneSize(zone) ==>
        r == -1 && Now() == old(Now()) && (data != null ==> data[..] == old(data[..]))
      ensures data != null && 0 < n && offset < ZoneSize(zone) && old(Ready(zone)) ==>
        r == EndOfRead(zone, offset + n) - offset && Now() == old(Now()) &&
        data[..] == Splice(old(data[..]), at, old(Flat(zone))[offset..offset + r])
      ensures data != null && 0 < n && offset < ZoneSize(zone) && !secure ==>
        PlainRead(old(Now()), Now(), zone, offset, EndOfRead(zone, offset + n), old(data[..]), at, data[..], r)
      ensures data != null && 0 < n && offset < ZoneSize(zone) && secure ==>
        SecureRead(old(hal.env), hal.env, hal.reliable, zone, offset, EndOfRead(zone, offset + n),
          old(data[..]), at, data[..], r) &&
        (r != -1 ==> hal.plain == old(hal.plain))
    {
      hide RangeValid, Content, SecureRead, PlainRead, Splice, EEPROM.Flat, EEPROM.Ready, ZoneSize, RepairTried;
      ZoneSizeBound(zone);
      if data == null || n <= 0 {
        return -1;
      }
      var bad, size := CheckZoneSize(zone, n + offset, false);
      if bad || size <= offset {
        return -1;
      }
      var count := size - offset;
      assert size == EndOfRead(zone, offset + n);
      hide EndOfRead;
      r := ReadChecked(data, at, count, offset, zone, size);
    }

    /** Both branches of `read`, for a range in the zone. */
    method ReadChecked(data: array<byte>, at: nat, count: nat, offset: nat, zone: nat, ghost end: nat) returns (r: int)
      requires Valid() && zone < 11 && 0 < count && end == count + offset <= ZoneSize(zone) && at + count <= data.Length
      modifies data, hal
      ensures Valid()
      ensures old(Ready(zone)) ==> r == count && Now() == old(Now())
      ensures old(Ready(zone)) ==> data[..] == Splice(old(data[..]), at, old(Flat(zone))[offset..end])
      ensures !secure ==> PlainRead(old(Now()), Now(), zone, offset, end, old(data[..]), at, data[..], r)
      ensures secure ==>
        SecureRead(old(hal.env), hal.env, hal.reliable, zone, offset, end, old(data[..]), at, data[..], r) &&
        (r != -1 ==> hal.plain == old(hal.plain))
    {
      hide RangeValid, Content, SecureRead, PlainRead, Splice, EEPROM.Flat, EEPROM.Ready;
      if secure {
        r := ReadSecure(data, at, count, offset, zone, end);
      } else {
        r := ReadPlain(data, at, count, offset, zone, end);
      }
    }

    /**
     * `writeWithVerify`: a write that succeeds is always confirmed by reading the bytes back, so the
     * outcome is that of the write.
     */
    method WriteWithVerify(data: array<byte>, n: int, zone: int) returns (r: int)
      requires Valid() && n <= data.Length
      modifies hal
      ensures Valid()
      ensures ZoneSize(zone) == 0 || n <= 0 || n > ZoneSize(zone) ==> r == -1 && Now() == old(Now())
      ensures 0 < n <= ZoneSize(zone) ==> Wrote(old(Now()), Now(), hal.reliable, zone, data[..n], r)
    {
      var result := Write(data, 0, n, zone);
      if result != 0 {
        return -1;
      }
      assert data[0..0 + n] == data[..n];
      ZoneSizeBound(zone);
      ghost var s, s' := old(Now()), Now();
      var buff := new byte[n];
      ghost var before := buff[..];
      hide Content, Splice, SecureRead, SecureWrite, RangeValid;
      result := Read(buff, 0, n, 0, zone);
      if secure {
        SecureConfirmed(s.env[zone], s'.env, hal.env, hal.reliable, zone, data[..n], before, buff[..], result);
      } else {
        PlainConfirmed(s.plain[zone], s'.plain[zone], data[..n], before, buff[..]);
      }
      r := if result != n || data[..n] != buff[..] then -1 else 0;
    }

    /** The plain branch of `read`. */
    method ReadPlain(data: array<byte>, at: nat, count: nat, offset: nat, zone: nat, ghost end: nat) returns (r: int)
      requires Valid() && !secure && zone < 11 && 0 < count && end == count + offset <= ZoneSize(zone)
      requires at + count <= data.Length
      modifies data
      ensures PlainRead(Now(), Now(), zone, offset, end, old(data[..]), at, data[..], r)
      ensures r == count && Ready(zone)
      ensures data[..] == Splice(old(data[..]), at, Flat(zone)[offset..end])
    {
      hide Splice;
      var failed := hal.GetPlain(zone, count, data, at, offset);
      r := if failed != 0 then -1 else count;
    }

    /** The enveloped branch of `read`. */
    method ReadSecure(data: array<byte>, at: nat, count: nat, offset: nat, zone: nat, ghost end: nat) returns (r: int)
      requires Valid() && secure && zone < 11 && 0 < count && end == count + offset <= ZoneSize(zone)
      requires at + count <= data.Length
      modifies data, hal
      ensures Valid()
      ensures SecureRead(old(hal.env), hal.env, hal.reliable, zone, offset, end, old(data[..]), at, data[..], r)
      ensures r != -1 ==> hal.plain == old(hal.plain)
      ensures old(Ready(zone)) ==> r == count && hal.env == old(hal.env)
      ensures old(Ready(zone)) ==>
        data[..] == Splice(old(data[..]), at, old(Flat(zone))[offset..end])
    {
      ZoneSizeBound(zone);
      ghost var before, env, ready, flat := data[..], hal.env[zone], Ready(zone), if Ready(zone) then Flat(zone) else [];
      if ready {
        RangeNarrowed(env, ZoneSize(zone), ZoneSize(zone), end);
        HoldsLess(env, ZoneSize(zone), end, flat);
      }
      hide RangeValid, Holds, Repaired, Content, Splice, SlotAt;
      ghost var whole;
      r, whole := ReadWithEnvelope(data, at, count, offset, zone);
      if r == count {
        Delivered(env, ZoneSize(zone), offset, end, before, at, data[..], whole);
        if ready {
          HoldsAgree(env, ZoneSize(zone), end, whole, flat, offset, end);
        }
      }
    }

    /**
     * `enableHostSecureChannel`: level 1 only, and only once. Each zone is read plain and its
     * bytes are sealed. If that succeeds every zone holds, in envelopes, what it held before.
     */
    method EnableHostSecureChannel(level: int) returns (r: int)
      requires Valid()
      modifies this`secure, hal
      ensures Valid()
      ensures (r == -1 || r == 0 || r == 1) && (level == 1 ==> secure)
      ensures level != 1 ==> r == -1
      ensures level == 1 ==> (r == 1 <==> old(secure))
      ensures (r == -1 && level != 1) || r == 1 ==>
        secure == old(secure) && hal.env == old(hal.env) && hal.plain == old(hal.plain)
      ensures level == 1 && !old(secure) && hal.reliable ==> r == 0
      ensures r == 0 ==> secure && !old(secure)
      ensures r == 0 ==> forall z :: ZoneSize(z) != 0 ==> Ready(z) && Flat(z) == old(hal.plain[z])
    {
      if level != 1 {
        return -1;
      }
      if secure {
        return 1;
      }
      secure := true;  // Init_Perso
      var buf := new byte[1000];
      var zone := 0;
      ghost var plain := hal.plain;
      while zone < 11
        invariant 0 <= zone <= 11 && hal.Valid() && secure
        invariant forall z :: zone <= z < 11 ==> hal.plain[z] == plain[z]
        invariant forall z :: 0 <= z < zone && ZoneSize(z) != 0 ==>
          Holds(hal.env[z], ZoneSize(z), ZoneSize(z), plain[z])
      {
        var segmentLength := ZoneSize(zone);
        if segmentLength != 0 {
          ZoneSizeBound(zone);
          ghost var was := buf[..];
          var ignored := hal.GetPlain(zone, segmentLength, buf, 0, 0);
          assert buf[..segmentLength] == plain[zone][..segmentLength];
          hide Holds;
          var failed := StoreEnvelopes(buf, segmentLength, zone, plain[zone]);
          if failed != 0 {
            return -1;
          }
        }
        zone := zone + 1;
      }
      forall z | ZoneSize(z) != 0 ensures Ready(z) && Flat(z) == plain[z] {
        ZoneSizeBound(z);
        ContentIs(hal.env[z], ZoneSize(z), plain[z]);
      }
      return 0;
    }
  }

  /**
   * The bytes from `offset` to `end` of what the intact envelopes of that range hold are copied to
   * position `at`, whatever became of the other envelopes of the zone.
   */
  ghost predicate Delivers(env: Envelopes, size: nat, offset: nat, end: nat, before: seq<byte>, at: nat, after: seq<byte>) {
    exists whole :: Holds(env, size, end, whole) && offset <= end && at + (end - offset) <= |before| &&
      after == Splice(before, at, whole[offset..end])
  }

  /**
   * An enveloped read succeeds exactly if the envelopes of its range are intact, and then delivers
   * what they hold; otherwise one damaged envelope is repaired and the caller's data is untouched.
   */
  ghost predicate SecureRead(env: seq<Envelopes>, env': seq<Envelopes>, reliable: bool, zone: int, offset: nat, end: nat,
                             before: seq<byte>, at: nat, after: seq<byte>, r: int) {
    0 <= zone < |env| && end <= ZoneSize(zone) &&
    if RangeValid(env[zone], ZoneSize(zone), end) then
      r == end - offset && env' == env && Delivers(env[zone], ZoneSize(zone), offset, end, before, at, after)
    else
      r == -1 && after == before && |env'| == |env| && RepairTried(env[zone], env'[zone], reliable, ZoneSize(zone), end) &&
      forall z :: 0 <= z < |env| && z != zone ==> env'[z] == env[z]
  }

  /** Reads end with the zone. */
  function EndOfRead(zone: int, end: nat): nat {
    if end > ZoneSize(zone) then ZoneSize(zone) else end
  }

  /** A plain read delivers the bytes of its range. */
  ghost predicate PlainRead(s: Snapshot, s': Snapshot, zone: int, offset: nat, end: nat, before: seq<byte>, at: nat,
                            after: seq<byte>, r: int) {
    0 <= zone < |s.plain| && offset <= end <= |s.plain[zone]| && at + (end - offset) <= |before| && s' == s &&
    r == end - offset && after == Splice(before, at, s.plain[zone][offset..end])
  }

  /** The secure element: whether the channel is enabled, and what the zones hold either way. */
  datatype Snapshot = Snapshot(secure: bool, plain: seq<seq<byte>>, env: seq<Envelopes>)

  /**
   * An enveloped write of `data` succeeds exactly if the envelopes that carry the replaced bytes are
   * intact, unless a store fails, which leaves it half-way. These envelopes then hold what they held,
   * with its first bytes replaced, and all others are as before, damaged or not. If one is damaged, it
   * is repaired and nothing is written.
   */
  ghost predicate SecureWrite(env: Envelopes, env': Envelopes, reliable: bool, size: nat, data: seq<byte>, r: int) {
    |data| <= size && (r == 0 || r == -1) &&
    if RangeValid(env, size, |data|) then
      (reliable ==> r == 0) &&
      exists whole :: Holds(env, size, |data|, whole) &&
        if r == 0 then Holds(env', size, |data|, Splice(whole, 0, data)) && TailKept(env, env', size, |data|)
        else HalfWay(env, env', size, |data|, Splice(whole, 0, data))
    else
      r == -1 && RepairTried(env, env', reliable, size, |data|)
  }

  /** A write to one zone, and to no other, of either kind. */
  ghost predicate Wrote(s: Snapshot, s': Snapshot, reliable: bool, zone: int, data: seq<byte>, r: int) {
    0 <= zone < 11 == |s.plain| == |s'.plain| == |s.env| == |s'.env| && s'.secure == s.secure &&
    (forall z :: 0 <= z < 11 && z != zone ==> s'.plain[z] == s.plain[z] && s'.env[z] == s.env[z]) &&
    if s.secure then SecureWrite(s.env[zone], s'.env[zone], reliable, ZoneSize(zone), data, r)
    else
      (r == 0 || r == -1) && (reliable ==> r == 0) && |data| <= |s.plain[zone]| &&
      s'.plain[zone] == if r == 0 then Splice(s.plain[zone], 0, data) else s.plain[zone]
  }

  /** The first `n` bytes of a zone are carried by the same envelopes as the first `m`. */
  ghost predicate SameCarriers(n: nat, m: nat) {
    forall i: nat :: 480 * i < n <==> 480 * i < m
  }

  lemma {:induction false} SameInvalid(env: Envelopes, size: nat, n: nat, m: nat, i: nat)
    requires SameCarriers(n, m)
    ensures FirstInvalid(env, size, n, i) == FirstInvalid(env, size, m, i)
    decreases n - 480 * i
  {
    if 480 * i < n {
      SameInvalid(env, size, n, m, i + 1);
    }
  }

  lemma WriteRefused(env: Envelopes, env': Envelopes, reliable: bool, size: nat, data: seq<byte>, m: nat)
    requires |data| <= m <= size && SameCarriers(|data|, m) && !RangeValid(env, size, m)
    requires RepairTried(env, env', reliable, size, m)
    ensures SecureWrite(env, env', reliable, size, data, -1)
  {
    SameInvalid(env, size, |data|, m, 0);
    hide SlotValid, FirstInvalid, Holds;
  }

  lemma WriteTried(env: Envelopes, env': Envelopes, reliable: bool, size: nat, data: seq<byte>, m: nat,
                   whole: seq<byte>, r: int)
    requires |data| <= m <= size && SameCarriers(|data|, m) && (m == size || m % 480 == 0)
    requires RangeValid(env, size, m) && Holds(env, size, m, whole) && (r == 0 || r == -1) && (reliable ==> r == 0)
    requires r == 0 ==> Holds(env', size, m, Splice(whole, 0, data)) && TailKept(env, env', size, m)
    requires r != 0 ==> HalfWay(env, env', size, m, Splice(whole, 0, data))
    ensures SecureWrite(env, env', reliable, size, data, r)
    ensures RangeValid(env, size, size) && r == 0 ==> Holds(env', size, size, Splice(Content(env, size), 0, data))
  {
    if RangeValid(env, size, size) && r == 0 {
      Rewritten(env, env', size, m, whole, data);
    }
    hide SlotValid, Splice, Content;
    if r == 0 {
      var whole' := Splice(whole, 0, data);
      assert Holds(env, size, |data|, whole) && Holds(env', size, |data|, whole');
    }
  }

  lemma Delivered(env: Envelopes, size: nat, offset: nat, end: nat, before: seq<byte>, at: nat, after: seq<byte>,
                  whole: seq<byte>)
    requires Holds(env, size, end, whole) && offset <= end && at + (end - offset) <= |before|
    requires after == Splice(before, at, whole[offset..end])
    ensures Delivers(env, size, offset, end, before, at, after)
  {
    hide Holds, Splice;
  }

  /** Two contents that agree with the same envelopes agree on the bytes those carry. */
  lemma HoldsAgree(env: Envelopes, size: nat, n: nat, a: seq<byte>, b: seq<byte>, i: nat, j: nat)
    requires Holds(env, size, n, a) && Holds(env, size, n, b) && i <= j <= n
    ensures a[i..j] == b[i..j]
  {
    forall k | i <= k < j ensures a[k] == b[k] {
      var p := k / 480;
      assert env[SlotAt(p)] == Part(a, size, p) == Part(b, size, p);
      assert a[k] == Part(a, size, p)[k - 480 * p] && b[k] == Part(b, size, p)[k - 480 * p];
    }
  }

  lemma HoldsLess(env: Envelopes, size: nat, n: nat, a: seq<byte>)
    requires Holds(env, size, size, a) && n <= size
    ensures Holds(env, size, n, a)
  {}

  /** So an enveloped read is determined by the envelopes of its range. */
  lemma DeliversOneResult(env: Envelopes, size: nat, offset: nat, end: nat, before: seq<byte>, at: nat,
                          after: seq<byte>, after': seq<byte>)
    requires Delivers(env, size, offset, end, before, at, after)
    requires Delivers(env, size, offset, end, before, at, after')
    ensures after == after'
  {
    var a :| Holds(env, size, end, a) && offset <= end && at + (end - offset) <= |before| &&
      after == Splice(before, at, a[offset..end]);
    var b :| Holds(env, size, end, b) && offset <= end && at + (end - offset) <= |before| &&
      after' == Splice(before, at, b[offset..end]);
    HoldsAgree(env, size, end, a, b, offset, end);
  }

  /** What an enveloped write has stored is what an enveloped read of as many bytes delivers. */
  lemma WrittenIsRead(env: Envelopes, env': Envelopes, reliable: bool, size: nat, data: seq<byte>,
                      before: seq<byte>, at: nat, after: seq<byte>)
    requires SecureWrite(env, env', reliable, size, data, 0)
    requires Delivers(env', size, 0, |data|, before, at, after)
    ensures after == Splice(before, at, data)
  {
    var n := |data|;
    var whole :| Holds(env, size, n, whole) && Holds(env', size, n, Splice(whole, 0, data));
    var stored := Splice(whole, 0, data);
    assert Delivers(env', size, 0, n, before, at, Splice(before, at, stored[0..n]));
    DeliversOneResult(env', size, 0, n, before, at, after, Splice(before, at, stored[0..n]));
    assert stored[0..n] == data;
  }

  lemma SecureConfirmed(env: Envelopes, env': seq<Envelopes>, env'': seq<Envelopes>, reliable: bool, zone: int,
                        data: seq<byte>, before: seq<byte>, after: seq<byte>, r: int)
    requires 0 <= zone < |env'| && SecureWrite(env, env'[zone], reliable, ZoneSize(zone), data, 0) && |before| == |data|
    requires SecureRead(env', env'', reliable, zone, 0, |data|, before, 0, after, r)
    ensures r == |data| && after == data && env'' == env'
  {
    WrittenIsIntact(env, env'[zone], reliable, ZoneSize(zone), data);
    WrittenIsRead(env, env'[zone], reliable, ZoneSize(zone), data, before, 0, after);
    assert Splice(before, 0, data) == data;
    hide SecureWrite, Delivers, RangeValid;
  }

  lemma PlainConfirmed(plain: seq<byte>, plain': seq<byte>, data: seq<byte>, before: seq<byte>, after: seq<byte>)
    requires |before| == |data| <= |plain| && plain' == Splice(plain, 0, data) && after == Splice(before, 0, plain'[0..|data|])
    ensures after == data
  {}

  lemma WrittenIsIntact(env: Envelopes, env': Envelopes, reliable: bool, size: nat, data: seq<byte>)
    requires SecureWrite(env, env', reliable, size, data, 0)
    ensures RangeValid(env', size, |data|)
  {
    hide Repaired, Splice;
  }

  /** The parts before number `i` are in their envelopes. */
  ghost predicate HeadHeld(env: Envelopes, size: nat, i: nat, flat: seq<byte>) {
    size == |flat| &&
    forall j: nat :: j < i && 480 * j < size ==> SlotAt(j) in env && env[SlotAt(j)] == Part(flat, size, j)
  }

  /** The envelopes from byte `n` on are as intact as before and hold the same. */
  ghost predicate TailKept(env: Envelopes, env': Envelopes, size: nat, n: nat) {
    forall j: nat :: n <= 480 * j < size ==>
      (SlotValid(env', size, j) <==> SlotValid(env, size, j)) &&
      (SlotValid(env, size, j) ==> env'[SlotAt(j)] == env[SlotAt(j)])
  }

  lemma SealHead(env: Envelopes, size: nat, i: nat, flat: seq<byte>, payload: seq<byte>)
    requires HeadHeld(env, size, i, flat) && 480 * i < size && payload == Part(flat, size, i)
    ensures HeadHeld(Sealed(env, SlotAt(i), payload), size, i + 1, flat)
  {
    var env' := Sealed(env, SlotAt(i), payload);
    forall j: nat | j < i + 1 && 480 * j < size ensures SlotAt(j) in env' && env'[SlotAt(j)] == Part(flat, size, j) {
      if j != i {
        SealSlot(env, size, i, payload, j);
      }
    }
  }

  lemma SealTail(env0: Envelopes, env: Envelopes, size: nat, i: nat, next: nat, payload: seq<byte>)
    requires TailKept(env0, env, size, 480 * i) && next == i + 1 && 480 * i < size && |payload| == PayloadSize(size, i)
    ensures TailKept(env0, Sealed(env, SlotAt(i), payload), size, 480 * next)
  {
    forall j: nat | 480 * next <= 480 * j < size
      ensures var env' := Sealed(env, SlotAt(i), payload);
        (SlotValid(env', size, j) <==> SlotValid(env0, size, j)) &&
        (SlotValid(env0, size, j) ==> env'[SlotAt(j)] == env0[SlotAt(j)])
    {
      SealSlot(env, size, i, payload, j);
    }
  }

  lemma TailShrinks(env: Envelopes, env': Envelopes, size: nat, i: nat, n: nat)
    requires TailKept(env, env', size, 480 * i) && n <= 480 * i && (i == 0 || 480 * (i - 1) < n)
    ensures TailKept(env, env', size, n)
  {
    hide SlotValid, SlotAt;
  }

  /** A write that stopped between two envelopes: the ones before hold `flat`, the others are as before. */
  ghost predicate HalfWay(env: Envelopes, env': Envelopes, size: nat, n: nat, flat: seq<byte>) {
    exists i: nat :: 480 * i < n && HeadHeld(env', size, i, flat) && TailKept(env, env', size, 480 * i)
  }

  lemma StoppedThere(env: Envelopes, env': Envelopes, size: nat, n: nat, flat: seq<byte>, i: nat)
    requires 480 * i < n && HeadHeld(env', size, i, flat) && TailKept(env, env', size, 480 * i)
    ensures HalfWay(env, env', size, n, flat)
  {
    hide HeadHeld, TailKept;
  }

  lemma AllHeld(env: Envelopes, size: nat, i: nat, n: nat, flat: seq<byte>)
    requires HeadHeld(env, size, i, flat) && n <= 480 * i && n <= size
    ensures Holds(env, size, n, flat)
  {}

  /** The scratch buffer of `writeWithEnvelope` once the new bytes are copied over the old ones. */
  lemma HeadReplaced(buf0: seq<byte>, buf1: seq<byte>, buf2: seq<byte>, whole: seq<byte>, data: seq<byte>,
                     n: nat, size: nat)
    requires |data| <= n <= size == |whole| && n <= |buf0|
    requires buf1 == Splice(buf0, 0, whole[0..0 + n]) && buf2 == Splice(buf1, 0, data)
    ensures buf2[..n] == Splice(whole, 0, data)[..n]
  {}

  lemma Rewritten(env: Envelopes, env': Envelopes, size: nat, n: nat, whole: seq<byte>, data: seq<byte>)
    requires |data| <= n <= size && RangeValid(env, size, size) && Holds(env, size, n, whole)
    requires Holds(env', size, n, Splice(whole, 0, data)) && TailKept(env, env', size, n)
    ensures Holds(env', size, size, Splice(Content(env, size), 0, data))
  {
    var flat := Content(env, size);
    var flat', whole' := Splice(flat, 0, data), Splice(whole, 0, data);
    SpliceAt(flat, 0, data);
    SpliceAt(whole, 0, data);
    forall j: nat | 480 * j < size ensures SlotAt(j) in env' && env'[SlotAt(j)] == Part(flat', size, j) {
      if 480 * j < n {
        assert Part(whole, size, j) == env[SlotAt(j)] == Part(flat, size, j);
        SamePart(whole, flat, whole', flat', size, j, |data|);
      } else {
        assert SlotValid(env, size, j);
        assert Part(flat', size, j) == Part(flat, size, j);
      }
    }
  }

  lemma SamePart(a: seq<byte>, b: seq<byte>, a': seq<byte>, b': seq<byte>, size: nat, j: nat, m: nat)
    requires |a| == |b| == |a'| == |b'| == size && 480 * j < size && m <= size
    requires Part(a, size, j) == Part(b, size, j)
    requires forall k :: 0 <= k < size ==> (k < m ==> a'[k] == b'[k])
    requires forall k :: 0 <= k < size ==> (k >= m ==> a'[k] == a[k] && b'[k] == b[k])
    ensures Part(a', size, j) == Part(b', size, j)
  {
    var p, q := Part(a, size, j), Part(b, size, j);
    forall k | 480 * j <= k < 480 * j + PayloadSize(size, j) ensures a'[k] == b'[k] {
      assert p[k - 480 * j] == a[k] && q[k - 480 * j] == b[k];
    }
  }

  lemma ChunkIsPart(buf: seq<byte>, flat: seq<byte>, size: nat, n: nat, i: nat, dataSize: nat)
    requires n <= size == |flat| && n <= |buf| && 480 * i < n && (n == size || n % 480 == 0)
    requires buf[..n] == flat[..n]
    requires dataSize == if n - i * 480 < 480 then n - i * 480 else 480
    ensures i * 480 + dataSize <= n && dataSize == PayloadSize(size, i)
    ensures buf[i * 480..i * 480 + dataSize] == Part(flat, size, i)
  {
    var k, m := i * 480, i * 480 + dataSize;
    assert buf[k..m] == buf[..n][k..m];
    assert flat[k..m] == flat[..n][k..m];
  }

  lemma NextPart(was: seq<byte>, buf: seq<byte>, size: nat, i: nat, env: Envelopes)
    requires size <= |was| && 480 * i < size && SlotValid(env, size, i)
    requires buf == Splice(was, i * 480, env[SlotAt(i)])
    requires forall j: nat :: j < i ==> SlotValid(env, size, j) && env[SlotAt(j)] == Part(was, size, j)
    ensures forall j: nat :: j <= i ==> SlotValid(env, size, j) && env[SlotAt(j)] == Part(buf, size, j)
  {
    forall j: nat | j <= i ensures SlotValid(env, size, j) && env[SlotAt(j)] == Part(buf, size, j) {
      if j < i {
        assert Part(was, size, j) == Part(buf, size, j);
      }
    }
  }

  lemma SliceOfPrefix(b: seq<byte>, size: nat, i: nat, j: nat)
    requires i <= j <= size <= |b|
    ensures b[..size][i..j] == b[i..j]
  {}

  lemma PartsAreHeld(env: Envelopes, size: nat, n: nat, buf: seq<byte>)
    requires n <= size <= |buf|
    requires forall j: nat :: 480 * j < n ==> SlotValid(env, size, j) && env[SlotAt(j)] == Part(buf, size, j)
    ensures Holds(env, size, n, buf[..size]) && RangeValid(env, size, n)
  {
    forall j: nat | 480 * j < n ensures SlotAt(j) in env && env[SlotAt(j)] == Part(buf[..size], size, j) {
      assert SlotValid(env, size, j);
      assert Part(buf[..size], size, j) == Part(buf, size, j);
    }
  }
}
