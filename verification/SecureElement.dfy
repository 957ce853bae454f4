/**
 * The storage of the STSAFE-A100 secure element as cores/arduino/EEPROMInterface.cpp uses it
 * through its HAL: eleven zones, each holding plain bytes or sealed envelopes.
 */
module SecureElement {
  import opened Memory

  /** The segment length of each data zone. */
  function ZoneSize(zone: int): nat {
    match zone
    case 0 => 976
    case 2 => 192
    case 3 => 120
    case 5 => 584
    case 6 => 680
    case 7 => 784
    case 8 => 880
    case 10 => 88
    case _ => 0
  }

  lemma ZoneSizeBound(zone: int)
    ensures ZoneSize(zone) <= 976
    ensures ZoneSize(zone) != 0 ==> 0 <= zone <= 10
  {}

  /** The envelopes of a zone by raw offset. A payload of n bytes occupies 8 + n raw bytes. */
  type Envelopes = map<nat, seq<byte>>

  predicate Apart(at: nat, n: nat, at': nat, n': nat) {
    at + n <= at' || at' + n' <= at
  }

  /** Writing `n` raw bytes at `at` destroys every envelope it touches. */
  function Wiped(env: Envelopes, at: nat, n: nat): Envelopes {
    map k | k in env && Apart(k, 8 + |env[k]|, at, n) :: env[k]
  }

  function Sealed(env: Envelopes, at: nat, payload: seq<byte>): Envelopes {
    Wiped(env, at, 8 + |payload|)[at := payload]
  }

  class Element {
    var plain: seq<seq<byte>>
    var env: seq<Envelopes>
    const reliable: bool  // no store ever fails

    ghost predicate Valid()
      reads this
    {
      |plain| == |env| == 11 && forall z :: 0 <= z < 11 ==> |plain[z]| == ZoneSize(z)
    }

    constructor (plain: seq<seq<byte>>, env: seq<Envelopes>, reliable: bool)
      ensures this.plain == plain && this.env == env && this.reliable == reliable
    {
      this.plain, this.env, this.reliable := plain, env, reliable;
    }

    /** `HAL_Store_Data_Zone` at offset 0. */
    method StorePlain(zone: nat, data: seq<byte>) returns (rc: int)
      requires Valid() && zone < 11 && |data| <= ZoneSize(zone)
      modifies this
      ensures Valid() && (reliable ==> rc == 0)
      ensures rc == 0 ==>
        plain == old(plain)[zone := Splice(old(plain[zone]), 0, data)] &&
        env == old(env)[zone := Wiped(old(env[zone]), 0, |data|)]
      ensures rc != 0 ==> plain == old(plain) && env == old(env)
    {
      if !reliable {
        var fails: bool := *;
        if fails {
          return 1;
        }
      }
      plain := plain[zone := Splice(plain[zone], 0, data)];
      env := env[zone := Wiped(env[zone], 0, |data|)];
      return 0;
    }

    /** `HAL_Get_Data_Zone` into `buf` from `to` on. */
    method GetPlain(zone: nat, size: nat, buf: array<byte>, to: nat, offset: nat) returns (rc: int)
      requires Valid() && zone < 11 && offset + size <= ZoneSize(zone) && to + size <= buf.Length
      modifies buf
      ensures rc == 0 && buf[..] == Splice(old(buf[..]), to, plain[zone][offset..offset + size])
    {
      Store(buf, to, plain[zone][offset..offset + size]);
      return 0;
    }

    /**
     * `HAL_Store_Data_WithinEnvelop`: the envelope replaces whatever its raw bytes held, so the
     * plain bytes there are gone (they read as zeros in this model).
     */
    method StoreEnvelope(zone: nat, payload: seq<byte>, offset: nat) returns (rc: int)
      requires Valid() && zone < 11 && 0 < |payload| <= 480
      modifies this
      ensures Valid() && (reliable ==> rc == 0)
      ensures rc == 0 ==> env == old(env)[zone := Sealed(old(env[zone]), offset, payload)]
      ensures rc != 0 ==> env == old(env)
      ensures forall z :: 0 <= z < 11 && z != zone ==> plain[z] == old(plain[z])
    {
      if !reliable {
        var fails: bool := *;
        if fails {
          return 1;
        }
      }
      env := env[zone := Sealed(env[zone], offset, payload)];
      plain := plain[zone := Overlaid(plain[zone], offset, 8 + |payload|)];
      return 0;
    }

    /** `HAL_Get_Data_WithinEnvelop`: works only with the length that was stored. */
    method GetEnvelope(zone: nat, size: nat, buf: array<byte>, to: nat, offset: nat) returns (rc: int)
      requires Valid() && zone < 11 && to + size <= buf.Length
      modifies buf
      ensures rc == 0 <==> offset in env[zone] && |env[zone][offset]| == size
      ensures buf[..] == if rc == 0 then Splice(old(buf[..]), to, env[zone][offset]) else old(buf[..])
    {
      if offset in env[zone] && |env[zone][offset]| == size {
        Store(buf, to, env[zone][offset]);
        return 0;
      }
      return 1;
    }
  }

  function Overlaid(s: seq<byte>, at: nat, n: nat): (r: seq<byte>)
    ensures |r| == |s|
  {
    seq(|s|, k requires 0 <= k < |s| => if at <= k < at + n then 0 else s[k])
  }
}
