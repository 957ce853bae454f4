/**
 * The block device of cores/arduino/FileSystem/SFlashBlockDevice.cpp over NOR flash: writing can
 * only clear bits, and only whole 4 KiB sectors can be erased. Allocation succeeds.
 */
module SFlashBlockDevice {
  import opened Memory

  // A block has 512 bytes, a flash sector 4096, and an erased byte is 255.

  function And(a: byte, b: byte): byte {
    ((a as bv8) & (b as bv8)) as int
  }

  lemma AndErased(b: byte)
    ensures And(255, b) == b && And(b, 255) == b
  {
    assert ((255 as bv8) & (b as bv8)) == b as bv8;
    assert ((b as bv8) & (255 as bv8)) == b as bv8;
  }

  /** What writing `data` over `old` leaves behind. */
  function AndAll(old_: seq<byte>, data: seq<byte>): (r: seq<byte>)
    requires |old_| == |data|
    ensures |r| == |data|
  {
    seq(|data|, k requires 0 <= k < |data| => And(old_[k], data[k]))
  }

  predicate IsErased(s: seq<byte>) {
    forall k :: 0 <= k < |s| ==> s[k] == 255
  }

  /**
   * The test of `_eraseWrite` is the right one: a block may be written without erasing, whatever
   * the data, exactly when all its bytes are 0xFF.
   */
  lemma DirectWriteExactly(block: seq<byte>)
    ensures IsErased(block) <==> forall data: seq<byte> | |data| == |block| :: AndAll(block, data) == data
  {
    if IsErased(block) {
      forall data: seq<byte> | |data| == |block| ensures AndAll(block, data) == data {
        ErasedTakesAll(block, data);
      }
    }
    if forall data: seq<byte> | |data| == |block| :: AndAll(block, data) == data {
      var ones: seq<byte> := seq(|block|, _ => 255);
      assert AndAll(block, ones) == ones;
      forall k | 0 <= k < |block| ensures block[k] == 255 {
        assert And(block[k], 255) == AndAll(block, ones)[k];
        AndErased(block[k]);
      }
    }
  }

  lemma ErasedTakesAll(block: seq<byte>, data: seq<byte>)
    requires |data| == |block| && IsErased(block)
    ensures AndAll(block, data) == data
  {
    forall k | 0 <= k < |data| ensures AndAll(block, data)[k] == data[k] {
      AndErased(data[k]);
    }
  }

  lemma SectorOf(offset: nat, length: nat)
    requires offset % 512 == 0 && length % 4096 == 0 && offset < length
    ensures var sector, inside := offset / 4096 * 4096, offset / 256 % 16 * 256;
      sector + inside == offset && inside + 512 <= 4096 && sector + 4096 <= length && sector % 4096 == 0
  {
    var b := offset / 512;
    var q, r := b / 8, b % 8;
    SectorParts(offset, q, r);
    var n := length / 4096;
    assert q < n;
  }

  lemma SectorParts(offset: nat, q: nat, r: nat)
    requires offset == 4096 * q + 512 * r && r < 8
    ensures offset / 4096 == q && offset / 256 % 16 == 2 * r
  {
    assert offset / 256 == 16 * q + 2 * r;
  }

  /** Whether byte `k` lies in a sector that the range meets. */
  predicate Touched(start: nat, size: nat, k: nat)
    requires size > 0
  {
    start / 4096 <= k / 4096 <= (start + size - 1) / 4096
  }

  lemma TouchedSector(sector: nat, k: nat)
    requires sector % 4096 == 0
    ensures Touched(sector, 512, k) <==> sector <= k < sector + 4096
  {}

  class BlockDevice {
    const flash: array<byte>  // the file-system partition

    ghost predicate Valid()
      reads this
    {
      flash.Length % 4096 == 0 && flash.Length <= 0x1_0000_0000
    }

    constructor (flash: array<byte>)
      ensures this.flash == flash
    {
      this.flash := flash;
    }

    /** `MicoFlashRead`: like the two below it returns the offset behind the bytes it handled. */
    method FlashRead(offset: nat, buf: array<byte>, at: nat, size: nat) returns (next: nat)
      requires offset + size <= flash.Length && at + size <= buf.Length && buf != flash
      modifies buf
      ensures next == offset + size
      ensures buf[..] == Splice(old(buf[..]), at, flash[offset..offset + size])
    {
      MemCpy(buf, at, flash, offset, size);
      next := offset + size;
    }

    /** `MicoFlashErase`: every sector that the range touches. */
    method FlashErase(start: nat, size: nat)
      requires Valid() && size > 0 && start + size <= flash.Length
      modifies flash
      ensures forall k :: 0 <= k < flash.Length ==>
        flash[k] == if Touched(start, size, k) then 255 else old(flash[k])
    {
      hide Touched;
      for k := 0 to flash.Length
        invariant forall j :: 0 <= j < flash.Length ==>
          flash[j] == if j < k && Touched(start, size, j) then 255 else old(flash[j])
      {
        if Touched(start, size, k) {
          flash[k] := 255;
        }
      }
    }

    /** `MicoFlashWrite`: bits can only go from 1 to 0. */
    method FlashWrite(offset: nat, data: array<byte>, at: nat, size: nat) returns (next: nat)
      requires offset + size <= flash.Length && at + size <= data.Length && data != flash
      modifies flash
      ensures next == offset + size
      ensures flash[..] == Splice(old(flash[..]), offset,
        AndAll(old(flash[..])[offset..offset + size], data[..][at..at + size]))
    {
      for k := 0 to size
        invariant forall j :: 0 <= j < flash.Length ==>
          flash[j] == if offset <= j < offset + k then And(old(flash[j]), data[at + j - offset]) else old(flash[j])
      {
        flash[offset + k] := And(flash[offset + k], data[at + k]);
      }
      ghost var was := old(flash[..]);
      SpliceAt(was, offset, AndAll(was[offset..offset + size], data[..][at..at + size]));
      next := offset + size;
    }

    /** The bytes from the block of `addr` on, whole blocks only. */
    method Read(buffer: array<byte>, addr: nat, size: nat) returns (rc: int)
      requires Valid() && buffer != flash && size <= buffer.Length
      requires addr / 512 * 512 + size / 512 * 512 <= flash.Length
      modifies buffer
      ensures rc == 0
      ensures buffer[..] == Splice(old(buffer[..]), 0,
        flash[addr / 512 * 512..addr / 512 * 512 + size / 512 * 512])
    {
      var sector, count := addr / 512, size / 512;
      var start, n := sector * 512, count * 512;
      ReadBlocks(buffer, sector, count, start, n, flash[start..start + n]);
      rc := 0;
    }

    method ReadBlocks(buffer: array<byte>, sector0: nat, count0: nat, ghost start: nat, ghost n: nat,
                      ghost data: seq<byte>)
      requires Valid() && buffer != flash && start == sector0 * 512 && n == count0 * 512 == |data|
      requires n <= buffer.Length && start + n <= flash.Length && flash[start..start + n] == data
      modifies buffer
      ensures buffer[..] == Splice(old(buffer[..]), 0, data)
    {
      var sector, count, buf := sector0, count0, 0;
      ghost var was, all := buffer[..], flash[..];
      assert Splice(was, 0, data[..0]) == was;
      hide Splice;
      while count > 0
        invariant buf == n - count * 512 && sector * 512 == start + buf && 0 <= count && 0 <= buf <= n
        invariant buffer[..] == Splice(was, 0, data[..buf]) && flash[..] == all
      {
        ghost var next := buf + 512;
        var offset := sector * 512;
        SubBlock(all, start, n, data, buf, offset, next);
        ReadBlock(buffer, buf, offset, all, data[buf..next]);
        SpliceMore(was, 0, data, buf, buf, next);
        sector := sector + 1;
        buf := buf + 512;
        count := count - 1;
      }
      assert data[..buf] == data;
    }

    method ReadBlock(buffer: array<byte>, at: nat, offset: nat, ghost all: seq<byte>, ghost piece: seq<byte>)
      requires buffer != flash && at + 512 <= buffer.Length && flash[..] == all
      requires offset + 512 <= |all| && piece == all[offset..offset + 512]
      modifies buffer
      ensures buffer[..] == Splice(old(buffer[..]), at, piece)
    {
      assert flash[offset..offset + 512] == piece;
      hide Splice;
      var after := FlashRead(offset, buffer, at, 512);
    }

    /**
     * Afterwards the whole blocks of `buffer` stand at the block of `addr`, and every other byte
     * of the partition is what it was.
     */
    method Program(buffer: array<byte>, addr: nat, size: nat) returns (rc: int)
      requires Valid() && buffer != flash && size <= buffer.Length
      requires addr / 512 * 512 + size / 512 * 512 <= flash.Length
      modifies flash
      ensures rc == 0
      ensures flash[..] == Splice(old(flash[..]), addr / 512 * 512, buffer[..size / 512 * 512])
    {
      var sector, count := addr / 512, size / 512;
      ProgramBlocks(buffer, sector, count, sector * 512, count * 512);
      rc := 0;
    }

    method ProgramBlocks(buffer: array<byte>, sector0: nat, count0: nat, ghost start: nat, ghost n: nat)
      requires Valid() && buffer != flash && start == sector0 * 512 && n == count0 * 512
      requires n <= buffer.Length && start + n <= flash.Length
      modifies flash
      ensures flash[..] == Splice(old(flash[..]), start, buffer[..n])
    {
      var sector, count, buf := sector0, count0, 0;
      ghost var was, all := flash[..], buffer[..];
      ghost var data := all[..n];
      assert Splice(was, start, data[..0]) == was;
      hide Splice;
      while count > 0
        invariant buf == n - count * 512 && sector * 512 == start + buf && 0 <= count && 0 <= buf <= n
        invariant flash[..] == Splice(was, start, data[..buf]) && buffer[..] == all
      {
        ghost var next := buf + 512;
        var offset := sector * 512;
        SliceOfHead(all, n, buf, next);
        EraseWrite(offset, buffer, buf, next);
        SpliceMore(was, start, data, buf, offset, next);
        sector := sector + 1;
        buf := buf + 512;
        count := count - 1;
      }
      assert data[..buf] == data;
    }

    /** `_eraseWrite` of one block: rewrites its sector, or writes it directly if it is blank. */
    method EraseWrite(offset: nat, data: array<byte>, at: nat, ghost end: nat)
      requires Valid() && data != flash && end == at + 512 <= data.Length
      requires offset % 512 == 0 && offset + 512 <= flash.Length
      modifies flash
      ensures flash[..] == Splice(old(flash[..]), offset, data[..][at..end])
    {
      SectorOf(offset, flash.Length);
      var fAddr: nat, sSector := offset / 4096 * 4096, offset / 256 % 16 * 256;
      var sectorBuf := new byte[4096];
      var pos, next := TestBlock(fAddr, sSector, offset, sectorBuf);
      if pos != 512 {
        next := next - 4096;
        RewriteSector(next, sSector, offset, sectorBuf, data, at, end);
      } else {
        WriteBlank(offset, data, at, end);
      }
    }

    /** Reads the sector and looks for a byte of the block that is not blank. */
    method TestBlock(fAddr: nat, sSector: nat, ghost offset: nat, sectorBuf: array<byte>) returns (pos: nat, next: nat)
      requires sectorBuf.Length == 4096 && sectorBuf != flash && fAddr + 4096 <= flash.Length
      requires offset == fAddr + sSector && sSector + 512 <= 4096
      modifies sectorBuf
      ensures next == fAddr + 4096 && sectorBuf[..] == flash[fAddr..next]
      ensures pos == 512 ==> forall k :: offset <= k < offset + 512 ==> flash[k] == 255
    {
      ghost var sector := flash[fAddr..fAddr + 4096];
      next := FlashRead(fAddr, sectorBuf, 0, 4096);
      assert sectorBuf[..] == sector;
      pos := 0;
      while pos < 512 && sectorBuf[sSector + pos] == 255
        invariant 0 <= pos <= 512
        invariant forall k :: sSector <= k < sSector + pos ==> sector[k] == 255
      {
        pos := pos + 1;
      }
      if pos == 512 {
        assert forall k :: offset <= k < offset + 512 ==> flash[k] == sector[k - fAddr];
      }
    }

    /** The direct path. */
    method WriteBlank(offset: nat, data: array<byte>, at: nat, ghost end: nat)
      requires data != flash && end == at + 512 <= data.Length && offset + 512 <= flash.Length
      requires forall k :: offset <= k < offset + 512 ==> flash[k] == 255
      modifies flash
      ensures flash[..] == Splice(old(flash[..]), offset, data[..][at..end])
    {
      ErasedTakesAll(flash[..][offset..offset + 512], data[..][at..end]);
      var next := FlashWrite(offset, data, at, 512);
    }

    /** The erase path: `sectorBuf` holds the sector at `sector`. */
    method RewriteSector(sector: nat, inside: nat, offset: nat, sectorBuf: array<byte>,
                         data: array<byte>, at: nat, ghost end: nat)
      requires Valid() && data != flash && sectorBuf != flash && sectorBuf != data
      requires end == at + 512 <= data.Length && offset == sector + inside
      requires sector % 4096 == 0 && sector + 4096 <= flash.Length && inside + 512 <= 4096
      requires sectorBuf[..] == flash[sector..sector + 4096]
      modifies flash, sectorBuf
      ensures flash[..] == Splice(old(flash[..]), offset, old(data[..])[at..end])
    {
      ghost var was, block := flash[..], data[..][at..end];
      assert block == data[at..at + 512];
      FlashErase(sector, 512);
      ghost var blank := flash[..];
      BlankSector(was, blank, sector);
      hide *;
      MemCpy(sectorBuf, inside, data, at, 512);
      ghost var full := sectorBuf[..];
      var next := FlashWrite(sector, sectorBuf, 0, 4096);
      SectorRewritten(was, blank, flash[..], sector, inside, offset, block, full);
    }
  }

  lemma SubBlock(disk: seq<byte>, start: nat, n: nat, data: seq<byte>, k: nat, at: nat, m: nat)
    requires start + n <= |disk| && disk[start..start + n] == data
    requires at == start + k && m == k + 512 <= n
    ensures data[k..m] == disk[at..at + 512]
  {
    assert forall i :: k <= i < m ==> data[i] == disk[start + i];
  }

  /** What an erase of one block leaves of a partition. */
  ghost predicate Blank(was: seq<byte>, blank: seq<byte>, sector: nat) {
    sector + 4096 <= |was| == |blank| &&
    forall k :: 0 <= k < |was| ==> blank[k] == if sector <= k < sector + 4096 then 255 else was[k]
  }

  lemma BlankSector(was: seq<byte>, blank: seq<byte>, sector: nat)
    requires sector % 4096 == 0 && sector + 4096 <= |was| == |blank|
    requires forall k :: 0 <= k < |was| ==> blank[k] == if Touched(sector, 512, k) then 255 else was[k]
    ensures Blank(was, blank, sector)
  {
    forall k | 0 <= k < |was| ensures blank[k] == if sector <= k < sector + 4096 then 255 else was[k] {
      TouchedSector(sector, k);
    }
  }

  /** A sector that is erased and put back with `block` inside it. */
  lemma SectorRewritten(was: seq<byte>, blank: seq<byte>, now: seq<byte>, sector: nat, inside: nat, offset: nat,
                        block: seq<byte>, full: seq<byte>)
    requires Blank(was, blank, sector) && offset == sector + inside && inside + |block| <= 4096
    requires full == Splice(was[sector..sector + 4096], inside, block)
    requires now == Splice(blank, sector, AndAll(blank[sector..sector + 4096], full[..][0..0 + 4096]))
    ensures now == Splice(was, offset, block)
  {
    ErasedTakesAll(blank[sector..sector + 4096], full);
    assert full[..][0..0 + 4096] == full;
    hide AndAll;
    SpliceAt(was, offset, block);
    SpliceAt(blank, sector, full);
    SpliceAt(was[sector..sector + 4096], inside, block);
  }

  /** Splicing in the bytes of `data` behind its first `k`, up to `m`. */
  lemma SpliceMore(a: seq<byte>, at: nat, data: seq<byte>, k: nat, at': nat, m: nat)
    requires at + |data| <= |a| && k <= m <= |data| && at' == at + k
    ensures Splice(Splice(a, at, data[..k]), at', data[k..m]) == Splice(a, at, data[..m])
  {
    assert data[..m] == data[..k] + data[k..m];
  }

  lemma SliceOfHead(s: seq<byte>, n: nat, i: nat, j: nat)
    requires i <= j <= n <= |s|
    ensures s[..n][i..j] == s[i..j]
  {}
}
