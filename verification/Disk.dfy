/** The block device as the GRUB file systems see it: `rawread` and `devread`
    of fs/grub/disk_io.c, over a flat disk some of whose sectors may be unreadable. */
module Disk {
  import opened Division

  type byte = b: int | 0 <= b < 256

  const SECTOR_SIZE: nat := 512

  /** The error codes the modelled code stores in `errnum`. */
  datatype Error = ErrNone | ErrRead | ErrOutsidePart | ErrFsysCorrupt | ErrFileLength

  /** The little-endian 16-bit word at `i`. */
  function U16(s: seq<byte>, i: nat): (w: int)
    requires i + 2 <= |s|
    ensures 0 <= w < 0x1_0000
  {
    (s[i] as int) + 0x100 * (s[i + 1] as int)
  }

  /** The little-endian 32-bit word at `i`. */
  function U32(s: seq<byte>, i: nat): (w: int)
    requires i + 4 <= |s|
    ensures 0 <= w < 0x1_0000_0000
  {
    (s[i] as int) + 0x100 * (s[i + 1] as int) + 0x1_0000 * (s[i + 2] as int) + 0x100_0000 * (s[i + 3] as int)
  }

  /** A 32-bit word read as a C `int`. */
  function Signed(w: int): int {
    if w < 0x8000_0000 then w else w - 0x1_0000_0000
  }

  /** That is the number in range that differs from it by nothing or by 2^32. */
  lemma {:induction false} SignedIs(w: int)
    requires 0 <= w < 0x1_0000_0000
    ensures -0x8000_0000 <= Signed(w) < 0x8000_0000 && (Signed(w) == w || Signed(w) + 0x1_0000_0000 == w)
  {
  }

  /** The sector at which block `b` of `sectors` sectors starts, as the file systems have it: a
      32-bit product, which `devread` takes as an `int`. */
  function BlockSector(b: nat, sectors: nat): int {
    Signed(Product(b, sectors) % 0x1_0000_0000)
  }

  /** That is where the block does start exactly if the sector is below 2^31; all others fall on
      the sectors of other blocks or on negative ones. */
  lemma {:induction false} BlockSectorIs(b: nat, sectors: nat)
    ensures BlockSector(b, sectors) == b * sectors <==> b * sectors < 0x8000_0000
  {
    ProductIsTimes(b, sectors);
  }

  /** The sectors repeat: a block number that is too large falls on a smaller one's. */
  lemma {:induction false} SectorsRepeat(b: nat, sectors: nat, period: nat)
    requires period * sectors == 0x1_0000_0000
    ensures BlockSector(b + period, sectors) == BlockSector(b, sectors)
  {
    ProductOfSum(b, period, sectors);
    ProductIsTimes(period, sectors);
    Period(Product(b, sectors));
  }

  lemma {:induction false} Period(x: nat)
    ensures (x + 0x1_0000_0000) % 0x1_0000_0000 == x % 0x1_0000_0000
  {
  }

  lemma {:induction false} SliceOfSlice<T>(s: seq<T>, p: nat, n: nat, a: nat, b: nat)
    requires p + n <= |s| && a <= b <= n
    ensures s[p..p + n][a..b] == s[p + a..p + b]
  {
    var t, u, w := s[p..p + n], s[p..p + n][a..b], s[p + a..p + b];
    assert |u| == |w|;
    forall k | 0 <= k < b - a ensures u[k] == w[k] {
      assert u[k] == t[a + k] && w[k] == s[p + a + k];
    }
  }

  lemma {:induction false} U32OfSlice(s: seq<byte>, p: nat, n: nat, i: nat)
    requires p + n <= |s| && i + 4 <= n
    ensures U32(s[p..p + n], i) == U32(s, p + i)
  {
  }

  lemma {:induction false} U16OfSlice(s: seq<byte>, p: nat, n: nat, i: nat)
    requires p + n <= |s| && i + 2 <= n
    ensures U16(s[p..p + n], i) == U16(s, p + i)
  {
  }

  function Min(a: int, b: int): int {
    if a < b then a else b
  }

  /** Some sector that a read of `len` bytes at byte `pos` touches is unreadable. */
  ghost predicate Broken(bad: set<int>, pos: int, len: int) {
    exists s :: s in bad && pos / SECTOR_SIZE <= s <= (pos + len - 1) / SECTOR_SIZE
  }

  lemma {:induction false} BrokenHere(bad: set<int>, pos: nat, len: nat, done: nat, sector: nat, byteOffset: nat)
    requires done < len && sector * SECTOR_SIZE + byteOffset == pos + done
    requires pos / SECTOR_SIZE <= sector && sector in bad
    ensures Broken(bad, pos, len)
  {
    assert sector <= (pos + len - 1) / SECTOR_SIZE;
  }

  lemma {:induction false} NoneBroken(bad: set<int>, pos: nat, len: nat, sector: nat)
    requires len > 0 && sector * SECTOR_SIZE >= pos + len
    requires forall s :: pos / SECTOR_SIZE <= s < sector ==> s !in bad
    ensures !Broken(bad, pos, len)
  {
    assert (pos + len - 1) / SECTOR_SIZE < sector;
  }

  /** Bytes that are the same one by one are the same as sequences. */
  lemma {:induction false} SameSlice(buf: array<byte>, at: nat, s: seq<byte>, pos: nat, n: nat)
    requires at + n <= buf.Length && pos + n <= |s|
    requires forall k :: at <= k < at + n ==> buf[k] == s[pos + k - at]
    ensures buf[at..at + n] == s[pos..pos + n]
  {
    var t, u := buf[at..at + n], s[pos..pos + n];
    forall i | 0 <= i < n ensures t[i] == u[i] {
      assert buf[at + i] == s[pos + (at + i) - at];
    }
  }

  lemma {:induction false} WholeBuffer(buf: array<byte>, n: nat)
    requires n == buf.Length
    ensures buf[0..n] == buf[..]
  {
  }

  class Device {
    const disk: seq<byte>      // the whole drive
    const bad: set<int>        // sectors that BootIdeReadSector reports as failed
    const partStart: nat       // first sector of the open partition
    const partLength: nat      // its length in sectors
    var errnum: Error

    constructor (disk: seq<byte>, bad: set<int>, partStart: nat, partLength: nat)
      requires (partStart + partLength) * SECTOR_SIZE <= |disk| && |disk| % SECTOR_SIZE == 0
      ensures this.disk == disk && this.bad == bad
      ensures this.partStart == partStart && this.partLength == partLength
      ensures Valid() && errnum == ErrNone
    {
      this.disk, this.bad, this.partStart, this.partLength := disk, bad, partStart, partLength;
      errnum := ErrNone;
    }

    predicate Valid() {
      (partStart + partLength) * SECTOR_SIZE <= |disk| && |disk| % SECTOR_SIZE == 0
    }

    /** The bytes of the open partition. */
    function Part(): (p: seq<byte>)
      requires Valid()
      ensures |p| == partLength * SECTOR_SIZE
    {
      disk[partStart * SECTOR_SIZE..(partStart + partLength) * SECTOR_SIZE]
    }

    /** A sector of the partition under this read is unreadable. */
    ghost predicate PartBroken(pos: int, len: int) {
      Broken(bad, partStart * SECTOR_SIZE + pos, len)
    }

    method BootIdeReadSector(buf: array<byte>, at: nat, sector: nat, byteOffset: nat, n: nat) returns (status: int)
      requires byteOffset + n <= SECTOR_SIZE && (sector + 1) * SECTOR_SIZE <= |disk|
      requires at + n <= buf.Length
      modifies buf
      ensures status == (if sector in bad then 1 else 0)
      ensures forall k :: 0 <= k < buf.Length && !(at <= k < at + n) ==> buf[k] == old(buf[k])
      ensures status == 0 ==>
        forall k :: at <= k < at + n ==> buf[k] == disk[sector * SECTOR_SIZE + byteOffset + k - at]
    {
      if sector in bad {
        // a failed transfer leaves arbitrary bytes behind
        forall k | at <= k < at + n { buf[k] := *; }
        return 1;
      }
      forall k | 0 <= k < n { buf[at + k] := disk[sector * SECTOR_SIZE + byteOffset + k]; }
      return 0;
    }

    method RawRead(sector0: nat, byteOffset0: nat, byteLen0: int, buf: array<byte>, at: nat) returns (r: int)
      requires byteLen0 > 0 ==>
        sector0 * SECTOR_SIZE + byteOffset0 + byteLen0 <= |disk| && |disk| % SECTOR_SIZE == 0
      requires byteLen0 > 0 ==> at + byteLen0 <= buf.Length
      modifies this`errnum, buf
      ensures byteLen0 <= 0 ==> r == 1 && errnum == old(errnum) && buf[..] == old(buf[..])
      ensures byteLen0 > 0 && old(errnum) != ErrNone ==>
        r == 0 && errnum == old(errnum) && buf[..] == old(buf[..])
      ensures byteLen0 > 0 && old(errnum) == ErrNone ==>
        var pos := sector0 * SECTOR_SIZE + byteOffset0;
        && r == 1
        && errnum == (if Broken(bad, pos, byteLen0) then ErrRead else ErrNone)
        && (errnum == ErrNone ==> buf[at..at + byteLen0] == disk[pos..pos + byteLen0])
        && (forall k :: 0 <= k < buf.Length && !(at <= k < at + byteLen0) ==> buf[k] == old(buf[k]))
    {
      if byteLen0 <= 0 { return 1; }
      if errnum != ErrNone { return 0; }  // the loop below is never entered
      ghost var pos := sector0 * SECTOR_SIZE + byteOffset0;
      var sector, byteOffset, byteLen := sector0 + byteOffset0 / SECTOR_SIZE, byteOffset0 % SECTOR_SIZE, byteLen0;
      var done := 0;
      while byteLen > 0 && errnum == ErrNone
        invariant 0 <= byteLen && done + byteLen == byteLen0 && 0 <= done
        invariant 0 <= byteOffset < SECTOR_SIZE
        invariant byteLen > 0 ==> sector * SECTOR_SIZE + byteOffset == pos + done
        invariant byteLen == 0 ==> byteOffset == 0 && sector * SECTOR_SIZE >= pos + done
        invariant errnum == ErrNone
        invariant forall k :: at <= k < at + done ==> buf[k] == disk[pos + k - at]
        invariant forall k :: 0 <= k < buf.Length && !(at <= k < at + done) ==> buf[k] == old(buf[k])
        invariant pos / SECTOR_SIZE <= sector
        invariant forall s :: pos / SECTOR_SIZE <= s < sector ==> s !in bad
      {
        var bytesToCopy := Min(byteLen, SECTOR_SIZE - byteOffset);
        var status := BootIdeReadSector(buf, at + done, sector, byteOffset, bytesToCopy);
        if status != 0 {
          errnum := ErrRead;
          BrokenHere(bad, pos, byteLen0, done, sector, byteOffset);
          return 1;
        }
        done := done + bytesToCopy;
        byteLen := byteLen - bytesToCopy;
        sector := sector + 1;
        byteOffset := 0;
      }
      NoneBroken(bad, pos, byteLen0, sector);
      SameSlice(buf, at, disk, pos, byteLen0);
      return 1;
    }

    method DevRead(sector: int, byteOffset: nat, byteLen: int, buf: array<byte>, at: nat) returns (r: int)
      requires Valid()
      requires byteLen > 0 ==> at + byteLen <= buf.Length
      modifies this`errnum, buf
      ensures Outside(sector, byteOffset, byteLen) ==>
        r == 0 && errnum == ErrOutsidePart && buf[..] == old(buf[..])
      ensures !Outside(sector, byteOffset, byteLen) && byteLen <= 0 ==>
        r == 1 && errnum == old(errnum) && buf[..] == old(buf[..])
      ensures !Outside(sector, byteOffset, byteLen) && byteLen > 0 && old(errnum) != ErrNone ==>
        r == 0 && errnum == old(errnum) && buf[..] == old(buf[..])
      ensures !Outside(sector, byteOffset, byteLen) && byteLen > 0 && old(errnum) == ErrNone ==>
        var pos := sector * SECTOR_SIZE + byteOffset;
        && r == 1 && 0 <= pos && pos + byteLen <= partLength * SECTOR_SIZE
        && errnum == (if PartBroken(pos, byteLen) then ErrRead else ErrNone)
        && (errnum == ErrNone ==> buf[at..at + byteLen] == Part()[pos..pos + byteLen])
        && (forall k :: 0 <= k < buf.Length && !(at <= k < at + byteLen) ==> buf[k] == old(buf[k]))
    {
      if Outside(sector, byteOffset, byteLen) {
        errnum := ErrOutsidePart;
        return 0;
      }
      r := RawRead(partStart + sector + byteOffset / SECTOR_SIZE, byteOffset % SECTOR_SIZE, byteLen, buf, at);
      if byteLen > 0 {
        ghost var pos := sector * SECTOR_SIZE + byteOffset;
        SliceOfSlice(disk, partStart * SECTOR_SIZE, partLength * SECTOR_SIZE, pos, pos + byteLen);
      }
    }

    /** `devread` where the caller looks at `errnum` only: while that is clear the bytes are those
        of the partition. */
    method Fetch(sector: int, byteOffset: nat, byteLen: nat, buf: array<byte>, at: nat)
      requires Valid() && 0 < byteLen && at + byteLen <= buf.Length
      modifies this`errnum, buf
      ensures old(errnum) != ErrNone ==> errnum != ErrNone
      ensures forall k :: 0 <= k < buf.Length && !(at <= k < at + byteLen) ==> buf[k] == old(buf[k])
      ensures errnum == ErrNone ==>
        var pos := sector * SECTOR_SIZE + byteOffset;
        0 <= sector && pos + byteLen <= |Part()| && buf[at..at + byteLen] == Part()[pos..pos + byteLen]
      ensures bad == {} && old(errnum) == ErrNone && !Outside(sector, byteOffset, byteLen) ==> errnum == ErrNone
    {
      var _ := DevRead(sector, byteOffset, byteLen, buf, at);
    }

    /** The partition-boundary test of `devread`.  The length is unsigned, so the last sector is
        compared as an unsigned number: a read of nothing at the very beginning, whose last sector
        comes out as -1, is refused. */
    predicate Outside(sector: int, byteOffset: nat, byteLen: int) {
      var last := sector + (byteOffset + byteLen - 1) / SECTOR_SIZE;
      sector < 0 || last < 0 || last >= partLength
    }
  }
}
