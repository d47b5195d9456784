/** Block-list files: the incremental cursor in `grub_read` of fs/grub/disk_io.c over the runs of
    sectors that `grub_open` has parsed. */
module BlockList {
  import opened Content
  import opened Disk

  /** A run of sectors of the partition, "start+length" in a file name. */
  datatype BlockRun = BlockRun(start: nat, length: nat)

  // ---------- the file ----------

  /** The number of sectors of a file. */
  function Sectors(runs: seq<BlockRun>): nat {
    if runs == [] then 0 else runs[0].length + Sectors(runs[1..])
  }

  /** The sectors in the runs before run `i`. */
  function Before(runs: seq<BlockRun>, i: nat): nat
    requires i <= |runs|
  {
    if i == 0 then 0 else runs[0].length + Before(runs[1..], i - 1)
  }

  /** The sector of the partition that is sector `k` of the file. */
  function SectorOf(runs: seq<BlockRun>, k: nat): (s: nat)
    requires k < Sectors(runs)
  {
    if k < runs[0].length then runs[0].start + k else SectorOf(runs[1..], k - runs[0].length)
  }

  predicate Inside(part: seq<byte>, r: BlockRun) {
    (r.start + r.length) * SECTOR_SIZE <= |part|
  }

  predicate AllInside(part: seq<byte>, runs: seq<BlockRun>) {
    runs == [] || (Inside(part, runs[0]) && AllInside(part, runs[1..]))
  }

  lemma {:induction false} RunIsInside(part: seq<byte>, runs: seq<BlockRun>, i: nat)
    requires AllInside(part, runs) && i < |runs|
    ensures Inside(part, runs[i])
  {
    if i > 0 { RunIsInside(part, runs[1..], i - 1); }
  }

  /** The contents of a file whose runs all lie in the partition: the runs one after another. */
  function Contents(part: seq<byte>, runs: seq<BlockRun>): (s: seq<byte>)
    requires AllInside(part, runs)
    ensures |s| == Sectors(runs) * SECTOR_SIZE
  {
    if runs == [] then []
    else
      part[runs[0].start * SECTOR_SIZE..(runs[0].start + runs[0].length) * SECTOR_SIZE] + Contents(part, runs[1..])
  }

  lemma {:induction false} BeforeNext(runs: seq<BlockRun>, i: nat)
    requires i < |runs|
    ensures Before(runs, i + 1) == Before(runs, i) + runs[i].length
    ensures Before(runs, i + 1) <= Sectors(runs)
  {
    if i > 0 { BeforeNext(runs[1..], i - 1); }
  }

  lemma {:induction false} BeforeAll(runs: seq<BlockRun>)
    ensures Before(runs, |runs|) == Sectors(runs)
  {
    if runs != [] { BeforeAll(runs[1..]); }
  }

  lemma {:induction false} SectorInRun(runs: seq<BlockRun>, i: nat, m: nat)
    requires i < |runs| && m < runs[i].length
    ensures Before(runs, i) + m < Sectors(runs)
    ensures SectorOf(runs, Before(runs, i) + m) == runs[i].start + m
  {
    if i > 0 { SectorInRun(runs[1..], i - 1, m); }
  }

  lemma {:induction false} FrontOrRest(part: seq<byte>, a: nat, b: nat, rest: seq<byte>, pos: nat)
    requires a <= b <= |part| && pos < b - a + |rest|
    ensures (part[a..b] + rest)[pos] == if pos < b - a then part[a + pos] else rest[pos - (b - a)]
  {
  }

  /** Byte `pos` of the file is in its first run, or one of the rest. */
  lemma {:induction false} FirstRunOrRest(part: seq<byte>, runs: seq<BlockRun>, pos: nat)
    requires runs != [] && AllInside(part, runs) && pos < Sectors(runs) * SECTOR_SIZE
    ensures var a, n := runs[0].start * SECTOR_SIZE, runs[0].length * SECTOR_SIZE;
      Contents(part, runs)[pos] == if pos < n then part[a + pos] else Contents(part, runs[1..])[pos - n]
  {
    var a, n := runs[0].start * SECTOR_SIZE, runs[0].length * SECTOR_SIZE;
    FrontOrRest(part, a, a + n, Contents(part, runs[1..]), pos);
  }

  /** The byte of the partition that is byte `pos` of the file. */
  function PlaceOf(runs: seq<BlockRun>, pos: nat): nat
    requires pos / SECTOR_SIZE < Sectors(runs)
  {
    SectorOf(runs, pos / SECTOR_SIZE) * SECTOR_SIZE + pos % SECTOR_SIZE
  }

  lemma {:induction false} PlaceInRun(runs: seq<BlockRun>, pos: nat)
    requires runs != [] && pos < Sectors(runs) * SECTOR_SIZE
    ensures var n := runs[0].length * SECTOR_SIZE;
      if pos < n then PlaceOf(runs, pos) == runs[0].start * SECTOR_SIZE + pos
      else (pos - n) / SECTOR_SIZE < Sectors(runs[1..]) && PlaceOf(runs, pos) == PlaceOf(runs[1..], pos - n)
  {
    if pos >= runs[0].length * SECTOR_SIZE { SkipSectors(pos, runs[0].length); }
  }

  /** Byte `pos` of the file is byte `pos` mod 512 of its sector. */
  lemma {:induction false} ContentsAt(part: seq<byte>, runs: seq<BlockRun>, pos: nat)
    requires AllInside(part, runs)
    requires pos < Sectors(runs) * SECTOR_SIZE
    ensures PlaceOf(runs, pos) < |part| && Contents(part, runs)[pos] == part[PlaceOf(runs, pos)]
  {
    var n := runs[0].length * SECTOR_SIZE;
    FirstRunOrRest(part, runs, pos);
    PlaceInRun(runs, pos);
    if pos >= n { ContentsAt(part, runs[1..], pos - n); }
  }

  lemma {:induction false} SkipSectors(pos: nat, k: nat)
    requires pos >= k * SECTOR_SIZE
    ensures (pos - k * SECTOR_SIZE) / SECTOR_SIZE == pos / SECTOR_SIZE - k
    ensures (pos - k * SECTOR_SIZE) % SECTOR_SIZE == pos % SECTOR_SIZE
  {
  }

  /** Byte `pos` of the file, or -1 if there is none; the rest of the file need not lie in the
      partition. */
  function ByteOf(part: seq<byte>, runs: seq<BlockRun>, pos: nat): int {
    if pos / SECTOR_SIZE < Sectors(runs) && PlaceOf(runs, pos) < |part| then part[PlaceOf(runs, pos)] else -1
  }

  predicate IsByte(part: seq<byte>, runs: seq<BlockRun>, pos: nat, v: int) {
    v == ByteOf(part, runs, pos)
  }

  /** Where all runs lie in the partition the bytes are those of the runs one after another. */
  lemma {:induction false} BytesAreContents(part: seq<byte>, runs: seq<BlockRun>, pos: nat)
    requires AllInside(part, runs) && pos < Sectors(runs) * SECTOR_SIZE
    ensures ByteOf(part, runs, pos) == Contents(part, runs)[pos]
  {
    ContentsAt(part, runs, pos);
  }

  lemma {:induction false} ByteOfRun(part: seq<byte>, runs: seq<BlockRun>, i: nat, m: nat, pos: nat, j: nat)
    requires i < |runs| && m < runs[i].length && Before(runs, i) + m == pos / SECTOR_SIZE
    requires pos % SECTOR_SIZE + j < (runs[i].length - m) * SECTOR_SIZE
    requires (runs[i].start + m) * SECTOR_SIZE + pos % SECTOR_SIZE + j < |part|
    ensures ByteOf(part, runs, pos + j) == part[(runs[i].start + m) * SECTOR_SIZE + pos % SECTOR_SIZE + j]
  {
    var d := (pos % SECTOR_SIZE + j) / SECTOR_SIZE;
    assert (pos + j) / SECTOR_SIZE == pos / SECTOR_SIZE + d;
    assert (pos + j) % SECTOR_SIZE == pos % SECTOR_SIZE + j - d * SECTOR_SIZE;
    SectorInRun(runs, i, m + d);
  }

  // ---------- the reader ----------

  class BlockFile {
    const dev: Device
    const runs: seq<BlockRun>
    const filemax: nat
    const fsmax: nat
    var filepos: int
    var curFilepos: nat       // BLK_CUR_FILEPOS
    var curRun: nat           // BLK_CUR_BLKLIST, counted in entries
    var curBlock: nat         // BLK_CUR_BLKNUM
    ghost const content: nat -> int   // the bytes of the file

    /** The end of `grub_open`: there is at least one run, no run is empty, and the file is not
        longer than its runs. */
    constructor (dev: Device, runs: seq<BlockRun>, filemax: nat, fsmax: nat)
      requires dev.Valid() && runs != [] && filemax <= Sectors(runs) * SECTOR_SIZE
      requires forall i :: 0 <= i < |runs| ==> runs[i].length > 0
      ensures this.dev == dev && this.runs == runs && this.filemax == filemax && this.fsmax == fsmax
      ensures Valid() && filepos == 0
    {
      this.dev, this.runs, this.filemax, this.fsmax := dev, runs, filemax, fsmax;
      filepos, curFilepos, curRun, curBlock := 0, 0, 0, 0;
      content := (pos: nat) => ByteOf(dev.Part(), runs, pos);
    }

    ghost predicate Shape() {
      && dev.Valid() && runs != [] && filemax <= Sectors(runs) * SECTOR_SIZE
      && (forall i :: 0 <= i < |runs| ==> runs[i].length > 0)
      && forall pos: nat {:trigger IsByte(dev.Part(), runs, pos, content(pos))} :: IsByte(dev.Part(), runs, pos, content(pos))
    }

    /** The cursor stands at a sector of the file, the one its position lies in, even where the
        position has overshot what was asked for. */
    ghost predicate Valid()
      reads this
    {
      && Shape()
      && curRun < |runs| && curBlock < runs[curRun].length
      && Before(runs, curRun) + curBlock == curFilepos / SECTOR_SIZE
    }

    /** The disk can be read, and all of the file lies in the partition. */
    ghost predicate Sound()
      requires dev.Valid()
    {
      dev.bad == {} && AllInside(dev.Part(), runs)
    }

    /** One step of the cursor to the next sector. */
    method StepOn()
      requires Valid() && curFilepos / SECTOR_SIZE + 1 < Sectors(runs)
      modifies this`curFilepos, this`curRun, this`curBlock
      ensures Valid() && curFilepos == old(curFilepos) + SECTOR_SIZE
    {
      BeforeNext(runs, curRun);
      curFilepos := curFilepos + SECTOR_SIZE;
      curBlock := curBlock + 1;
      if curBlock >= runs[curRun].length {
        if curRun + 1 == |runs| { BeforeAll(runs); }
        curRun := curRun + 1;
        curBlock := 0;
      }
    }

    /** Brings the cursor to the sector of `filepos`. */
    method RunUp()
      requires Valid() && 0 <= filepos && filepos / SECTOR_SIZE < Sectors(runs)
      modifies this`curFilepos, this`curRun, this`curBlock
      ensures Valid() && curFilepos / SECTOR_SIZE == filepos / SECTOR_SIZE
      ensures curFilepos >= filepos
    {
      if filepos < curFilepos {
        curFilepos, curRun, curBlock := 0, 0, 0;
      }
      while filepos > curFilepos
        invariant Valid() && curFilepos / SECTOR_SIZE <= filepos / SECTOR_SIZE
        decreases filepos - curFilepos
      {
        if filepos - curFilepos / SECTOR_SIZE * SECTOR_SIZE >= SECTOR_SIZE {
          StepOn();
        } else {
          curFilepos := filepos;
        }
      }
    }

    /** `grub_seek` */
    method GrubSeek(offset: int) returns (r: int)
      requires Valid()
      modifies this`filepos
      ensures Valid()
      ensures 0 <= offset <= filemax ==> r == offset && filepos == offset
      ensures !(0 <= offset <= filemax) ==> r == -1 && filepos == old(filepos)
    {
      if offset > filemax || offset < 0 { return -1; }
      filepos := offset;
      return offset;
    }

    /** A stretch of one run is a stretch of the file. */
    lemma {:induction false} PieceIsSlice(i: nat, m: nat, pos: nat, k: nat, size: nat)
      requires Shape() && i < |runs| && m < runs[i].length && Before(runs, i) + m == pos / SECTOR_SIZE
      requires pos % SECTOR_SIZE + size <= (runs[i].length - m) * SECTOR_SIZE
      requires k == (runs[i].start + m) * SECTOR_SIZE + pos % SECTOR_SIZE && k + size <= |dev.Part()|
      ensures SliceOf(content, pos, dev.Part()[k..k + size])
    {
      var part := dev.Part();
      var s := part[k..k + size];
      forall j | 0 <= j < |s| ensures content(pos + j) == s[j] {
        ByteOfRun(part, runs, i, m, pos, j);
        assert IsByte(part, runs, pos + j, content(pos + j));
      }
    }

    /** Reads the part of the run under the cursor that is wanted, behind the `done` bytes already
        in the buffer. */
    method ReadPiece(buf: array<byte>, at: nat, done: nat, size: nat, ghost pos: nat)
      requires Valid() && dev.errnum == ErrNone && 0 < size && at + done + size <= buf.Length
      requires done <= pos && pos / SECTOR_SIZE == curFilepos / SECTOR_SIZE && filepos == pos
      requires pos % SECTOR_SIZE + size <= (runs[curRun].length - curBlock) * SECTOR_SIZE
      requires SliceOf(content, pos - done, buf[at..at + done])
      modifies dev`errnum, buf
      ensures forall k :: 0 <= k < buf.Length && !(at + done <= k < at + done + size) ==> buf[k] == old(buf[k])
      ensures dev.errnum == ErrNone ==> SliceOf(content, pos - done, buf[at..at + done + size])
      ensures Sound() ==> dev.errnum == ErrNone
    {
      ghost var got := buf[at..at + done];
      ReadHere(buf, at + done, filepos % SECTOR_SIZE, size);
      StillThere(buf, at, got);
      if dev.errnum == ErrNone {
        ghost var k := (runs[curRun].start + curBlock) * SECTOR_SIZE + pos % SECTOR_SIZE;
        ghost var piece := dev.Part()[k..k + size];
        PieceIsSlice(curRun, curBlock, pos, k, size);
        assert |piece| == size;
        Extend(content, buf, at, pos - done, got, at + done, pos, piece, at + done + size);
      }
    }

    /** Reads a stretch of the run under the cursor. */
    method ReadHere(buf: array<byte>, at: nat, offset: nat, size: nat)
      requires Valid() && dev.errnum == ErrNone && 0 < size && at + size <= buf.Length
      requires offset + size <= (runs[curRun].length - curBlock) * SECTOR_SIZE
      modifies dev`errnum, buf
      ensures forall k :: 0 <= k < buf.Length && !(at <= k < at + size) ==> buf[k] == old(buf[k])
      ensures dev.errnum == ErrNone ==>
        var k := (runs[curRun].start + curBlock) * SECTOR_SIZE + offset;
        k + size <= |dev.Part()| && buf[at..at + size] == dev.Part()[k..k + size]
      ensures Sound() ==> dev.errnum == ErrNone
    {
      if Sound() {
        RunIsInside(dev.Part(), runs, curRun);
        assert !dev.Outside(runs[curRun].start + curBlock, offset, size);
      }
      dev.Fetch(runs[curRun].start + curBlock, offset, size, buf, at);
    }

    /** One turn of the loop of `grub_read`: what is wanted of the run under `filepos`. */
    method ReadTurn(buf: array<byte>, at: nat, done: nat, left: nat) returns (size: nat)
      requires Valid() && dev.errnum == ErrNone && left > 0 && at + done + left <= buf.Length
      requires 0 <= done <= filepos && filepos + left <= filemax
      requires SliceOf(content, filepos - done, buf[at..at + done])
      modifies this`curFilepos, this`curRun, this`curBlock, dev`errnum, buf
      ensures Valid() && 0 < size <= left
      ensures forall k :: 0 <= k < buf.Length && !(at + done <= k < at + done + size) ==> buf[k] == old(buf[k])
      ensures dev.errnum == ErrNone ==> SliceOf(content, filepos - done, buf[at..at + done + size])
      ensures Sound() ==> dev.errnum == ErrNone
    {
      RunUp();
      size := (runs[curRun].length - curBlock) * SECTOR_SIZE - filepos % SECTOR_SIZE;
      if size > left { size := left; }
      ReadPiece(buf, at, done, size, filepos);
    }

    /** What `grub_read` makes of a file position that is out of range. */
    function SanePos(): (p: nat)
      reads this
    {
      if filepos < 0 || filepos > filemax then filemax else filepos
    }

    /** What it makes of a length. */
    function SaneLen(len: int): (n: nat)
      reads this
    {
      if len < 0 || len > filemax - SanePos() then filemax - SanePos() else len
    }

    /** What is asked for inside the file is what is read; what is not comes down to the rest of the
        file, which is nothing behind its end. */
    lemma {:induction false} AskedIsSane(len: int)
      ensures 0 <= filepos && 0 <= len && filepos + len <= filemax ==> SanePos() == filepos && SaneLen(len) == len
      ensures 0 <= filepos <= filemax && !(0 <= len <= filemax - filepos) ==>
        SanePos() == filepos && SaneLen(len) == filemax - filepos
      ensures !(0 <= filepos <= filemax) ==> SanePos() == filemax && SaneLen(len) == 0
    {
    }

    /** Reads from a block-list file, wherever the cursor has been left by earlier reads. */
    method GrubRead(buf: array<byte>, at: nat, len0: int) returns (ret: nat)
      requires Valid() && at + SaneLen(len0) <= buf.Length
      modifies this, dev`errnum, buf
      ensures Valid()
      ensures old(dev.errnum) != ErrNone ==> dev.errnum != ErrNone
      ensures forall k :: 0 <= k < buf.Length && !(at <= k < at + old(SaneLen(len0))) ==> buf[k] == old(buf[k])
      ensures
        var pos, n := old(SanePos()), old(SaneLen(len0));
        && (pos + n > fsmax ==> ret == 0 && dev.errnum == ErrFileLength)
        && (dev.errnum == ErrNone ==>
            ret == n && filepos == pos + n && SliceOf(content, pos, buf[at..at + n]))
        && (dev.errnum != ErrNone ==> ret == 0)
        && (pos + n <= fsmax && old(dev.errnum) == ErrNone && Sound() ==> dev.errnum == ErrNone)
      ensures 0 <= old(filepos) && 0 <= len0 && old(filepos) + len0 <= filemax && dev.errnum == ErrNone ==>
        ret == len0 && filepos == old(filepos) + len0
      ensures !(0 <= old(filepos) && 0 <= len0 && old(filepos) + len0 <= filemax) && dev.errnum == ErrNone ==>
        filepos == filemax
    {
      AskedIsSane(len0);
      var len := SaneLen(len0);
      filepos := SanePos();
      ghost var pos, n := filepos, len;
      if filepos + len > fsmax {
        dev.errnum := ErrFileLength;
        return 0;
      }
      ret := 0;
      while len > 0 && dev.errnum == ErrNone
        invariant ret + len == n && filepos == pos + ret && 0 <= len && Valid()
        invariant old(dev.errnum) != ErrNone ==> dev.errnum != ErrNone
        invariant dev.errnum == ErrNone ==> SliceOf(content, pos, buf[at..at + ret])
        invariant forall k :: 0 <= k < buf.Length && !(at <= k < at + n) ==> buf[k] == old(buf[k])
        invariant old(dev.errnum) == ErrNone && Sound() ==> dev.errnum == ErrNone
      {
        var size := ReadTurn(buf, at, ret, len);
        len, filepos, ret := len - size, filepos + size, ret + size;
      }
      if dev.errnum != ErrNone { ret := 0; }
    }
  }
}
