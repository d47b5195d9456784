/** Reading files from ext2: `ext2fs_block_map` and `ext2fs_read` of fs/grub/fsys_ext2fs.c with
    the two buffers for indirect blocks, and the loading of inodes and directory blocks in
    `ext2fs_dir`, which overwrites those buffers. */
module Ext2 {
  import opened Content
  import opened Disk
  import opened Division

  const NDIR_BLOCKS: nat := 12
  const SUPERBLOCK_SIZE: nat := 1024
  const INODE_SIZE: nat := 128
  const MAGIC: nat := 0xef53       // EXT2_SUPER_MAGIC

  datatype Option<T> = None | Some(value: T)

  // ---------- the file system as the disk has it ----------

  /** The partition, and the number of sectors in a block. */
  datatype Layout = Layout(part: seq<byte>, spb: nat)
  {
    predicate Valid() { 2 <= spb <= 0x20_0000 }

    function BlockSize(): nat { spb * SECTOR_SIZE }

    /** Pointers in an indirect block: EXT2_ADDR_PER_BLOCK. */
    function Addrs(): nat { spb * (SECTOR_SIZE / 4) }

    /** The sector that the code takes block `b` to start at, by a 32-bit product. */
    function Sector(b: int): int { BlockSector(b % 0x1_0000_0000, spb) }

    /** The byte of the partition where that sector starts. */
    function BlockPos(b: int): int { Sector(b) * SECTOR_SIZE }

    /** The partition has what the code takes for block `b`. */
    predicate Has(b: int) {
      Sector(b) >= 0 && BlockPos(b) + BlockSize() <= |part|
    }

    function Block(b: int): (s: seq<byte>)
      requires Has(b)
      ensures |s| == BlockSize()
    {
      part[BlockPos(b)..BlockPos(b) + BlockSize()]
    }

    /** Pointer `k` of indirect block `b`. */
    function At(b: int, k: nat): Option<int> {
      if Has(b) && k < Addrs() then Some(Signed(U32(Block(b), 4 * k))) else None
    }

    /** Pointer `k` of indirect block number `b`, if that could be read. */
    function Through(b: Option<int>, k: nat): Option<int> {
      if b.Some? then At(b.value, k) else None
    }

    /** Block `n` of a file lies under the double-indirect block. */
    predicate IsDouble(n: nat) {
      NDIR_BLOCKS + Addrs() <= n < NDIR_BLOCKS + Addrs() + Product(Addrs(), Addrs())
    }

    /** The entry of the double-indirect block for block `n` of a file. */
    function DoubleIndex(n: nat): nat
      requires Valid() && IsDouble(n)
    {
      Quot(n - NDIR_BLOCKS - Addrs(), Addrs())
    }

    /** The entry of the second-level block for block `n` of a file. */
    function DoubleRest(n: nat): (k: nat)
      requires Valid() && IsDouble(n)
      ensures k < Addrs()
    {
      Rem(n - NDIR_BLOCKS - Addrs(), Addrs())
    }

    /** Block `n3` of those under the triple-indirect block. */
    function Triple(inode: seq<byte>, n3: nat): Option<int>
      requires |inode| == INODE_SIZE && Valid()
    {
      var a := Addrs();
      var top := At(Pointer(inode, 14), Quot(Quot(n3, a), a));
      Through(Through(top, Rem(Quot(n3, a), a)), Rem(n3, a))
    }

    /** The block that holds block `n` of the file with inode `inode`: the pointer tree of the
        inode, walked without any cache. */
    function Lookup(inode: seq<byte>, n: nat): Option<int>
      requires |inode| == INODE_SIZE && Valid()
    {
      if n < NDIR_BLOCKS then Some(Pointer(inode, n))
      else if n < NDIR_BLOCKS + Addrs() then At(Pointer(inode, 12), n - NDIR_BLOCKS)
      else if IsDouble(n) then Through(At(Pointer(inode, 13), DoubleIndex(n)), DoubleRest(n))
      else Triple(inode, n - NDIR_BLOCKS - Addrs() - Product(Addrs(), Addrs()))
    }

    /** The byte of the partition where block `b` does start. */
    function Place(b: int): nat { Product(b % 0x1_0000_0000, spb) * SECTOR_SIZE }

    /** The sector of block `b` is one that an `int` can tell. */
    predicate Near(b: int) {
      b >= 0 && Product(b, spb) < 0x8000_0000
    }

    /** Pointer `k` of indirect block `b` of a file: where there is no such block, there are no
        blocks under it either. */
    function FileAt(b: int, k: nat): Option<int> {
      if b == 0 then Some(0)
      else if Place(b) + BlockSize() <= |part| && k < Addrs() then
        Some(Signed(U32(part[Place(b)..Place(b) + BlockSize()], 4 * k)))
      else None
    }

    function FileThrough(b: Option<int>, k: nat): Option<int> {
      if b.Some? then FileAt(b.value, k) else None
    }

    function FileTriple(inode: seq<byte>, n3: nat): Option<int>
      requires |inode| == INODE_SIZE && Valid()
    {
      var a := Addrs();
      var top := FileAt(Pointer(inode, 14), Quot(Quot(n3, a), a));
      FileThrough(FileThrough(top, Rem(Quot(n3, a), a)), Rem(n3, a))
    }

    /** Block `n` of the file as ext2 means it: a pointer of 0, at any level, stands for a hole. */
    function FileBlock(inode: seq<byte>, n: nat): Option<int>
      requires |inode| == INODE_SIZE && Valid()
    {
      if n < NDIR_BLOCKS then Some(Pointer(inode, n))
      else if n < NDIR_BLOCKS + Addrs() then FileAt(Pointer(inode, 12), n - NDIR_BLOCKS)
      else if IsDouble(n) then FileThrough(FileAt(Pointer(inode, 13), DoubleIndex(n)), DoubleRest(n))
      else FileTriple(inode, n - NDIR_BLOCKS - Addrs() - Product(Addrs(), Addrs()))
    }

    /** The pointers on the way to block `n` of the file, as the code follows them. */
    function Way(inode: seq<byte>, n: nat): seq<Option<int>>
      requires |inode| == INODE_SIZE && Valid()
    {
      if n < NDIR_BLOCKS then [Some(Pointer(inode, n))]
      else if n < NDIR_BLOCKS + Addrs() then [Some(Pointer(inode, 12)), At(Pointer(inode, 12), n - NDIR_BLOCKS)]
      else if IsDouble(n) then
        var b := At(Pointer(inode, 13), DoubleIndex(n));
        [Some(Pointer(inode, 13)), b, Through(b, DoubleRest(n))]
      else
        var a, n3 := Addrs(), n - NDIR_BLOCKS - Addrs() - Product(Addrs(), Addrs());
        var top := At(Pointer(inode, 14), Quot(Quot(n3, a), a));
        var b := Through(top, Rem(Quot(n3, a), a));
        [Some(Pointer(inode, 14)), top, b, Through(b, Rem(n3, a))]
    }

    /** No pointer on the way to block `n` of the file leads to a sector that wraps. */
    predicate NearWay(inode: seq<byte>, n: nat)
      requires |inode| == INODE_SIZE && Valid()
    {
      forall p :: p in Way(inode, n) ==> p.Some? ==> Near(p.value)
    }

    /** Nor is any of them 0. */
    predicate Dense(inode: seq<byte>, n: nat)
      requires |inode| == INODE_SIZE && Valid()
    {
      NearWay(inode, n) && Some(0) !in Way(inode, n)
    }

    /** Block 0 is all zero. */
    predicate ZeroFirst() {
      Has(0) && forall i :: 0 <= i < BlockSize() ==> part[i] == 0
    }

    /** The block of group descriptors for inode `ino`, for a superblock `sb`. */
    function DescBlock(sb: seq<byte>, ino: nat): int
      requires Valid() && |sb| == SUPERBLOCK_SIZE && ino > 0 && U32(sb, 40) > 0
    {
      Signed32(1 + Quot(Quot(ino - 1, U32(sb, 40)), 16 * spb) + U32(sb, 20))
    }

    /** The block of the inode table that a block of group descriptors gives for inode `ino`. */
    function TableBlock(sb: seq<byte>, descs: seq<byte>, ino: nat): int
      requires Valid() && |sb| == SUPERBLOCK_SIZE && |descs| == BlockSize() && ino > 0 && U32(sb, 40) > 0
    {
      var table := U32(descs, 32 * Rem(Quot(ino - 1, U32(sb, 40)), 16 * spb) + 8);
      Signed32(table + Quot(Rem(ino - 1, U32(sb, 40)), 4 * spb))
    }

    /** The disk has the blocks that lead to inode `ino`. */
    predicate HasInode(sb: seq<byte>, ino: nat)
      requires Valid() && |sb| == SUPERBLOCK_SIZE && ino > 0 && U32(sb, 40) > 0
    {
      Has(DescBlock(sb, ino)) && Has(TableBlock(sb, Block(DescBlock(sb, ino)), ino))
    }

    /** The bytes in slot `slot` of the table block for inode `ino`. */
    function InSlot(sb: seq<byte>, ino: nat, slot: nat): (inode: seq<byte>)
      requires Valid() && |sb| == SUPERBLOCK_SIZE && ino > 0 && U32(sb, 40) > 0
      requires HasInode(sb, ino) && slot < 4 * spb
      ensures |inode| == INODE_SIZE
    {
      Block(TableBlock(sb, Block(DescBlock(sb, ino)), ino))[INODE_SIZE * slot..INODE_SIZE * slot + INODE_SIZE]
    }

    /** `inode` is inode `ino` on the disk: the one in its place in its group's table. */
    predicate IsInode(sb: seq<byte>, ino: nat, inode: seq<byte>)
      requires Valid() && |sb| == SUPERBLOCK_SIZE && ino > 0 && U32(sb, 40) > 0
    {
      HasInode(sb, ino) && inode == InSlot(sb, ino, Rem(Rem(ino - 1, U32(sb, 40)), 4 * spb))
    }

    /** The pointer tree of an inode reaches block `n` of its file. */
    predicate Reaches(n: nat)
      requires Valid()
    {
      var a := Addrs();
      var n3 := n - NDIR_BLOCKS - a - Product(a, a);
      n3 >= 0 ==> Quot(Quot(n3, a), a) < a
    }
  }

  /** Pointer `i` of an inode. */
  function Pointer(inode: seq<byte>, i: nat): int
    requires |inode| == INODE_SIZE && i < 15
  {
    Signed(U32(inode, 40 + 4 * i))
  }

  /** Every block of a file of less than 2^31 bytes is in reach of the pointer tree. */
  lemma {:induction false} FilesAreReached(l: Layout, pos: nat)
    requires l.Valid() && pos < 0x8000_0000
    ensures l.Reaches(Quot(pos, l.BlockSize()))
  {
    var a, n := l.Addrs(), Quot(pos, l.BlockSize());
    QuotBound(pos, l.BlockSize(), 1024);
    var n3 := n - NDIR_BLOCKS - a - Product(a, a);
    if n3 >= 0 {
      QuotBound(n3, a, 256);
      QuotBound(Quot(n3, a), a, 256);
    }
  }

  /** No double-indirect pointer of the inode looks like the tag of an empty buffer; true of
      every file system whose block numbers are below 2^31. */
  predicate Unambiguous(l: Layout, inode: seq<byte>)
    requires |inode| == INODE_SIZE
  {
    forall q: nat :: q < l.Addrs() ==> l.At(Pointer(inode, 13), q) != Some(-1)
  }

  /** Block `n` of the file is a block of the partition. */
  predicate Mapped(l: Layout, inode: seq<byte>, n: nat)
    requires l.Valid() && |inode| == INODE_SIZE
  {
    var m := l.Lookup(inode, n);
    m.Some? && m.value >= 0 && l.Has(m.value)
  }

  /** Byte `pos` of what the pointers of this inode lead to, or -1 if there is none; block 0 is a
      block like any other here. */
  function ByteOf(l: Layout, inode: seq<byte>, pos: nat): int
    requires l.Valid() && |inode| == INODE_SIZE
  {
    var m := l.Lookup(inode, Quot(pos, l.BlockSize()));
    if m.Some? && m.value >= 0 && 0 <= l.BlockPos(m.value) < |l.part| - Rem(pos, l.BlockSize())
    then l.part[l.BlockPos(m.value) + Rem(pos, l.BlockSize())] else -1
  }

  predicate IsByte(l: Layout, inode: seq<byte>, pos: nat, v: int)
    requires l.Valid() && |inode| == INODE_SIZE
  {
    v == ByteOf(l, inode, pos)
  }

  lemma {:induction false} ByteOfBlock(l: Layout, inode: seq<byte>, pos: nat, m: nat, i: nat)
    requires l.Valid() && |inode| == INODE_SIZE && Rem(pos, l.BlockSize()) + i < l.BlockSize()
    requires l.Lookup(inode, Quot(pos, l.BlockSize())) == Some(m)
    requires 0 <= l.BlockPos(m) < |l.part| - Rem(pos, l.BlockSize()) - i
    ensures ByteOf(l, inode, pos + i) == l.part[l.BlockPos(m) + Rem(pos, l.BlockSize()) + i]
  {
    MoveOn(pos, i, l.BlockSize());
  }

  /** Byte `pos` of the file with this inode as ext2 means it, a hole being full of zeros; -1 if
      there is none. */
  function FileByte(l: Layout, inode: seq<byte>, pos: nat): int
    requires l.Valid() && |inode| == INODE_SIZE
  {
    var m := l.FileBlock(inode, Quot(pos, l.BlockSize()));
    if m == Some(0) then 0
    else if m.Some? && l.Place(m.value) + Rem(pos, l.BlockSize()) < |l.part|
    then l.part[l.Place(m.value) + Rem(pos, l.BlockSize())] else -1
  }

  /** `s` is what the file has from byte `pos` on. */
  ghost predicate FileHas(l: Layout, inode: seq<byte>, pos: nat, s: seq<byte>)
    requires l.Valid() && |inode| == INODE_SIZE
  {
    forall i :: 0 <= i < |s| ==> FileByte(l, inode, pos + i) == s[i]
  }

  lemma {:induction false} NearPlace(l: Layout, b: int)
    requires l.Valid() && l.Near(b)
    ensures l.Sector(b) >= 0 && l.BlockPos(b) == l.Place(b)
  {
    ProductAtLeast(b, l.spb);
    assert b % 0x1_0000_0000 == b;
  }

  lemma {:induction false} ZeroEntry(l: Layout, k: nat)
    requires l.Valid() && l.ZeroFirst() && k < l.Addrs()
    ensures l.At(0, k) == Some(0)
  {
    var b := l.Block(0);
    assert l.BlockPos(0) == 0;
    assert b[4 * k] == b[4 * k + 1] == b[4 * k + 2] == b[4 * k + 3] == 0;
  }

  /** A pointer to a sector that does not wrap is followed to where it leads; one of 0, if block 0
      is all zero. */
  lemma {:induction false} NearThrough(l: Layout, b: Option<int>, k: nat)
    requires l.Valid() && (b.Some? ==> l.Near(b.value)) && (b == Some(0) ==> l.ZeroFirst() && k < l.Addrs())
    ensures l.FileThrough(b, k) == l.Through(b, k)
  {
    if b == Some(0) {
      ZeroEntry(l, k);
    } else if b.Some? {
      NearPlace(l, b.value);
    }
  }

  /** Pointer number `i` on the way to block `n`. */
  lemma {:induction false} OnWay(l: Layout, inode: seq<byte>, n: nat, i: nat)
    requires l.Valid() && |inode| == INODE_SIZE && Followed(l, inode, n) && i < |l.Way(inode, n)|
    ensures var p := l.Way(inode, n)[i];
      (p.Some? ==> l.Near(p.value)) && (p == Some(0) ==> l.ZeroFirst() && l.Reaches(n))
  {
    assert l.Way(inode, n)[i] in l.Way(inode, n);
  }

  /** No pointer on the way to block `n` wraps, and none of them is 0, unless block 0 is all zero. */
  predicate Followed(l: Layout, inode: seq<byte>, n: nat)
    requires l.Valid() && |inode| == INODE_SIZE
  {
    l.NearWay(inode, n) && (Some(0) in l.Way(inode, n) ==> l.ZeroFirst() && l.Reaches(n))
  }

  lemma {:induction false} FollowedDouble(l: Layout, inode: seq<byte>, n: nat)
    requires l.Valid() && |inode| == INODE_SIZE && Followed(l, inode, n) && l.IsDouble(n)
    ensures l.FileBlock(inode, n) == l.Lookup(inode, n)
  {
    OnWay(l, inode, n, 0);
    OnWay(l, inode, n, 1);
    QuotBelow(n - NDIR_BLOCKS - l.Addrs(), l.Addrs(), l.Addrs());
    var top := Some(Pointer(inode, 13));
    NearThrough(l, top, l.DoubleIndex(n));
    NearThrough(l, l.Through(top, l.DoubleIndex(n)), l.DoubleRest(n));
  }

  lemma {:induction false} FollowedTriple(l: Layout, inode: seq<byte>, n: nat, n3: nat)
    requires l.Valid() && |inode| == INODE_SIZE && Followed(l, inode, n)
    requires n == NDIR_BLOCKS + l.Addrs() + Product(l.Addrs(), l.Addrs()) + n3
    ensures l.FileTriple(inode, n3) == l.Triple(inode, n3)
  {
    var a := l.Addrs();
    OnWay(l, inode, n, 0);
    OnWay(l, inode, n, 1);
    OnWay(l, inode, n, 2);
    var root := Some(Pointer(inode, 14));
    var top := l.Through(root, Quot(Quot(n3, a), a));
    NearThrough(l, root, Quot(Quot(n3, a), a));
    NearThrough(l, top, Rem(Quot(n3, a), a));
    NearThrough(l, l.Through(top, Rem(Quot(n3, a), a)), Rem(n3, a));
  }

  lemma {:induction false} FollowedSingle(l: Layout, inode: seq<byte>, n: nat)
    requires l.Valid() && |inode| == INODE_SIZE && Followed(l, inode, n) && NDIR_BLOCKS <= n < NDIR_BLOCKS + l.Addrs()
    ensures l.FileBlock(inode, n) == l.Lookup(inode, n)
  {
    OnWay(l, inode, n, 0);
    NearThrough(l, Some(Pointer(inode, 12)), n - NDIR_BLOCKS);
  }

  lemma {:induction false} FollowedLast(l: Layout, inode: seq<byte>, n: nat)
    requires l.Valid() && |inode| == INODE_SIZE && Followed(l, inode, n)
    requires n >= NDIR_BLOCKS + l.Addrs() && !l.IsDouble(n)
    ensures l.FileBlock(inode, n) == l.Lookup(inode, n)
  {
    var n3 := n - NDIR_BLOCKS - l.Addrs() - Product(l.Addrs(), l.Addrs());
    FollowedTriple(l, inode, n, n3);
    FileTripleIs(l, inode, n, n3);
  }

  lemma {:induction false} FileTripleIs(l: Layout, inode: seq<byte>, n: nat, n3: nat)
    requires l.Valid() && |inode| == INODE_SIZE && n == NDIR_BLOCKS + l.Addrs() + Product(l.Addrs(), l.Addrs()) + n3
    ensures l.FileBlock(inode, n) == l.FileTriple(inode, n3) && l.Lookup(inode, n) == l.Triple(inode, n3)
  {
  }

  /** Along such a way the code finds the block that ext2 means. */
  lemma {:induction false} FollowedBlock(l: Layout, inode: seq<byte>, n: nat)
    requires l.Valid() && |inode| == INODE_SIZE && Followed(l, inode, n)
    ensures l.FileBlock(inode, n) == l.Lookup(inode, n)
  {
    if n < NDIR_BLOCKS {
    } else if n < NDIR_BLOCKS + l.Addrs() {
      FollowedSingle(l, inode, n);
    } else if l.IsDouble(n) {
      FollowedDouble(l, inode, n);
    } else {
      FollowedLast(l, inode, n);
    }
  }

  lemma {:induction false} LastOnWay(l: Layout, inode: seq<byte>, n: nat)
    requires l.Valid() && |inode| == INODE_SIZE
    ensures l.Way(inode, n) != [] && l.Way(inode, n)[|l.Way(inode, n)| - 1] == l.Lookup(inode, n)
  {
  }

  /** There the bytes are right. */
  lemma {:induction false} FollowedIsRight(l: Layout, inode: seq<byte>, pos: nat)
    requires l.Valid() && |inode| == INODE_SIZE && Followed(l, inode, Quot(pos, l.BlockSize()))
    ensures FileByte(l, inode, pos) == ByteOf(l, inode, pos)
  {
    var n := Quot(pos, l.BlockSize());
    FollowedBlock(l, inode, n);
    LastOnWay(l, inode, n);
    OnWay(l, inode, n, |l.Way(inode, n)| - 1);
    if l.Lookup(inode, n).Some? { NearPlace(l, l.Lookup(inode, n).value); }
  }

  /** No pointer on the way to byte `pos` is 0, or leads to a sector that wraps. */
  predicate DenseAt(l: Layout, inode: seq<byte>, pos: nat)
    requires l.Valid() && |inode| == INODE_SIZE
  {
    l.Dense(inode, Quot(pos, l.BlockSize()))
  }

  /** Where no pointer on the way is 0 or wraps, the pointers lead to the bytes of the file. */
  lemma {:induction false} DenseIsRight(l: Layout, inode: seq<byte>, pos: nat)
    requires l.Valid() && |inode| == INODE_SIZE && DenseAt(l, inode, pos)
    ensures FileByte(l, inode, pos) == ByteOf(l, inode, pos)
  {
    FollowedIsRight(l, inode, pos);
  }

  /** In a hole under pointers that are not 0, the byte is right exactly if that of block 0 is 0. */
  lemma {:induction false} HoleIsRight(l: Layout, inode: seq<byte>, pos: nat)
    requires l.Valid() && |inode| == INODE_SIZE && l.Has(0)
    requires var n := Quot(pos, l.BlockSize()); l.FileBlock(inode, n) == l.Lookup(inode, n) == Some(0)
    ensures FileByte(l, inode, pos) == ByteOf(l, inode, pos) <==> l.part[Rem(pos, l.BlockSize())] == 0
  {
    assert l.BlockPos(0) == 0;
  }

  /** If block 0 is all zero, the pointers lead to the bytes of every file, sparse or not, as long
      as no sector wraps. */
  lemma {:induction false} ZeroFirstIsRight(l: Layout, inode: seq<byte>, pos: nat)
    requires l.Valid() && |inode| == INODE_SIZE && l.ZeroFirst() && pos < 0x8000_0000
    requires l.NearWay(inode, Quot(pos, l.BlockSize()))
    ensures FileByte(l, inode, pos) == ByteOf(l, inode, pos)
  {
    FilesAreReached(l, pos);
    FollowedIsRight(l, inode, pos);
  }

  /** The code reads every byte of every file below 2^31 bytes right, where no sector wraps. */
  ghost predicate ReadsHoles(l: Layout)
    requires l.Valid()
  {
    forall inode: seq<byte>, pos: nat
      | |inode| == INODE_SIZE && pos < 0x8000_0000 && l.NearWay(inode, Quot(pos, l.BlockSize())) ::
      FileByte(l, inode, pos) == ByteOf(l, inode, pos)
  }

  /** Holes are read as zeros exactly on a partition whose block 0 is all zero. */
  lemma {:induction false} HolesNeedZeroFirst(l: Layout)
    requires l.Valid() && l.Has(0)
    ensures ReadsHoles(l) <==> l.ZeroFirst()
  {
    if l.ZeroFirst() {
      forall inode: seq<byte>, pos: nat
        | |inode| == INODE_SIZE && pos < 0x8000_0000 && l.NearWay(inode, Quot(pos, l.BlockSize()))
        ensures FileByte(l, inode, pos) == ByteOf(l, inode, pos)
      {
        ZeroFirstIsRight(l, inode, pos);
      }
    } else {
      var i :| 0 <= i < l.BlockSize() && l.part[i] != 0;
      assert Quot(i, l.BlockSize()) == 0;
      assert l.NearWay(NoPointers(), 0);
      LeadingHole(l, NoPointers(), i);
    }
  }

  function NoPointers(): (inode: seq<byte>)
    ensures |inode| == INODE_SIZE && Pointer(inode, 0) == 0
  {
    seq(INODE_SIZE, _ => 0)
  }

  /** In a file that begins with a hole, the code reads the first block of the partition. */
  lemma {:induction false} LeadingHole(l: Layout, inode: seq<byte>, i: nat)
    requires l.Valid() && l.Has(0) && i < l.BlockSize() && |inode| == INODE_SIZE && Pointer(inode, 0) == 0
    ensures FileByte(l, inode, i) == 0 && ByteOf(l, inode, i) == l.part[i]
  {
    var n := Quot(i, l.BlockSize());
    assert n == 0 && Rem(i, l.BlockSize()) == i && l.BlockPos(0) == 0;
    assert l.FileBlock(inode, n) == l.Lookup(inode, n) == Some(0);
  }

  /** With blocks of 2048 bytes or more, block 0 of a file system that can be mounted is never all
      zero: it contains the superblock. */
  lemma {:induction false} FirstIsNotZero(l: Layout)
    requires l.Valid() && l.Has(0) && l.BlockSize() >= 2048 && U16(l.part, 1024 + 56) == MAGIC
    ensures !l.ZeroFirst()
  {
    assert l.part[1080] != 0 || l.part[1081] != 0;
  }

  /** On a partition of no more than 2^31 sectors there is no block that a direct pointer whose
      sector wraps could mean: the code is right exactly if the wrapped sector is outside too. */
  lemma {:induction false} WrappedIsRight(l: Layout, inode: seq<byte>, pos: nat)
    requires l.Valid() && |inode| == INODE_SIZE && |l.part| <= 0x8000_0000 * SECTOR_SIZE
    requires var n := Quot(pos, l.BlockSize()); n < NDIR_BLOCKS && Pointer(inode, n) > 0 && !l.Near(Pointer(inode, n))
    ensures var b := Pointer(inode, Quot(pos, l.BlockSize()));
      FileByte(l, inode, pos) == ByteOf(l, inode, pos) <==>
        !(0 <= l.BlockPos(b) < |l.part| - Rem(pos, l.BlockSize()))
  {
    var b := Pointer(inode, Quot(pos, l.BlockSize()));
    assert l.Place(b) >= |l.part|;
    assert FileByte(l, inode, pos) == -1;
  }

  /** With blocks of 2048 bytes, block 1 is read for block 2^30 + 1. */
  lemma {:induction false} WrappedExample(l: Layout, inode: seq<byte>, i: nat)
    requires l.spb == 4 && |inode| == INODE_SIZE && Pointer(inode, 0) == 0x4000_0001
    requires i < 2048 && 4096 <= |l.part| <= 0x8000_0000 * SECTOR_SIZE
    ensures FileByte(l, inode, i) == -1 && ByteOf(l, inode, i) == l.part[2048 + i]
  {
    SectorsRepeat(1, 4, 0x4000_0000);
    ProductIsTimes(1, 4);
    ProductIsTimes(0x4000_0001, 4);
    assert Quot(i, 2048) == 0 && Rem(i, 2048) == i;
  }

  /** The value of a 32-bit unsigned sum, read as a C `int`. */
  function Signed32(w: nat): int {
    Signed(w % 0x1_0000_0000)
  }

  /** `ext2fs_dir` takes the place of an inode in its block from the inode number itself, not
      from its place in the group; that is the same where groups fill whole table blocks. */
  lemma {:induction false} SlotInGroup(x: nat, perGroup: nat, perBlock: nat, m: nat)
    requires perBlock > 0 && m > 0 && perGroup == Product(m, perBlock) && perGroup > 0
    ensures Rem(Rem(x, perGroup), perBlock) == Rem(x, perBlock)
  {
    if x >= perGroup {
      SlotInGroup(x - perGroup, perGroup, perBlock, m);
      RemSkips(x - perGroup, m, perBlock);
    }
  }

  lemma {:induction false} WholeBlocks(n: nat, size: nat)
    requires size > 0 && Rem(n, size) == 0
    ensures n == Product(Quot(n, size), size)
  {
    if n >= size { WholeBlocks(n - size, size); }
  }

  /** The two places are the same for every inode exactly if groups fill whole table blocks. */
  lemma {:induction false} SlotsAgree(perGroup: nat, perBlock: nat)
    requires perBlock > 0 && perGroup > 0
    ensures (forall x: nat :: Rem(Rem(x, perGroup), perBlock) == Rem(x, perBlock)) <==> Rem(perGroup, perBlock) == 0
  {
    if Rem(perGroup, perBlock) == 0 {
      WholeBlocks(perGroup, perBlock);
      forall x: nat ensures Rem(Rem(x, perGroup), perBlock) == Rem(x, perBlock) {
        SlotInGroup(x, perGroup, perBlock, Quot(perGroup, perBlock));
      }
    } else {
      assert Rem(Rem(perGroup, perGroup), perBlock) == 0;
    }
  }

  lemma {:induction false} RemSkips(x: nat, m: nat, size: nat)
    requires size > 0
    ensures Rem(x + Product(m, size), size) == Rem(x, size)
  {
    if m > 0 { RemSkips(x, m - 1, size); }
  }

  lemma {:induction false} TripleIsLookup(l: Layout, inode: seq<byte>, n: nat, n3: nat)
    requires l.Valid() && |inode| == INODE_SIZE && l.Reaches(n)
    requires n == NDIR_BLOCKS + l.Addrs() + Product(l.Addrs(), l.Addrs()) + n3
    ensures l.Lookup(inode, n) == l.Triple(inode, n3)
    ensures Quot(Quot(n3, l.Addrs()), l.Addrs()) < l.Addrs()
  {
  }

  lemma {:induction false} WordOfSlice(s: seq<byte>, at: nat, size: nat, i: nat)
    requires at + size <= |s| && i + 4 <= size
    ensures U32(s, at + i) == U32(s[at..at + size], i)
  {
    U32OfSlice(s, at, size, i);
  }

  /** There is no block 0xffffffff: its sector is negative. */
  lemma {:induction false} NoLastBlock(l: Layout)
    requires l.Valid()
    ensures !l.Has(-1)
  {
    ProductIsTimes(0xffff_ffff, l.spb);
    var x := 0x1_0000_0000 - l.spb;
    assert Product(0xffff_ffff, l.spb) == 0x1_0000_0000 * (l.spb - 1) + x;
    assert Product(0xffff_ffff, l.spb) % 0x1_0000_0000 == x;
  }

  lemma {:induction false} HasIsInside(l: Layout, b: int, partLength: nat)
    requires l.Valid() && |l.part| == partLength * SECTOR_SIZE
    ensures l.Has(b) <==> 0 <= l.Sector(b) && l.Sector(b) + (l.BlockSize() - 1) / SECTOR_SIZE < partLength
  {
    assert (l.BlockSize() - 1) / SECTOR_SIZE == l.spb - 1;
  }

  // ---------- the reader ----------

  class Ext2Fs {
    const dev: Device
    const spb: nat                  // EXT2_BLOCK_SIZE / DEV_BSIZE
    const mem: array<byte>          // FSYS_BUF: superblock, group descriptors, inode, two data blocks
    ghost const lay: Layout
    var mapblock1: int              // the indirect block in DATABLOCK1: 1, 2 or 3
    var mapblock2: int              // the block in DATABLOCK2, or -1
    var filepos: nat
    ghost var content: nat -> int   // the bytes that the pointers of the open inode lead to

    /** After a successful `ext2fs_mount`, which leaves the two cache tags as they were. */
    constructor (dev: Device, spb: nat, tag1: int, tag2: int)
      requires dev.Valid() && 2 <= spb <= 0x20_0000
      ensures this.dev == dev && this.spb == spb && fresh(mem) && Shape()
    {
      this.dev, this.spb := dev, spb;
      mem := new byte[SUPERBLOCK_SIZE + INODE_SIZE + 3 * (spb * SECTOR_SIZE)];
      lay := Layout(dev.Part(), spb);
      mapblock1, mapblock2, filepos, content := tag1, tag2, 0, (_: nat) => -1;
    }

    ghost predicate Shape() {
      && dev.Valid() && 2 <= spb <= 0x20_0000 && lay == Layout(dev.Part(), spb)
      && mem.Length == SUPERBLOCK_SIZE + INODE_SIZE + 3 * BlockSize()
    }

    function BlockSize(): nat { spb * SECTOR_SIZE }
    function GroupDesc(): nat { SUPERBLOCK_SIZE }
    function InodeAt(): nat { SUPERBLOCK_SIZE + BlockSize() }
    function Data1(): nat { InodeAt() + INODE_SIZE }
    function Data2(): nat { Data1() + BlockSize() }
    function End(): nat { Data2() + BlockSize() }

    /** The inode of the open file. */
    ghost function Inode(): (s: seq<byte>)
      requires Shape()
      reads mem
      ensures |s| == INODE_SIZE
    {
      mem[InodeAt()..Data1()]
    }

    /** The block size of bytes at `at` are block `b` of the partition. */
    ghost predicate Stores(at: nat, b: int)
      requires Shape() && at + BlockSize() <= mem.Length
      reads mem
    {
      lay.Has(b) && mem[at..at + BlockSize()] == lay.Block(b)
    }

    /** DATABLOCK1 holds the indirect block of the inode that its tag names. */
    ghost predicate Cache1Ok()
      requires Shape()
      reads this`mapblock1, mem
    {
      1 <= mapblock1 <= 3 ==> Stores(Data1(), Pointer(Inode(), 11 + mapblock1))
    }

    /** DATABLOCK2 holds the block its tag names. */
    ghost predicate Cache2Ok()
      requires Shape()
      reads this`mapblock2, mem
    {
      mapblock2 != -1 ==> Stores(Data2(), mapblock2)
    }

    /** `content` gives the bytes that the pointers of the open inode lead to. */
    ghost predicate ContentOk()
      requires Shape()
      reads this`content, mem
    {
      forall pos: nat {:trigger IsByte(lay, Inode(), pos, content(pos))} :: IsByte(lay, Inode(), pos, content(pos))
    }

    /** What every operation on the open inode keeps, as long as no error is pending. */
    ghost predicate Valid()
      reads this, dev, mem
    {
      Shape() && (dev.errnum == ErrNone ==> Cache1Ok() && Cache2Ok())
    }

    /** `ext2fs_mount`, for a file system with blocks of the size fixed here. */
    method Mount() returns (ok: bool)
      requires Shape()
      modifies dev`errnum, mem
      ensures old(dev.errnum) != ErrNone ==> dev.errnum != ErrNone
      ensures ok && dev.errnum == ErrNone ==> |lay.part| >= 2048 && U16(lay.part, 1024 + 56) == MAGIC
      ensures ok && dev.errnum == ErrNone ==> mem[..SUPERBLOCK_SIZE] == lay.part[1024..2048]
      ensures dev.bad == {} && old(dev.errnum) == ErrNone ==>
        ok == (|lay.part| >= 2048 && U16(lay.part, 1024 + 56) == MAGIC) && dev.errnum == ErrNone
    {
      if dev.partLength < 2 + SUPERBLOCK_SIZE / SECTOR_SIZE { return false; }
      var r := dev.DevRead(2, 0, SUPERBLOCK_SIZE, mem, 0);
      if r == 0 { return false; }
      ok := U16(mem[..SUPERBLOCK_SIZE], 56) == MAGIC;
      U16OfSlice(lay.part, 1024, SUPERBLOCK_SIZE, 56);
      assert mem[..SUPERBLOCK_SIZE] == mem[0..0 + SUPERBLOCK_SIZE];
    }

    /** Reads block `fsblock` of the file system to `at`. */
    method RdFsb(fsblock: int, at: nat) returns (ok: bool)
      requires Shape() && at + BlockSize() <= mem.Length
      modifies dev`errnum, mem
      ensures old(dev.errnum) != ErrNone ==> dev.errnum != ErrNone
      ensures !ok ==> dev.errnum != ErrNone
      ensures old(dev.errnum) != ErrNone ==> !ok
      ensures dev.errnum == ErrNone ==> ok && Stores(at, fsblock)
      ensures forall k :: 0 <= k < mem.Length && !(at <= k < at + BlockSize()) ==> mem[k] == old(mem[k])
      ensures dev.bad == {} && old(dev.errnum) == ErrNone ==> ok == lay.Has(fsblock) == (dev.errnum == ErrNone)
    {
      HasIsInside(lay, fsblock, dev.partLength);
      var r := dev.DevRead(BlockSector(fsblock % 0x1_0000_0000, spb), 0, BlockSize(), mem, at);
      ok := r != 0;
    }

    /** Loads DATABLOCK1, unless its tag says that it holds the block already. */
    method Load1(which: int) returns (ok: bool)
      requires Valid() && 1 <= which <= 3
      modifies this`mapblock1, dev`errnum, mem
      ensures Valid() && mem[..Data1()] == old(mem[..Data1()]) && Inode() == old(Inode())
      ensures mem[Data2()..End()] == old(mem[Data2()..End()])
      ensures old(dev.errnum) != ErrNone ==> dev.errnum != ErrNone
      ensures dev.errnum == ErrNone ==> ok && mapblock1 == which && Stores(Data1(), Pointer(Inode(), 11 + which))
      ensures !ok ==> dev.errnum == ErrFsysCorrupt
      ensures dev.bad == {} && old(dev.errnum) == ErrNone ==>
        ok == lay.Has(Pointer(Inode(), 11 + which)) == (dev.errnum == ErrNone)
    {
      ok := true;
      ghost var d2 := mem[Data2()..End()];
      if mapblock1 != which {
        ok := RdFsb(Pointer(mem[InodeAt()..Data1()], 11 + which), Data1());
        assert Inode() == old(Inode()) && mem[..Data1()] == old(mem[..Data1()]);
        assert mem[Data2()..End()] == d2;
        if !ok {
          dev.errnum := ErrFsysCorrupt;
          return;
        }
      }
      mapblock1 := which;
    }

    lemma {:induction false} StoredWord(at: nat, b: int, k: nat)
      requires Shape() && at + BlockSize() <= mem.Length && k < lay.Addrs() && Stores(at, b)
      ensures lay.At(b, k) == Some(Signed(U32(mem[..], at + 4 * k)))
    {
      assert mem[..][at..at + BlockSize()] == mem[at..at + BlockSize()];
      WordOfSlice(mem[..], at, BlockSize(), 4 * k);
    }

    /** Pointer `k` in the buffer at `at`, which may hold block `b`. */
    method Entry(at: nat, k: nat, ghost b: int) returns (w: int)
      requires Shape() && at + BlockSize() <= mem.Length && k < lay.Addrs()
      ensures w == Signed(U32(mem[at..at + BlockSize()], 4 * k))
      ensures Stores(at, b) ==> lay.At(b, k) == Some(w)
    {
      w := Signed(U32(mem[..], at + 4 * k));
      if Stores(at, b) { StoredWord(at, b, k); }
      WordOfSlice(mem[..], at, BlockSize(), 4 * k);
      assert mem[..][at..at + BlockSize()] == mem[at..at + BlockSize()];
    }

    /** Loads DATABLOCK2 with block `fsblock`, leaving everything else. */
    method Load2(fsblock: int) returns (ok: bool)
      requires Shape() && (dev.errnum == ErrNone ==> Cache1Ok())
      modifies dev`errnum, mem
      ensures mem[..Data1()] == old(mem[..Data1()]) && Inode() == old(Inode())
      ensures dev.errnum == ErrNone ==> Cache1Ok()
      ensures old(dev.errnum) != ErrNone ==> dev.errnum != ErrNone
      ensures dev.errnum == ErrNone ==> ok && Stores(Data2(), fsblock)
      ensures old(dev.errnum) != ErrNone ==> !ok
      ensures !ok ==> dev.errnum == ErrFsysCorrupt
      ensures dev.bad == {} && old(dev.errnum) == ErrNone ==> ok == lay.Has(fsblock) == (dev.errnum == ErrNone)
    {
      ghost var d1 := mem[Data1()..Data2()];
      ok := RdFsb(fsblock, Data2());
      assert Inode() == old(Inode()) && mem[..Data1()] == old(mem[..Data1()]);
      assert mem[Data1()..Data2()] == d1;
      if !ok { dev.errnum := ErrFsysCorrupt; }
    }

    /** A double-indirect pointer that equals the tag of an empty DATABLOCK2 is taken for a
        block that is there already. */
    ghost predicate Confused(q: nat)
      requires Shape()
      reads this`mapblock2, mem
    {
      mapblock2 == -1 && lay.At(Pointer(Inode(), 13), q) == Some(-1)
    }

    /** The lookup of block `n` of the file goes through such a pointer. */
    ghost predicate Mistaken(n: nat)
      requires Shape()
      reads this`mapblock2, mem
    {
      lay.IsDouble(n) && Confused(lay.DoubleIndex(n))
    }

    /** There the pointer tree has no block at all, so the lookup is wrong just when it meets such
        a pointer. */
    lemma {:induction false} MistakenIsWrong(n: nat)
      requires Shape() && Mistaken(n)
      ensures lay.Lookup(Inode(), n) == None
    {
      NoLastBlock(lay);
      assert lay.At(Pointer(Inode(), 13), lay.DoubleIndex(n)) == Some(-1);
    }

    /** Entry `k` of indirect block `which` of the inode. */
    method First(which: int, k: nat) returns (ok: bool, w: int)
      requires Valid() && 1 <= which <= 3 && k < lay.Addrs()
      modifies this`mapblock1, dev`errnum, mem
      ensures Valid() && mem[..Data1()] == old(mem[..Data1()]) && Inode() == old(Inode())
      ensures mem[Data2()..End()] == old(mem[Data2()..End()])
      ensures old(dev.errnum) != ErrNone ==> dev.errnum != ErrNone
      ensures !ok ==> dev.errnum == ErrFsysCorrupt && w == -1
      ensures dev.errnum == ErrNone ==> ok && lay.At(Pointer(Inode(), 11 + which), k) == Some(w)
      ensures dev.bad == {} && old(dev.errnum) == ErrNone ==>
        && ok == lay.At(Pointer(Inode(), 11 + which), k).Some?
        && dev.errnum == if ok then ErrNone else ErrFsysCorrupt
    {
      w := -1;
      ok := Load1(which);
      if ok { w := Entry(Data1(), k, Pointer(Inode(), 11 + which)); }
    }

    /** Loads DATABLOCK2 with a second-level block, unless its tag says that it is there. */
    method Fetch2(bnum: int) returns (ok: bool)
      requires Valid()
      modifies this`mapblock2, dev`errnum, mem
      ensures Valid() && mem[..Data1()] == old(mem[..Data1()]) && Inode() == old(Inode())
      ensures old(dev.errnum) != ErrNone ==> dev.errnum != ErrNone
      ensures !ok ==> dev.errnum == ErrFsysCorrupt
      ensures bnum == old(mapblock2) ==> dev.errnum == old(dev.errnum) && mem[Data2()..End()] == old(mem[Data2()..End()]) && ok
      ensures dev.errnum == ErrNone && bnum != -1 ==> Stores(Data2(), bnum)
      ensures dev.errnum == ErrNone && bnum == -1 ==> old(mapblock2) == -1
      ensures dev.bad == {} && old(dev.errnum) == ErrNone && bnum != old(mapblock2) ==>
        ok == lay.Has(bnum) == (dev.errnum == ErrNone)
    {
      NoLastBlock(lay);
      ok := true;
      if bnum != mapblock2 {
        ok := Load2(bnum);
        if !ok { return; }
      }
      mapblock2 := bnum;
    }

    /** Entry `r` of a second-level block. */
    method Second(bnum: int, r: nat) returns (ok: bool, w: int)
      requires Valid() && r < lay.Addrs()
      modifies this`mapblock2, dev`errnum, mem
      ensures Valid() && mem[..Data1()] == old(mem[..Data1()]) && Inode() == old(Inode())
      ensures old(dev.errnum) != ErrNone ==> dev.errnum != ErrNone
      ensures !ok ==> dev.errnum == ErrFsysCorrupt && w == -1
      ensures dev.errnum == ErrNone && bnum == -1 ==>
        old(mapblock2) == -1 && w == Signed(U32(old(mem[Data2()..End()]), 4 * r))
      ensures dev.errnum == ErrNone && bnum != -1 ==> lay.At(bnum, r) == Some(w)
      ensures dev.bad == {} && old(dev.errnum) == ErrNone ==>
        dev.errnum == if bnum == old(mapblock2) == -1 || lay.At(bnum, r).Some? then ErrNone else ErrFsysCorrupt
    {
      w := -1;
      ok := Fetch2(bnum);
      if ok { w := Entry(Data2(), r, bnum); }
    }

    /** Block `n` of the file by way of the double-indirect block. */
    method MapDouble(n: nat, q: nat, r: nat) returns (map_: int)
      requires Valid() && lay.IsDouble(n) && q == lay.DoubleIndex(n) && r == lay.DoubleRest(n)
      modifies this`mapblock1, this`mapblock2, dev`errnum, mem
      ensures Valid() && mem[..Data1()] == old(mem[..Data1()]) && Inode() == old(Inode())
      ensures old(dev.errnum) != ErrNone ==> dev.errnum != ErrNone
      ensures dev.errnum == ErrNone && !old(Mistaken(n)) ==> lay.Lookup(Inode(), n) == Some(map_)
      ensures dev.errnum == ErrNone && old(Mistaken(n)) ==>
        map_ == Signed(U32(old(mem[Data2()..End()]), 4 * lay.DoubleRest(n)))
      ensures dev.bad == {} && old(dev.errnum) == ErrNone ==>
        dev.errnum == if old(Mistaken(n)) || lay.Lookup(Inode(), n).Some? then ErrNone else ErrFsysCorrupt
    {
      QuotBelow(n - NDIR_BLOCKS - lay.Addrs(), lay.Addrs(), lay.Addrs());
      var ok, w := First(2, q);
      if !ok { return -1; }
      ok, w := Second(w, r);
      return w;
    }

    /** Follows one level of pointers through DATABLOCK2: entry `k` of block `b` is read. */
    method Descend(b: int, k: nat) returns (ok: bool, w: int)
      requires Valid() && mapblock2 == -1 && k < lay.Addrs()
      modifies dev`errnum, mem
      ensures Valid() && mem[..Data1()] == old(mem[..Data1()]) && Inode() == old(Inode())
      ensures old(dev.errnum) != ErrNone ==> dev.errnum != ErrNone
      ensures !ok ==> dev.errnum == ErrFsysCorrupt
      ensures dev.errnum == ErrNone ==> ok && lay.At(b, k) == Some(w)
      ensures dev.bad == {} && old(dev.errnum) == ErrNone ==>
        && ok == lay.At(b, k).Some?
        && dev.errnum == if lay.At(b, k).Some? then ErrNone else ErrFsysCorrupt
    {
      w := -1;
      ok := Load2(b);
      if ok { w := Entry(Data2(), k, b); }
    }

    /** Block `n` of the file by way of the single-indirect block. */
    method MapSingle(n: nat, n1: nat) returns (map_: int)
      requires Valid() && n == NDIR_BLOCKS + n1 && n1 < lay.Addrs()
      modifies this`mapblock1, dev`errnum, mem
      ensures Valid() && mem[..Data1()] == old(mem[..Data1()]) && Inode() == old(Inode())
      ensures old(dev.errnum) != ErrNone ==> dev.errnum != ErrNone
      ensures dev.errnum == ErrNone ==> lay.Lookup(Inode(), n) == Some(map_)
      ensures dev.bad == {} && old(dev.errnum) == ErrNone ==>
        dev.errnum == if lay.Lookup(Inode(), n).Some? then ErrNone else ErrFsysCorrupt
    {
      var _, w := First(1, n1);
      return w;
    }

    /** Block `n3` of those under the triple-indirect block. */
    method FollowTriple(n3: nat) returns (map_: int)
      requires Valid() && Quot(Quot(n3, lay.Addrs()), lay.Addrs()) < lay.Addrs()
      modifies this`mapblock1, this`mapblock2, dev`errnum, mem
      ensures Valid() && mem[..Data1()] == old(mem[..Data1()]) && Inode() == old(Inode())
      ensures old(dev.errnum) != ErrNone ==> dev.errnum != ErrNone
      ensures dev.errnum == ErrNone ==> lay.Triple(Inode(), n3) == Some(map_)
      ensures dev.bad == {} && old(dev.errnum) == ErrNone ==>
        dev.errnum == if lay.Triple(Inode(), n3).Some? then ErrNone else ErrFsysCorrupt
    {
      var a := spb * (SECTOR_SIZE / 4);
      mapblock2 := -1;
      var ok, b := First(3, Quot(Quot(n3, a), a));
      if !ok { return -1; }
      ok, b := Descend(b, Rem(Quot(n3, a), a));
      if !ok { return -1; }
      ok, b := Descend(b, Rem(n3, a));
      if !ok { return -1; }
      return b;
    }

    /** Block `n` of the file by way of the triple-indirect block. */
    method MapTriple(n: nat, n3: nat) returns (map_: int)
      requires Valid() && lay.Reaches(n)
      requires n == NDIR_BLOCKS + lay.Addrs() + Product(lay.Addrs(), lay.Addrs()) + n3
      modifies this`mapblock1, this`mapblock2, dev`errnum, mem
      ensures Valid() && mem[..Data1()] == old(mem[..Data1()]) && Inode() == old(Inode())
      ensures old(dev.errnum) != ErrNone ==> dev.errnum != ErrNone
      ensures dev.errnum == ErrNone ==> lay.Lookup(Inode(), n) == Some(map_)
      ensures dev.bad == {} && old(dev.errnum) == ErrNone ==>
        dev.errnum == if lay.Lookup(Inode(), n).Some? then ErrNone else ErrFsysCorrupt
    {
      TripleIsLookup(lay, Inode(), n, n3);
      map_ := FollowTriple(n3);
    }

    /** The block of the partition that holds block `n` of the open file. Whatever was looked up
        before, the answer is that of the uncached pointer tree, except that a double-indirect
        pointer of 0xffffffff meets an empty DATABLOCK2. */
    method BlockMap(n: nat) returns (map_: int)
      requires Valid() && lay.Reaches(n)
      modifies this`mapblock1, this`mapblock2, dev`errnum, mem
      ensures Valid() && mem[..Data1()] == old(mem[..Data1()]) && Inode() == old(Inode())
      ensures old(dev.errnum) != ErrNone ==> dev.errnum != ErrNone
      ensures dev.errnum == ErrNone && !old(Mistaken(n)) ==> lay.Lookup(Inode(), n) == Some(map_)
      ensures dev.errnum == ErrNone && old(Mistaken(n)) ==>
        map_ == Signed(U32(old(mem[Data2()..End()]), 4 * lay.DoubleRest(n)))
      ensures dev.bad == {} && old(dev.errnum) == ErrNone ==>
        dev.errnum == if old(Mistaken(n)) || lay.Lookup(Inode(), n).Some? then ErrNone else ErrFsysCorrupt
    {
      if n < NDIR_BLOCKS {
        return Pointer(mem[InodeAt()..Data1()], n);
      }
      var a := spb * (SECTOR_SIZE / 4);
      var logical := n - NDIR_BLOCKS;
      if logical < a {
        map_ := MapSingle(n, logical);
        return;
      }
      logical := logical - a;
      if logical < Product(a, a) {
        map_ := MapDouble(n, Quot(logical, a), Rem(logical, a));
        return;
      }
      map_ := MapTriple(n, logical - Product(a, a));
    }

    /** Finds the block of the inode table with inode `ino`. */
    method FindInode(ino: nat) returns (ok: bool, block: int)
      requires Shape() && ino > 0 && U32(mem[..SUPERBLOCK_SIZE], 40) > 0
      modifies dev`errnum, mem
      ensures mem[..SUPERBLOCK_SIZE] == old(mem[..SUPERBLOCK_SIZE])
      ensures old(dev.errnum) != ErrNone ==> dev.errnum != ErrNone
      ensures !ok ==> dev.errnum != ErrNone
      ensures dev.errnum == ErrNone ==>
        var sb := mem[..SUPERBLOCK_SIZE];
        && lay.Has(lay.DescBlock(sb, ino))
        && block == lay.TableBlock(sb, lay.Block(lay.DescBlock(sb, ino)), ino)
      ensures dev.bad == {} && old(dev.errnum) == ErrNone ==>
        ok == lay.Has(lay.DescBlock(mem[..SUPERBLOCK_SIZE], ino)) == (dev.errnum == ErrNone)
    {
      ghost var sb := mem[..SUPERBLOCK_SIZE];
      var first, perGroup := U32(mem[..SUPERBLOCK_SIZE], 20), U32(mem[..SUPERBLOCK_SIZE], 40);
      var group := Quot(ino - 1, perGroup);
      block := 0;
      var desc := Signed32(1 + Quot(group, 16 * spb) + first);
      assert desc == lay.DescBlock(sb, ino);
      ok := RdFsb(desc, GroupDesc());
      assert mem[..SUPERBLOCK_SIZE] == sb;
      if !ok { return; }
      assert dev.errnum == ErrNone ==> mem[GroupDesc()..InodeAt()] == lay.Block(desc);
      var table := U32(mem[GroupDesc()..InodeAt()], 32 * Rem(group, 16 * spb) + 8);
      block := Signed32(table + Quot(Rem(ino - 1, perGroup), 4 * spb));
    }

    /** Copies an inode from its place in the block at INODE to the front of it. */
    method CopyInode(slot: nat, ghost b: int)
      requires Shape() && slot < 4 * spb
      modifies mem
      ensures mem[..SUPERBLOCK_SIZE] == old(mem[..SUPERBLOCK_SIZE])
      ensures old(Stores(InodeAt(), b)) ==> Inode() == lay.Block(b)[INODE_SIZE * slot..INODE_SIZE * slot + INODE_SIZE]
    {
      var raw := InodeAt() + INODE_SIZE * slot;
      ghost var block, sb := mem[InodeAt()..InodeAt() + BlockSize()], mem[..SUPERBLOCK_SIZE];
      forall k | 0 <= k < INODE_SIZE { mem[InodeAt() + k] := mem[raw + k]; }
      assert mem[..SUPERBLOCK_SIZE] == sb;
      forall k | 0 <= k < INODE_SIZE ensures Inode()[k] == block[INODE_SIZE * slot + k] {
        assert Inode()[k] == old(mem[raw + k]);
      }
      assert Inode() == block[INODE_SIZE * slot..INODE_SIZE * slot + INODE_SIZE];
    }

    /** Loads inode `ino` as `ext2fs_dir` does. The whole table block is read over the inode and
        the first data block, so both tags are reset: the cache invariant holds again whatever
        the buffers held before. */
    method LoadInode(ino: nat) returns (ok: bool)
      requires Shape() && ino > 0 && U32(mem[..SUPERBLOCK_SIZE], 40) > 0
      modifies this`mapblock1, this`mapblock2, this`content, dev`errnum, mem
      ensures ok ==> Valid() && ContentOk() && mapblock1 == mapblock2 == -1
      ensures mem[..SUPERBLOCK_SIZE] == old(mem[..SUPERBLOCK_SIZE])
      ensures old(dev.errnum) != ErrNone ==> dev.errnum != ErrNone
      ensures !ok ==> dev.errnum != ErrNone
      ensures dev.errnum == ErrNone ==>
        var sb := mem[..SUPERBLOCK_SIZE];
        && lay.HasInode(sb, ino) && Inode() == lay.InSlot(sb, ino, Rem(ino - 1, 4 * spb))
        && (Rem(U32(sb, 40), 4 * spb) == 0 ==> lay.IsInode(sb, ino, Inode()))
      ensures dev.bad == {} && old(dev.errnum) == ErrNone ==>
        ok == lay.HasInode(mem[..SUPERBLOCK_SIZE], ino) == (dev.errnum == ErrNone)
    {
      ghost var sb := mem[..SUPERBLOCK_SIZE];
      var block;
      ok, block := FindInode(ino);
      if !ok { return; }
      ok := RdFsb(block, InodeAt());
      assert mem[..SUPERBLOCK_SIZE] == sb;
      if !ok { return; }
      mapblock2, mapblock1 := -1, -1;
      CopyInode(Rem(ino - 1, 4 * spb), block);
      ghost var l, inode := lay, Inode();
      content := (pos: nat) => ByteOf(l, inode, pos);
      SlotsAgree(U32(sb, 40), 4 * spb);
    }

    /** Reads block `blk` of the open directory as `ext2fs_dir` does: into DATABLOCK2, whose tag
        it resets. */
    method DirBlock(blk: nat) returns (ok: bool)
      requires Valid() && lay.Reaches(blk)
      modifies this`mapblock1, this`mapblock2, dev`errnum, mem
      ensures Valid() && mapblock2 == -1 && mem[..Data1()] == old(mem[..Data1()]) && Inode() == old(Inode())
      ensures old(dev.errnum) != ErrNone ==> dev.errnum != ErrNone
      ensures !ok ==> dev.errnum == ErrFsysCorrupt
      ensures dev.errnum == ErrNone && !old(Mistaken(blk)) ==>
        ok && Mapped(lay, Inode(), blk) && Stores(Data2(), lay.Lookup(Inode(), blk).value)
      ensures dev.bad == {} && old(dev.errnum) == ErrNone && !old(Mistaken(blk)) ==>
        ok == Mapped(lay, Inode(), blk) == (dev.errnum == ErrNone)
    {
      var map_ := BlockMap(blk);
      mapblock2 := -1;
      if map_ < 0 {
        dev.errnum := ErrFsysCorrupt;
        return false;
      }
      ok := Load2(map_);
    }

    /** A stretch of one block is a stretch of the file. */
    lemma {:induction false} PieceIsSlice(pos: nat, m: nat, k: nat, size: nat)
      requires Shape() && ContentOk() && Rem(pos, lay.BlockSize()) + size <= lay.BlockSize()
      requires lay.Lookup(Inode(), Quot(pos, lay.BlockSize())) == Some(m)
      requires 0 <= lay.BlockPos(m) && k == lay.BlockPos(m) + Rem(pos, lay.BlockSize()) && k + size <= |lay.part|
      ensures SliceOf(content, pos, lay.part[k..k + size])
    {
      var s := lay.part[k..k + size];
      forall i | 0 <= i < |s| ensures content(pos + i) == s[i] {
        ByteOfBlock(lay, Inode(), pos, m, i);
        assert IsByte(lay, Inode(), pos + i, content(pos + i));
      }
    }

    /** Reads the part of block `m` of the partition that is wanted, behind the `done` bytes
        already in the buffer; `right` if those bytes and the block are the file's. */
    method ReadPiece(buf: array<byte>, at: nat, done: nat, m: nat, offset: nat, len: nat, ghost right: bool)
      returns (size: nat)
      requires Shape() && ContentOk() && buf != mem && at + done + len <= buf.Length && len > 0 && done <= filepos
      requires offset == Rem(filepos, lay.BlockSize())
      requires right ==>
        && lay.Lookup(Inode(), Quot(filepos, lay.BlockSize())) == Some(m)
        && SliceOf(content, filepos - done, buf[at..at + done])
      modifies dev`errnum, buf
      ensures size == Min(BlockSize() - offset, len) && size > 0
      ensures old(dev.errnum) != ErrNone ==> dev.errnum != ErrNone
      ensures forall k :: 0 <= k < buf.Length && !(at + done <= k < at + done + size) ==> buf[k] == old(buf[k])
      ensures dev.errnum == ErrNone && right ==> SliceOf(content, filepos - done, buf[at..at + done + size])
      ensures dev.bad == {} && old(dev.errnum) == ErrNone && lay.Has(m) ==> dev.errnum == ErrNone
    {
      ghost var got := buf[at..at + done];
      size := Min(BlockSize() - offset, len);
      ReadHere(buf, at + done, m, offset, size);
      StillThere(buf, at, got);
      if dev.errnum == ErrNone && right {
        ghost var k := lay.BlockPos(m) + offset;
        ghost var piece := lay.part[k..k + size];
        PieceIsSlice(filepos, m, k, size);
        assert |piece| == size;
        Extend(content, buf, at, filepos - done, got, at + done, filepos, piece, at + done + size);
      }
    }

    /** Reads a stretch of block `m`. */
    method ReadHere(buf: array<byte>, at: nat, m: nat, offset: nat, size: nat)
      requires Shape() && buf != mem && 0 < size && offset + size <= BlockSize() && at + size <= buf.Length
      modifies dev`errnum, buf
      ensures old(dev.errnum) != ErrNone ==> dev.errnum != ErrNone
      ensures forall k :: 0 <= k < buf.Length && !(at <= k < at + size) ==> buf[k] == old(buf[k])
      ensures dev.errnum == ErrNone ==>
        var k := lay.BlockPos(m) + offset;
        0 <= lay.BlockPos(m) && k + size <= |lay.part| && buf[at..at + size] == lay.part[k..k + size]
      ensures dev.bad == {} && old(dev.errnum) == ErrNone && lay.Has(m) ==> dev.errnum == ErrNone
    {
      HasIsInside(lay, m, dev.partLength);
      dev.Fetch(BlockSector(m % 0x1_0000_0000, spb), offset, size, buf, at);
    }

    /** The block under `filepos`. */
    method MapHere() returns (map_: int)
      requires Valid() && filepos < 0x8000_0000
      modifies this`mapblock1, this`mapblock2, dev`errnum, mem
      ensures Valid() && Inode() == old(Inode())
      ensures old(dev.errnum) != ErrNone ==> dev.errnum != ErrNone
      ensures dev.errnum == ErrNone && Unambiguous(lay, Inode()) ==>
        lay.Lookup(Inode(), Quot(filepos, BlockSize())) == Some(map_)
      ensures dev.bad == {} && old(dev.errnum) == ErrNone && Mapped(lay, Inode(), Quot(filepos, BlockSize())) ==>
        dev.errnum == ErrNone
    {
      ghost var n := Quot(filepos, BlockSize());
      FilesAreReached(lay, filepos);
      ghost var mistaken := Mistaken(n);
      assert Unambiguous(lay, Inode()) ==> !mistaken by {
        if lay.IsDouble(n) && Unambiguous(lay, Inode()) {
          QuotBelow(n - NDIR_BLOCKS - lay.Addrs(), lay.Addrs(), lay.Addrs());
        }
      }
      map_ := BlockMap(Quot(filepos, BlockSize()));
    }

    /** One turn of the loop of `ext2fs_read`; `plain` if the inode is unambiguous. */
    method ReadTurn(buf: array<byte>, at: nat, done: nat, left: nat, ghost plain: bool) returns (map_: int, size: nat)
      requires Valid() && ContentOk() && buf != mem && left > 0 && at + done + left <= buf.Length
      requires done <= filepos < 0x8000_0000 && plain == Unambiguous(lay, Inode())
      requires dev.errnum == ErrNone && plain ==>
        SliceOf(content, filepos - done, buf[at..at + done])
      modifies this`mapblock1, this`mapblock2, this`filepos, dev`errnum, mem, buf
      ensures Valid() && Inode() == old(Inode()) && filepos == old(filepos) + size && size <= left
      ensures old(dev.errnum) != ErrNone ==> dev.errnum != ErrNone
      ensures if map_ < 0 then size == 0 else size > 0
      ensures forall k :: 0 <= k < buf.Length && !(at + done <= k < at + done + size) ==> buf[k] == old(buf[k])
      ensures dev.errnum == ErrNone && plain ==>
        SliceOf(content, old(filepos) - done, buf[at..at + done + size]) && (map_ < 0 ==> EndsHere())
      ensures dev.bad == {} && old(dev.errnum) == ErrNone && plain
          && Mapped(lay, Inode(), Quot(old(filepos), BlockSize()))
        ==> dev.errnum == ErrNone && map_ >= 0
    {
      size := 0;
      map_ := MapHere();
      if map_ < 0 { return; }
      ghost var right := dev.errnum == ErrNone && plain;
      size := ReadPiece(buf, at, done, map_, Rem(filepos, BlockSize()), left, right);
      filepos := filepos + size;
    }

    /** The pointer under `filepos` is 2^31 or more. */
    ghost predicate EndsHere()
      requires Shape()
      reads this`filepos, mem
    {
      var m := lay.Lookup(Inode(), Quot(filepos, BlockSize()));
      m.Some? && m.value < 0
    }

    /** Every byte from `from` to `to` has a block of the partition. */
    ghost predicate AllMapped(from: nat, to: nat)
      requires Shape()
      reads mem
    {
      forall p :: from <= p < to ==> Mapped(lay, Inode(), Quot(p, BlockSize()))
    }

    /** No pointer on the way to any byte from `from` to `to` is 0 or wraps. */
    ghost predicate AllDense(from: nat, to: nat)
      requires Shape()
      reads mem
    {
      forall p :: from <= p < to ==> DenseAt(lay, Inode(), p)
    }

    /** The loop of `ext2fs_read`. */
    method ReadLoop(buf: array<byte>, at: nat, len: nat) returns (ret: nat)
      requires Valid() && ContentOk() && buf != mem && at + len <= buf.Length && filepos + len <= 0x8000_0000
      modifies this`mapblock1, this`mapblock2, this`filepos, dev`errnum, mem, buf
      ensures Valid() && Inode() == old(Inode()) && ret <= len && filepos == old(filepos) + ret
      ensures old(dev.errnum) != ErrNone ==> dev.errnum != ErrNone
      ensures forall k :: 0 <= k < buf.Length && !(at <= k < at + len) ==> buf[k] == old(buf[k])
      ensures dev.errnum == ErrNone && Unambiguous(lay, Inode()) ==> SliceOf(content, old(filepos), buf[at..at + ret])
      ensures dev.errnum == ErrNone && Unambiguous(lay, Inode()) && ret < len ==> EndsHere()
      ensures dev.bad == {} && old(dev.errnum) == ErrNone && Unambiguous(lay, Inode())
          && AllMapped(old(filepos), old(filepos) + len)
        ==> dev.errnum == ErrNone && ret == len
    {
      ghost var start, plain, mapped := filepos, Unambiguous(lay, Inode()), AllMapped(filepos, filepos + len);
      ret := 0;
      var left := len;
      while left > 0
        invariant ret + left == len && filepos == start + ret
        invariant Valid() && Inode() == old(Inode())
        invariant old(dev.errnum) != ErrNone ==> dev.errnum != ErrNone
        invariant dev.errnum == ErrNone && plain ==> SliceOf(content, start, buf[at..at + ret])
        invariant forall k :: 0 <= k < buf.Length && !(at <= k < at + len) ==> buf[k] == old(buf[k])
        invariant dev.bad == {} && old(dev.errnum) == ErrNone && plain && mapped ==> dev.errnum == ErrNone
      {
        assert mapped ==> Mapped(lay, Inode(), Quot(filepos, BlockSize()));
        var map_, size := ReadTurn(buf, at, ret, left, plain);
        if map_ < 0 { break; }
        left, ret := left - size, ret + size;
      }
    }

    lemma {:induction false} DenseByte(pos: nat, s: seq<byte>, i: nat)
      requires Shape() && ContentOk() && i < |s| && content(pos + i) == s[i] && DenseAt(lay, Inode(), pos + i)
      ensures FileByte(lay, Inode(), pos + i) == s[i]
    {
      DenseIsRight(lay, Inode(), pos + i);
      assert IsByte(lay, Inode(), pos + i, content(pos + i));
    }

    /** What the pointers lead to is the file, where none of them is 0 or wraps. */
    lemma {:induction false} DenseSlice(pos: nat, s: seq<byte>)
      requires Shape() && ContentOk() && SliceOf(content, pos, s) && AllDense(pos, pos + |s|)
      ensures FileHas(lay, Inode(), pos, s)
    {
      forall i | 0 <= i < |s| ensures FileByte(lay, Inode(), pos + i) == s[i] {
        DenseByte(pos, s, i);
      }
    }

    /** Reads `len` bytes of the open file into `buf`. As long as no error is reported the bytes
        are those the pointers lead to, and fewer of them arrive only at a pointer of 2^31 or more.
        Where no pointer on the way is 0 they are the bytes of the file. */
    method Read(buf: array<byte>, at: nat, len: nat) returns (ret: nat)
      requires Valid() && ContentOk() && buf != mem && at + len <= buf.Length && filepos + len <= 0x8000_0000
      modifies this`mapblock1, this`mapblock2, this`filepos, dev`errnum, mem, buf
      ensures Valid() && ContentOk() && Inode() == old(Inode()) && ret <= len
      ensures old(dev.errnum) != ErrNone ==> dev.errnum != ErrNone
      ensures forall k :: 0 <= k < buf.Length && !(at <= k < at + len) ==> buf[k] == old(buf[k])
      ensures dev.errnum == ErrNone && Unambiguous(lay, Inode()) ==>
        && filepos == old(filepos) + ret && SliceOf(content, old(filepos), buf[at..at + ret])
        && (ret < len ==> EndsHere())
        && (AllDense(old(filepos), filepos) ==> FileHas(lay, Inode(), old(filepos), buf[at..at + ret]))
      ensures dev.bad == {} && old(dev.errnum) == ErrNone && Unambiguous(lay, Inode())
          && AllMapped(old(filepos), old(filepos) + len)
        ==> dev.errnum == ErrNone && ret == len
    {
      ret := ReadLoop(buf, at, len);
      if dev.errnum != ErrNone {
        ret := 0;
      } else if Unambiguous(lay, Inode()) && AllDense(old(filepos), filepos) {
        DenseSlice(old(filepos), buf[at..at + ret]);
      }
    }
  }

  // ---------- an example ----------

  /** Byte `k` of a partition with five blocks of 1024 bytes: a boot block, a superblock, the
      descriptor of one group of eight inodes, their table, and a block full of 0xff.  Inode 3 has
      that as its double-indirect block; inode 4 has no blocks. */
  function ExampleByte(k: nat): byte {
    if k == 0 then 0xeb                                       // the boot block's jump
    else if k == 1024 + 20 then 1                             // s_first_data_block
    else if k == 1024 + 40 then 8                             // s_inodes_per_group
    else if k == 1024 + 56 then 0x53                          // s_magic
    else if k == 1024 + 57 then 0xef
    else if k == 2048 + 8 then 3                              // bg_inode_table
    else if k == 3072 + 2 * INODE_SIZE + 40 + 4 * 13 then 4   // i_block[EXT2_DIND_BLOCK] of inode 3
    else if 4096 <= k < 5120 then 0xff
    else 0
  }

  function ExamplePart(): (part: seq<byte>)
    ensures |part| == 5120
  {
    seq(5120, k requires 0 <= k < 5120 => ExampleByte(k))
  }

  function ExampleLayout(): (l: Layout)
    ensures l.Valid()
  {
    Layout(ExamplePart(), 2)
  }

  lemma {:induction false} ExampleWord(k: nat)
    requires k + 4 <= 5120
    ensures U32(ExamplePart(), k) ==
      ExampleByte(k) + 0x100 * ExampleByte(k + 1) + 0x1_0000 * ExampleByte(k + 2) + 0x100_0000 * ExampleByte(k + 3)
  {
  }

  lemma {:induction false} ExampleBlocks(b: nat)
    requires b < 5
    ensures ExampleLayout().BlockPos(b) == 1024 * b && ExampleLayout().Has(b)
    ensures ExampleLayout().Block(b) == ExamplePart()[1024 * b..1024 * b + 1024]
  {
    ProductIsTimes(b, 2);
    assert b % 0x1_0000_0000 == b && ExampleLayout().Sector(b) == 2 * b;
  }

  function ExampleSuper(): (sb: seq<byte>)
    ensures |sb| == SUPERBLOCK_SIZE && U32(sb, 20) == 1 && U32(sb, 40) == 8
  {
    var part := ExamplePart();
    WordOfSlice(part, 1024, 1024, 20);
    WordOfSlice(part, 1024, 1024, 40);
    ExampleWord(1044);
    ExampleWord(1064);
    part[1024..2048]
  }

  /** The bytes of inode `ino`. */
  function ExampleInode(ino: nat): (inode: seq<byte>)
    requires 1 <= ino <= 8
    ensures |inode| == INODE_SIZE
  {
    ExamplePart()[3072 + INODE_SIZE * (ino - 1)..3072 + (INODE_SIZE * (ino - 1) + INODE_SIZE)]
  }

  /** The table that holds the inodes of the example is block 3. */
  lemma {:induction false} ExampleTable(ino: nat)
    requires 1 <= ino <= 8
    ensures var l := ExampleLayout();
      l.DescBlock(ExampleSuper(), ino) == 2 && l.Has(2) && l.TableBlock(ExampleSuper(), l.Block(2), ino) == 3
  {
    var l, part := ExampleLayout(), ExamplePart();
    assert l.DescBlock(ExampleSuper(), ino) == 2;
    ExampleBlocks(2);
    WordOfSlice(part, 2048, 1024, 8);
    ExampleWord(2056);
  }

  lemma {:induction false} ExampleSlot(ino: nat)
    requires 1 <= ino <= 8
    ensures ExampleLayout().HasInode(ExampleSuper(), ino)
    ensures ExampleLayout().InSlot(ExampleSuper(), ino, ino - 1) == ExampleInode(ino)
  {
    ExampleTable(ino);
    ExampleBlocks(3);
    var slot := ino - 1;
    SliceOfSlice(ExamplePart(), 3072, 1024, INODE_SIZE * slot, INODE_SIZE * slot + INODE_SIZE);
    assert ExampleLayout().InSlot(ExampleSuper(), ino, slot)
        == ExampleLayout().Block(3)[INODE_SIZE * slot..INODE_SIZE * slot + INODE_SIZE];
  }

  lemma {:induction false} ExampleIsInode(ino: nat)
    requires 1 <= ino <= 8
    ensures ExampleLayout().IsInode(ExampleSuper(), ino, ExampleInode(ino))
    ensures Rem(8, 8) == 0 && Rem(ino - 1, 8) == ino - 1
  {
    ExampleSlot(ino);
    assert Rem(Rem(ino - 1, 8), 8) == ino - 1;
  }

  /** The pointers of inode 3: only the double-indirect one is set. */
  lemma {:induction false} ExampleDouble(inode: seq<byte>)
    requires inode == ExampleInode(3)
    ensures Pointer(inode, 13) == 4 && ExampleLayout().At(4, 0) == Some(-1)
    ensures ExampleLayout().IsDouble(268) && ExampleLayout().DoubleIndex(268) == 0
  {
    var l, part := ExampleLayout(), ExamplePart();
    WordOfSlice(part, 3328, 128, 92);
    ExampleWord(3420);
    ExampleBlocks(4);
    WordOfSlice(part, 4096, 1024, 0);
    ExampleWord(4096);
    ProductIsTimes(256, 256);
  }

  /** What holds of inode 3 wherever DATABLOCK2 is empty. */
  lemma {:induction false} ExampleIsMistaken(fs: Ext2Fs)
    requires fs.Shape() && fs.lay == ExampleLayout() && fs.mapblock2 == -1
    requires fs.Inode() == ExampleInode(3)
    ensures fs.Mistaken(268) && fs.lay.Lookup(fs.Inode(), 268) == None && fs.lay.Reaches(268)
  {
    ExampleDouble(fs.Inode());
    fs.MistakenIsWrong(268);
  }

  /** Mounts the example. */
  method MountExample() returns (fs: Ext2Fs)
    ensures fs.Shape() && fs.lay == ExampleLayout() && fs.dev.errnum == ErrNone && fs.dev.bad == {}
    ensures fresh(fs) && fresh(fs.dev) && fresh(fs.mem)
    ensures fs.mem[..SUPERBLOCK_SIZE] == ExampleSuper()
  {
    var part := ExamplePart();
    var dev := new Device(part, {}, 0, 10);
    fs := new Ext2Fs(dev, 2, -1, -1);
    assert dev.Part() == part && part[1080] == 0x53 && part[1081] == 0xef;
    var ok := fs.Mount();
  }

  /** Loads its inode 3. */
  method LoadExample() returns (fs: Ext2Fs)
    ensures fs.Valid() && fs.lay == ExampleLayout() && fs.dev.errnum == ErrNone && fs.dev.bad == {}
    ensures fresh(fs) && fresh(fs.dev) && fresh(fs.mem)
    ensures fs.lay.IsInode(ExampleSuper(), 3, fs.Inode())
    ensures fs.Mistaken(268) && fs.lay.Lookup(fs.Inode(), 268) == None && fs.lay.Reaches(268)
  {
    fs := MountExample();
    ExampleSlot(3);
    ExampleIsInode(3);
    var ok := fs.LoadInode(3);
    ExampleIsMistaken(fs);
  }

  /** A run from mounting to a lookup that answers, without an error, for a block that the file's
      pointer tree does not have. */
  method MistakenRun() returns (fs: Ext2Fs, map_: int)
    ensures fs.Shape() && fs.lay == ExampleLayout() && fs.dev.errnum == ErrNone
    ensures fs.lay.Lookup(fs.Inode(), 268) == None
  {
    fs := LoadExample();
    map_ := fs.BlockMap(268);
  }

  /** Inode 4 of the example is a hole from its first byte on; what is read there is the boot
      block. */
  lemma {:induction false} SparseExample()
    ensures ExampleLayout().IsInode(ExampleSuper(), 4, ExampleInode(4))
    ensures FileByte(ExampleLayout(), ExampleInode(4), 0) == 0
    ensures ByteOf(ExampleLayout(), ExampleInode(4), 0) == 0xeb
  {
    ExampleIsInode(4);
    NoFirstPointer();
    ExampleBlocks(0);
    LeadingHole(ExampleLayout(), ExampleInode(4), 0);
    assert ExamplePart()[0] == 0xeb;
  }

  lemma {:induction false} NoFirstPointer()
    ensures Pointer(ExampleInode(4), 0) == 0
  {
    WordOfSlice(ExamplePart(), 3456, 128, 40);
    ExampleWord(3496);
  }
}
