/** An ext2 partition, and a file on it with blocks under all three indirect pointers of its inode. */
module Ext2Deep {
  import opened Content
  import opened Disk
  import opened Division
  import opened Encoding
  import opened Ext2
  import opened Ext2Format

  // ---------- the partition ----------

  const SUPER: seq<int> := [8, 13, 0, 0, 0, 1, 0, 0, 8192, 8192, 8, 0, 0]
  const SUPER_HALVES: seq<int> := [0, 0, 0xef53]
  const DESC: seq<int> := [0, 0, 3, 0, 0, 0, 0, 0]

  /** Inode 1: no direct blocks, and indirect blocks 4, 6 and 9. */
  const DEEP: RawInode := RawInode(0x81a4, 0, 0, 0, 0, 0, 0, 0, 1, 0, 0, 0,
    [0, 0, 0, 0, 0, 0, 0, 0, 0, 0, 0, 0, 4, 6, 9], Zeros(28))

  /** All these fields have values that fit them. */
  predicate Sound() {
    DEEP.Ok() && AreWords(SUPER) && AreHalves(SUPER_HALVES) && AreWords(DESC)
  }

  /** Block `b` of the partition. */
  function DeepBlock(b: nat): (block: seq<byte>)
    requires Sound()
  {
    match b
    case 1 => Padded(Words(SUPER) + Halves(SUPER_HALVES), 1024)
    case 2 => Padded(Words(DESC), 1024)
    case 3 => Padded(DEEP.Encode(), 1024)
    case 4 | 6 | 7 | 9 | 10 | 11 => Padded(Le32(b + 1), 1024)
    case 5 => Full(0x11, 1024)      // under the single-indirect block 4,
    case 8 => Full(0x22, 1024)      // the double-indirect blocks 6 and 7,
    case 12 => Full(0x33, 1024)     // and the triple-indirect blocks 9, 10 and 11
    case _ => Full(0, 1024)
  }

  lemma {:induction false} DeepIsOk()
    ensures Sound()
  {
    assert [DEEP.blocks, DEEP.flags, DEEP.reserved] + DEEP.iblock == [0, 0, 0, 0, 0, 0, 0, 0, 0, 0, 0, 0, 0, 0, 0, 4, 6, 9];
  }

  lemma {:induction false} DeepBlockSize(b: nat)
    requires Sound()
    ensures |DeepBlock(b)| == 1024
  {
    WordsSize(SUPER);
    HalvesSize(SUPER_HALVES);
    WordsSize(DESC);
    InodeSize(DEEP);
  }

  function DeepBlocks(): (blocks: seq<seq<byte>>)
    requires Sound()
    ensures |blocks| == 13
  {
    seq(13, b requires 0 <= b < 13 => DeepBlock(b))
  }

  // ---------- what it is ----------

  /** A partition with these blocks. */
  ghost predicate IsDeep(l: Layout) {
    && Sound() && l.spb == 2 && |l.part| == 13 * 1024
    && forall b: nat {:trigger DeepBlock(b)} :: b < 13 ==> l.part[1024 * b..1024 * b + 1024] == DeepBlock(b)
  }

  lemma {:induction false} PlaceOfDeep(l: Layout, b: nat)
    requires l.spb == 2 && b < 13
    ensures l.BlockPos(b) == 1024 * b
  {
    ProductIsTimes(b, 2);
    assert b % 0x1_0000_0000 == b && l.Sector(b) == 2 * b;
  }

  lemma {:induction false} BlockOfDeep(l: Layout, b: nat)
    requires IsDeep(l) && b < 13
    ensures |l.part| == 13 * 1024 && l.BlockPos(b) == 1024 * b && l.Has(b) && l.Block(b) == DeepBlock(b)
  {
    PlaceOfDeep(l, b);
    assert l.part[1024 * b..1024 * b + 1024] == DeepBlock(b);
  }

  lemma {:induction false} PartIsDeep(blocks: seq<seq<byte>>)
    requires Sound() && blocks == DeepBlocks()
    ensures IsDeep(Layout(Table(blocks), 2))
  {
    forall b: nat | b < 13 ensures |blocks[b]| == 1024 {
      DeepBlockSize(b);
    }
    LengthOfTable(blocks, 1024);
    forall b: nat | b < 13 ensures Table(blocks)[1024 * b..1024 * b + 1024] == DeepBlock(b) {
      RecordAt(blocks, 1024, b);
    }
  }

  lemma {:induction false} OneWord(w: nat)
    requires w < 0x1_0000_0000
    ensures AreWords([w]) && Words([w]) == Le32(w)
  {
    assert [w][..0] == [] && Words([w]) == [] + Le32(w);
  }

  /** The first word of an indirect block. */
  lemma {:induction false} FirstWord(l: Layout, b: nat)
    requires IsDeep(l) && b in {4, 6, 7, 9, 10, 11}
    ensures l.At(b, 0) == Some(b + 1)
  {
    BlockOfDeep(l, b);
    OneWord(b + 1);
    assert l.Block(b)[0..0 + 4] == Le32(b + 1);
    BlockOfPointers(l, b, [b + 1], 0);
  }

  lemma {:induction false} DeepPointers()
    requires DEEP.Ok()
    ensures var inode := DEEP.Encode();
      |inode| == INODE_SIZE && Pointer(inode, 12) == 4 && Pointer(inode, 13) == 6 && Pointer(inode, 14) == 9
  {
    PointersAreRead(DEEP, 12);
    PointersAreRead(DEEP, 13);
    PointersAreRead(DEEP, 14);
  }

  lemma {:induction false} DeepEntries(l: Layout)
    requires IsDeep(l)
    ensures l.Addrs() == 256 && l.At(4, 0) == Some(5) && l.At(6, 0) == Some(7) && l.At(7, 0) == Some(8)
    ensures l.At(9, 0) == Some(10) && l.At(10, 0) == Some(11) && l.At(11, 0) == Some(12)
  {
    FirstWord(l, 4);
    FirstWord(l, 6);
    FirstWord(l, 7);
    FirstWord(l, 9);
    FirstWord(l, 10);
    FirstWord(l, 11);
  }

  /** What is known of the inode and of the indirect blocks. */
  ghost predicate LeadsDeep(l: Layout, inode: seq<byte>) {
    && |inode| == INODE_SIZE && Pointer(inode, 12) == 4 && Pointer(inode, 13) == 6 && Pointer(inode, 14) == 9
    && l.spb == 2 && l.At(4, 0) == Some(5) && l.At(6, 0) == Some(7) && l.At(7, 0) == Some(8)
    && l.At(9, 0) == Some(10) && l.At(10, 0) == Some(11) && l.At(11, 0) == Some(12)
  }

  /** Blocks 12, 268 and 65804 of the file are the first under each indirect pointer. */
  lemma {:induction false} DeepTree(l: Layout, inode: seq<byte>)
    requires LeadsDeep(l, inode)
    ensures l.Lookup(inode, 12) == Some(5)
    ensures l.Lookup(inode, 268) == Some(8)
    ensures l.Lookup(inode, 65804) == Some(12)
  {
    SingleIs(l, inode, 0);
    UnderDouble(l, inode);
    UnderTriple(l, inode);
  }

  lemma {:induction false} UnderDouble(l: Layout, inode: seq<byte>)
    requires LeadsDeep(l, inode)
    ensures l.Lookup(inode, 268) == Some(8)
  {
    DoubleIs(l, inode, 256, 0, 0, 268);
  }

  lemma {:induction false} UnderTriple(l: Layout, inode: seq<byte>)
    requires LeadsDeep(l, inode)
    ensures l.Lookup(inode, 65804) == Some(12)
  {
    ProductIsTimes(256, 256);
    TripleIs(l, inode, 256, 0, 0, 0, 0, 65804);
  }

  /** The first byte of each of these blocks. */
  lemma {:induction false} FirstByteOf(l: Layout, inode: seq<byte>, n: nat, b: nat, v: byte)
    requires l.spb == 2 && |inode| == INODE_SIZE && l.Lookup(inode, n) == Some(b)
    requires b < 13 && |l.part| == 13 * 1024 && l.part[1024 * b] == v
    ensures ByteOf(l, inode, 1024 * n) == v && Mapped(l, inode, Quot(1024 * n, 1024))
  {
    WholeBlocks(n);
    PlaceOfDeep(l, b);
  }

  lemma {:induction false} WholeBlocks(n: nat)
    ensures Quot(1024 * n, 1024) == n && Rem(1024 * n, 1024) == 0
  {
    ProductIsTimes(n, 1024);
    Mixed(n, 0, 1024);
  }

  // ---------- a run ----------

  /** The superblock, and where it leads for inode 1. */
  lemma {:induction false} SuperOfDeep(l: Layout, sb: seq<byte>)
    requires IsDeep(l) && sb == l.part[1024..2048]
    ensures IsSuper(sb, SUPER, SUPER_HALVES) && U32(sb, 20) == 1 && U32(sb, 40) == 8 && U16(sb, 56) == MAGIC
  {
    BlockOfDeep(l, 1);
    WordsSize(SUPER);
    HalvesSize(SUPER_HALVES);
    var a, b := Words(SUPER), Halves(SUPER_HALVES);
    var c := Zeros(1024 - 58);
    assert sb == DeepBlock(1) == a + b + c;
    StandsBetween([], a, b + c);
    assert [] + a + (b + c) == a + b + c;
    StandsBetween(a, b, c);
    SuperIsRead(sb, SUPER, SUPER_HALVES);
  }

  lemma {:induction false} DescsOfDeep(l: Layout)
    requires IsDeep(l)
    ensures AreDescs(l.Block(2), [DESC]) && |l.Block(2)| == 1024
  {
    BlockOfDeep(l, 2);
    WordsSize(DESC);
    StandsBetween([], Words(DESC), Zeros(1024 - 32));
    assert [] + Words(DESC) + Zeros(1024 - 32) == DeepBlock(2);
  }

  /** Inode 1 is the first in block 3. */
  lemma {:induction false} TableOfDeep(l: Layout, sb: seq<byte>, descs: seq<byte>)
    requires l.spb == 2 && IsSuper(sb, SUPER, SUPER_HALVES) && U32(sb, 20) == 1 && U32(sb, 40) == 8
    requires |descs| == 1024 && AreDescs(descs, [DESC])
    ensures l.DescBlock(sb, 1) == 2 && l.TableBlock(sb, descs, 1) == 3
  {
    InodeIsFound(l, sb, SUPER, SUPER_HALVES, descs, [DESC], 0, 0, 0);
    assert Product(Product(0, 32) + 0, 8) + 0 + 1 == 1;
  }

  lemma {:induction false} InodeOfDeep(l: Layout, sb: seq<byte>)
    requires IsDeep(l) && IsSuper(sb, SUPER, SUPER_HALVES) && U32(sb, 20) == 1 && U32(sb, 40) == 8
    ensures l.HasInode(sb, 1) && l.InSlot(sb, 1, 0) == DEEP.Encode()
  {
    DescsOfDeep(l);
    BlockOfDeep(l, 2);
    TableOfDeep(l, sb, l.Block(2));
    BlockOfDeep(l, 3);
    InodeSize(DEEP);
    assert l.Block(3)[0..INODE_SIZE] == DEEP.Encode();
  }

  lemma {:induction false} ZerosBehind(block: seq<byte>, s: seq<byte>, q: nat)
    requires block == Padded(s, 1024) && |s| <= 4 * q && 4 * q + 4 <= 1024
    ensures U32(block, 4 * q) == 0
  {
    assert block[4 * q] == block[4 * q + 1] == block[4 * q + 2] == block[4 * q + 3] == 0;
  }

  /** No pointer under the double-indirect block is like an empty tag. */
  lemma {:induction false} DeepIsPlain(l: Layout, inode: seq<byte>)
    requires IsDeep(l) && |inode| == INODE_SIZE && Pointer(inode, 13) == 6
    ensures Unambiguous(l, inode)
  {
    FirstWord(l, 6);
    forall q: nat | q < l.Addrs() ensures l.At(6, q) != Some(-1) {
      if q > 0 { LaterWord(l, 6, q); }
    }
  }

  lemma {:induction false} LaterWord(l: Layout, b: nat, q: nat)
    requires IsDeep(l) && b == 6 && 0 < q < l.Addrs()
    ensures l.At(b, q) == Some(0)
  {
    BlockOfDeep(l, b);
    ZerosBehind(l.Block(b), Le32(b + 1), q);
  }

  /** What holds of the open inode from its loading on. */
  ghost predicate IsOpen(fs: Ext2Fs)
    reads fs, fs.dev, fs.mem
  {
    && fs.Valid() && fs.ContentOk() && IsDeep(fs.lay) && LeadsDeep(fs.lay, fs.Inode())
    && Unambiguous(fs.lay, fs.Inode()) && fs.dev.errnum == ErrNone && fs.dev.bad == {}
  }

  /** Mounts the partition and loads inode 1. */
  method OpenDeep() returns (fs: Ext2Fs)
    ensures IsOpen(fs) && fresh(fs) && fresh(fs.dev) && fresh(fs.mem)
  {
    DeepIsOk();
    var blocks := DeepBlocks();
    var part := Table(blocks);
    PartIsDeep(blocks);
    var dev := new Device(part, {}, 0, 26);
    fs := new Ext2Fs(dev, 2, -1, -1);
    assert dev.Part() == part;
    ghost var sb := part[1024..2048];
    SuperOfDeep(fs.lay, sb);
    U16OfSlice(part, 1024, 1024, 56);
    var ok := fs.Mount();
    InodeOfDeep(fs.lay, sb);
    ok := fs.LoadInode(1);
    DeepPointers();
    DeepEntries(fs.lay);
    DeepIsPlain(fs.lay, fs.Inode());
  }

  /** Byte `1024 * n` of the file, from wherever the file position was. */
  method ByteAt(fs: Ext2Fs, buf: array<byte>, n: nat, ghost b: nat, ghost v: byte)
    requires IsOpen(fs) && buf != fs.mem && buf.Length == 1 && 1024 * n < 0x7fff_ffff
    requires fs.lay.Lookup(fs.Inode(), n) == Some(b) && b < 13 && DeepBlock(b)[0] == v
    modifies fs`mapblock1, fs`mapblock2, fs`filepos, fs.dev`errnum, fs.mem, buf
    ensures IsOpen(fs) && fs.Inode() == old(fs.Inode()) && buf[0] == v
  {
    fs.filepos := 1024 * n;
    BlockOfDeep(fs.lay, b);
    FirstByteOf(fs.lay, fs.Inode(), n, b, v);
    assert fs.AllMapped(1024 * n, 1024 * n + 1);
    var ret := fs.Read(buf, 0, 1);
    assert IsByte(fs.lay, fs.Inode(), 1024 * n, fs.content(1024 * n));
    assert buf[0..0 + 1][0] == buf[0];
  }

  lemma {:induction false} FirstBytes()
    requires Sound()
    ensures |DeepBlock(5)| == |DeepBlock(8)| == |DeepBlock(12)| == 1024
    ensures DeepBlock(5)[0] == 0x11 && DeepBlock(8)[0] == 0x22 && DeepBlock(12)[0] == 0x33
  {
  }

  /** The first byte under each of the three indirect pointers. */
  method ReadsDeep() returns (single: byte, double: byte, triple: byte)
    ensures single == 0x11 && double == 0x22 && triple == 0x33
  {
    var fs := OpenDeep();
    var buf := new byte[1];
    FirstBytes();
    DeepTree(fs.lay, fs.Inode());
    ByteAt(fs, buf, 12, 5, 0x11);
    single := buf[0];
    ByteAt(fs, buf, 268, 8, 0x22);
    double := buf[0];
    ByteAt(fs, buf, 65804, 12, 0x33);
    triple := buf[0];
  }
}
