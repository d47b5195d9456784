/** The structures of ext2 as fs/grub/fsys_ext2fs.c declares them, laid out field by field, against what
    the reader takes from them. */
module Ext2Format {
  import opened Disk
  import opened Division
  import opened Ext2
  import opened Encoding

  // ---------- structures ----------

  /** struct ext2_inode: the fields before i_block, the fifteen pointers, and the rest. */
  datatype RawInode = RawInode(mode: nat, uid: nat, size: nat, atime: nat, ctime: nat, mtime: nat, dtime: nat, gid: nat,
    links: nat, blocks: nat, flags: nat, reserved: nat, iblock: seq<int>, rest: seq<byte>)
  {
    predicate Ok() {
      && AreHalves([mode, uid]) && AreWords([size, atime, ctime, mtime, dtime]) && AreHalves([gid, links])
      && AreWords([blocks, flags, reserved] + iblock) && |iblock| == 15 && |rest| == 28
    }

    function Encode(): seq<byte>
      requires Ok()
    {
      Halves([mode, uid]) + Words([size, atime, ctime, mtime, dtime]) + Halves([gid, links])
        + (Words([blocks, flags, reserved] + iblock) + rest)
    }
  }

  lemma {:induction false} InodeSize(raw: RawInode)
    requires raw.Ok()
    ensures |raw.Encode()| == INODE_SIZE
  {
    HalvesSize([raw.mode, raw.uid]);
    WordsSize([raw.size, raw.atime, raw.ctime, raw.mtime, raw.dtime]);
    HalvesSize([raw.gid, raw.links]);
    WordsSize([raw.blocks, raw.flags, raw.reserved] + raw.iblock);
  }

  /** All fifteen pointers are read each from its own place. */
  lemma {:induction false} PointersAreRead(raw: RawInode, i: nat)
    requires raw.Ok() && i < 15
    ensures |raw.Encode()| == INODE_SIZE && Pointer(raw.Encode(), i) == Signed(raw.iblock[i])
  {
    InodeSize(raw);
    var s, ws := raw.Encode(), [raw.blocks, raw.flags, raw.reserved] + raw.iblock;
    var a, b, c := Halves([raw.mode, raw.uid]), Words([raw.size, raw.atime, raw.ctime, raw.mtime, raw.dtime]),
      Halves([raw.gid, raw.links]);
    HalvesSize([raw.mode, raw.uid]);
    WordsSize([raw.size, raw.atime, raw.ctime, raw.mtime, raw.dtime]);
    HalvesSize([raw.gid, raw.links]);
    assert s[0..0 + |s|] == s;
    FourPieces(s, 0, a, b, c, Words(ws) + raw.rest);
    StandsBetween([], Words(ws), raw.rest);
    assert [] + Words(ws) + raw.rest == Words(ws) + raw.rest;
    StandsWithin(s, 28, Words(ws) + raw.rest, 0, Words(ws));
    WordsAreRead(s, 28, ws, 3 + i);
  }

  /** A block of pointers. */
  lemma {:induction false} BlockOfPointers(l: Layout, b: int, ws: seq<int>, k: nat)
    requires l.Valid() && l.Has(b) && AreWords(ws) && k < |ws| && k < l.Addrs() && Stands(l.Block(b), 0, Words(ws))
    ensures l.At(b, k) == Some(Signed(ws[k]))
  {
    WordsAreRead(l.Block(b), 0, ws, k);
  }

  /** The superblock: its first thirteen words, and the halves up to the magic. */
  ghost predicate IsSuper(sb: seq<byte>, ws: seq<int>, hs: seq<int>) {
    |sb| == SUPERBLOCK_SIZE && |ws| == 13 && |hs| == 3 && AreWords(ws) && AreHalves(hs)
      && Stands(sb, 0, Words(ws)) && Stands(sb, 52, Halves(hs))
  }

  /** s_first_data_block is its sixth word, s_inodes_per_group the eleventh, s_magic the third half. */
  lemma {:induction false} SuperIsRead(sb: seq<byte>, ws: seq<int>, hs: seq<int>)
    requires IsSuper(sb, ws, hs)
    ensures U32(sb, 20) == ws[5] && U32(sb, 40) == ws[10] && U16(sb, 56) == hs[2]
  {
    WordsAreRead(sb, 0, ws, 5);
    WordsAreRead(sb, 0, ws, 10);
    HalvesAreRead(sb, 52, hs, 2);
  }

  /** struct ext2_group_desc, as eight words; the third is bg_inode_table. */
  ghost predicate AreDescs(descs: seq<byte>, ds: seq<seq<int>>) {
    && (forall i :: 0 <= i < |ds| ==> |ds[i]| == 8 && AreWords(ds[i]))
    && forall i :: 0 <= i < |ds| ==> Stands(descs, 32 * i, Words(ds[i]))
  }

  /** Inode `i` of group `g` is led to by the right descriptor, and stands in the table at its place. */
  lemma {:induction false} InodeIsFound(l: Layout, sb: seq<byte>, ws: seq<int>, hs: seq<int>, descs: seq<byte>, ds: seq<seq<int>>,
      x: nat, y: nat, i: nat)
    requires l.Valid() && IsSuper(sb, ws, hs) && |descs| == l.BlockSize() && AreDescs(descs, ds)
    requires U32(sb, 40) > 0 && i < ws[10] && y < 16 * l.spb && y < |ds|
    ensures var ino := Product(Product(x, 16 * l.spb) + y, ws[10]) + i + 1;
      && l.DescBlock(sb, ino) == Signed32(1 + x + ws[5])
      && l.TableBlock(sb, descs, ino) == Signed32(ds[y][2] + Quot(i, 4 * l.spb))
  {
    SuperIsRead(sb, ws, hs);
    var g := Product(x, 16 * l.spb) + y;
    Mixed(g, i, ws[10]);
    Mixed(x, y, 16 * l.spb);
    WordsAreRead(descs, 32 * y, ds[y], 2);
  }

  // ---------- the pointer tree ----------

  /** Behind the twelve direct blocks of a file come those under the single-indirect block, ... */
  lemma {:induction false} SingleIs(l: Layout, inode: seq<byte>, z: nat)
    requires l.Valid() && |inode| == INODE_SIZE && z < l.Addrs()
    ensures l.Lookup(inode, 12 + z) == l.At(Pointer(inode, 12), z)
  {
  }

  /** ... under the double-indirect one, row by row, ... */
  lemma {:induction false} DoubleIs(l: Layout, inode: seq<byte>, a: nat, y: nat, z: nat, n: nat)
    requires l.Valid() && |inode| == INODE_SIZE && a == l.Addrs() && y < a && z < a && n == 12 + a + (Product(y, a) + z)
    ensures l.Lookup(inode, n) == l.Through(l.At(Pointer(inode, 13), y), z)
  {
    RowBelow(y, z, a);
    Mixed(y, z, a);
    assert l.DoubleIndex(n) == y && l.DoubleRest(n) == z;
  }

  lemma {:induction false} ThreeLevels(x: nat, y: nat, z: nat, a: nat, n: nat)
    requires y < a && z < a && n == Product(Product(x, a) + y, a) + z
    ensures Quot(Quot(n, a), a) == x && Rem(Quot(n, a), a) == y && Rem(n, a) == z
  {
    Mixed(Product(x, a) + y, z, a);
    Mixed(x, y, a);
  }

  lemma {:induction false} TripleOf(l: Layout, inode: seq<byte>, a: nat, x: nat, y: nat, z: nat, n: nat)
    requires l.Valid() && |inode| == INODE_SIZE && a == l.Addrs() && y < a && z < a && n == Product(Product(x, a) + y, a) + z
    ensures l.Triple(inode, n) == l.Through(l.Through(l.At(Pointer(inode, 14), x), y), z)
  {
    ThreeLevels(x, y, z, a, n);
  }

  /** ... and under the triple-indirect one. */
  lemma {:induction false} TripleIs(l: Layout, inode: seq<byte>, a: nat, x: nat, y: nat, z: nat, m: nat, n: nat)
    requires l.Valid() && |inode| == INODE_SIZE && a == l.Addrs() && y < a && z < a && m == Product(Product(x, a) + y, a) + z
    requires n == 12 + a + Product(a, a) + m
    ensures l.Lookup(inode, n) == l.Through(l.Through(l.At(Pointer(inode, 14), x), y), z)
  {
    TripleOf(l, inode, a, x, y, z, m);
    FileTripleIs(l, inode, n, m);
  }

  lemma {:induction false} RowBelow(y: nat, z: nat, a: nat)
    requires y < a && z < a
    ensures Product(y, a) + z < Product(a, a)
  {
    RowsBelow(y, a, a);
  }

  lemma {:induction false} RowsBelow(y: nat, m: nat, a: nat)
    requires y < m
    ensures Product(y, a) + a <= Product(m, a)
  {
    if y < m - 1 { RowsBelow(y, m - 1, a); }
  }
}
