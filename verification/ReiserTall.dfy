/** A partition with a ReiserFS tree of an internal node and two leaves, and a run that reads across
    two blocks of a file that an indirect item lists. */
module ReiserTall {
  import opened Disk
  import opened Division
  import opened Encoding
  import opened ReiserNode
  import opened ReiserTree
  import opened ReiserFile
  import opened ReiserFormat
  import opened ReiserReader
  import opened ReiserPlain
  import ReiserJournal

  const NONE: Key := Key(0, 0, 0, 0)
  const SEPARATOR: Key := Key(2, 5, 1, 0)
  const LAST: Key := Key(0, 9, 0, 0)
  const STAT: Item := Item(Key(2, 5, 0, 0), 0, [])
  const LIST: Item := Item(Key(2, 5, 1, 0xffff_fffe), 0, [4, 0, 0, 0, 5, 0, 0, 0])   // blocks 4 and 5
  const STAT_HEAD: Head := Head(STAT.key, 0, 0, 48, 0)
  const LIST_HEAD: Head := Head(LIST.key, 0, 8, 48, 0)
  const KIDS: seq<Child> := [Child(2, 48, 0), Child(3, 56, 0)]

  // ---------- the blocks ----------

  function RootBytes(): seq<byte> {
    EncodeHead(2, 1, 0, 0, NONE) + Table(Keys([SEPARATOR])) + Table(Children(KIDS))
  }

  function StatBytes(): seq<byte> {
    EncodeHead(1, 1, 0, 0, SEPARATOR) + Table(Heads([STAT_HEAD]))
  }

  function ListBytes(): seq<byte> {
    EncodeHead(1, 1, 0, 0, LAST) + Table(Heads([LIST_HEAD])) + LIST.body
  }

  lemma {:induction false} HeadSize(level: nat, nr: nat, free: nat, pad: nat, delim: Key)
    requires AreHalves([level, nr, free, pad]) && KeyOk(delim)
    ensures |EncodeHead(level, nr, free, pad, delim)| == 24
  {
    HalvesSize([level, nr, free, pad]);
    WordsSize([delim.dir, delim.obj, delim.offset, delim.uniq]);
  }

  lemma {:induction false} OneItemHead(h: Head)
    requires h.Ok()
    ensures |Table(Heads([h]))| == 24
  {
    var records := Heads([h]);
    WordsSize([h.key.dir, h.key.obj, h.key.offset, h.key.uniq]);
    HalvesSize([h.count, h.len, h.location, h.version]);
    Encoding.LengthOfTable(records, 24);
  }

  lemma {:induction false} RootTables()
    ensures |Table(Keys([SEPARATOR]))| == 16 && |Table(Children(KIDS))| == 16
  {
    WordsSize([SEPARATOR.dir, SEPARATOR.obj, SEPARATOR.offset, SEPARATOR.uniq]);
    Encoding.LengthOfTable(Keys([SEPARATOR]), 16);
    forall k | 0 <= k < 2 ensures |Children(KIDS)[k]| == 8 {
      WordsSize([KIDS[k].number]);
      HalvesSize([KIDS[k].size, KIDS[k].pad]);
    }
    Encoding.LengthOfTable(Children(KIDS), 8);
  }

  lemma {:induction false} Sizes()
    ensures |RootBytes()| == 56 && |StatBytes()| == 48 && |ListBytes()| == 56
  {
    HeadSize(2, 1, 0, 0, NONE);
    HeadSize(1, 1, 0, 0, SEPARATOR);
    HeadSize(1, 1, 0, 0, LAST);
    RootTables();
    OneItemHead(STAT_HEAD);
    OneItemHead(LIST_HEAD);
  }

  /** Blocks 0 to 5: nothing, the root, the two leaves, and the data. */
  function Part(): (part: seq<byte>)
    ensures |part| == 6 * SECTOR_SIZE
  {
    Sizes();
    Zeros(SECTOR_SIZE) + Padded(RootBytes()) + Padded(StatBytes()) + Padded(ListBytes()) + Full(65) + Full(66)
  }

  lemma {:induction false} SixBlocks(a: seq<byte>, b: seq<byte>, c: seq<byte>, d: seq<byte>, e: seq<byte>, f: seq<byte>)
    requires |a| == |b| == |c| == |d| == |e| == |f| == SECTOR_SIZE
    ensures var p := a + b + c + d + e + f;
      Block(p, 1) == b && Block(p, 2) == c && Block(p, 3) == d && Block(p, 4) == e && Block(p, 5) == f
  {
  }

  lemma {:induction false} Blocks()
    ensures |RootBytes()| == 56 && |StatBytes()| == 48 && |ListBytes()| == 56
    ensures Block(Part(), 1) == Padded(RootBytes()) && Block(Part(), 2) == Padded(StatBytes())
    ensures Block(Part(), 3) == Padded(ListBytes()) && Block(Part(), 4) == Full(65) && Block(Part(), 5) == Full(66)
  {
    Sizes();
    SixBlocks(Zeros(SECTOR_SIZE), Padded(RootBytes()), Padded(StatBytes()), Padded(ListBytes()), Full(65), Full(66));
  }

  // ---------- what is read ----------

  lemma {:induction false} RootIsInternal()
    ensures |RootBytes()| == 56
    ensures IsInternal(Padded(RootBytes()), 2, 0, 0, NONE, [SEPARATOR], KIDS)
  {
    Sizes();
    HeadSize(2, 1, 0, 0, NONE);
    RootTables();
    var block, a, b, c := Padded(RootBytes()), EncodeHead(2, 1, 0, 0, NONE), Table(Keys([SEPARATOR])), Table(Children(KIDS));
    assert block == a + b + c + Zeros(SECTOR_SIZE - 56);
    assert block[0..0 + |block|] == block;
    FourPieces(block, 0, a, b, c, Zeros(SECTOR_SIZE - 56));
  }

  lemma {:induction false} RootIsRead()
    ensures |RootBytes()| == 56
    ensures var n := Decode(Padded(RootBytes())); n.level == 2 && n.keys == [SEPARATOR] && n.children == [2, 3]
  {
    RootIsInternal();
    InternalIsRead(Padded(RootBytes()), 2, 0, 0, NONE, [SEPARATOR], KIDS);
    var n := Decode(Padded(RootBytes()));
    assert n.children[0] == KIDS[0].number && n.children[1] == KIDS[1].number;
  }

  lemma {:induction false} StatIsRead()
    ensures |StatBytes()| == 48
    ensures var n := Decode(Padded(StatBytes())); n.level == 1 && n.items == [STAT]
  {
    Sizes();
    HeadSize(1, 1, 0, 0, SEPARATOR);
    OneItemHead(STAT_HEAD);
    var block, a, b := Padded(StatBytes()), EncodeHead(1, 1, 0, 0, SEPARATOR), Table(Heads([STAT_HEAD]));
    assert block == a + b + [] + Zeros(SECTOR_SIZE - 48);
    assert block[0..0 + |block|] == block;
    FourPieces(block, 0, a, b, [], Zeros(SECTOR_SIZE - 48));
    LeafIsRead(block, 0, 0, SEPARATOR, [STAT_HEAD], [[]]);
  }

  lemma {:induction false} ListIsRead()
    ensures |ListBytes()| == 56
    ensures var n := Decode(Padded(ListBytes())); n.level == 1 && n.items == [LIST] && n.rightDelim == LAST
  {
    Sizes();
    HeadSize(1, 1, 0, 0, LAST);
    OneItemHead(LIST_HEAD);
    var block, a, b := Padded(ListBytes()), EncodeHead(1, 1, 0, 0, LAST), Table(Heads([LIST_HEAD]));
    assert block == a + b + LIST.body + Zeros(SECTOR_SIZE - 56);
    assert block[0..0 + |block|] == block;
    FourPieces(block, 0, a, b, LIST.body, Zeros(SECTOR_SIZE - 56));
    LeafIsRead(block, 0, 0, LAST, [LIST_HEAD], [LIST.body]);
  }

  // ---------- the tree and the file ----------

  ghost predicate IsTall(node: nat -> Node, b: nat) {
    && node(b).level == 2 && node(b).keys == [SEPARATOR] && node(b).children == [2, 3]
    && node(2).level == 1 && node(2).items == [STAT]
    && node(3).level == 1 && node(3).items == [LIST] && node(3).rightDelim == LAST
  }

  lemma {:induction false} TreeIsTall(node: nat -> Node, b: nat)
    requires IsTall(node, b)
    ensures WellFormed(node, b, 2) && Items(node, b, 2) == [STAT, LIST] && LastLeaf(node, b, 2) == 3
  {
    assert WellFormed(node, 2, 1) && WellFormed(node, 3, 1);
    assert ItemsFrom(node, b, 2, 2) == [] && ItemsFrom(node, b, 2, 1) == [LIST] + [];
    assert ItemsFrom(node, b, 2, 0) == [STAT] + ([LIST] + []);
    assert LastLeaf(node, 3, 1) == 3;
  }

  lemma {:induction false} TallIsOrdered(node: nat -> Node, b: nat)
    requires IsTall(node, b)
    ensures Ordered(node, b, 2)
  {
    assert Items(node, 2, 1) == [STAT] && Items(node, 3, 1) == [LIST];
    assert Ordered(node, 2, 1) && Ordered(node, 3, 1);
  }

  function TheVolume(): (v: Volume)
    ensures v.sectors == 1
  {
    Volume(Part(), 1)
  }

  ghost function TheFile(): File {
    File(2, 5, [], [STAT, LIST], [], (pos: nat) => TheVolume().ByteOf([STAT, LIST], pos))
  }

  lemma {:induction false} ListPointers(q: nat)
    requires q < 2
    ensures Pointer(LIST, q) == 4 + q
  {
    assert Le32(4) == [4, 0, 0, 0] && Le32(5) == [5, 0, 0, 0] && [4, 5][..1] == [4];
    assert Words([4, 5]) == LIST.body;
    PointersAreRead(LIST, [4, 5], q);
  }

  /** Byte `k` of the item lies in block 4 or block 5. */
  lemma {:induction false} ListByte(k: nat)
    requires k < 1024
    ensures TheVolume().Span(LIST) == 1024 && TheVolume().ItemByte(LIST, k) == if k < 512 then 65 else 66
  {
    var v := TheVolume();
    assert Product(2, 512) == 1024;
    var q, r := k / 512, k % 512;
    assert Quot(k, 512) == q && Rem(k, 512) == r;
    ListPointers(q);
    Blocks();
    ByteInBlock(4 + q, r);
  }

  lemma {:induction false} ByteInBlock(b: nat, r: nat)
    requires b < 6 && r < 512
    ensures TheVolume().BlockByte(b, r) == Block(Part(), b)[r]
  {
    ProductIsTimes(b, 1);
    assert ReiserJournal.BlockPos(b, 1) == b * SECTOR_SIZE;
  }

  lemma {:induction false} IsTheFile()
    ensures TheVolume().IsFile([STAT, LIST], 2, 5) && TheVolume().Size([STAT, LIST]) == 1024
    ensures forall i :: 0 <= i < 1024 ==> TheVolume().ByteOf([STAT, LIST], i) == if i < 512 then 65 else 66
  {
    var v, items := TheVolume(), [STAT, LIST];
    ListByte(0);
    assert v.Before(items, 0) == 0 && v.Before(items, 1) == 0 && v.Before(items, 2) == 1024;
    assert v.Follows(items, 5, 1);
    forall i | 0 <= i < 1024 ensures v.ByteOf(items, i) == if i < 512 then 65 else 66 {
      ByteOfItem(v, items, 2, 1, i);
      ListByte(i);
    }
  }

  lemma {:induction false} HasTheFile(c: Cursor)
    requires c.store.dev.Valid() && Vol(c.store) == TheVolume() && c.treeDepth == 2 && IsTall(c.store.node, c.root)
    ensures HasFile(c, TheFile())
  {
    var f := TheFile();
    IsTheFile();
    TreeIsTall(c.store.node, c.root);
    TallIsOrdered(c.store.node, c.root);
    assert [] + [STAT, LIST] + [] == [STAT, LIST];
    assert Holds(c, f, Sorted) && Holds(c, f, Laid) && Holds(c, f, Placed) && Holds(c, f, Apart) && Holds(c, f, Valued);
  }

  // ---------- the run ----------

  /** The cursor on the tree, before anything has been searched. */
  method OpenTree() returns (c: Cursor)
    ensures fresh(c) && fresh(c.store) && fresh(c.store.dev) && fresh(c.slots) && fresh(c.blocks) && fresh(c.nextKeyNr)
    ensures fresh(c.store.journal) && fresh(c.store.journal.table)
    ensures c.store.Fine() && c.store.Sound() && Mounted(c.store) && Vol(c.store) == TheVolume()
    ensures c.Shape() && c.CacheOk() && c.treeDepth == 2 && IsTall(c.store.node, c.root)
  {
    var store := Mount(Part(), 6);
    NodesAreRead(store);
    TreeIsTall(store.node, 1);
    var ok, root := store.BlockRead(1);
    c := new Cursor(store, 1, root, 47);
  }

  lemma {:induction false} NodesAreRead(store: BlockStore)
    requires Mounted(store) && Vol(store) == TheVolume() && store.journal.log == []
    ensures IsTall(store.node, 1)
  {
    Blocks();
    NodeOf(store, Part(), 1);
    NodeOf(store, Part(), 2);
    NodeOf(store, Part(), 3);
    RootIsRead();
    StatIsRead();
    ListIsRead();
  }

  /** Finds the stat item of the file, in the first leaf. */
  method FindFile() returns (c: Cursor)
    ensures fresh(c) && fresh(c.store) && fresh(c.store.dev) && fresh(c.slots) && fresh(c.blocks) && fresh(c.nextKeyNr)
    ensures Ready(c) && HasFile(c, TheFile()) && c.store.dev.Valid() && Vol(c.store) == TheVolume()
    ensures c.store.Fine() && c.store.Sound()
  {
    c := OpenTree();
    HasTheFile(c);
    HasItsStat(c, TheFile());
    TallIsOrdered(c.store.node, c.root);
    var _ := c.SearchStat(2, 5);
    StillReady(c);
  }

  /** Reads the last byte of its first block and the first of its second. */
  method ReadsAcross() returns (text: seq<byte>)
    ensures text == [65, 66]
  {
    var c := FindFile();
    var reader := new Reader(c, 2, 5);
    reader.filepos := 511;
    var buffer := new byte[2];
    IsTheFile();
    var n := reader.ReadFile(TheFile(), buffer, 0, 2);
    text := buffer[..];
    assert text == buffer[0..2];
  }
}
