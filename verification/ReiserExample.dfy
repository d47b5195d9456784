/** A partition with a ReiserFS tree of one leaf, and a run that reads the file in it. */
module ReiserExample {
  import opened Disk
  import opened Division
  import opened Content
  import opened ReiserNode
  import opened ReiserTree
  import opened ReiserFile
  import opened ReiserReader
  import opened ReiserPlain

  const HELLO: seq<byte> := [104, 101, 108, 108, 111]

  /** Byte `i` of the leaf: two items, the stat item of object 5 and a direct item of five bytes. */
  function LeafByte(i: nat): byte {
    match i
    case 0 => 1                                          // blk_level
    case 2 => 2                                          // blk_nr_item
    case 12 => 9                                         // blk_right_delim_key
    case 24 => 2 case 28 => 5                            // the stat item's key
    case 48 => 2 case 52 => 5 case 56 => 1               // the direct item's
    case 60 => 0xff case 61 => 0xff case 62 => 0xff case 63 => 0xff
    case 66 => 5 case 68 => 100                          // its length and place
    case _ => if 100 <= i < 105 then HELLO[i - 100] else 0
  }

  function Leaf(): (block: seq<byte>)
    ensures |block| == SECTOR_SIZE
  {
    seq<byte>(SECTOR_SIZE, i requires 0 <= i => LeafByte(i))
  }

  /** The partition: one block in front, and the leaf. */
  function Part(): (part: seq<byte>)
    ensures |part| == 2 * SECTOR_SIZE
  {
    seq<byte>(SECTOR_SIZE, _ => 0) + Leaf()
  }

  const STAT: Item := Item(Key(2, 5, 0, 0), 0, [])
  const BODY: Item := Item(Key(2, 5, 1, 0xffff_ffff), 0, HELLO)

  lemma {:induction false} LeafWord(i: nat)
    requires i + 4 <= SECTOR_SIZE
    ensures WordAt(Leaf(), i) == LeafByte(i) + 0x100 * LeafByte(i + 1) + 0x1_0000 * LeafByte(i + 2) + 0x100_0000 * LeafByte(i + 3)
  {
  }

  lemma {:induction false} LeafHalf(i: nat)
    requires i + 2 <= SECTOR_SIZE
    ensures Half(Leaf(), i) == LeafByte(i) + 0x100 * LeafByte(i + 1)
  {
  }

  lemma {:induction false} LeafKey(i: nat)
    requires i in {8, 24, 48}
    ensures KeyAt(Leaf(), i) == if i == 8 then Key(0, 9, 0, 0) else if i == 24 then STAT.key else BODY.key
  {
    LeafWord(i);
    LeafWord(i + 4);
    LeafWord(i + 8);
    LeafWord(i + 12);
  }

  lemma {:induction false} LeafItem(i: nat)
    requires i in {24, 48}
    ensures ItemAt(Leaf(), i) == if i == 24 then STAT else BODY
  {
    LeafKey(i);
    LeafHalf(i + 18);
    LeafHalf(i + 20);
    LeafHalf(i + 22);
    assert Bytes(Leaf(), 100, 5) == HELLO;
    assert Bytes(Leaf(), 0, 0) == [];
  }

  lemma {:induction false} TwoItems(block: seq<byte>, a: Item, b: Item)
    requires Half(block, 0) == 1 && Half(block, 2) == 2 && ItemAt(block, 24) == a && ItemAt(block, 48) == b
    ensures Decode(block).level == 1 && Decode(block).items == [a, b] && Decode(block).rightDelim == KeyAt(block, 8)
  {
    var n := Decode(block);
    assert |n.items| == 2 && n.items[0] == a && n.items[1] == b;
  }

  lemma {:induction false} LeafNode()
    ensures var n := Decode(Leaf());
      n.level == 1 && n.items == [STAT, BODY] && n.rightDelim == Key(0, 9, 0, 0)
  {
    LeafHalf(0);
    LeafHalf(2);
    LeafKey(8);
    LeafItem(24);
    LeafItem(48);
    TwoItems(Leaf(), STAT, BODY);
  }

  // ---------- the file ----------

  /** The volume, and the file as it lies in the tree. */
  function TheVolume(): (v: Volume)
    ensures v.sectors == 1
  {
    Volume(Part(), 1)
  }

  ghost function TheFile(): File {
    File(2, 5, [], [STAT, BODY], [], (pos: nat) => TheVolume().ByteOf([STAT, BODY], pos))
  }

  lemma {:induction false} IsTheFile()
    ensures TheVolume().IsFile([STAT, BODY], 2, 5) && TheVolume().Size([STAT, BODY]) == 5
    ensures forall i :: 0 <= i < 5 ==> TheVolume().ByteOf([STAT, BODY], i) == HELLO[i]
  {
    var v, items := TheVolume(), [STAT, BODY];
    assert v.Before(items, 0) == 0 && v.Before(items, 1) == 0 && v.Before(items, 2) == 5;
    assert v.Follows(items, 5, 1);
    forall i | 0 <= i < 5 ensures v.ByteOf(items, i) == HELLO[i] {
      ByteOfItem(v, items, 2, 1, i);
    }
  }

  /** The tree is the leaf. */
  ghost predicate IsLeaf(node: nat -> Node, b: nat) {
    node(b).level == 1 && node(b).items == [STAT, BODY] && node(b).rightDelim == Key(0, 9, 0, 0)
  }

  lemma {:induction false} TreeIsLeaf(node: nat -> Node, b: nat)
    requires IsLeaf(node, b)
    ensures WellFormed(node, b, 1) && Ordered(node, b, 1) && Items(node, b, 1) == [STAT, BODY] && LastLeaf(node, b, 1) == b
  {
  }

  lemma {:induction false} HasTheFile(c: Cursor)
    requires c.store.dev.Valid() && Vol(c.store) == TheVolume() && c.treeDepth == 1 && IsLeaf(c.store.node, c.root)
    ensures HasFile(c, TheFile())
  {
    var f := TheFile();
    IsTheFile();
    TreeIsLeaf(c.store.node, c.root);
    assert [] + [STAT, BODY] + [] == [STAT, BODY];
    assert Holds(c, f, Sorted) && Holds(c, f, Laid) && Holds(c, f, Placed) && Holds(c, f, Apart) && Holds(c, f, Valued);
  }

  // ---------- the run ----------

  /** The cursor on the tree, before anything has been searched. */
  method OpenTree() returns (c: Cursor)
    ensures fresh(c) && fresh(c.store) && fresh(c.store.dev) && fresh(c.slots) && fresh(c.blocks) && fresh(c.nextKeyNr)
    ensures fresh(c.store.journal) && fresh(c.store.journal.table)
    ensures c.store.Valid() && c.store.Fine() && c.store.Sound() && Mounted(c.store) && Vol(c.store) == TheVolume()
    ensures c.Shape() && c.CacheOk() && c.treeDepth == 1 && IsLeaf(c.store.node, c.root)
  {
    var store := Mount(Part(), 2);
    NodeOf(store, Part(), 1);
    assert Block(Part(), 1) == Leaf();
    LeafNode();
    TreeIsLeaf(store.node, 1);
    var ok, root := store.BlockRead(1);
    c := new Cursor(store, 1, root, 47);
  }

  /** Finds the stat item of the file. */
  method FindHello() returns (c: Cursor)
    ensures fresh(c) && fresh(c.store) && fresh(c.store.dev) && fresh(c.slots) && fresh(c.blocks) && fresh(c.nextKeyNr)
    ensures Ready(c) && HasFile(c, TheFile()) && c.store.dev.Valid() && Vol(c.store) == TheVolume()
    ensures c.store.Fine() && c.store.Sound()
  {
    c := OpenTree();
    HasTheFile(c);
    HasItsStat(c, TheFile());
    TreeIsLeaf(c.store.node, c.root);
    var _ := c.SearchStat(2, 5);
    StillReady(c);
  }

  /** Reads it. */
  method ReadsHello() returns (text: seq<byte>)
    ensures text == HELLO
  {
    var c := FindHello();
    var reader := new Reader(c, 2, 5);
    var buffer := new byte[5];
    IsTheFile();
    var n := reader.ReadFile(TheFile(), buffer, 0, 5);
    text := buffer[..];
    assert text == buffer[0..5];
  }
}
