/** The formatted blocks of the ReiserFS tree, as fs/grub/fsys_reiserfs.c takes them apart, read
    through the journal. */
module ReiserNode {
  import opened Disk
  import ReiserJournal

  const LEAF_LEVEL: nat := 1
  const BLKH_SIZE: nat := 24     // sizeof (struct block_head)
  const KEY_SIZE: nat := 16
  const DC_SIZE: nat := 8        // sizeof (struct disk_child)
  const IH_SIZE: nat := 24       // sizeof (struct item_head)

  /** A key, by its four words; what the last two mean depends on the version of the item. */
  datatype Key = Key(dir: nat, obj: nat, offset: nat, uniq: nat)

  /** An item, by its head and its body. */
  datatype Item = Item(key: Key, version: nat, body: seq<byte>)

  /** A block, both as an internal node with its keys and children and as a leaf with its items. */
  datatype Node = Node(level: nat, keys: seq<Key>, children: seq<nat>, items: seq<Item>, rightDelim: Key) {
    function NrItem(): nat {
      if level == LEAF_LEVEL then |items| else |keys|
    }

    /** Child `i`; what lies behind the last one is anything. */
    function Child(i: nat): nat {
      if i < |children| then children[i] else 0
    }

    /** The key of item `i`, likewise. */
    function Head(i: nat): Key {
      if i < |items| then items[i].key else rightDelim
    }
  }

  // ---------- taking a block apart ----------

  /** The byte at `i`; what lies behind the block is anything. */
  function ByteAt(block: seq<byte>, i: nat): byte {
    if i < |block| then block[i] else 0
  }

  function Half(block: seq<byte>, i: nat): nat {
    (ByteAt(block, i) as int) + 0x100 * (ByteAt(block, i + 1) as int)
  }

  function WordAt(block: seq<byte>, i: nat): nat {
    Half(block, i) + 0x1_0000 * Half(block, i + 2)
  }

  function KeyAt(block: seq<byte>, i: nat): Key {
    Key(WordAt(block, i), WordAt(block, i + 4), WordAt(block, i + 8), WordAt(block, i + 12))
  }

  function Bytes(block: seq<byte>, at: nat, len: nat): (s: seq<byte>)
    ensures |s| == len
  {
    seq<byte>(len, k requires 0 <= k => ByteAt(block, at + k))
  }

  function ItemAt(block: seq<byte>, i: nat): Item {
    Item(KeyAt(block, i), Half(block, i + 22), Bytes(block, Half(block, i + 20), Half(block, i + 18)))
  }

  function Decode(block: seq<byte>): (n: Node)
    ensures |n.keys| == |n.items| == n.NrItem() && |n.children| == n.NrItem() + 1
  {
    var nr := Half(block, 2);
    Node(Half(block, 0),
      seq(nr, i requires 0 <= i => KeyAt(block, BLKH_SIZE + KEY_SIZE * i)),
      seq(nr + 1, i requires 0 <= i => WordAt(block, BLKH_SIZE + KEY_SIZE * nr + DC_SIZE * i)),
      seq(nr, i requires 0 <= i => ItemAt(block, BLKH_SIZE + IH_SIZE * i)),
      KeyAt(block, 8))
  }

  /** The node in block `nr` of the partition; of level 0, which no node has, if there is no such
      block. */
  function NodeIn(part: seq<byte>, nr: nat, sectors: nat): Node {
    var p := ReiserJournal.BlockPos(nr, sectors);
    if 0 <= p && p + sectors * SECTOR_SIZE <= |part| then Decode(part[p..p + sectors * SECTOR_SIZE])
    else Node(0, [], [0], [], Key(0, 0, 0, 0))
  }

  // ---------- reading blocks ----------

  /** The tree's view of `block_read`: whole blocks, by way of the journal. */
  class BlockStore {
    const dev: Device
    const journal: ReiserJournal.Journal
    ghost const node: nat -> Node     // the newest committed copy of each block

    constructor (journal: ReiserJournal.Journal)
      requires journal.Valid() && journal.Bounded()
      ensures this.journal == journal && dev == journal.dev && Valid()
    {
      this.journal, dev := journal, journal.dev;
      ghost var resolve, part, sectors := journal.Resolver(), journal.dev.Part(), journal.blockSectors;
      node := (nr: nat) => NodeIn(part, resolve(nr), sectors);
    }

    ghost predicate Valid()
      reads journal, dev, journal.table
    {
      && dev == journal.dev && journal.Valid() && journal.Bounded()
      && forall nr: nat :: Reads(nr)
    }

    /** Node `nr` is the one in the newest committed copy of block `nr`. */
    ghost predicate Reads(nr: nat)
      requires journal.dev.Valid() && journal.journalTransactions <= |journal.log|
      requires journal.log != [] ==> journal.journalBlockCount > 0
      reads journal
    {
      node(nr) == NodeIn(journal.dev.Part(), journal.Resolve(nr), journal.blockSectors)
    }

    /** No error is pending. */
    predicate Fine()
      reads dev
    {
      dev.errnum == ErrNone
    }

    /** Every sector of the partition can be read, and the whole journal lies in it. */
    ghost predicate Sound() {
      journal.dev.Valid() && journal.Healthy()
    }

    /** The bytes of a block of the tree are in the partition. */
    lemma {:induction false} HasNode(nr: nat)
      requires Valid() && node(nr).level != 0
      ensures journal.InPart(journal.Resolve(nr), 0, journal.blockSectors * SECTOR_SIZE)
    {
      assert Reads(nr);
    }

    /** These are the bytes of the newest committed copy of block `nr`. */
    ghost predicate IsBlock(nr: nat, block: seq<byte>)
      requires journal.dev.Valid() && journal.journalTransactions <= |journal.log|
      requires journal.log != [] ==> journal.journalBlockCount > 0
      reads journal
    {
      var part, p := journal.dev.Part(), ReiserJournal.BlockPos(journal.Resolve(nr), journal.blockSectors);
      var size := journal.blockSectors * SECTOR_SIZE;
      0 <= p && p + size <= |part| && block == part[p..p + size]
    }

    lemma {:induction false} IsNode(nr: nat, block: seq<byte>)
      requires Valid() && IsBlock(nr, block)
      ensures Decode(block) == node(nr)
    {
      assert Reads(nr);
    }

    /** A read reports success also if a sector could not be read; the bytes are then any. */
    method ReadBytes(nr: nat, buffer: array<byte>) returns (ok: bool)
      requires Valid() && buffer.Length == journal.blockSectors * SECTOR_SIZE
      modifies dev`errnum, buffer
      ensures Valid()
      ensures !old(Fine()) ==> !Fine() && !ok
      ensures !ok ==> !Fine()
      ensures Fine() ==> IsBlock(nr, buffer[..])
      ensures Sound() && old(Fine()) && node(nr).level != 0 ==> Fine()
    {
      if node(nr).level != 0 { HasNode(nr); }
      var r := journal.BlockRead(nr, 0, buffer.Length, buffer, 0);
      ok := r != 0;
      WholeBuffer(buffer, buffer.Length);
    }

    /** The node in those bytes, which is any if a read has failed. */
    method BlockRead(nr: nat) returns (ok: bool, n: Node)
      requires Valid()
      modifies dev`errnum
      ensures Valid()
      ensures !old(Fine()) ==> !Fine() && !ok
      ensures !ok ==> !Fine()
      ensures Fine() ==> n == node(nr)
      ensures Sound() && old(Fine()) && node(nr).level != 0 ==> Fine()
    {
      var buffer := new byte[journal.blockSectors * SECTOR_SIZE];
      ok := ReadBytes(nr, buffer);
      n := Decode(buffer[..]);
      if Fine() { IsNode(nr, buffer[..]); }
    }

    /** A read past the journal, as of the data of files. */
    method DataRead(sector: int, offset: nat, len: nat, buf: array<byte>, at: nat)
      requires Valid() && at + len <= buf.Length
      modifies dev`errnum, buf
      ensures Valid() && (!old(Fine()) ==> !Fine())
      ensures forall k :: 0 <= k < buf.Length && !(at <= k < at + len) ==> buf[k] == old(buf[k])
      ensures Fine() && len > 0 ==>
        var p := sector * SECTOR_SIZE + offset;
        0 <= sector && p + len <= |dev.Part()| && buf[at..at + len] == dev.Part()[p..p + len]
      ensures dev.bad == {} && old(Fine()) && !dev.Outside(sector, offset, len) ==> Fine()
    {
      var _ := dev.DevRead(sector, offset, len, buf, at);
    }

    method Fail()
      requires Valid()
      modifies dev`errnum
      ensures Valid() && !Fine()
    {
      dev.errnum := ErrFsysCorrupt;
    }
  }
}
