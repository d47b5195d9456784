/** ReiserFS partitions with blocks of 512 bytes and no journal. */
module ReiserPlain {
  import opened Disk
  import opened Division
  import opened ReiserNode
  import opened ReiserFile
  import ReiserJournal

  /** Block `b` of the partition. */
  function Block(part: seq<byte>, b: nat): (s: seq<byte>)
    requires (b + 1) * SECTOR_SIZE <= |part|
    ensures |s| == SECTOR_SIZE
  {
    part[b * SECTOR_SIZE..b * SECTOR_SIZE + SECTOR_SIZE]
  }

  lemma {:induction false} NodeInBlock(part: seq<byte>, b: nat)
    requires b < 0x1_0000 && (b + 1) * SECTOR_SIZE <= |part|
    ensures NodeIn(part, b, 1) == Decode(Block(part, b))
  {
    ProductIsTimes(b, 1);
    assert ReiserJournal.BlockPos(b, 1) == b * SECTOR_SIZE;
  }

  method NoJournal(part: seq<byte>, n: nat) returns (journal: ReiserJournal.Journal)
    requires 0 < n && |part| == n * SECTOR_SIZE
    ensures fresh(journal) && fresh(journal.dev) && fresh(journal.table)
    ensures journal.Valid() && journal.Bounded() && journal.dev.Valid() && journal.Healthy() && journal.dev.errnum == ErrNone
    ensures journal.dev.Part() == part && journal.blockSectors == 1 && journal.log == []
  {
    var dev := new Device(part, {}, 0, n);
    assert dev.Part() == part;
    journal := new ReiserJournal.Journal(dev, 1, 0, 0);
    assert ReiserJournal.BlockPos(0, 1) == 0;
  }

  /** The tree's view of such a partition. */
  method Mount(part: seq<byte>, n: nat) returns (store: BlockStore)
    requires 0 < n && |part| == n * SECTOR_SIZE
    ensures fresh(store) && fresh(store.dev) && fresh(store.journal) && fresh(store.journal.table)
    ensures store.Fine() && store.Sound() && Mounted(store) && Vol(store) == Volume(part, 1)
    ensures store.journal.log == []
  {
    var journal := NoJournal(part, n);
    store := new BlockStore(journal);
  }

  lemma {:induction false} NodeOf(store: BlockStore, part: seq<byte>, b: nat)
    requires Mounted(store) && Vol(store) == Volume(part, 1) && store.journal.log == []
    requires b < 0x1_0000 && (b + 1) * SECTOR_SIZE <= |part|
    ensures store.node(b) == Decode(Block(part, b))
  {
    NodeInBlock(part, b);
    assert store.Reads(b) && store.journal.Resolve(b) == b;
  }
}
