/** ReiserFS partitions with a journal of eight blocks, given byte by byte. */
module SmallJournal {
  import opened Disk
  import opened Division
  import opened ReiserJournal

  const BLOCK: nat := 4096
  const JOURNAL: nat := 18         // the first block of the journal
  const COUNT: nat := 8            // the blocks of its ring
  const SIZE: nat := 27 * BLOCK    // what is in front, the ring, and the header behind it

  /** The partition with byte `f(i)` at `i`. */
  function Part(f: nat -> byte): (part: seq<byte>)
    ensures |part| == SIZE
  {
    seq<byte>(SIZE, i requires 0 <= i => f(i))
  }

  lemma {:induction false} PartAt(f: nat -> byte, i: nat)
    requires i < SIZE
    ensures Part(f)[i] == f(i)
  {
  }

  function TheRing(f: nat -> byte): (r: Ring)
    ensures r.count == COUNT
  {
    RingOf(Part(f), JOURNAL, 8, COUNT)
  }

  lemma {:induction false} PosIs(d: nat)
    requires d <= COUNT
    ensures Pos(JOURNAL, 8, d) == (JOURNAL + d) * BLOCK
  {
    ProductIsTimes(JOURNAL + d, 8);
  }

  lemma {:induction false} WordIs(f: nat -> byte, d: nat, off: nat)
    requires d <= COUNT && off + 4 <= BLOCK
    ensures var p := (JOURNAL + d) * BLOCK + off;
      TheRing(f).Word(d, off) == f(p) + 0x100 * f(p + 1) + 0x1_0000 * f(p + 2) + 0x100_0000 * f(p + 3)
  {
    var p := (JOURNAL + d) * BLOCK + off;
    PosIs(d);
    assert TheRing(f).Word(d, off) == U32(Part(f), p);
  }

  lemma {:induction false} MagicIs(f: nat -> byte, d: nat)
    requires d < COUNT
    ensures TheRing(f).Magic(d) <==> forall k :: 0 <= k < 8 ==> f((JOURNAL + d) * BLOCK + 4084 + k) == DESC_MAGIC[k]
  {
    PosIs(d);
    var p := (JOURNAL + d) * BLOCK + 4084;
    var s := Part(f)[p..p + 8];
    assert forall k :: 0 <= k < 8 ==> s[k] == f(p + k);
    assert s == DESC_MAGIC <==> forall k :: 0 <= k < 8 ==> s[k] == DESC_MAGIC[k];
  }

  /** The file system on this partition, before `journal_init`. */
  method Mount(ghost f: nat -> byte, part: seq<byte>) returns (j: Journal)
    requires part == Part(f)
    ensures fresh(j) && fresh(j.dev) && fresh(j.table) && j.Valid() && !j.active && j.log == []
    ensures j.Healthy() && j.dev.errnum == ErrNone && j.dev.Part() == part && j.ring == TheRing(f)
    ensures j.journalBlock == JOURNAL && j.blockSectors == 8 && j.journalBlockCount == COUNT
  {
    var dev := new Device(part, {}, 0, 27 * 8);
    assert dev.Part() == part;
    j := new Journal(dev, 8, JOURNAL, COUNT);
    IsHealthy(j);
  }

  lemma {:induction false} IsHealthy(j: Journal)
    requires j.dev.Valid() && j.dev.bad == {} && |j.dev.Part()| == SIZE
    requires j.journalBlock == JOURNAL && j.blockSectors == 8 && j.journalBlockCount == COUNT
    ensures j.Healthy()
  {
    forall d | 0 <= d <= COUNT ensures 0 <= Pos(JOURNAL, 8, d) <= SIZE - DESC_SIZE {
      PosIs(d);
    }
    PosIs(COUNT);
  }

  /** Reads the first byte of a block. */
  method FirstByte(j: Journal, nr: nat) returns (r: int, b: byte)
    requires j.Valid() && j.Bounded() && j.Healthy() && j.dev.errnum == ErrNone
    requires 0 <= BlockPos(j.Resolve(nr), j.blockSectors) < |j.dev.Part()|
    modifies j.dev`errnum
    ensures j.Valid() && j.dev.errnum == ErrNone
    ensures r == 1 && b == j.dev.Part()[BlockPos(j.Resolve(nr), j.blockSectors)]
  {
    var buffer := new byte[1];
    ghost var p := BlockPos(j.Resolve(nr), j.blockSectors);
    r := j.BlockRead(nr, 0, 1, buffer, 0);
    assert buffer[0] == buffer[0..0 + 1][0] == j.dev.Part()[p..p + 1][0];
    b := buffer[0];
  }
}
