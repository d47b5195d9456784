/** A ReiserFS partition whose last transaction was cut off by a power failure: its descriptor and its
    copies are in the journal of fs/grub/fsys_reiserfs.c, but not its commit block. */
module TornJournal {
  import opened Disk
  import Division
  import opened ReiserJournal
  import opened SmallJournal

  const KEPT: nat := 17            // logged by both transactions
  const LOST: nat := 16            // logged by the torn one only

  /** The journal has transaction 1 in its blocks 0 to 2, and what there is of transaction 2 in 3 to 5;
      where its commit block should be, in block 6, are zeros. */
  function TornByte(i: nat): byte {
    var off := i - JOURNAL * BLOCK;
    if i == LOST * BLOCK then 7                                // the home of the block
    else if off == 0 || off == 4 then 1                        // id and length
    else if off == 12 then KEPT
    else if 4084 <= off < 4092 then DESC_MAGIC[off - 4084]
    else if off == BLOCK then 1                                // its copy
    else if off == 2 * BLOCK || off == 2 * BLOCK + 4 then 1    // its commit block
    else if off == 3 * BLOCK || off == 3 * BLOCK + 4 then 2
    else if off == 3 * BLOCK + 12 then KEPT
    else if off == 3 * BLOCK + 16 then LOST
    else if 3 * BLOCK + 4084 <= off < 3 * BLOCK + 4092 then DESC_MAGIC[off - 3 * BLOCK - 4084]
    else if off == 4 * BLOCK || off == 5 * BLOCK then 2
    else 0
  }

  function TornRing(): (r: Ring)
    ensures r.count == COUNT
  {
    TheRing(TornByte)
  }

  /** Such a ring, word by word. */
  ghost predicate IsTorn(r: Ring) {
    && r.count == COUNT && r.Word(COUNT, 0) == r.Word(COUNT, 4) == r.Word(COUNT, 8) == 0
    && r.Magic(0) && r.Word(0, 0) == 1 && r.Word(0, 4) == 1 && r.Word(0, 8) == 0 && r.Word(0, 12) == KEPT
    && r.Word(2, 0) == 1 && r.Word(2, 4) == 1
    && r.Magic(3) && r.Word(3, 0) == 2 && r.Word(3, 4) == 2 && r.Word(3, 8) == 0
    && r.Word(3, 12) == KEPT && r.Word(3, 16) == LOST
    && r.Word(6, 0) == 0
  }

  lemma {:induction false} TornWord(d: nat, off: nat)
    requires d <= COUNT && off in {0, 4, 8, 12, 16}
    ensures TornRing().Word(d, off) ==
      if d == 0 && off < 8 then 1 else if d == 0 && off == 12 then KEPT
      else if d == 1 && off == 0 then 1
      else if d == 2 && off < 8 then 1
      else if d == 3 && off < 8 then 2 else if d == 3 && off == 12 then KEPT else if d == 3 && off == 16 then LOST
      else if (d == 4 || d == 5) && off == 0 then 2
      else 0
  {
    WordIs(TornByte, d, off);
  }

  lemma {:induction false} TornMagic(d: nat)
    requires d == 0 || d == 3
    ensures TornRing().Magic(d)
  {
    MagicIs(TornByte, d);
  }

  lemma {:induction false} RingIsTorn()
    ensures IsTorn(TornRing())
  {
    TornMagic(0);
    TornMagic(3);
    TornWord(COUNT, 0);
    TornWord(COUNT, 4);
    TornWord(COUNT, 8);
    TornWord(0, 0);
    TornWord(0, 4);
    TornWord(0, 8);
    TornWord(0, 12);
    TornWord(2, 0);
    TornWord(2, 4);
    TornWord(3, 0);
    TornWord(3, 4);
    TornWord(3, 8);
    TornWord(3, 12);
    TornWord(3, 16);
    TornWord(6, 0);
  }

  /** Only the first transaction is in the log. */
  lemma {:induction false} TornIsLeftOut(r: Ring)
    requires IsTorn(r)
    ensures r.Log() == [Transaction(0, [KEPT])]
  {
    assert r.CommitOf(0) == 2 && r.Next(0) == 3 && r.CommitOf(3) == 6;
    assert r.Committed(0, 1, 0) && !r.Committed(3, 2, 0);
    assert r.At(0).home == [r.Home(0, 0)] == [KEPT];
  }

  /** Mounts the partition and collects its journal. */
  method Open() returns (j: Journal)
    ensures fresh(j) && fresh(j.dev) && fresh(j.table) && j.Valid() && j.Healthy() && j.dev.errnum == ErrNone
    ensures j.dev.Part() == Part(TornByte) && j.log == [Transaction(0, [KEPT])]
    ensures j.journalBlock == JOURNAL && j.blockSectors == 8 && j.journalBlockCount == COUNT
  {
    j := Mount(TornByte, Part(TornByte));
    RingIsTorn();
    TornIsLeftOut(TornRing());
    ShortNeverOverruns(TornRing().Log());
    var ok, inside := j.JournalInit();
  }

  lemma {:induction false} Resolves(log: seq<Transaction>)
    requires log == [Transaction(0, [KEPT])]
    ensures Translate(log, 1, KEPT, JOURNAL, COUNT) == JOURNAL + 1 && Translate(log, 1, LOST, JOURNAL, COUNT) == LOST
  {
  }

  lemma {:induction false} BytesThere()
    ensures BlockPos(JOURNAL + 1, 8) == (JOURNAL + 1) * BLOCK && BlockPos(LOST, 8) == LOST * BLOCK
    ensures Part(TornByte)[(JOURNAL + 1) * BLOCK] == 1 && Part(TornByte)[LOST * BLOCK] == 7
  {
    Division.ProductIsTimes(JOURNAL + 1, 8);
    Division.ProductIsTimes(LOST, 8);
    PartAt(TornByte, (JOURNAL + 1) * BLOCK);
    PartAt(TornByte, LOST * BLOCK);
  }

  /** Block 17 is read from the copy of the committed transaction, block 16 from its home. */
  method ReadsCommitted() returns (j: Journal, kept: byte, lost: byte)
    ensures fresh(j) && j.Valid() && j.dev.errnum == ErrNone && j.dev.Part() == Part(TornByte)
    ensures kept == 1 && lost == 7
  {
    j := Open();
    Resolves(j.log);
    BytesThere();
    var r;
    r, kept := FirstByte(j, KEPT);
    r, lost := FirstByte(j, LOST);
  }
}
