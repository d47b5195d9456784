/** A ReiserFS partition whose journal has a committed transaction of 2^30 blocks: the test for room
    in `journal_init` of fs/grub/fsys_reiserfs.c takes it to fit into the table. */
module WideJournal {
  import opened Disk
  import opened ReiserJournal
  import opened SmallJournal

  const WIDE: nat := 0x4000_0000   // the length that descriptor and commit block agree on

  /** A descriptor in block 0 of the journal, its commit block in block 1, and zeros everywhere else. */
  function WideByte(i: nat): byte {
    var off := i - JOURNAL * BLOCK;
    if off == 0 || off == BLOCK then 1                   // the transaction's id
    else if off == 7 || off == BLOCK + 7 then 0x40       // its length
    else if 4084 <= off < 4092 then DESC_MAGIC[off - 4084]
    else 0
  }

  function WideRing(): (r: Ring)
    ensures r.count == COUNT
  {
    TheRing(WideByte)
  }

  /** A ring that begins with such a transaction, of id 1. */
  ghost predicate IsWide(r: Ring) {
    && r.count == COUNT && r.Word(COUNT, 0) == r.Word(COUNT, 4) == r.Word(COUNT, 8) == 0
    && r.Magic(0) && r.Word(0, 0) == 1 && r.Len(0) == WIDE && r.MountId(0) == 0
    && r.Word(1, 0) == 1 && r.Word(1, 4) == WIDE
  }

  lemma {:induction false} RingIsWide()
    ensures IsWide(WideRing())
  {
    MagicIs(WideByte, 0);
    TransactionWords();
    HeaderIsZero(0);
    HeaderIsZero(4);
    HeaderIsZero(8);
  }

  lemma {:induction false} HeaderIsZero(off: nat)
    requires off + 4 <= BLOCK
    ensures WideRing().Word(COUNT, off) == 0
  {
    WordIs(WideByte, COUNT, off);
  }

  lemma {:induction false} TransactionWords()
    ensures var r := WideRing();
      && r.Word(0, 0) == r.Word(1, 0) == 1 && r.Word(0, 4) == r.Word(1, 4) == WIDE && r.Word(0, 8) == 0
  {
    WordIs(WideByte, 0, 0);
    WordIs(WideByte, 0, 4);
    WordIs(WideByte, 0, 8);
    WordIs(WideByte, 1, 0);
    WordIs(WideByte, 1, 4);
  }

  /** The log of such a ring begins with that transaction, and caching it runs over the table. */
  lemma {:induction false} WideOverruns(r: Ring)
    requires IsWide(r)
    ensures r.Log() != [] && |r.Log()[0].home| == WIDE && Overruns(r.Log())
  {
    assert r.CommitOf(0) == 1 by { WrapIsModulo(WIDE + 1, COUNT); }
    assert r.Committed(0, 1, 0);
    assert r.Log() == [r.At(0)] + r.Scan(r.Next(0), 2, 0, COUNT - 1);
    assert OverrunsAt(r.Log(), 0);
  }

  /** `journal_init` on this partition leaves the table, and no read has failed. */
  method LeavesTheTable() returns (j: Journal, inside: bool)
    ensures fresh(j) && j.dev.Valid() && j.dev.Part() == Part(WideByte) && j.ring == WideRing()
    ensures !inside && j.dev.errnum == ErrNone
  {
    j := Mount(WideByte, Part(WideByte));
    RingIsWide();
    WideOverruns(WideRing());
    var ok;
    ok, inside := j.JournalInit();
  }
}
