/** A ReiserFS partition whose journal holds 65536 committed transactions, one more than the 16-bit
    count of fs/grub/fsys_reiserfs.c can tell: a logged block is read from the wrong place. */
module LongJournal {
  import opened Disk
  import opened Division
  import opened ReiserJournal

  const BLOCK: nat := 4096
  const JOURNAL: nat := 18         // the first block of the journal, behind superblock and bitmap
  const COUNT: nat := 0x4_0000     // the blocks of its ring
  const LONG: nat := 0x1_0000      // the transactions in it, of three blocks each
  const LOGGED: nat := 17          // the one block that all of them log: the bitmap

  // ---------- any ring with so many transactions ----------

  /** Transaction `t` of the ring is committed, takes three blocks, and logs just the one block. */
  ghost predicate Third(r: Ring, t: nat)
    requires r.count > 0
  {
    r.Committed(3 * t, t + 1, 0) && r.At(3 * t) == Transaction(3 * t, [LOGGED]) && r.Next(3 * t) == 3 * (t + 1)
  }

  /** The ring holds 65536 such transactions, and no more. */
  ghost predicate IsLong(r: Ring) {
    && r.count == COUNT && r.Word(COUNT, 0) == r.Word(COUNT, 4) == r.Word(COUNT, 8) == 0
    && !r.Magic(3 * LONG) && forall t: nat | t < LONG :: Third(r, t)
  }

  /** Transaction `k` after `t` is the one at block `3 * (t + k)`. */
  ghost predicate Holds(ts: seq<Transaction>, t: nat, k: nat)
    requires k < |ts|
  {
    ts[k] == Transaction(3 * (t + k), [LOGGED])
  }

  lemma {:induction false} ScanFrom(r: Ring, t: nat, fuel: nat)
    requires IsLong(r) && t <= LONG <= t + fuel
    ensures var ts := r.Scan(3 * t, t + 1, 0, fuel);
      |ts| == LONG - t && forall k: nat | k < |ts| :: Holds(ts, t, k)
    decreases LONG - t
  {
    if t < LONG {
      var ts, rest := r.Scan(3 * t, t + 1, 0, fuel), r.Scan(3 * (t + 1), t + 2, 0, fuel - 1);
      assert Third(r, t);
      ScanFrom(r, t + 1, fuel - 1);
      assert ts == [r.At(3 * t)] + rest;
      forall k: nat | k < |ts| ensures Holds(ts, t, k) {
        if k > 0 { assert Holds(rest, t + 1, k - 1); }
      }
    }
  }

  /** These are 65536 transactions, three blocks apart, that log just the one block. */
  ghost predicate Thirds(log: seq<Transaction>) {
    |log| == LONG && forall t: nat | t < LONG :: Holds(log, 0, t)
  }

  lemma {:induction false} LongLog(r: Ring)
    requires IsLong(r)
    ensures Thirds(r.Log())
  {
    assert r.Log() == r.Scan(3 * 0, 0 + 1, 0, COUNT);
    ScanFrom(r, 0, COUNT);
  }

  lemma {:induction false} ThirdsFit(log: seq<Transaction>)
    requires Thirds(log)
    ensures !Overruns(log)
  {
    forall t | 0 <= t < |log| ensures |log[t].home| < 0x3ffe_4000 {
      assert Holds(log, 0, t);
    }
    ShortNeverOverruns(log);
  }

  // ---------- a partition that has one ----------

  function IdByte(id: nat, off: nat): byte {
    if off == 0 then id % 256 else if off == 1 then id / 256 % 256 else if off == 2 then id / 65536 % 256 else 0
  }

  /** Byte `off` of block `role` of transaction `t`: descriptor, copy and commit block. */
  function Cell(t: nat, role: nat, off: nat): byte {
    if role == 1 then 1
    else if off < 4 then IdByte(t + 1, off)
    else if off == 4 then 1                              // one block is logged
    else if role == 0 && off == 12 then LOGGED
    else if role == 0 && 4084 <= off < 4092 then DESC_MAGIC[off - 4084]
    else 0
  }

  /** Where byte `off` of block `role` of transaction `t` lies in the partition. */
  function Place(t: nat, role: nat, off: nat): nat {
    (JOURNAL + 3 * t + role) * BLOCK + off
  }

  ghost predicate CellAt(part: seq<byte>, t: nat, role: nat, off: nat) {
    Place(t, role, off) < |part| && part[Place(t, role, off)] == Cell(t, role, off)
  }

  ghost predicate ZeroAt(part: seq<byte>, i: nat) {
    i < |part| && part[i] == 0
  }

  /** The partition: anything in front, but for the bitmap, the first bits of which are 0; the
      transactions; and zeros to the end of the journal header. */
  ghost predicate IsPart(part: seq<byte>) {
    && |part| == (JOURNAL + COUNT + 1) * BLOCK
    && (forall t: nat, role: nat, off: nat | t < LONG && role < 3 && off < BLOCK :: CellAt(part, t, role, off))
    && ZeroAt(part, LOGGED * BLOCK)
    && (forall i: nat | (JOURNAL + 3 * LONG) * BLOCK <= i < |part| :: ZeroAt(part, i))
  }

  function ByteAt(i: nat): byte {
    if i < JOURNAL * BLOCK || i >= (JOURNAL + 3 * LONG) * BLOCK then 0
    else Cell((i / BLOCK - JOURNAL) / 3, (i / BLOCK - JOURNAL) % 3, i % BLOCK)
  }

  /** There is such a partition. */
  lemma {:induction false} PartExists() returns (part: seq<byte>)
    ensures IsPart(part)
  {
    part := seq((JOURNAL + COUNT + 1) * BLOCK, i requires 0 <= i => ByteAt(i));
    forall t: nat, role: nat, off: nat | t < LONG && role < 3 && off < BLOCK ensures CellAt(part, t, role, off) {
      var i := Place(t, role, off);
      assert i / BLOCK == JOURNAL + 3 * t + role && i % BLOCK == off;
      assert (3 * t + role) / 3 == t && (3 * t + role) % 3 == role;
    }
  }

  function RingIn(part: seq<byte>): (r: Ring)
    ensures r.count == COUNT
  {
    RingOf(part, JOURNAL, 8, COUNT)
  }

  lemma {:induction false} PosIs(d: nat)
    requires d <= COUNT
    ensures Pos(JOURNAL, 8, d) == (JOURNAL + d) * BLOCK
  {
    ProductIsTimes(JOURNAL + d, 8);
  }

  lemma {:induction false} WordOf(part: seq<byte>, d: nat, off: nat)
    requires |part| == (JOURNAL + COUNT + 1) * BLOCK && d <= COUNT && off + 4 <= BLOCK
    ensures RingIn(part).Word(d, off) == U32(part, (JOURNAL + d) * BLOCK + off)
  {
    PosIs(d);
  }

  lemma {:induction false} IdBytes(id: nat)
    requires id < 0x100_0000
    ensures IdByte(id, 0) + 0x100 * IdByte(id, 1) + 0x1_0000 * IdByte(id, 2) + 0x100_0000 * IdByte(id, 3) == id
  {
  }

  /** The four bytes from `off` on in block `role` of transaction `t`. */
  lemma {:induction false} CellWord(part: seq<byte>, t: nat, role: nat, off: nat)
    requires IsPart(part) && t < LONG && role < 3 && off + 4 <= BLOCK
    ensures RingIn(part).Word(3 * t + role, off) == Cell(t, role, off) + 0x100 * Cell(t, role, off + 1)
      + 0x1_0000 * Cell(t, role, off + 2) + 0x100_0000 * Cell(t, role, off + 3)
  {
    WordOf(part, 3 * t + role, off);
    assert CellAt(part, t, role, off) && CellAt(part, t, role, off + 1);
    assert CellAt(part, t, role, off + 2) && CellAt(part, t, role, off + 3);
  }

  lemma {:induction false} IdWord(part: seq<byte>, t: nat, role: nat)
    requires IsPart(part) && t < LONG && role in {0, 2}
    ensures RingIn(part).Word(3 * t + role, 0) == t + 1
  {
    CellWord(part, t, role, 0);
    IdBytes(t + 1);
  }

  lemma {:induction false} OtherWords(part: seq<byte>, t: nat)
    requires IsPart(part) && t < LONG
    ensures var r := RingIn(part);
      && r.Word(3 * t, 4) == 1 && r.Word(3 * t, 8) == 0 && r.Word(3 * t, 12) == LOGGED && r.Word(3 * t + 2, 4) == 1
  {
    CellWord(part, t, 0, 4);
    CellWord(part, t, 0, 8);
    CellWord(part, t, 0, 12);
    CellWord(part, t, 2, 4);
  }

  lemma {:induction false} ZeroWord(part: seq<byte>, d: nat, off: nat)
    requires IsPart(part) && 3 * LONG <= d <= COUNT && off + 4 <= BLOCK
    ensures RingIn(part).Word(d, off) == 0
  {
    var p := (JOURNAL + d) * BLOCK + off;
    WordOf(part, d, off);
    assert ZeroAt(part, p) && ZeroAt(part, p + 1) && ZeroAt(part, p + 2) && ZeroAt(part, p + 3);
  }

  lemma {:induction false} MagicOf(part: seq<byte>, d: nat)
    requires |part| == (JOURNAL + COUNT + 1) * BLOCK && d <= COUNT
    ensures var p := (JOURNAL + d) * BLOCK + 4084;
      RingIn(part).Magic(d) == (part[p..p + 8] == DESC_MAGIC)
  {
    PosIs(d);
  }

  lemma {:induction false} HasMagic(part: seq<byte>, t: nat)
    requires IsPart(part) && t < LONG
    ensures RingIn(part).Magic(3 * t)
  {
    MagicOf(part, 3 * t);
    var p := (JOURNAL + 3 * t) * BLOCK + 4084;
    var s := part[p..p + 8];
    forall k | 0 <= k < 8 ensures s[k] == DESC_MAGIC[k] {
      assert CellAt(part, t, 0, 4084 + k);
    }
    assert s == DESC_MAGIC;
  }

  lemma {:induction false} HasNoMagic(part: seq<byte>, d: nat)
    requires |part| == (JOURNAL + COUNT + 1) * BLOCK && d <= COUNT
    requires part[(JOURNAL + d) * BLOCK + 4084] != DESC_MAGIC[0]
    ensures !RingIn(part).Magic(d)
  {
    MagicOf(part, d);
    var p := (JOURNAL + d) * BLOCK + 4084;
    assert part[p..p + 8][0] != DESC_MAGIC[0];
  }

  lemma {:induction false} ThirdAt(part: seq<byte>, t: nat)
    requires IsPart(part) && t < LONG
    ensures Third(RingIn(part), t)
  {
    var r, d := RingIn(part), 3 * t;
    HasMagic(part, t);
    IdWord(part, t, 0);
    IdWord(part, t, 2);
    OtherWords(part, t);
    ThirdIs(r, t);
  }

  lemma {:induction false} ThirdIs(r: Ring, t: nat)
    requires r.count == COUNT && t < LONG && r.Magic(3 * t)
    requires r.Word(3 * t, 0) == t + 1 && r.Word(3 * t, 4) == 1 && r.Word(3 * t, 8) == 0 && r.Word(3 * t, 12) == LOGGED
    requires r.Word(3 * t + 2, 0) == t + 1 && r.Word(3 * t + 2, 4) == 1
    ensures Third(r, t)
  {
    var d := 3 * t;
    assert r.CommitOf(d) == d + 2 && Id32(t + 1) == t + 1;
    assert r.Home(d, 0) == LOGGED && r.At(d).home == [LOGGED];
    assert r.Next(d) == 3 * (t + 1);
  }

  lemma {:induction false} PartIsLong(part: seq<byte>)
    requires IsPart(part)
    ensures IsLong(RingIn(part))
  {
    ZeroWord(part, COUNT, 0);
    ZeroWord(part, COUNT, 4);
    ZeroWord(part, COUNT, 8);
    assert ZeroAt(part, (JOURNAL + 3 * LONG) * BLOCK + 4084);
    HasNoMagic(part, 3 * LONG);
    forall t: nat | t < LONG ensures Third(RingIn(part), t) {
      ThirdAt(part, t);
    }
  }

  // ---------- what is read ----------

  lemma {:induction false} IsHealthy(j: Journal, part: seq<byte>)
    requires IsPart(part) && j.dev.Valid() && j.dev.bad == {} && j.dev.Part() == part
    requires j.journalBlock == JOURNAL && j.blockSectors == 8 && j.journalBlockCount == COUNT
    ensures j.Healthy()
  {
    forall d | 0 <= d <= COUNT ensures 0 <= Pos(JOURNAL, 8, d) <= |part| - DESC_SIZE {
      PosIs(d);
    }
    PosIs(COUNT);
  }

  lemma {:induction false} LogIsLong(part: seq<byte>)
    requires IsPart(part)
    ensures Thirds(RingIn(part).Log()) && !Overruns(RingIn(part).Log())
  {
    PartIsLong(part);
    LongLog(RingIn(part));
    ThirdsFit(RingIn(part).Log());
  }

  lemma {:induction false} IsBounded(j: Journal)
    requires Thirds(j.log)
    ensures j.Bounded()
  {
    forall t | 0 <= t < |j.log| ensures |j.log[t].home| <= 2 * JOURNAL_TRANS_HALF {
      assert Holds(j.log, 0, t);
    }
  }

  /** Mounts the partition and collects its journal. */
  method Open(part: seq<byte>) returns (j: Journal)
    requires IsPart(part)
    ensures fresh(j) && fresh(j.dev) && fresh(j.table) && j.Valid() && j.dev.errnum == ErrNone && j.Healthy()
    ensures j.dev.Part() == part && Thirds(j.log)
    ensures j.journalBlock == JOURNAL && j.blockSectors == 8 && j.journalBlockCount == COUNT
  {
    var dev := new Device(part, {}, 0, (JOURNAL + COUNT + 1) * 8);
    assert dev.Part() == part;
    j := new Journal(dev, 8, JOURNAL, COUNT);
    IsHealthy(j, part);
    LogIsLong(part);
    var ok, inside := j.JournalInit();
  }

  /** The newest copy of the block is the one in the last transaction; it begins with 1, and the
      block's home with 0. */
  lemma {:induction false} NewestIsLast(log: seq<Transaction>, part: seq<byte>)
    requires IsPart(part) && Thirds(log)
    ensures var p := BlockPos(Translate(log, LONG, LOGGED, JOURNAL, COUNT), 8);
      0 <= p < |part| && part[p] == 1
    ensures 0 <= BlockPos(LOGGED, 8) < |part| && part[BlockPos(LOGGED, 8)] == 0
  {
    assert Holds(log, 0, LONG - 1);
    NewestIs(log);
    PosIs(3 * (LONG - 1) + 1);
    assert CellAt(part, LONG - 1, 1, 0);
    ProductIsTimes(LOGGED, 8);
    assert ZeroAt(part, LOGGED * BLOCK);
  }

  lemma {:induction false} NewestIs(log: seq<Transaction>)
    requires |log| == LONG && log[LONG - 1] == Transaction(3 * (LONG - 1), [LOGGED])
    ensures Translate(log, LONG, LOGGED, JOURNAL, COUNT) == JOURNAL + 3 * (LONG - 1) + 1
  {
  }

  /** Reads the first byte of a block that is looked for at its home. */
  method ReadFirst(j: Journal, nr: nat) returns (r: int, b: byte)
    requires j.Valid() && j.Bounded() && j.Healthy() && j.dev.errnum == ErrNone
    requires j.Resolve(nr) == nr && 0 <= BlockPos(nr, j.blockSectors) < |j.dev.Part()|
    modifies j.dev`errnum
    ensures j.Valid() && j.dev.errnum == ErrNone
    ensures r == 1 && b == j.dev.Part()[BlockPos(nr, j.blockSectors)]
  {
    var buffer := new byte[1];
    ghost var p := BlockPos(nr, j.blockSectors);
    r := j.BlockRead(nr, 0, 1, buffer, 0);
    assert buffer[0] == buffer[0..0 + 1][0] == j.dev.Part()[p..p + 1][0];
    b := buffer[0];
  }

  /** What is read, without an error, is the block's home. */
  method ReadsTheWrongCopy(part: seq<byte>) returns (j: Journal, r: int, b: byte)
    requires IsPart(part)
    ensures j.Valid() && j.dev.errnum == ErrNone && j.dev.Part() == part && |j.log| == LONG && r == 1
    ensures var p := BlockPos(j.Newest(LOGGED), 8);
      0 <= p < |part| && part[p] == 1 && b == 0
  {
    j := Open(part);
    NewestIsLast(j.log, part);
    IsBounded(j);
    j.LateCopiesAreMissed(LOGGED);
    r, b := ReadFirst(j, LOGGED);
  }
}
