/** Allocation tables and chains of clusters laid out as the FAT format has them, against what the
    reader makes of them; and a FAT12 partition with a file on it. */
module FatFormat {
  import opened Content
  import opened Disk
  import opened Division
  import opened Encoding
  import opened Fat

  // ---------- allocation tables ----------

  predicate AreTwelves(es: seq<int>) {
    |es| % 2 == 0 && forall c :: 0 <= c < |es| ==> 0 <= es[c] < 0x1000
  }

  /** Two 12-bit entries in three bytes. */
  function PairOf(low: int, high: int): (s: seq<byte>)
    requires 0 <= low < 0x1000 && 0 <= high < 0x1000
    ensures |s| == 3
  {
    [low % 0x100, low / 0x100 + 0x10 * (high % 0x10), high / 0x10]
  }

  function Pairs(es: seq<int>): (records: seq<seq<byte>>)
    requires AreTwelves(es)
    ensures |records| == |es| / 2 && AllOf(records, 3)
  {
    seq(|es| / 2, i requires 0 <= i < |es| / 2 => PairOf(es[2 * i], es[2 * i + 1]))
  }

  /** The table of FAT12. */
  function Twelves(es: seq<int>): (s: seq<byte>)
    requires AreTwelves(es)
  {
    Table(Pairs(es))
  }

  /** Where an entry stands, counted in nibbles. */
  lemma {:induction false} EntryStandsAt(g: Geometry, part: seq<byte>, c: nat, n: nat)
    requires g.fatSize == 3 || g.fatSize == 4 || g.fatSize == 8
    requires n == 2 * (SECTOR_SIZE * g.fatOffset) + (if g.fatSize == 3 then 3 else if g.fatSize == 4 then 4 else 8) * c
    ensures g.Entry(part, c) == if g.fatSize == 8 then Signed(Nibbles(part, n, 8)) else Nibbles(part, n, g.fatSize)
  {
    assert n == 2 * SECTOR_SIZE * g.fatOffset + g.EntryAt(c);
  }

  /** Three nibbles at a whole byte, and three that begin inside one. */
  lemma {:induction false} ThreeNibbles(part: seq<byte>, q: nat)
    requires q + 1 < |part|
    ensures Nibbles(part, 2 * q, 3) == (part[q] as int) + 0x100 * ((part[q + 1] as int) % 0x10)
    ensures Nibbles(part, 2 * q + 1, 3) == (part[q] as int) / 0x10 + 0x10 * (part[q + 1] as int)
  {
    NibblesOf(part, q);
    NibblesOf(part, q + 1);
  }

  lemma {:induction false} NibblesOf(part: seq<byte>, q: nat)
    requires q < |part|
    ensures Nibble(part, 2 * q) == part[q] % 0x10 && Nibble(part, 2 * q + 1) == part[q] / 0x10
    ensures part[q] == part[q] % 0x10 + 0x10 * (part[q] / 0x10)
  {
    assert (2 * q) / 2 == q && (2 * q + 1) / 2 == q;
  }

  lemma {:induction false} PairBytes(low: int, high: int, a: int, b: int, c: int)
    requires 0 <= low < 0x1000 && 0 <= high < 0x1000 && [a, b, c] == PairOf(low, high)
    ensures a + 0x100 * (b % 0x10) == low && b / 0x10 + 0x10 * c == high
  {
  }

  lemma {:induction false} PairIsRead(part: seq<byte>, q: nat, low: int, high: int)
    requires 0 <= low < 0x1000 && 0 <= high < 0x1000 && Stands(part, q, PairOf(low, high))
    ensures Nibbles(part, 2 * q, 3) == low && Nibbles(part, 2 * q + 3, 3) == high
  {
    var t := part[q..q + 3];
    assert part[q] == t[0] && part[q + 1] == t[1] && part[q + 2] == t[2];
    PairBytes(low, high, part[q], part[q + 1], part[q + 2]);
    ThreeNibbles(part, q);
    ThreeNibbles(part, q + 1);
    assert 2 * q + 3 == 2 * (q + 1) + 1;
  }

  lemma {:induction false} PairStands(part: seq<byte>, at: nat, es: seq<int>, i: nat)
    requires AreTwelves(es) && i < |es| / 2 && Stands(part, at, Twelves(es))
    ensures Nibbles(part, 2 * (at + 3 * i), 3) == es[2 * i] && Nibbles(part, 2 * (at + 3 * i) + 3, 3) == es[2 * i + 1]
  {
    RecordAt(Pairs(es), 3, i);
    StandsWithin(part, at, Twelves(es), i * 3, PairOf(es[2 * i], es[2 * i + 1]));
    PairIsRead(part, at + 3 * i, es[2 * i], es[2 * i + 1]);
  }

  /** Every entry of a FAT12 table is read. */
  lemma {:induction false} TwelvesAreRead(g: Geometry, part: seq<byte>, es: seq<int>, c: nat)
    requires g.fatSize == 3 && AreTwelves(es) && c < |es| && Stands(part, SECTOR_SIZE * g.fatOffset, Twelves(es))
    ensures g.Entry(part, c) == es[c]
  {
    var i, at := c / 2, SECTOR_SIZE * g.fatOffset;
    PairStands(part, at, es, i);
    if c == 2 * i {
      EntryStandsAt(g, part, c, 2 * (at + 3 * i));
    } else {
      EntryStandsAt(g, part, c, 2 * (at + 3 * i) + 3);
      assert c == 2 * i + 1;
    }
  }

  lemma {:induction false} FourNibbles(part: seq<byte>, q: nat)
    requires q + 1 < |part|
    ensures Nibbles(part, 2 * q, 4) == U16(part, q)
  {
    NibblesOf(part, q);
    NibblesOf(part, q + 1);
  }

  /** Every entry of a FAT16 table. */
  lemma {:induction false} SixteensAreRead(g: Geometry, part: seq<byte>, es: seq<int>, c: nat)
    requires g.fatSize == 4 && AreHalves(es) && c < |es| && Stands(part, SECTOR_SIZE * g.fatOffset, Halves(es))
    ensures g.Entry(part, c) == es[c]
  {
    var at := SECTOR_SIZE * g.fatOffset;
    HalvesAreRead(part, at, es, c);
    FourNibbles(part, at + 2 * c);
    EntryStandsAt(g, part, c, 2 * (at + 2 * c));
  }

  lemma {:induction false} EntryOfWord(g: Geometry, part: seq<byte>, c: nat, q: nat)
    requires g.fatSize == 8 && q == SECTOR_SIZE * g.fatOffset + 4 * c && q + 4 <= |part|
    ensures g.Entry(part, c) == Signed(U32(part, q))
  {
    Masks(part, q);
    EntryStandsAt(g, part, c, 2 * q);
  }

  /** Every entry of a FAT32 table, all its bits. */
  lemma {:induction false} WordsAreEntries(g: Geometry, part: seq<byte>, es: seq<int>, c: nat)
    requires g.fatSize == 8 && AreWords(es) && c < |es| && Stands(part, SECTOR_SIZE * g.fatOffset, Words(es))
    ensures g.Entry(part, c) == Signed(es[c])
  {
    var at := SECTOR_SIZE * g.fatOffset;
    WordsAreRead(part, at, es, c);
    EntryOfWord(g, part, c, at + 4 * c);
  }

  // ---------- files ----------

  /** The clusters `cs` are all those of a file: the entry of each is the number of the next, that
      of the last an end marker. */
  ghost predicate IsFile(g: Geometry, entries: nat -> int, cs: seq<nat>) {
    && cs != [] && entries(cs[|cs| - 1]) >= g.clustEofMarker
    && forall i :: 0 < i < |cs| ==> LinkedTo(g, entries, cs[i - 1], cs[i])
  }

  predicate LinkedTo(g: Geometry, entries: nat -> int, b: nat, c: nat) {
    2 <= c < g.numClust && c < g.clustEofMarker && entries(b) == c
  }

  /** They are walked one after another, and nothing comes behind them. */
  lemma {:induction false} FileIsWalked(g: Geometry, entries: nat -> int, cs: seq<nat>, k: nat)
    requires IsFile(g, entries, cs)
    ensures g.Walk(entries, cs[0], k) == if k < |cs| then Cluster(cs[k]) else Eof
  {
    if k > 0 {
      FileIsWalked(g, entries, cs, k - 1);
      if k < |cs| { assert LinkedTo(g, entries, cs[k - 1], cs[k]); }
    }
  }

  /** Cluster 2 is the first of the data area. */
  lemma {:induction false} ClustersAreInOrder(g: Geometry, c: nat)
    ensures g.ClusterSector(c) == g.dataOffset + (c - 2) * g.sectsPerClust
  {
    if c >= 2 {
      ProductIsTimes(c - 2, g.sectsPerClust);
    } else {
      ProductIsTimes(2 - c, g.sectsPerClust);
      assert -((2 - c) * g.sectsPerClust) == (c - 2) * g.sectsPerClust;
    }
  }

  /** Piece `i` of the data stands in cluster `cs[i]`: cluster 2 is the first of the data area, and
      the others follow it. */
  predicate PieceInPlace(g: Geometry, part: seq<byte>, cs: seq<nat>, data: seq<seq<byte>>, i: nat)
    requires i < |cs| == |data|
  {
    && cs[i] >= 2 && |data[i]| == g.ClustSize()
    && (g.dataOffset + (cs[i] - 2) * g.sectsPerClust) * SECTOR_SIZE + |data[i]| <= |part|
    && var at := (g.dataOffset + (cs[i] - 2) * g.sectsPerClust) * SECTOR_SIZE; part[at..at + |data[i]|] == data[i]
  }

  /** So every byte of the file is the one in its piece. */
  lemma {:induction false} FileIsInPlace(g: Geometry, entries: nat -> int, part: seq<byte>, cs: seq<nat>, data: seq<seq<byte>>,
      i: nat, j: nat)
    requires g.Valid() && IsFile(g, entries, cs) && i < |cs| == |data| && PieceInPlace(g, part, cs, data, i) && j < g.ClustSize()
    ensures ByteOf(g, entries, part, cs[0], g.ClustSize() * i + j) == data[i][j]
  {
    FileIsWalked(g, entries, cs, i);
    Mixed(i, j, g.ClustSize());
    ProductIsTimes(i, g.ClustSize());
    ClustersAreInOrder(g, cs[i]);
    var at := (g.dataOffset + (cs[i] - 2) * g.sectsPerClust) * SECTOR_SIZE;
    assert part[at..at + |data[i]|][j] == part[at + j];
  }

  // ---------- an example ----------

  /** A table in sector 1, and the data area from sector 5 on. */
  const SMALL: Geometry := Geometry(1, 3, 4, 0xff8, 5, 1, 4, 512)

  /** Cluster 3 comes before cluster 2, which is the last. */
  const SMALL_TABLE: seq<int> := [0xff0, 0xfff, 0xff8, 2]

  function TableSector(): (s: seq<byte>)
    requires AreTwelves(SMALL_TABLE)
  {
    Padded(Twelves(SMALL_TABLE))
  }

  function SmallSectors(): (sectors: seq<seq<byte>>)
    requires AreTwelves(SMALL_TABLE)
    ensures |sectors| == 7
  {
    [Full(0), TableSector(), Full(0), Full(0), Full(0), Full(0x22), Full(0x33)]
  }

  ghost predicate IsSmall(part: seq<byte>) {
    && AreTwelves(SMALL_TABLE) && |part| == 7 * SECTOR_SIZE && Stands(part, SECTOR_SIZE, Twelves(SMALL_TABLE))
    && Stands(part, 5 * SECTOR_SIZE, Full(0x22)) && Stands(part, 6 * SECTOR_SIZE, Full(0x33))
  }

  lemma {:induction false} PartIsSmall(sectors: seq<seq<byte>>)
    requires AreTwelves(SMALL_TABLE) && sectors == SmallSectors()
    ensures IsSmall(Table(sectors))
  {
    LengthOfTable(Pairs(SMALL_TABLE), 3);
    LengthOfTable(sectors, SECTOR_SIZE);
    RecordAt(sectors, SECTOR_SIZE, 1);
    RecordAt(sectors, SECTOR_SIZE, 5);
    RecordAt(sectors, SECTOR_SIZE, 6);
    var t := Twelves(SMALL_TABLE);
    assert TableSector()[0..0 + |t|] == t;
    StandsWithin(Table(sectors), SECTOR_SIZE, TableSector(), 0, t);
  }

  lemma {:induction false} SmallFile(part: seq<byte>, entries: nat -> int)
    requires IsSmall(part) && forall c: nat :: SMALL.IsEntry(part, c, entries(c))
    ensures IsFile(SMALL, entries, [3, 2])
  {
    TwelvesAreRead(SMALL, part, SMALL_TABLE, 2);
    TwelvesAreRead(SMALL, part, SMALL_TABLE, 3);
    assert SMALL.IsEntry(part, 2, entries(2)) && SMALL.IsEntry(part, 3, entries(3));
    assert LinkedTo(SMALL, entries, 3, 2);
  }

  lemma {:induction false} SmallBytes(part: seq<byte>, entries: nat -> int)
    requires IsSmall(part) && IsFile(SMALL, entries, [3, 2])
    ensures ByteOf(SMALL, entries, part, 3, 511) == 0x33 && ByteOf(SMALL, entries, part, 3, 512) == 0x22
    ensures SMALL.Walk(entries, 3, 1) == Cluster(2)
  {
    var data := [Full(0x33), Full(0x22)];
    FileIsInPlace(SMALL, entries, part, [3, 2], data, 0, 511);
    FileIsInPlace(SMALL, entries, part, [3, 2], data, 1, 0);
    FileIsWalked(SMALL, entries, [3, 2], 1);
  }

  /** The open file. */
  ghost predicate IsOpen(fs: FatFs)
    reads fs, fs.dev, fs.fatBuf
  {
    && fs.Valid() && fs.ContentOk() && fs.fileCluster == 3 && fs.g == SMALL && IsSmall(fs.dev.Part())
    && fs.dev.errnum == ErrNone && fs.Healthy(3)
  }

  method OpenSmall() returns (fs: FatFs)
    ensures IsOpen(fs) && fresh(fs) && fresh(fs.dev) && fresh(fs.fatBuf)
  {
    var sectors := SmallSectors();
    PartIsSmall(sectors);
    var part := Table(sectors);
    var dev := new Device(part, {}, 0, 7);
    assert dev.Part() == part;
    fs := new FatFs(dev, SMALL);
    fs.Open(3);
    assert SMALL.ClusterSector(2) == 5 && SMALL.ClusterSector(3) == 6;
    forall c | 2 <= c < SMALL.numClust ensures fs.Readable(c) && fs.ClusterInPart(c) {
      assert c == 2 || c == 3;
    }
  }

  lemma {:induction false} InTwo(pos: nat)
    requires pos < 513
    ensures Quot(pos, 512) == 0 || Quot(pos, 512) == 1
  {
  }

  lemma {:induction false} OpenBytes(fs: FatFs)
    requires IsOpen(fs)
    ensures fs.content(511) == 0x33 && fs.content(512) == 0x22
    ensures forall pos: nat :: pos < 513 ==> SMALL.Walk(fs.entries, 3, Quot(pos, 512)).Cluster?
  {
    var part := fs.dev.Part();
    SmallFile(part, fs.entries);
    SmallBytes(part, fs.entries);
    assert IsByte(SMALL, fs.entries, part, 3, 511, fs.content(511)) && IsByte(SMALL, fs.entries, part, 3, 512, fs.content(512));
    forall pos: nat | pos < 513 ensures SMALL.Walk(fs.entries, 3, Quot(pos, 512)).Cluster? {
      InTwo(pos);
    }
  }

  /** The bytes on both sides of the border between the clusters. */
  method ReadsAcross() returns (left: byte, right: byte)
    ensures left == 0x33 && right == 0x22
  {
    var fs := OpenSmall();
    OpenBytes(fs);
    fs.filepos := 511;
    var buf := new byte[2];
    var ret := fs.FatRead(buf, 0, 2);
    assert buf[0..0 + ret] == buf[..ret];
    left, right := buf[0], buf[1];
    assert left == fs.content(511 + 0) && right == fs.content(511 + 1);
  }
}
