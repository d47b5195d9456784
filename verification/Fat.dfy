/** Reading files from FAT12, FAT16 and FAT32: `fat_read` of fs/grub/fsys_fat.c with its
    cluster cursor and its cached window of the allocation table. */
module Fat {
  import opened Content
  import opened Disk
  import opened Division

  const FAT_CACHE_SIZE: nat := 2048
  const MAXINT: int := 0x7FFF_FFFF

  // ---------- the allocation table ----------

  /** Nibble `n` of the partition, low nibbles first. */
  function Nibble(part: seq<byte>, n: nat): (v: nat)
    ensures v < 16
  {
    if n / 2 >= |part| then 0
    else if n % 2 == 0 then part[n / 2] % 16 else part[n / 2] / 16
  }

  /** The number in the three, four or eight nibbles from nibble `n` on. */
  function Nibbles(part: seq<byte>, n: nat, size: nat): nat {
    var three := Nibble(part, n) + 16 * Nibble(part, n + 1) + 0x100 * Nibble(part, n + 2);
    var four := three + 0x1000 * Nibble(part, n + 3);
    var high := Nibble(part, n + 4) + 16 * Nibble(part, n + 5) + 0x100 * Nibble(part, n + 6) + 0x1000 * Nibble(part, n + 7);
    if size == 3 then three else if size == 4 then four else four + 0x1_0000 * high
  }

  datatype Link = Cluster(c: nat) | Eof | Corrupt

  datatype Geometry = Geometry(fatOffset: nat, fatSize: nat, numClust: nat, clustEofMarker: nat,
    dataOffset: nat, sectsPerClust: nat, rootOffset: nat, rootMax: nat)
  {
    predicate Valid() {
      && (fatSize == 3 || fatSize == 4 || fatSize == 8)
      && 2 < numClust && sectsPerClust > 0
    }

    function ClustSize(): nat { sectsPerClust * SECTOR_SIZE }

    /** The entry of cluster `c` in nibbles from the start of the table. */
    function EntryAt(c: nat): nat {
      if fatSize == 3 then 3 * c else if fatSize == 4 then 4 * c else 8 * c
    }

    /** The table entry of a cluster, decoded straight from the disk. */
    function Entry(part: seq<byte>, c: nat): int {
      var v := Nibbles(part, 2 * SECTOR_SIZE * fatOffset + EntryAt(c), fatSize);
      if fatSize == 8 then Signed(v) else v
    }

    function Classify(entry: int): Link {
      if entry >= clustEofMarker then Eof else if entry < 2 || entry >= numClust then Corrupt else Cluster(entry)
    }

    /** `e` is that entry. */
    predicate IsEntry(part: seq<byte>, c: nat, e: int) {
      e == Entry(part, c)
    }

    /** What follows cluster `c` in its chain, in a table with these entries. */
    function Follow(entries: nat -> int, c: nat): Link {
      Classify(entries(c))
    }

    /** The `k`-th cluster of the file that starts with cluster `first`. */
    function Walk(entries: nat -> int, first: nat, k: nat): Link {
      if k == 0 then Cluster(first)
      else match Walk(entries, first, k - 1)
        case Cluster(c) => Follow(entries, c)
        case other => other
    }

    /** The first sector of a cluster. */
    function ClusterSector(c: nat): int {
      if c >= 2 then dataOffset + Product(c - 2, sectsPerClust) else dataOffset - Product(2 - c, sectsPerClust)
    }

    /** Where byte `pos` of a file lies in the partition, if the file reaches that far. */
    function BytePos(entries: nat -> int, first: nat, pos: nat): int
      requires sectsPerClust > 0 && Walk(entries, first, Quot(pos, ClustSize())).Cluster?
    {
      ClusterSector(Walk(entries, first, Quot(pos, ClustSize())).c) * SECTOR_SIZE + Rem(pos, ClustSize())
    }
  }

  /** A chain that ends does not go on. */
  lemma {:induction false} WalkStays(g: Geometry, entries: nat -> int, first: nat, j: nat, k: nat)
    requires j <= k && !g.Walk(entries, first, j).Cluster?
    ensures g.Walk(entries, first, k) == g.Walk(entries, first, j)
  {
    if j < k { WalkStays(g, entries, first, j, k - 1); }
  }

  lemma {:induction false} WalkStep(g: Geometry, entries: nat -> int, first: nat, k: nat, c: nat)
    requires g.Walk(entries, first, k) == Cluster(c)
    ensures g.Walk(entries, first, k + 1) == g.Follow(entries, c)
  {
  }

  lemma {:induction false} WalkInRange(g: Geometry, entries: nat -> int, first: nat, k: nat, c: nat)
    requires 2 <= first < g.numClust && g.Walk(entries, first, k) == Cluster(c)
    ensures 2 <= c < g.numClust
  {
    if k > 0 {
      var before := g.Walk(entries, first, k - 1).c;
      WalkInRange(g, entries, first, k - 1, before);
      assert g.Follow(entries, before) == Cluster(c);
    }
  }

  /** Byte `pos` of the file that starts with cluster `first`, or -1 if there is none. */
  function ByteOf(g: Geometry, entries: nat -> int, part: seq<byte>, first: nat, pos: nat): int
    requires g.Valid()
  {
    if g.Walk(entries, first, Quot(pos, g.ClustSize())).Cluster? && 0 <= g.BytePos(entries, first, pos) < |part|
    then part[g.BytePos(entries, first, pos)] else -1
  }

  predicate IsByte(g: Geometry, entries: nat -> int, part: seq<byte>, first: nat, pos: nat, v: int)
    requires g.Valid()
  {
    v == ByteOf(g, entries, part, first, pos)
  }

  lemma {:induction false} ByteOfCluster(g: Geometry, entries: nat -> int, part: seq<byte>, first: nat, pos: nat, c: nat, i: nat)
    requires g.Valid() && Rem(pos, g.ClustSize()) + i < g.ClustSize()
    requires g.Walk(entries, first, Quot(pos, g.ClustSize())) == Cluster(c)
    requires 0 <= g.ClusterSector(c) * SECTOR_SIZE + Rem(pos, g.ClustSize()) + i < |part|
    ensures ByteOf(g, entries, part, first, pos + i) == part[g.ClusterSector(c) * SECTOR_SIZE + Rem(pos, g.ClustSize()) + i]
  {
    MoveOn(pos, i, g.ClustSize());
  }

  // ---------- decoding from the window ----------

  /** The decoding of `fat_read`: a 32-bit load at the byte of nibble `p`, shifted and masked. */
  function Decode(buf: seq<byte>, p: nat, fatSize: nat): int
    requires p / 2 + 4 <= |buf|
  {
    var w := U32(buf, p / 2);
    if fatSize == 3 then (if p % 2 == 1 then w / 16 else w) % 0x1000
    else if fatSize == 4 then w % 0x1_0000
    else Signed(w)
  }

  /** The window holds nibble `p` of the table as the disk does. */
  lemma {:induction false} NibbleOfWindow(part: seq<byte>, buf: seq<byte>, start: nat, p: nat)
    requires start + FAT_CACHE_SIZE <= |part| && |buf| >= FAT_CACHE_SIZE && p < 2 * FAT_CACHE_SIZE
    requires buf[..FAT_CACHE_SIZE] == part[start..start + FAT_CACHE_SIZE]
    ensures Nibble(buf, p) == Nibble(part, 2 * start + p)
  {
    assert buf[..FAT_CACHE_SIZE][p / 2] == part[start + p / 2];
    assert (2 * start + p) / 2 == start + p / 2 && (2 * start + p) % 2 == p % 2;
  }

  lemma {:induction false} NibblesOfWindow(part: seq<byte>, buf: seq<byte>, start: nat, p: nat, size: nat)
    requires start + FAT_CACHE_SIZE <= |part| && |buf| >= FAT_CACHE_SIZE && p + size <= 2 * FAT_CACHE_SIZE
    requires buf[..FAT_CACHE_SIZE] == part[start..start + FAT_CACHE_SIZE] && (size == 3 || size == 4 || size == 8)
    ensures Nibbles(buf, p, size) == Nibbles(part, 2 * start + p, size)
  {
    forall j | p <= j < p + size ensures Nibble(buf, j) == Nibble(part, 2 * start + j) {
      NibbleOfWindow(part, buf, start, j);
    }
  }

  /** Two nibbles are a byte. */
  lemma {:induction false} Pair(buf: seq<byte>, q: nat)
    requires q < |buf|
    ensures buf[q] == Nibble(buf, 2 * q) + 16 * Nibble(buf, 2 * q + 1)
  {
    assert (2 * q) / 2 == q && (2 * q + 1) / 2 == q;
  }

  /** A 32-bit load is eight nibbles. */
  lemma {:induction false} Word(buf: seq<byte>, q: nat)
    requires q + 4 <= |buf|
    ensures
      var n := 2 * q;
      U32(buf, q) == Nibble(buf, n) + 16 * Nibble(buf, n + 1) + 0x100 * Nibble(buf, n + 2) + 0x1000 * Nibble(buf, n + 3)
        + 0x1_0000 * (Nibble(buf, n + 4) + 16 * Nibble(buf, n + 5) + 0x100 * Nibble(buf, n + 6) + 0x1000 * Nibble(buf, n + 7))
  {
    Pair(buf, q);
    Pair(buf, q + 1);
    Pair(buf, q + 2);
    Pair(buf, q + 3);
  }

  /** What shifting and masking do to the hexadecimal digits of a word. */
  lemma {:induction false} Digits(w: nat, a: nat, b: nat, c: nat, d: nat, rest: nat)
    requires a < 16 && b < 16 && c < 16 && d < 16
    requires w == a + 16 * b + 0x100 * c + 0x1000 * d + 0x1_0000 * rest
    ensures w % 0x1000 == a + 16 * b + 0x100 * c
    ensures w % 0x1_0000 == a + 16 * b + 0x100 * c + 0x1000 * d
    ensures w / 16 % 0x1000 == b + 16 * c + 0x100 * d
  {
    Low12(w, a + 16 * b + 0x100 * c, d + 16 * rest);
    Low16(w, a + 16 * b + 0x100 * c + 0x1000 * d, rest);
    Drop4(w, a, b + 16 * c + 0x100 * d + 0x1000 * rest);
    Low12(w / 16, b + 16 * c + 0x100 * d, rest);
  }

  lemma {:induction false} Low12(w: nat, low: nat, high: nat)
    requires low < 0x1000 && w == low + 0x1000 * high
    ensures w % 0x1000 == low
  {
  }

  lemma {:induction false} Low16(w: nat, low: nat, high: nat)
    requires low < 0x1_0000 && w == low + 0x1_0000 * high
    ensures w % 0x1_0000 == low
  {
  }

  lemma {:induction false} Drop4(w: nat, low: nat, high: nat)
    requires low < 16 && w == low + 16 * high
    ensures w / 16 == high
  {
  }

  lemma {:induction false} Masks(buf: seq<byte>, q: nat)
    requires q + 4 <= |buf|
    ensures U32(buf, q) % 0x1000 == Nibbles(buf, 2 * q, 3)
    ensures U32(buf, q) / 16 % 0x1000 == Nibbles(buf, 2 * q + 1, 3)
    ensures U32(buf, q) % 0x1_0000 == Nibbles(buf, 2 * q, 4)
    ensures U32(buf, q) == Nibbles(buf, 2 * q, 8)
  {
    var n := 2 * q;
    Word(buf, q);
    Digits(U32(buf, q), Nibble(buf, n), Nibble(buf, n + 1), Nibble(buf, n + 2), Nibble(buf, n + 3),
      Nibble(buf, n + 4) + 16 * Nibble(buf, n + 5) + 0x100 * Nibble(buf, n + 6) + 0x1000 * Nibble(buf, n + 7));
  }

  /** The load, shift and mask pick out the nibbles of the entry, for all three entry sizes,
      also where a 12-bit entry starts or ends inside a byte. */
  lemma {:induction false} DecodeIsNibbles(buf: seq<byte>, p: nat, fatSize: nat)
    requires p / 2 + 4 <= |buf| && (fatSize == 3 || (p % 2 == 0 && (fatSize == 4 || fatSize == 8)))
    ensures Decode(buf, p, fatSize) == if fatSize == 8 then Signed(Nibbles(buf, p, 8)) else Nibbles(buf, p, fatSize)
  {
    var q := p / 2;
    Masks(buf, q);
    if p % 2 == 0 {
      assert p == 2 * q;
    } else {
      assert p == 2 * q + 1;
    }
  }

  lemma {:induction false} EvenEntry(g: Geometry, start: nat, p: nat, c: nat)
    requires g.fatSize == 4 || g.fatSize == 8
    requires 2 * start + p == 2 * SECTOR_SIZE * g.fatOffset + g.EntryAt(c)
    ensures p % 2 == 0
  {
    var half := SECTOR_SIZE * g.fatOffset + (if g.fatSize == 4 then 2 * c else 4 * c) - start;
    assert p == 2 * half;
  }

  /** An entry that lies in the window is decoded as the table has it, whatever follows the
      window in memory. */
  lemma {:induction false} DecodeIsEntry(g: Geometry, part: seq<byte>, buf: seq<byte>, start: nat, p: nat, c: nat)
    requires g.Valid() && start + FAT_CACHE_SIZE <= |part| && |buf| >= FAT_CACHE_SIZE + 4
    requires p + g.fatSize <= 2 * FAT_CACHE_SIZE && 2 * start + p == 2 * SECTOR_SIZE * g.fatOffset + g.EntryAt(c)
    requires buf[..FAT_CACHE_SIZE] == part[start..start + FAT_CACHE_SIZE]
    ensures Decode(buf, p, g.fatSize) == g.Entry(part, c)
  {
    if g.fatSize != 3 { EvenEntry(g, start, p, c); }
    DecodeIsNibbles(buf, p, g.fatSize);
    NibblesOfWindow(part, buf, start, p, g.fatSize);
  }

  /** The first nibble of the sector of the table that holds nibble `entry`. */
  function SectorStart(entry: nat): (n: nat)
    ensures n <= entry < n + 2 * SECTOR_SIZE && n % (2 * SECTOR_SIZE) == 0
    ensures n / (2 * SECTOR_SIZE) * SECTOR_SIZE == n / 2
  {
    entry / (2 * SECTOR_SIZE) * (2 * SECTOR_SIZE)
  }

  // ---------- the reader ----------

  class FatFs {
    const dev: Device
    const g: Geometry
    ghost const entries: nat -> int // the allocation table, entry by entry
    const fatBuf: array<byte>       // FAT_BUF, and the few bytes behind it
    var cachedFat: int              // first nibble of the table that the window holds
    var fileCluster: int            // first cluster of the file, -1 for a FAT12/16 root directory
    var currentClusterNum: int
    var currentCluster: nat
    var filepos: nat
    ghost var content: nat -> int   // the bytes of the open file

    /** The end of `fat_mount`: a window position that no table entry can hit. */
    constructor (dev: Device, g: Geometry)
      requires dev.Valid() && g.Valid()
      ensures this.dev == dev && this.g == g && fresh(fatBuf) && fileCluster == -1 && Valid()
      ensures forall c: nat :: g.EntryAt(c) - cachedFat + g.fatSize > 2 * FAT_CACHE_SIZE
    {
      this.dev, this.g := dev, g;
      fatBuf := new byte[FAT_CACHE_SIZE + 4];
      entries := (c: nat) => g.Entry(dev.Part(), c);
      cachedFat := -2 * FAT_CACHE_SIZE;
      fileCluster, currentClusterNum, currentCluster, filepos, content := -1, MAXINT, 0, 0, (_: nat) => -1;
    }

    ghost predicate Shape() {
      && dev.Valid() && g.Valid() && fatBuf.Length == FAT_CACHE_SIZE + 4
      && forall c: nat {:trigger g.IsEntry(dev.Part(), c, entries(c))} :: g.IsEntry(dev.Part(), c, entries(c))
    }

    function Start(): int
      reads this`cachedFat
    {
      SECTOR_SIZE * g.fatOffset + cachedFat / 2
    }

    /** The window holds the part of the table it says, or nothing at all. */
    ghost predicate WindowOk()
      requires Shape()
      reads this`cachedFat, fatBuf
    {
      || cachedFat == -2 * FAT_CACHE_SIZE
      || (cachedFat >= 0 && cachedFat % (2 * SECTOR_SIZE) == 0
        && Start() + FAT_CACHE_SIZE <= |dev.Part()|
        && fatBuf[..FAT_CACHE_SIZE] == dev.Part()[Start()..Start() + FAT_CACHE_SIZE])
    }

    /** The cursor stands on a cluster of the file, or nowhere. */
    ghost predicate CursorOk()
      requires Shape()
      reads this
    {
      fileCluster >= 0 ==>
        || currentClusterNum == MAXINT
        || (currentClusterNum >= 0 && g.Walk(entries, fileCluster, currentClusterNum) == Cluster(currentCluster))
    }

    /** `content` gives the bytes of the open file. */
    ghost predicate ContentOk()
      requires Shape()
      reads this`content, this`fileCluster
    {
      fileCluster >= 0 ==>
        forall pos: nat {:trigger IsByte(g, entries, dev.Part(), fileCluster, pos, content(pos))} ::
          IsByte(g, entries, dev.Part(), fileCluster, pos, content(pos))
    }

    /** What every read and every opening of a file keeps, as long as no read of the disk
        has failed. */
    ghost predicate Valid()
      reads this, dev, fatBuf
    {
      Shape() && (dev.errnum == ErrNone ==> WindowOk() && CursorOk())
    }

    /** What `fat_dir` does to open a file, or the directory to search. */
    method Open(first: int)
      requires Valid() && first >= -1
      modifies this`fileCluster, this`currentClusterNum, this`filepos, this`content
      ensures Valid() && ContentOk() && fileCluster == first && filepos == 0
    {
      fileCluster, currentClusterNum, filepos := first, MAXINT, 0;
      if first >= 0 { content := (pos: nat) => ByteOf(g, entries, dev.Part(), first, pos); }
    }

    /** Moves the window of the table to the entry at nibble `entry`, if it is not in it. */
    method FillWindow(entry: nat) returns (ok: bool)
      requires Shape() && (dev.errnum == ErrNone ==> WindowOk())
      modifies this`cachedFat, dev`errnum, fatBuf
      ensures old(dev.errnum) != ErrNone ==> dev.errnum != ErrNone
      ensures !ok ==> dev.errnum != ErrNone
      ensures ok && dev.errnum == ErrNone ==> WindowOk()
      ensures ok ==> 0 <= entry - cachedFat && entry - cachedFat + g.fatSize <= 2 * FAT_CACHE_SIZE
      ensures dev.bad == {} && old(dev.errnum) == ErrNone
          && SECTOR_SIZE * g.fatOffset + entry / 2 + FAT_CACHE_SIZE <= |dev.Part()|
        ==> ok && dev.errnum == ErrNone
    {
      var cachedPos := entry - cachedFat;
      ok := true;
      if cachedPos < 0 || cachedPos + g.fatSize > 2 * FAT_CACHE_SIZE {
        cachedFat := SectorStart(entry);
        var sector := g.fatOffset + cachedFat / (2 * SECTOR_SIZE);
        assert sector * SECTOR_SIZE == Start();
        var r := dev.DevRead(sector, 0, FAT_CACHE_SIZE, fatBuf, 0);
        ok := r != 0;
      }
    }

    /** The window is a stretch of the table that begins with the nibble `cachedFat`. */
    lemma {:induction false} WindowIsTable()
      requires Shape() && WindowOk() && cachedFat >= 0
      ensures Start() + FAT_CACHE_SIZE <= |dev.Part()|
      ensures fatBuf[..][..FAT_CACHE_SIZE] == dev.Part()[Start()..Start() + FAT_CACHE_SIZE]
      ensures 2 * Start() == 2 * SECTOR_SIZE * g.fatOffset + cachedFat
    {
      assert fatBuf[..][..FAT_CACHE_SIZE] == fatBuf[..FAT_CACHE_SIZE];
    }

    lemma {:induction false} WindowDecodes(c: nat)
      requires Shape() && WindowOk() && 0 <= g.EntryAt(c) - cachedFat <= 2 * FAT_CACHE_SIZE - g.fatSize
      ensures Decode(fatBuf[..], g.EntryAt(c) - cachedFat, g.fatSize) == entries(c)
    {
      var start, p := Start(), g.EntryAt(c) - cachedFat;
      WindowIsTable();
      DecodeIsEntry(g, dev.Part(), fatBuf[..], start, p, c);
      assert g.IsEntry(dev.Part(), c, entries(c));
    }

    /** Looks the next cluster up in the table; a table that cannot be read counts as corrupt. */
    method NextLink() returns (link: Link)
      requires Shape() && (dev.errnum == ErrNone ==> WindowOk())
      modifies this`cachedFat, dev`errnum, fatBuf
      ensures old(dev.errnum) != ErrNone ==> dev.errnum != ErrNone
      ensures dev.errnum == ErrNone ==> WindowOk() && link == g.Follow(entries, currentCluster) && !link.Corrupt?
      ensures link.Corrupt? ==> dev.errnum != ErrNone
      ensures Readable(currentCluster) && old(dev.errnum) == ErrNone ==>
        && dev.errnum == (if g.Follow(entries, currentCluster).Corrupt? then ErrFsysCorrupt else ErrNone)
        && link == g.Follow(entries, currentCluster)
    {
      var entry := g.EntryAt(currentCluster);
      var ok := FillWindow(entry);
      if !ok { return Corrupt; }
      var cachedPos := entry - cachedFat;
      if dev.errnum == ErrNone { WindowDecodes(currentCluster); }
      link := g.Classify(Decode(fatBuf[..], cachedPos, g.fatSize));
      if link.Corrupt? { dev.errnum := ErrFsysCorrupt; }
    }

    /** The device is sound and the table entry of cluster `c` is well inside the partition. */
    ghost predicate Readable(c: nat)
      requires Shape()
    {
      dev.bad == {} && SECTOR_SIZE * g.fatOffset + g.EntryAt(c) / 2 + FAT_CACHE_SIZE <= |dev.Part()|
    }

    /** The device is sound, the table and every cluster lie inside the partition, and the
        file starts with a cluster of the data area. */
    ghost predicate Healthy(first: int)
      requires Shape()
    {
      2 <= first < g.numClust && forall c :: 2 <= c < g.numClust ==> Readable(c) && ClusterInPart(c)
    }

    ghost predicate ClusterInPart(c: nat)
      requires Shape()
    {
      0 <= g.ClusterSector(c) && g.ClusterSector(c) + g.sectsPerClust <= dev.partLength && dev.bad == {}
    }

    /** One step of the cursor along the chain. */
    method StepOn() returns (link: Link)
      requires Valid() && fileCluster >= 0
      requires dev.errnum == ErrNone ==> 0 <= currentClusterNum < MAXINT - 1
      modifies this`cachedFat, this`currentCluster, this`currentClusterNum, dev`errnum, fatBuf
      ensures Valid()
      ensures old(dev.errnum) != ErrNone ==> dev.errnum != ErrNone
      ensures link.Corrupt? ==> dev.errnum != ErrNone
      ensures dev.errnum == ErrNone ==> !link.Corrupt?
      ensures dev.errnum == ErrNone || (Healthy(fileCluster) && old(dev.errnum) == ErrNone) ==>
        && old(currentClusterNum) >= 0 && link == g.Walk(entries, fileCluster, old(currentClusterNum) + 1)
        && dev.errnum == (if link.Corrupt? then ErrFsysCorrupt else ErrNone)
      ensures currentClusterNum == (if link.Cluster? then old(currentClusterNum) + 1 else old(currentClusterNum))
      ensures currentCluster == (if link.Cluster? then link.c else old(currentCluster))
    {
      if dev.errnum == ErrNone {
        WalkStep(g, entries, fileCluster, currentClusterNum, currentCluster);
        if Healthy(fileCluster) { WalkInRange(g, entries, fileCluster, currentClusterNum, currentCluster); }
      }
      link := NextLink();
      if link.Cluster? {
        currentCluster := link.c;
        currentClusterNum := currentClusterNum + 1;
      }
    }

    /** Moves the cursor along the chain to cluster number `logical` of the file. */
    method Advance(logical: nat) returns (link: Link)
      requires Valid() && fileCluster >= 0 && logical < MAXINT
      requires dev.errnum == ErrNone ==> 0 <= currentClusterNum <= logical
      modifies this`cachedFat, this`currentCluster, this`currentClusterNum, dev`errnum, fatBuf
      ensures Valid()
      ensures old(dev.errnum) != ErrNone ==> dev.errnum != ErrNone
      ensures dev.errnum == ErrNone || (Healthy(fileCluster) && old(dev.errnum) == ErrNone) ==>
        && link == g.Walk(entries, fileCluster, logical)
        && dev.errnum == (if link.Corrupt? then ErrFsysCorrupt else ErrNone)
      ensures dev.errnum == ErrNone && link.Cluster? ==> currentCluster == link.c && currentClusterNum == logical
      ensures link.Corrupt? ==> dev.errnum != ErrNone
    {
      link := Cluster(currentCluster);
      while logical > currentClusterNum
        invariant Valid()
        invariant old(dev.errnum) != ErrNone ==> dev.errnum != ErrNone
        invariant dev.errnum == ErrNone ==> 0 <= currentClusterNum <= logical
        invariant Healthy(fileCluster) && old(dev.errnum) == ErrNone ==> dev.errnum == ErrNone
        invariant link == Cluster(currentCluster)
      {
        ghost var num := currentClusterNum;
        ghost var sound := old(dev.errnum) == ErrNone && Healthy(fileCluster);
        link := StepOn();
        if !link.Cluster? {
          if sound || dev.errnum == ErrNone { WalkStays(g, entries, fileCluster, num + 1, logical); }
          return;
        }
      }
    }

    /** A stretch of one cluster is a stretch of the file. */
    lemma {:induction false} PieceIsSlice(pos: nat, c: nat, k: nat, size: nat)
      requires Shape() && ContentOk() && fileCluster >= 0 && Rem(pos, g.ClustSize()) + size <= g.ClustSize()
      requires g.Walk(entries, fileCluster, Quot(pos, g.ClustSize())) == Cluster(c)
      requires k == g.ClusterSector(c) * SECTOR_SIZE + Rem(pos, g.ClustSize()) && k + size <= |dev.Part()|
      ensures SliceOf(content, pos, dev.Part()[k..k + size])
    {
      var part := dev.Part();
      var s := part[k..k + size];
      forall i | 0 <= i < |s| ensures content(pos + i) == s[i] {
        ByteOfCluster(g, entries, part, fileCluster, pos, c, i);
        assert IsByte(g, entries, part, fileCluster, pos + i, content(pos + i));
      }
    }

    /** Reads a stretch of the current cluster. */
    method ReadHere(buf: array<byte>, at: nat, offset: nat, size: nat)
      requires Shape() && 0 < size && offset + size <= g.ClustSize() && at + size <= buf.Length
      modifies dev`errnum, buf
      ensures old(dev.errnum) != ErrNone ==> dev.errnum != ErrNone
      ensures forall k :: 0 <= k < buf.Length && !(at <= k < at + size) ==> buf[k] == old(buf[k])
      ensures dev.errnum == ErrNone ==>
        var k := g.ClusterSector(currentCluster) * SECTOR_SIZE + offset;
        0 <= k && k + size <= |dev.Part()| && buf[at..at + size] == dev.Part()[k..k + size]
      ensures ClusterInPart(currentCluster) && old(dev.errnum) == ErrNone ==> dev.errnum == ErrNone
    {
      dev.Fetch(g.ClusterSector(currentCluster), offset, size, buf, at);
    }

    /** Reads the part of the current cluster from `offset` on, as far as it is wanted, behind
        the `done` bytes already in the buffer. */
    method ReadPiece(buf: array<byte>, at: nat, done: nat, offset: nat, len: nat) returns (size: nat)
      requires Shape() && ContentOk() && fileCluster >= 0 && len > 0 && at + done + len <= buf.Length && done <= filepos
      requires offset < g.ClustSize()
      requires dev.errnum == ErrNone ==>
        && offset == Rem(filepos, g.ClustSize())
        && g.Walk(entries, fileCluster, Quot(filepos, g.ClustSize())) == Cluster(currentCluster)
        && SliceOf(content, filepos - done, buf[at..at + done])
      modifies dev`errnum, buf
      ensures size == Min(g.ClustSize() - offset, len)
      ensures old(dev.errnum) != ErrNone ==> dev.errnum != ErrNone
      ensures dev.errnum == ErrNone ==> SliceOf(content, filepos - done, buf[at..at + done + size])
      ensures forall k :: 0 <= k < buf.Length && !(at + done <= k < at + done + size) ==> buf[k] == old(buf[k])
      ensures ClusterInPart(currentCluster) && old(dev.errnum) == ErrNone ==> dev.errnum == ErrNone
    {
      ghost var got := buf[at..at + done];
      assert dev.errnum == ErrNone ==> SliceOf(content, filepos - done, got);
      size := Min(g.ClustSize() - offset, len);
      ReadHere(buf, at + done, offset, size);
      StillThere(buf, at, got);
      if dev.errnum == ErrNone {
        ghost var k := g.ClusterSector(currentCluster) * SECTOR_SIZE + offset;
        ghost var piece := dev.Part()[k..k + size];
        PieceIsSlice(filepos, currentCluster, k, size);
        Extend(content, buf, at, filepos - done, got, at + done, filepos, piece, at + done + size);
      }
    }

    /** One turn of the loop of `fat_read`: the cursor moves to the cluster wanted, and what is
        wanted of it is added to the `done` bytes already in the buffer. */
    method ReadTurn(buf: array<byte>, at: nat, done: nat, left: nat, logical: nat, offset: nat)
      returns (link: Link, size: nat)
      requires Valid() && ContentOk() && fileCluster >= 0 && buf != fatBuf && left > 0 && at + done + left <= buf.Length
      requires done <= filepos && filepos + left < MAXINT
      requires logical == Quot(filepos, g.ClustSize()) && offset == Rem(filepos, g.ClustSize())
      requires dev.errnum == ErrNone ==>
        0 <= currentClusterNum <= logical && SliceOf(content, filepos - done, buf[at..at + done])
      modifies this`cachedFat, this`currentCluster, this`currentClusterNum, dev`errnum, fatBuf, buf
      ensures Valid()
      ensures old(dev.errnum) != ErrNone ==> dev.errnum != ErrNone
      ensures link.Corrupt? ==> dev.errnum != ErrNone
      ensures size == if link.Cluster? then Min(g.ClustSize() - offset, left) else 0
      ensures forall k :: 0 <= k < buf.Length && !(at + done <= k < at + done + size) ==> buf[k] == old(buf[k])
      ensures dev.errnum == ErrNone || (old(dev.errnum) == ErrNone && Healthy(fileCluster)) ==>
        && link == g.Walk(entries, fileCluster, logical)
        && dev.errnum == (if link.Corrupt? then ErrFsysCorrupt else ErrNone)
      ensures dev.errnum == ErrNone ==> SliceOf(content, filepos - done, buf[at..at + done + size])
      ensures dev.errnum == ErrNone && link.Cluster? ==> currentClusterNum == logical
      ensures link.Cluster? && size < left ==>
        Quot(filepos + size, g.ClustSize()) == logical + 1 && Rem(filepos + size, g.ClustSize()) == 0
    {
      size := 0;
      MoveOn(filepos, Min(g.ClustSize() - offset, left), g.ClustSize());
      QuotIsSmall(filepos, g.ClustSize());
      link := Advance(logical);
      if !link.Cluster? { return; }
      if dev.errnum == ErrNone && Healthy(fileCluster) {
        WalkInRange(g, entries, fileCluster, logical, currentCluster);
        assert ClusterInPart(currentCluster);
      }
      size := ReadPiece(buf, at, done, offset, left);
    }

    /** Takes the cursor back to the first cluster if it stands behind the one wanted. */
    method Rewind(logical: nat)
      requires Valid() && fileCluster >= 0 && logical == Quot(filepos, g.ClustSize()) && filepos < MAXINT
      modifies this`currentCluster, this`currentClusterNum
      ensures Valid() && (dev.errnum == ErrNone ==> 0 <= currentClusterNum <= logical)
    {
      QuotIsSmall(filepos, g.ClustSize());
      if logical < currentClusterNum {
        currentClusterNum := 0;
        currentCluster := fileCluster;
      }
    }

    /** Reads `len` bytes of the open file into `buf`. As long as no error is reported the
        bytes are those of the file, and fewer of them arrive only where its chain of clusters
        ends. */
    method FatRead(buf: array<byte>, at: nat, len: nat) returns (ret: nat)
      requires Valid() && ContentOk() && fileCluster >= 0 && buf != fatBuf && at + len <= buf.Length
      requires filepos + len < MAXINT
      modifies this`cachedFat, this`currentCluster, this`currentClusterNum, this`filepos, dev`errnum, fatBuf, buf
      ensures Valid() && ret <= len
      ensures old(dev.errnum) != ErrNone ==> dev.errnum != ErrNone
      ensures forall k :: 0 <= k < buf.Length && !(at <= k < at + len) ==> buf[k] == old(buf[k])
      ensures dev.errnum == ErrNone ==>
        && filepos == old(filepos) + ret && SliceOf(content, old(filepos), buf[at..at + ret])
        && (ret < len ==> g.Walk(entries, fileCluster, Quot(filepos, g.ClustSize())).Eof?)
      ensures old(dev.errnum) == ErrNone && Healthy(fileCluster) ==>
        || dev.errnum == ErrNone
        || (dev.errnum == ErrFsysCorrupt && filepos < old(filepos) + len
          && g.Walk(entries, fileCluster, Quot(filepos, g.ClustSize())).Corrupt?)
    {
      ghost var start, sound := filepos, dev.errnum == ErrNone && Healthy(fileCluster);
      var logical, offset := Quot(filepos, g.ClustSize()), Rem(filepos, g.ClustSize());
      Rewind(logical);
      ret := 0;
      var left := len;
      while left > 0
        invariant ret + left == len && filepos == start + ret
        invariant Valid()
        invariant old(dev.errnum) != ErrNone ==> dev.errnum != ErrNone
        invariant left > 0 ==> logical == Quot(filepos, g.ClustSize()) && offset == Rem(filepos, g.ClustSize())
        invariant dev.errnum == ErrNone && left > 0 ==> 0 <= currentClusterNum <= logical
        invariant dev.errnum == ErrNone ==> SliceOf(content, start, buf[at..at + ret])
        invariant forall k :: 0 <= k < buf.Length && !(at <= k < at + len) ==> buf[k] == old(buf[k])
        invariant sound ==> dev.errnum == ErrNone
      {
        var link, size := ReadTurn(buf, at, ret, left, logical, offset);
        if !link.Cluster? { return if link.Eof? then ret else 0; }
        left, ret, filepos := left - size, ret + size, filepos + size;
        logical, offset := logical + 1, 0;
      }
      ret := if dev.errnum != ErrNone then 0 else ret;
    }

    /** Reads the root directory of FAT12 and FAT16, which lies outside the clusters. */
    method ReadRoot(buf: array<byte>, at: nat, len: nat) returns (ret: nat)
      requires Valid() && fileCluster < 0 && buf != fatBuf && at + len <= buf.Length && filepos <= g.rootMax
      modifies this`filepos, dev`errnum, buf
      ensures Valid() && ret <= len && filepos == old(filepos) + ret <= g.rootMax
      ensures old(dev.errnum) != ErrNone ==> dev.errnum != ErrNone
      ensures forall k :: 0 <= k < buf.Length && !(at <= k < at + len) ==> buf[k] == old(buf[k])
      ensures dev.errnum == ErrNone ==>
        var pos := g.rootOffset * SECTOR_SIZE + old(filepos);
        && ret == Min(g.rootMax - old(filepos), len)
        && (ret > 0 ==> pos + ret <= |dev.Part()| && buf[at..at + ret] == dev.Part()[pos..pos + ret])
      ensures dev.bad == {} && old(dev.errnum) == ErrNone ==>
        (dev.errnum == ErrNone <==> !dev.Outside(g.rootOffset, old(filepos), Min(g.rootMax - old(filepos), len)))
    {
      var size := Min(g.rootMax - filepos, len);
      var r := dev.DevRead(g.rootOffset, filepos, size, buf, at);
      if r == 0 { return 0; }
      filepos := filepos + size;
      return size;
    }
  }
}
