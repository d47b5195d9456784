/** Opening a FATX partition and loading a file from it: `OpenFATXPartition`,
    `getNextClusterInChain`, `LoadFATXCluster`, `FATXRawRead` and `FATXLoadFromDisk` of
    fs/fatx/BootFATX.c. */
module Fatx {
  import opened Disk
  import opened Encoding

  const HEADER_SIZE: nat := 0x1000
  const CHAINTABLE_BLOCK: nat := 0x1000
  const CLUSTER_SIZE: nat := 0x4000
  const MAGIC: nat := 0x58544146

  // ---------- chains of clusters ----------

  /** What a chain map entry means: the next cluster, or -1 at the end of the chain. */
  function Next(table: seq<byte>, entrySize: nat, id: nat): int
    requires entrySize == 2 || entrySize == 4
    requires InTable(table, entrySize, id)
  {
    if entrySize == 2 then
      var v := U16(table, 2 * id);
      if v == 0xffff || v == 0xfff8 then -1 else v
    else
      var v := U32(table, 4 * id);
      if v == 0xffff_ffff || v == 0xffff_fff8 then -1 else Signed(v)
  }

  predicate InTable(table: seq<byte>, entrySize: nat, id: int) {
    0 <= id && (id + 1) * entrySize <= |table|
  }

  /** The clusters `ids` are the chain that starts with `first`: each leads to the next, and the
      last ends it. */
  predicate IsChain(table: seq<byte>, entrySize: nat, first: int, ids: seq<nat>)
    requires entrySize == 2 || entrySize == 4
    decreases |ids|
  {
    if ids == [] then first == -1
    else
      && first == ids[0] >= 1 && InTable(table, entrySize, ids[0])
      && IsChain(table, entrySize, Next(table, entrySize, ids[0]), ids[1..])
  }

  /** From one cluster there is at most one chain that ends. */
  lemma {:induction false} ChainIsUnique(table: seq<byte>, entrySize: nat, first: int, ids: seq<nat>, other: seq<nat>)
    requires entrySize == 2 || entrySize == 4
    requires IsChain(table, entrySize, first, ids) && IsChain(table, entrySize, first, other)
    ensures ids == other
    decreases |ids|
  {
    if ids != [] && other != [] {
      ChainIsUnique(table, entrySize, Next(table, entrySize, ids[0]), ids[1..], other[1..]);
    }
  }

  /** A chain that ends never comes back to a cluster. */
  lemma {:induction false} ChainIsAcyclic(table: seq<byte>, entrySize: nat, first: int, ids: seq<nat>, i: nat, j: nat)
    requires entrySize == 2 || entrySize == 4
    requires IsChain(table, entrySize, first, ids) && i < j < |ids|
    ensures ids[i] != ids[j]
    decreases |ids|
  {
    if i > 0 {
      ChainIsAcyclic(table, entrySize, Next(table, entrySize, ids[0]), ids[1..], i - 1, j - 1);
    } else {
      Rest(table, entrySize, first, ids, j);
      if ids[0] == ids[j] {
        ChainIsUnique(table, entrySize, first, ids, ids[j..]);
      }
    }
  }

  /** What follows a cluster of a chain is the chain from there. */
  lemma {:induction false} Rest(table: seq<byte>, entrySize: nat, first: int, ids: seq<nat>, j: nat)
    requires entrySize == 2 || entrySize == 4
    requires IsChain(table, entrySize, first, ids) && j < |ids|
    ensures IsChain(table, entrySize, ids[j], ids[j..])
    decreases j
  {
    if j > 0 {
      Rest(table, entrySize, Next(table, entrySize, ids[0]), ids[1..], j - 1);
      assert ids[1..][j - 1..] == ids[j..];
    } else {
      assert ids[0..] == ids;
    }
  }

  // ---------- chain maps as they are written ----------

  /** In a map with these entries each of the clusters is followed by the next, and the last by an
      end marker. */
  ghost predicate Links(es: seq<int>, ids: seq<nat>, marker: int) {
    && ids != [] && (forall i :: 0 <= i < |ids| ==> 1 <= ids[i] < |es|)
    && (forall i :: 0 < i < |ids| ==> es[ids[i - 1]] == ids[i]) && es[ids[|ids| - 1]] == marker
  }

  lemma {:induction false} LinksOn(es: seq<int>, ids: seq<nat>, marker: int)
    requires Links(es, ids, marker) && |ids| > 1
    ensures Links(es, ids[1..], marker)
  {
    forall i | 0 < i < |ids[1..]| ensures es[ids[1..][i - 1]] == ids[1..][i] {
      assert ids[1..][i - 1] == ids[i] && ids[1..][i] == ids[i + 1];
    }
  }

  /** Such a chain is followed, in a map of 16-bit entries ... */
  lemma {:induction false} HalvesAreFollowed(table: seq<byte>, es: seq<int>, ids: seq<nat>, marker: int)
    requires AreHalves(es) && Stands(table, 0, Halves(es)) && Links(es, ids, marker) && (marker == 0xfff8 || marker == 0xffff)
    requires forall i :: 0 <= i < |ids| ==> ids[i] < 0xfff8
    ensures IsChain(table, 2, ids[0], ids)
    decreases |ids|
  {
    HalvesAreRead(table, 0, es, ids[0]);
    if |ids| > 1 {
      LinksOn(es, ids, marker);
      HalvesAreFollowed(table, es, ids[1..], marker);
      assert es[ids[0]] == ids[1];
    } else {
      assert ids[1..] == [];
    }
  }

  /** ... and of 32-bit ones. */
  lemma {:induction false} WordsAreFollowed(table: seq<byte>, es: seq<int>, ids: seq<nat>, marker: int)
    requires AreWords(es) && Stands(table, 0, Words(es)) && Links(es, ids, marker) && (marker == 0xffff_fff8 || marker == 0xffff_ffff)
    requires forall i :: 0 <= i < |ids| ==> ids[i] < 0x8000_0000
    ensures IsChain(table, 4, ids[0], ids)
    decreases |ids|
  {
    WordsAreRead(table, 0, es, ids[0]);
    if |ids| > 1 {
      LinksOn(es, ids, marker);
      WordsAreFollowed(table, es, ids[1..], marker);
      assert es[ids[0]] == ids[1];
    } else {
      assert ids[1..] == [];
    }
  }

  /** The size of the chain map on the disk, in whole blocks. */
  function TableSize(partitionSize: nat): (n: nat)
    ensures n % CHAINTABLE_BLOCK == 0
    ensures partitionSize / CLUSTER_SIZE * EntrySize(partitionSize) <= n
    ensures n < partitionSize / CLUSTER_SIZE * EntrySize(partitionSize) + CHAINTABLE_BLOCK
  {
    var size := partitionSize / CLUSTER_SIZE * EntrySize(partitionSize);
    if size % CHAINTABLE_BLOCK != 0 then (size / CHAINTABLE_BLOCK + 1) * CHAINTABLE_BLOCK else size
  }

  function EntrySize(partitionSize: nat): (n: nat)
    ensures n == 2 || n == 4
  {
    if partitionSize / CLUSTER_SIZE >= 0xfff4 then 4 else 2
  }

  /** Entries of four bytes begin with the partitions of 65524 clusters of 16K, and the map has room
      for one entry for each whole cluster. */
  lemma {:induction false} MapSize(partitionSize: nat, k: nat)
    ensures EntrySize(partitionSize) == if partitionSize < 0x3ffd_0000 then 2 else 4
    ensures (k + 1) * 0x4000 <= partitionSize ==> (k + 1) * EntrySize(partitionSize) <= TableSize(partitionSize)
  {
    if (k + 1) * 0x4000 <= partitionSize { assert k + 1 <= partitionSize / CLUSTER_SIZE; }
  }

  // ---------- reading ----------

  /** A read of `len` bytes at byte `pos` of the drive succeeds. */
  ghost predicate Readable(dev: Device, pos: nat, len: nat) {
    pos + len <= |dev.disk| && (len > 0 ==> !Broken(dev.bad, pos, len))
  }

  /** `BootIdeReadSector`; a sector beyond the end of the drive cannot be read either. */
  method ReadSector(dev: Device, buf: array<byte>, at: nat, sector: nat, n: nat) returns (failed: bool)
    requires dev.Valid() && n <= SECTOR_SIZE && at + n <= buf.Length
    modifies buf
    ensures failed <==> (sector + 1) * SECTOR_SIZE > |dev.disk| || sector in dev.bad
    ensures forall k :: 0 <= k < buf.Length && !(at <= k < at + n) ==> buf[k] == old(buf[k])
    ensures !failed ==> forall k :: at <= k < at + n ==> buf[k] == dev.disk[sector * SECTOR_SIZE + k - at]
  {
    if (sector + 1) * SECTOR_SIZE > |dev.disk| { return true; }
    var status := dev.BootIdeReadSector(buf, at, sector, 0, n);
    failed := status != 0;
  }

  /** Reads `len` bytes at byte `offset` after sector `sector0`. Every caller asks for whole
      sectors at the start of a sector, so that the branch for an offset inside a sector is
      dead. */
  method RawRead(dev: Device, sector0: nat, offset: nat, len: nat, buf: array<byte>, at: nat) returns (n: nat)
    requires dev.Valid() && at + len <= buf.Length
    requires offset % SECTOR_SIZE == 0 && len % SECTOR_SIZE == 0
    modifies buf
    ensures n == (if Readable(dev, sector0 * SECTOR_SIZE + offset, len) then len else 0)
    ensures forall k :: 0 <= k < buf.Length && !(at <= k < at + len) ==> buf[k] == old(buf[k])
    ensures Readable(dev, sector0 * SECTOR_SIZE + offset, len) ==>
      var pos := sector0 * SECTOR_SIZE + offset; buf[at..at + len] == dev.disk[pos..pos + len]
  {
    ghost var first, count := sector0 + offset / SECTOR_SIZE, len / SECTOR_SIZE;
    ghost var pos := first * SECTOR_SIZE;
    var sector, byteOffset, left := sector0 + offset / SECTOR_SIZE, offset % SECTOR_SIZE, len;
    n := 0;
    while left > 0
      invariant first <= sector <= first + count && byteOffset == 0
      invariant n == (sector - first) * SECTOR_SIZE && left == len - n
      invariant forall k :: 0 <= k < buf.Length && !(at <= k < at + n) ==> buf[k] == old(buf[k])
      invariant pos + n <= |dev.disk| || n == 0
      invariant n > 0 ==> forall k :: at <= k < at + n ==> buf[k] == dev.disk[pos + k - at]
      invariant forall s :: pos / SECTOR_SIZE <= s < sector ==> s !in dev.bad
    {
      var thisTime := Min(left, SECTOR_SIZE);
      if byteOffset != 0 { assert false; }
      var failed := ReadSector(dev, buf, at + n, sector, thisTime);
      if failed {
        if sector in dev.bad { BrokenHere(dev.bad, pos, len, n, sector, 0); }
        return 0;
      }
      left, n, sector := left - thisTime, n + thisTime, sector + 1;
    }
    if len > 0 {
      NoneBroken(dev.bad, pos, len, sector);
      SameSlice(buf, at, dev.disk, pos, len);
    }
  }

  // ---------- a partition ----------

  class Partition {
    const dev: Device
    const partitionStart: nat       // in sectors
    const entrySize: nat
    const table: array<byte>        // clusterChainMap
    const cluster1Address: nat

    constructor (dev: Device, partitionStart: nat, partitionSize: nat, table: array<byte>)
      requires dev.Valid() && table.Length == TableSize(partitionSize)
      ensures this.dev == dev && this.partitionStart == partitionStart && this.table == table
      ensures entrySize == EntrySize(partitionSize)
      ensures Valid()
    {
      this.dev, this.partitionStart, this.table := dev, partitionStart, table;
      entrySize, cluster1Address := EntrySize(partitionSize), HEADER_SIZE + table.Length;
    }

    /** Clusters start on a sector boundary, whatever the size of the chain map. */
    predicate Valid() {
      && dev.Valid() && (entrySize == 2 || entrySize == 4)
      && table.Length % CHAINTABLE_BLOCK == 0 && cluster1Address == HEADER_SIZE + table.Length
    }

    /** The byte of the drive where cluster `id` starts. */
    function ClusterPos(id: nat): nat
      requires id >= 1
    {
      partitionStart * SECTOR_SIZE + cluster1Address + (id - 1) * CLUSTER_SIZE
    }

    /** Cluster number `i` of a chain can be read. */
    ghost predicate CanRead(ids: seq<nat>, i: nat)
      requires i < |ids|
    {
      ids[i] >= 1 && Readable(dev, ClusterPos(ids[i]), CLUSTER_SIZE)
    }

    /** If cluster `i` of the chain can be read, its byte `j` is in its place in `s`. */
    ghost predicate HasByte(s: seq<byte>, ids: seq<nat>, i: nat, j: nat)
      requires i < |ids| && j < CLUSTER_SIZE && i * CLUSTER_SIZE + j < |s|
    {
      CanRead(ids, i) ==> s[i * CLUSTER_SIZE + j] == dev.disk[ClusterPos(ids[i]) + j]
    }

    /** `s` is what the chain has from its beginning on. */
    ghost predicate HasClusters(s: seq<byte>, ids: seq<nat>) {
      forall i: nat, j: nat | i < |ids| && j < CLUSTER_SIZE && i * CLUSTER_SIZE + j < |s| :: HasByte(s, ids, i, j)
    }

    /** The bytes of the first `k` clusters, one after another. */
    ghost function Clusters(ids: seq<nat>, k: nat): (s: seq<byte>)
      requires k <= |ids| && forall i :: 0 <= i < k ==> CanRead(ids, i)
      ensures |s| == k * CLUSTER_SIZE
    {
      if k == 0 then []
      else
        assert CanRead(ids, k - 1);
        Clusters(ids, k - 1) + dev.disk[ClusterPos(ids[k - 1])..ClusterPos(ids[k - 1]) + CLUSTER_SIZE]
    }

    /** Where the clusters that the file reaches into can be read, those are all its bytes. */
    lemma {:induction false} AllBytes(s: seq<byte>, ids: seq<nat>, k: nat)
      requires HasClusters(s, ids) && k <= |ids| && |s| <= k * CLUSTER_SIZE
      requires forall i :: 0 <= i < k ==> CanRead(ids, i)
      ensures s == Clusters(ids, k)[..|s|]
      decreases k
    {
      if k > 0 {
        var m := Min(|s|, (k - 1) * CLUSTER_SIZE);
        Front(s, ids, m);
        AllBytes(s[..m], ids, k - 1);
        assert CanRead(ids, k - 1);
        var all, front, last := Clusters(ids, k), Clusters(ids, k - 1), ClusterPos(ids[k - 1]);
        assert all == front + dev.disk[last..last + CLUSTER_SIZE];
        forall x | 0 <= x < |s| ensures s[x] == all[x] {
          if x < m {
            assert s[..m][x] == front[..m][x];
          } else {
            assert HasByte(s, ids, k - 1, x - m);
          }
        }
      }
    }

    lemma {:induction false} Front(s: seq<byte>, ids: seq<nat>, m: nat)
      requires HasClusters(s, ids) && m <= |s|
      ensures HasClusters(s[..m], ids)
    {
      forall i: nat, j: nat | i < |ids| && j < CLUSTER_SIZE && i * CLUSTER_SIZE + j < m ensures HasByte(s[..m], ids, i, j) {
        assert HasByte(s, ids, i, j);
      }
    }

    method GetNextClusterInChain(id: nat) returns (next: int)
      requires Valid() && InTable(table[..], entrySize, id)
      ensures next == Next(table[..], entrySize, id)
    {
      if entrySize == 2 {
        next := U16(table[..], 2 * id);
        if next == 0xffff || next == 0xfff8 { return -1; }
      } else {
        next := U32(table[..], 4 * id);
        if next == 0xffff_ffff || next == 0xffff_fff8 { return -1; }
        next := Signed(next);
      }
    }

    method LoadCluster(id: nat, clusterData: array<byte>)
      requires Valid() && id >= 1 && clusterData.Length == CLUSTER_SIZE && clusterData != table
      modifies clusterData
      ensures Readable(dev, ClusterPos(id), CLUSTER_SIZE) ==>
        clusterData[..] == dev.disk[ClusterPos(id)..ClusterPos(id) + CLUSTER_SIZE]
    {
      var address := cluster1Address + (id - 1) * CLUSTER_SIZE;
      var _ := RawRead(dev, partitionStart, address, CLUSTER_SIZE, clusterData, 0);
      assert clusterData[0..CLUSTER_SIZE] == clusterData[..];
    }

    /** Loads a file of `size` bytes. Success means exactly that the chain covers the file, whether
        or not its clusters can be read; then and otherwise `fileRead` says how much of it the chain
        has. The bytes of each cluster that can be read are in their place in the buffer, which is
        not touched beyond. */
    method LoadFromDisk(first: int, size: nat, buffer: array<byte>, ghost ids: seq<nat>)
      returns (ok: bool, fileRead: nat)
      requires Valid() && buffer != table && size <= buffer.Length
      requires IsChain(table[..], entrySize, first, ids)
      modifies buffer
      ensures ok <==> size <= |ids| * CLUSTER_SIZE
      ensures fileRead == Min(size, |ids| * CLUSTER_SIZE)
      ensures HasClusters(buffer[..fileRead], ids)
      ensures forall k :: fileRead <= k < buffer.Length ==> buffer[k] == old(buffer[k])
    {
      var clusterData := new byte[CLUSTER_SIZE];
      var fileSize, id := size, first;
      ghost var k := 0;
      fileRead := 0;
      ghost var map_ := table[..];
      while id != -1
        invariant k <= |ids| && fileRead + fileSize == size
        invariant table[..] == map_ && IsChain(map_, entrySize, id, ids[k..])
        invariant fileRead == Min(size, k * CLUSTER_SIZE)
        invariant HasClusters(buffer[..fileRead], ids)
        invariant forall j :: fileRead <= j < buffer.Length ==> buffer[j] == old(buffer[j])
        decreases |ids| - k
      {
        var written := TakeCluster(id, clusterData, buffer, fileRead, fileSize, ids, k);
        fileSize, fileRead := fileSize - written, fileRead + written;
        id := GetNextClusterInChain(id);
        k := k + 1;
      }
      ok := fileSize == 0;
    }

    /** Loads cluster `id`, which is number `k` of the chain, and copies what is wanted of it. */
    method TakeCluster(id: nat, clusterData: array<byte>, buffer: array<byte>, fileRead: nat, fileSize: nat,
        ghost ids: seq<nat>, ghost k: nat)
      returns (written: nat)
      requires Valid() && clusterData.Length == CLUSTER_SIZE && clusterData != table && clusterData != buffer
      requires fileRead + fileSize <= buffer.Length && k < |ids| && id == ids[k] && id >= 1
      requires fileRead <= k * CLUSTER_SIZE && (fileSize > 0 ==> fileRead == k * CLUSTER_SIZE)
      requires HasClusters(buffer[..fileRead], ids)
      modifies clusterData, buffer
      ensures written == Min(fileSize, CLUSTER_SIZE)
      ensures HasClusters(buffer[..fileRead + written], ids)
      ensures forall j :: fileRead + written <= j < buffer.Length ==> buffer[j] == old(buffer[j])
    {
      LoadCluster(id, clusterData);
      written := Min(fileSize, CLUSTER_SIZE);
      ghost var got := buffer[..fileRead];
      CopyOut(clusterData, buffer, fileRead, written);
      TakeMore(got, clusterData[..written], ids, k);
    }

    /** Reading on at the end of what has been read, or stopping inside it. */
    lemma {:induction false} TakeMore(s: seq<byte>, t: seq<byte>, ids: seq<nat>, k: nat)
      requires HasClusters(s, ids) && k < |ids| && |t| <= CLUSTER_SIZE && (t != [] ==> |s| == k * CLUSTER_SIZE)
      requires CanRead(ids, k) ==> t == dev.disk[ClusterPos(ids[k])..ClusterPos(ids[k]) + |t|]
      ensures HasClusters(s + t, ids)
    {
      forall i: nat, j: nat | i < |ids| && j < CLUSTER_SIZE && i * CLUSTER_SIZE + j < |s + t| ensures HasByte(s + t, ids, i, j) {
        if i * CLUSTER_SIZE + j < |s| {
          assert HasByte(s, ids, i, j);
        } else {
          assert i == k;
        }
      }
    }

    method CopyOut(clusterData: array<byte>, buffer: array<byte>, at: nat, n: nat)
      requires n <= clusterData.Length && at + n <= buffer.Length && clusterData != buffer
      modifies buffer
      ensures buffer[..at + n] == old(buffer[..at]) + clusterData[..n]
      ensures forall k :: at + n <= k < buffer.Length ==> buffer[k] == old(buffer[k])
    {
      ghost var got := buffer[..at];
      forall j | 0 <= j < n { buffer[at + j] := clusterData[j]; }
      assert buffer[..at + n] == got + clusterData[..n];
    }
  }

  /** Opens a partition of `partitionSize` bytes at sector `partitionOffset`. */
  method OpenPartition(dev: Device, partitionOffset: nat, partitionSize: nat) returns (p: Partition?)
    requires dev.Valid()
    ensures p == null <==>
      !(Readable(dev, partitionOffset * SECTOR_SIZE, HEADER_SIZE) && U32(dev.disk, partitionOffset * SECTOR_SIZE) == MAGIC)
    ensures p != null ==>
      && fresh(p) && fresh(p.table) && p.Valid() && p.dev == dev && p.partitionStart == partitionOffset
      && p.entrySize == EntrySize(partitionSize) && p.table.Length == TableSize(partitionSize)
      && var pos := partitionOffset * SECTOR_SIZE + HEADER_SIZE;
      (Readable(dev, pos, p.table.Length) ==> p.table[..] == dev.disk[pos..pos + p.table.Length])
  {
    var info := new byte[HEADER_SIZE];
    var readSize := RawRead(dev, partitionOffset, 0, HEADER_SIZE, info, 0);
    if readSize != HEADER_SIZE { return null; }
    assert info[0..HEADER_SIZE] == info[..];
    U32OfSlice(dev.disk, partitionOffset * SECTOR_SIZE, HEADER_SIZE, 0);
    if U32(info[..], 0) != MAGIC { return null; }
    var table := new byte[TableSize(partitionSize)];
    readSize := RawRead(dev, partitionOffset, HEADER_SIZE, table.Length, table, 0);
    assert table[0..table.Length] == table[..];
    p := new Partition(dev, partitionOffset, partitionSize, table);
  }

  // ---------- an example ----------

  /** A drive that ends behind the first cluster of a partition whose chain map has a chain of two. */
  function ShortDrive(): (disk: seq<byte>)
    ensures |disk| == 0x2000 + CLUSTER_SIZE
  {
    seq(0x2000 + CLUSTER_SIZE, i requires 0 <= i => ShortDriveByte(i))
  }

  function ShortDriveByte(i: nat): byte {
    if i == 0 then 0x46 else if i == 1 then 0x41 else if i == 2 then 0x54 else if i == 3 then 0x58   // "FATX"
    else if i == HEADER_SIZE + 2 then 2                          // behind cluster 1 comes cluster 2
    else if i == HEADER_SIZE + 4 || i == HEADER_SIZE + 5 then 0xff   // which is the last
    else 0
  }

  /** A run in which a file of two clusters is loaded with success although the second of them is
      not on the drive. */
  method LoadsUnread() returns (p: Partition?, ok: bool, fileRead: nat)
    ensures p != null && fresh(p) && p.Valid() && ok && fileRead == 2 * CLUSTER_SIZE
    ensures IsChain(p.table[..], p.entrySize, 1, [1, 2]) && p.CanRead([1, 2], 0) && !p.CanRead([1, 2], 1)
  {
    var disk := ShortDrive();
    var dev := new Device(disk, {}, 0, |disk| / SECTOR_SIZE);
    p := OpenPartition(dev, 0, 4 * CLUSTER_SIZE);
    ShortDriveTable();
    assert p.table[..] == disk[HEADER_SIZE..0x2000];
    var buffer := new byte[2 * CLUSTER_SIZE];
    ok, fileRead := p.LoadFromDisk(1, 2 * CLUSTER_SIZE, buffer, [1, 2]);
  }

  lemma {:induction false} ShortDriveTable()
    ensures U32(ShortDrive(), 0) == MAGIC
    ensures IsChain(ShortDrive()[HEADER_SIZE..0x2000], 2, 1, [1, 2])
  {
    var t := ShortDrive()[HEADER_SIZE..0x2000];
    assert t[2] == 2 && t[3] == 0 && t[4] == t[5] == 0xff;
    assert Next(t, 2, 1) == 2 && Next(t, 2, 2) == -1;
    assert [1, 2][1..] == [2] && [2][1..] == [];
    assert IsChain(t, 2, -1, []);
  }

  // ---------- another ----------

  const FIRST_SECTOR: nat := 3

  /** A drive with a partition of two clusters from its fourth sector on; in its chain map cluster 2
      is followed by cluster 1, the last. */
  function LongDrive(): (disk: seq<byte>)
    ensures |disk| == FIRST_SECTOR * SECTOR_SIZE + 0x2000 + 2 * CLUSTER_SIZE
  {
    seq(FIRST_SECTOR * SECTOR_SIZE + 0x2000 + 2 * CLUSTER_SIZE, i requires 0 <= i => LongDriveByte(i))
  }

  /** Behind three sectors, the header and the map stand the two clusters. */
  function LongDriveByte(i: nat): byte {
    if i == 1536 then 0x46 else if i == 1537 then 0x41 else if i == 1538 then 0x54 else if i == 1539 then 0x58
    else if i == 5634 then 0xf8 else if i == 5635 then 0xff      // behind cluster 1 comes nothing
    else if i == 5636 then 1                                     // and cluster 1 behind cluster 2
    else if 9728 <= i < 26112 then 0x41
    else if 26112 <= i then 0x42
    else 0
  }

  lemma {:induction false} LongDriveTable()
    ensures U32(LongDrive(), 1536) == MAGIC
    ensures IsChain(LongDrive()[5632..9728], 2, 2, [2, 1])
  {
    var t := LongDrive()[5632..9728];
    assert t[2] == 0xf8 && t[3] == 0xff && t[4] == 1 && t[5] == 0;
    assert Next(t, 2, 2) == 1 && Next(t, 2, 1) == -1;
    assert [2, 1][1..] == [1] && [1][1..] == [];
    assert IsChain(t, 2, -1, []);
  }

  /** A run in which all of one cluster and the beginning of the other are loaded. */
  method LoadsBoth() returns (first: byte, last: byte, next: byte)
    ensures first == last == 0x42 && next == 0x41
  {
    var disk := LongDrive();
    var dev := new Device(disk, {}, 0, |disk| / SECTOR_SIZE);
    var p := OpenPartition(dev, FIRST_SECTOR, 2 * CLUSTER_SIZE);
    LongDriveTable();
    assert p.table[..] == disk[5632..9728];
    var buffer := new byte[CLUSTER_SIZE + 1];
    ghost var ids := [2, 1];
    var ok, fileRead := p.LoadFromDisk(2, CLUSTER_SIZE + 1, buffer, ids);
    ghost var s := buffer[..fileRead];
    assert p.ClusterPos(2) == 26112 && p.ClusterPos(1) == 9728;
    assert p.HasByte(s, ids, 0, 0) && p.HasByte(s, ids, 0, CLUSTER_SIZE - 1) && p.HasByte(s, ids, 1, 0);
    first, last, next := buffer[0], buffer[CLUSTER_SIZE - 1], buffer[CLUSTER_SIZE];
  }
}