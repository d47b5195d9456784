/** Reading files from ReiserFS: `reiserfs_read` of fs/grub/fsys_reiserfs.c over the tree cursor, for
    files of direct and indirect items. */
module ReiserFile {
  import opened Content
  import opened Disk
  import opened Division
  import opened ReiserNode
  import opened ReiserTree
  import ReiserJournal

  // ---------- items ----------

  /** IH_KEY_ISTYPE (ih, TYPE_DIRECT) */
  predicate Direct(it: Item) {
    if it.version == 0 then it.key.uniq == 0xffff_ffff else it.key.uniq / 0x1000_0000 == 2
  }

  /** IH_KEY_ISTYPE (ih, TYPE_INDIRECT) */
  predicate Indirect(it: Item) {
    if it.version == 0 then it.key.uniq == 0xffff_fffe else it.key.uniq / 0x1000_0000 == 1
  }

  /** IH_KEY_OFFSET: the place of the item's first byte in the file, counted from 1. */
  function Offset(it: Item): nat {
    if it.version == 0 then it.key.offset else it.key.offset + it.key.uniq % 0x1000_0000 * 0x1_0000_0000
  }

  /** The block that pointer `q` of an indirect item names. */
  function Pointer(it: Item, q: nat): nat {
    WordAt(it.body, 4 * q)
  }

  // ---------- files ----------

  /** The partition, and the number of sectors in a block. */
  datatype Volume = Volume(part: seq<byte>, sectors: nat) {
    function BlockSize(): nat { sectors * SECTOR_SIZE }

    /** How many bytes of a file the item stands for. */
    function Span(it: Item): nat {
      if Direct(it) then |it.body| else if Indirect(it) then Product(|it.body| / 4, BlockSize()) else 0
    }

    /** Byte `r` of block `b`, or -1 if the partition does not have it. */
    function BlockByte(b: nat, r: nat): int {
      var p := ReiserJournal.BlockPos(b, sectors);
      if 0 <= p < |part| - r then part[p + r] else -1
    }

    /** Byte `k` of what the item stands for: its own, or where its pointers lead. */
    function ItemByte(it: Item, k: nat): int
      requires sectors > 0 && k < Span(it)
    {
      if Direct(it) then it.body[k] else BlockByte(Pointer(it, Quot(k, BlockSize())), Rem(k, BlockSize()))
    }

    /** Byte `k` of the item as ReiserFS means it: a pointer of 0 stands for a hole. */
    function MeantByte(it: Item, k: nat): int
      requires sectors > 0 && k < Span(it)
    {
      if Direct(it) then it.body[k]
      else
        var b, r := Pointer(it, Quot(k, BlockSize())), Rem(k, BlockSize());
        var p := Product(b, sectors) * SECTOR_SIZE + r;
        if b == 0 then 0 else if p < |part| then part[p] else -1
    }

    /** `s` is what the item has from byte `k` on. */
    ghost predicate ItemHas(it: Item, k: nat, s: seq<byte>) {
      sectors > 0 && k + |s| <= Span(it) && forall i :: 0 <= i < |s| ==> ItemByte(it, k + i) == s[i]
    }

    /** The partition has the bytes from `k` to `to` of the item. */
    ghost predicate ItemPresent(it: Item, k: nat, to: nat) {
      sectors > 0 && to <= Span(it) && forall i :: k <= i < to ==> ItemByte(it, i) != -1
    }

    /** How much of the item is still wanted by byte `k` of it, by one who wants `left` bytes. */
    function Wanted(it: Item, k: nat, left: nat): nat {
      if k < Span(it) then Min(left, Span(it) - k) else 0
    }

    /** The bytes that the first `n` items stand for. */
    function Before(items: seq<Item>, n: nat): nat
      requires n <= |items|
    {
      if n == 0 then 0 else Before(items, n - 1) + Span(items[n - 1])
    }

    /** Byte `pos` of the first `n` items one after another, or -1 if there is none. */
    function ByteUpTo(items: seq<Item>, n: nat, pos: nat): int
      requires sectors > 0 && n <= |items|
    {
      if n == 0 || pos >= Before(items, n) then -1
      else if pos >= Before(items, n - 1) then ItemByte(items[n - 1], pos - Before(items, n - 1))
      else ByteUpTo(items, n - 1, pos)
    }

    function Size(items: seq<Item>): nat { Before(items, |items|) }

    /** Byte `pos` of the file with these items, or -1 if there is none. */
    function ByteOf(items: seq<Item>, pos: nat): int
      requires sectors > 0
    {
      ByteUpTo(items, |items|, pos)
    }

    /** Item `j` of the file is where it should be. */
    predicate Follows(items: seq<Item>, obj: nat, j: nat)
      requires j < |items|
    {
      items[j].key.obj == obj && (Direct(items[j]) || Indirect(items[j])) && Offset(items[j]) == Before(items, j) + 1
    }

    /** The items of a file: its stat item, and items that take up where the one before ends. */
    ghost predicate IsFile(items: seq<Item>, dir: nat, obj: nat) {
      && items != [] && items[0].key == StatKey(dir, obj)
      && forall j :: 1 <= j < |items| ==> Follows(items, obj, j)
    }
  }

  /** A pointer that is not 0, and whose sector does not wrap, is followed to where it leads. */
  lemma {:induction false} PointerIsRight(v: Volume, it: Item, k: nat)
    requires v.sectors > 0 && Indirect(it) && k < v.Span(it)
    requires var b := Pointer(it, Quot(k, v.BlockSize())); b != 0 && Product(b, v.sectors) < 0x8000_0000
    ensures v.MeantByte(it, k) == v.ItemByte(it, k)
  {
  }

  /** A hole is read as the beginning of the partition: rightly so exactly where that is zero. */
  lemma {:induction false} HoleIsRight(v: Volume, it: Item, k: nat)
    requires v.sectors > 0 && Indirect(it) && k < v.Span(it) && Pointer(it, Quot(k, v.BlockSize())) == 0
    requires v.BlockSize() <= |v.part|
    ensures v.MeantByte(it, k) == v.ItemByte(it, k) <==> v.part[Rem(k, v.BlockSize())] == 0
  {
    assert ReiserJournal.BlockPos(0, v.sectors) == 0;
  }

  lemma {:induction false} BeforeGrows(v: Volume, items: seq<Item>, i: nat, j: nat)
    requires i <= j <= |items|
    ensures v.Before(items, i) <= v.Before(items, j)
    decreases j
  {
    if i < j { BeforeGrows(v, items, i, j - 1); }
  }

  /** A byte of item `j` is that byte of the file. */
  lemma {:induction false} ByteOfItem(v: Volume, items: seq<Item>, n: nat, j: nat, k: nat)
    requires v.sectors > 0 && j < n <= |items| && k < v.Span(items[j])
    ensures v.ByteUpTo(items, n, v.Before(items, j) + k) == v.ItemByte(items[j], k)
  {
    BeforeGrows(v, items, j + 1, n);
    if j < n - 1 {
      BeforeGrows(v, items, j + 1, n - 1);
      ByteOfItem(v, items, n - 1, j, k);
    }
  }

  /** A stretch of one item is a stretch of the file. */
  lemma {:induction false} StretchOfItem(v: Volume, items: seq<Item>, j: nat, k: nat, s: seq<byte>, content: nat -> int)
    requires j < |items| && v.ItemHas(items[j], k, s) && forall pos: nat :: content(pos) == v.ByteOf(items, pos)
    ensures SliceOf(content, v.Before(items, j) + k, s)
  {
    forall i | 0 <= i < |s| ensures content(v.Before(items, j) + k + i) == s[i] {
      ByteOfItem(v, items, |items|, j, k + i);
    }
  }

  /** Reading on in item `j` where the reading has come to. */
  lemma {:induction false} ReadOn(v: Volume, items: seq<Item>, j: nat, start: nat, got: seq<byte>, piece: seq<byte>,
      content: nat -> int)
    requires v.sectors > 0 && j < |items| && v.Before(items, j) <= start + |got|
    requires v.ItemHas(items[j], start + |got| - v.Before(items, j), piece)
    requires SliceOf(content, start, got) && forall pos: nat :: content(pos) == v.ByteOf(items, pos)
    ensures SliceOf(content, start, got + piece) && start + |got| + |piece| <= v.Size(items)
  {
    StretchOfItem(v, items, j, start + |got| - v.Before(items, j), piece, content);
    SliceJoin(content, start, got, piece);
    BeforeGrows(v, items, j + 1, |items|);
  }

  lemma {:induction false} StatHasNoBytes(v: Volume, it: Item, dir: nat, obj: nat)
    requires it.key == StatKey(dir, obj)
    ensures v.Span(it) == 0 && Offset(it) == 0
  {
  }

  // ---------- where the cursor stands ----------

  /** A file in a tree: its items, those of the tree before and behind them, and its bytes. */
  datatype File = File(dir: nat, obj: nat, pre: seq<Item>, items: seq<Item>, post: seq<Item>, content: nat -> int)

  ghost function Vol(store: BlockStore): Volume
    requires store.dev.Valid()
  {
    Volume(store.dev.Part(), store.journal.blockSectors)
  }

  /** Blocks can be read. */
  ghost predicate Mounted(store: BlockStore)
    reads store.dev, store.journal, store.journal.dev, store.journal.table
  {
    store.Valid() && store.dev.Valid() && Vol(store).sectors > 0
  }

  /** What it takes to read files. */
  datatype Need = Blocks | Tree | Place

  ghost predicate Has(c: Cursor, need: Need)
    reads c, c.slots, c.blocks, c.nextKeyNr, c.store.dev, c.store.journal, c.store.journal.dev, c.store.journal.table
  {
    match need
    case Blocks => Mounted(c.store)
    case Tree => c.Shape()
    case Place => c.store.Fine() ==> c.Standing()
  }

  /** Blocks can be read, there is a tree, and the cursor is in it. */
  ghost predicate Ready(c: Cursor)
    reads c, c.slots, c.blocks, c.nextKeyNr, c.store.dev, c.store.journal, c.store.journal.dev, c.store.journal.table
  {
    forall need :: Has(c, need)
  }

  lemma {:induction false} StillReady(c: Cursor)
    requires Mounted(c.store) && c.Shape() && (c.store.Fine() ==> c.Standing())
    ensures Ready(c)
  {
  }

  /** What it takes for a tree to have a file. */
  datatype Clause = Sorted | Laid | Placed | Apart | Valued

  /** The tree is in order; the items make up a file; they are together in the tree; no other item and not the right
      delimiter of the last leaf has their object id; and `content` gives their bytes. */
  ghost predicate Holds(c: Cursor, f: File, clause: Clause)
    requires c.store.dev.Valid() && Vol(c.store).sectors > 0
  {
    match clause
    case Sorted => Ordered(c.store.node, c.root, c.treeDepth)
    case Laid => Vol(c.store).IsFile(f.items, f.dir, f.obj)
    case Placed => Items(c.store.node, c.root, c.treeDepth) == f.pre + f.items + f.post
    case Apart =>
      && NoneOf(f.pre, f.obj) && NoneOf(f.post, f.obj)
      && c.store.node(LastLeaf(c.store.node, c.root, c.treeDepth)).rightDelim.obj != f.obj
    case Valued => forall pos: nat :: f.content(pos) == Vol(c.store).ByteOf(f.items, pos)
  }

  /** The tree has the file. */
  ghost predicate HasFile(c: Cursor, f: File) {
    c.store.dev.Valid() && Vol(c.store).sectors > 0 && forall clause :: Holds(c, f, clause)
  }

  datatype Side = Under | Ahead

  /** What is under the cursor and what is ahead of it. */
  ghost predicate StandsAt(c: Cursor, f: File, j: nat, side: Side)
    reads c
  {
    match side
    case Under => c.Placed() && j <= |f.items| &&
      if j < |f.items| then c.currentIh >= 0 && c.Current() == f.items[j]
      else c.currentIh >= 0 ==> c.Current().key.obj != f.obj
    case Ahead => c.Placed() && (j < |f.items| ==> c.Remaining() == f.items[j + 1..] + f.post)
  }

  /** The cursor stands on item `j` of the file, or behind the last one. */
  ghost predicate At(c: Cursor, f: File, j: nat)
    reads c
  {
    forall side :: StandsAt(c, f, j, side)
  }

  ghost predicate NoneOf(items: seq<Item>, obj: nat) {
    forall i :: 0 <= i < |items| ==> items[i].key.obj != obj
  }

  lemma {:induction false} Behind(items: seq<Item>, post: seq<Item>, j: nat)
    requires j < |items|
    ensures var rest := items[j + 1..] + post;
      if j + 1 < |items| then rest != [] && rest[0] == items[j + 1] && rest[1..] == items[j + 2..] + post else rest == post
  {
  }

  lemma {:induction false} HeadAndRest(s: seq<Item>, head: Item, rest: seq<Item>)
    requires s == [head] + rest
    ensures s != [] && head == s[0] && rest == s[1..]
  {
  }

  /** An item of the object is one of its items, and what is behind it is behind it in the file. */
  lemma {:induction false} Located(all: seq<Item>, pre: seq<Item>, items: seq<Item>, post: seq<Item>, passed: seq<Item>, it: Item,
      rest: seq<Item>, obj: nat) returns (j: nat)
    requires all == pre + items + post == passed + [it] + rest
    requires NoneOf(pre, obj) && NoneOf(post, obj) && it.key.obj == obj
    ensures j < |items| && it == items[j] && rest == items[j + 1..] + post
  {
    var i := |passed|;
    forall k | 0 <= k < |all| && !(|pre| <= k < |pre| + |items|) ensures all[k].key.obj != obj {
      assert all[k] == if k < |pre| then pre[k] else post[k - |pre| - |items|];
    }
    assert all[i] == it;
    j := i - |pre|;
    assert all[i] == items[j];
    assert rest == all[i + 1..] && items[j + 1..] + post == all[i + 1..];
  }

  lemma {:induction false} IsNext(c: Cursor, f: File, j: nat)
    requires j < |f.items| && c.Moved(f.items[j + 1..] + f.post) && HasFile(c, f)
    ensures At(c, f, j + 1)
  {
    assert Holds(c, f, Apart) && (j + 1 < |f.items| || f.post == [] || f.post[0].key.obj != f.obj);
    Behind(f.items, f.post, j);
    if f.items[j + 1..] + f.post != [] {
      HeadAndRest(f.items[j + 1..] + f.post, c.Current(), c.Remaining());
    }
    assert StandsAt(c, f, j + 1, Under) && StandsAt(c, f, j + 1, Ahead);
  }

  /** The item of the object on which the cursor stands is one of the file's. */
  lemma {:induction false} StandsOn(c: Cursor, f: File) returns (j: nat)
    requires HasFile(c, f) && c.Valid() && c.currentIh >= 0 && c.Current().key.obj == f.obj
    ensures j < |f.items| && At(c, f, j) && c.Current() == f.items[j]
    ensures if j == 0 then Vol(c.store).Before(f.items, j) == 0 else Vol(c.store).Before(f.items, j) + 1 == Offset(f.items[j])
  {
    assert Holds(c, f, Laid) && Holds(c, f, Placed) && Holds(c, f, Apart);
    c.CursorCuts();
    j := Located(Items(c.store.node, c.root, c.treeDepth), f.pre, f.items, f.post, c.Passed(), c.Current(), c.Remaining(), f.obj);
    if j > 0 { assert Vol(c.store).Follows(f.items, f.obj, j); }
    assert StandsAt(c, f, j, Under) && StandsAt(c, f, j, Ahead);
  }

  lemma {:induction false} StandsOnStat(c: Cursor, f: File)
    requires HasFile(c, f) && c.Valid() && c.currentIh >= 0 && c.Current().key == StatKey(f.dir, f.obj)
    ensures At(c, f, 0)
  {
    assert Holds(c, f, Laid);
    var j := StandsOn(c, f);
    StatHasNoBytes(Vol(c.store), f.items[j], f.dir, f.obj);
  }

  lemma {:induction false} HasItsStat(c: Cursor, f: File)
    requires HasFile(c, f)
    ensures HasStat(Items(c.store.node, c.root, c.treeDepth), f.dir, f.obj)
  {
    assert Holds(c, f, Laid) && Holds(c, f, Placed);
    assert f.items[0] in f.pre + f.items + f.post;
  }

  /** Where a position of the file lies in item `j`; the stat item has no bytes. */
  lemma {:induction false} ItemStarts(c: Cursor, f: File, j: nat, pos: nat)
    requires HasFile(c, f) && j < |f.items| && Vol(c.store).Before(f.items, j) <= pos
    ensures f.items[j].key.obj == f.obj && Offset(f.items[j]) <= pos + 1
    ensures Vol(c.store).Span(f.items[j]) == 0 || pos + 1 - Offset(f.items[j]) == pos - Vol(c.store).Before(f.items, j)
  {
    assert Holds(c, f, Laid);
    if j == 0 { StatHasNoBytes(Vol(c.store), f.items[0], f.dir, f.obj); } else { assert Vol(c.store).Follows(f.items, f.obj, j); }
  }

  lemma {:induction false} FirstStarts(c: Cursor, f: File)
    requires HasFile(c, f)
    ensures |f.items| >= 1 && Vol(c.store).Before(f.items, 1) == 0
  {
    assert Holds(c, f, Laid);
    StatHasNoBytes(Vol(c.store), f.items[0], f.dir, f.obj);
    assert Vol(c.store).Before(f.items, 0) == 0;
  }

  // ---------- what has been read ----------

  /** The partition has all the bytes from `from` to `to` that the file has. */
  ghost predicate Present(v: Volume, f: File, from: nat, to: nat) {
    forall pos: nat :: from <= pos < to && pos < v.Size(f.items) ==> f.content(pos) != -1
  }

  /** `n` bytes from `start` on have been read, which led to `pos`, at or behind the start of item `j`. */
  ghost predicate HasRead(v: Volume, f: File, start: nat, n: nat, pos: nat, j: nat, got: seq<byte>) {
    && j <= |f.items| && v.Before(f.items, j) <= pos == start + n
    && |got| == n && SliceOf(f.content, start, got) && (n == 0 || pos <= v.Size(f.items))
  }

  /** Everything wanted has been read that the file has. */
  ghost predicate ReadAll(v: Volume, f: File, start: nat, n: nat, pos: nat, len: nat, got: seq<byte>) {
    && n == (if start < v.Size(f.items) then Min(len, v.Size(f.items) - start) else 0)
    && pos == start + n && |got| == n && SliceOf(f.content, start, got)
  }

  /** That is so when the whole length has been read, or the last item has been passed. */
  lemma {:induction false} IsAll(v: Volume, f: File, start: nat, n: nat, pos: nat, len: nat, j: nat, got: seq<byte>)
    requires HasRead(v, f, start, n, pos, j, got) && n <= len && (n == len || j == |f.items|)
    ensures ReadAll(v, f, start, n, pos, len, got)
  {
  }

  /** What a turn at item `j` adds to it: `piece`, from byte `offset` of the item on. */
  lemma {:induction false} HasReadMore(v: Volume, f: File, start: nat, pos: nat, j: nat, got: seq<byte>, offset: nat, piece: seq<byte>)
    requires HasRead(v, f, start, |got|, pos, j, got) && j < |f.items| && v.sectors > 0
    requires forall pos: nat :: f.content(pos) == v.ByteOf(f.items, pos)
    requires v.Span(f.items[j]) == 0 || offset == pos - v.Before(f.items, j)
    requires if offset < v.Span(f.items[j]) then v.ItemHas(f.items[j], offset, piece) else piece == []
    ensures HasRead(v, f, start, |got| + |piece|, pos + |piece|, j, got + piece)
    ensures offset + |piece| >= v.Span(f.items[j]) ==> v.Before(f.items, j + 1) <= pos + |piece|
  {
    if offset < v.Span(f.items[j]) {
      ReadOn(v, f.items, j, start, got, piece, f.content);
    } else {
      assert got + piece == got;
    }
  }

  lemma {:induction false} PartIsPresent(v: Volume, f: File, j: nat, k: nat, to: nat, from: nat, end: nat)
    requires v.sectors > 0 && forall pos: nat :: f.content(pos) == v.ByteOf(f.items, pos)
    requires j < |f.items| && k <= to <= v.Span(f.items[j]) && Present(v, f, from, end)
    requires from <= v.Before(f.items, j) + k && v.Before(f.items, j) + to <= end
    ensures v.ItemPresent(f.items[j], k, to)
  {
    BeforeGrows(v, f.items, j + 1, |f.items|);
    forall i | k <= i < to ensures v.ItemByte(f.items[j], i) != -1 {
      ByteOfItem(v, f.items, |f.items|, j, i);
      assert f.content(v.Before(f.items, j) + i) != -1;
    }
  }

  // ---------- pieces of items ----------

  lemma {:induction false} DirectHas(v: Volume, it: Item, offset: nat, s: seq<byte>)
    requires v.sectors > 0 && Direct(it) && offset + |s| <= |it.body| && s == it.body[offset..offset + |s|]
    ensures v.ItemHas(it, offset, s)
  {
  }

  lemma {:induction false} ItemHasMore(v: Volume, it: Item, k: nat, s: seq<byte>, next: nat, t: seq<byte>)
    requires v.ItemHas(it, k, s) && next == k + |s| && v.ItemHas(it, next, t)
    ensures v.ItemHas(it, k, s + t)
  {
    forall i | 0 <= i < |s + t| ensures v.ItemByte(it, k + i) == (s + t)[i] {
      if i >= |s| { assert v.ItemByte(it, next + (i - |s|)) == t[i - |s|]; }
    }
  }

  lemma {:induction false} StaysBelow(offset: nat, size: nat, m: nat, block: nat)
    requires block > 0 && offset < Product(m, block) && Rem(offset, block) + size <= block
    ensures offset + size <= Product(m, block)
  {
    if offset >= block { StaysBelow(offset - block, size, m - 1, block); }
  }

  /** The bytes from `offset` on that lie in one block are those of that block. */
  lemma {:induction false} PieceOfItem(v: Volume, it: Item, offset: nat, size: nat)
    requires v.sectors > 0 && Indirect(it) && offset < v.Span(it) && Rem(offset, v.BlockSize()) + size <= v.BlockSize()
    ensures offset + size <= v.Span(it)
  {
    StaysBelow(offset, size, |it.body| / 4, v.BlockSize());
  }

  lemma {:induction false} ByteOfPiece(v: Volume, it: Item, offset: nat, i: nat)
    requires v.sectors > 0 && Indirect(it) && offset + i < v.Span(it) && Rem(offset, v.BlockSize()) + i < v.BlockSize()
    ensures v.ItemByte(it, offset + i) ==
      v.BlockByte(Pointer(it, Quot(offset, v.BlockSize())), Rem(offset, v.BlockSize()) + i)
  {
    MoveOn(offset, i, v.BlockSize());
  }

  lemma {:induction false} PieceIsItem(v: Volume, it: Item, offset: nat, s: seq<byte>)
    requires v.sectors > 0 && Indirect(it) && offset + |s| <= v.Span(it) && Rem(offset, v.BlockSize()) + |s| <= v.BlockSize()
    requires var b, r := Pointer(it, Quot(offset, v.BlockSize())), Rem(offset, v.BlockSize());
      var p := ReiserJournal.BlockPos(b, v.sectors);
      0 <= p && p + r + |s| <= |v.part| && s == v.part[p + r..p + r + |s|]
    ensures v.ItemHas(it, offset, s)
  {
    forall i | 0 <= i < |s| ensures v.ItemByte(it, offset + i) == s[i] {
      ByteOfPiece(v, it, offset, i);
    }
  }

  /** Where the partition has those bytes, the read does not reach outside of it. */
  lemma {:induction false} PieceIsInside(v: Volume, b: nat, r: nat, size: nat, partLength: nat, it: Item, offset: nat)
    requires Indirect(it) && size > 0 && v.ItemPresent(it, offset, offset + size) && |v.part| == partLength * SECTOR_SIZE
    requires offset < v.Span(it) && b == Pointer(it, Quot(offset, v.BlockSize())) && r == Rem(offset, v.BlockSize())
    requires r + size <= v.BlockSize()
    ensures 0 <= BlockSector(b, v.sectors) && BlockSector(b, v.sectors) + (r + size - 1) / SECTOR_SIZE < partLength
  {
    ByteOfPiece(v, it, offset, size - 1);
    assert v.BlockByte(b, r + size - 1) != -1;
  }
}
