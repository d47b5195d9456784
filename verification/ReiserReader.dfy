/** Reading files from ReiserFS: the loop of `reiserfs_read` of fs/grub/fsys_reiserfs.c. */
module ReiserReader {
  import opened Content
  import opened Disk
  import opened Division
  import opened ReiserNode
  import opened ReiserTree
  import opened ReiserFile
  import ReiserJournal

  class Reader {
    const cursor: Cursor
    const store: BlockStore
    const dir: nat                  // INFO->fileinfo
    const obj: nat
    var filepos: nat

    /** After `reiserfs_dir`. */
    constructor (cursor: Cursor, dir: nat, obj: nat)
      ensures this.cursor == cursor && store == cursor.store && this.dir == dir && this.obj == obj && filepos == 0
    {
      this.cursor, store, this.dir, this.obj, filepos := cursor, cursor.store, dir, obj, 0;
    }

    /** Reads what is wanted of one block of an indirect item. */
    method ReadPiece(it: Item, offset: nat, left: nat, buf: array<byte>, at: nat) returns (size: nat)
      requires Mounted(store) && Indirect(it) && offset < Vol(store).Span(it) && at + left <= buf.Length
      modifies store.dev`errnum, buf
      ensures Mounted(store) && (!old(store.Fine()) ==> !store.Fine())
      ensures size == Min(left, Vol(store).BlockSize() - Rem(offset, Vol(store).BlockSize()))
      ensures offset + size <= Vol(store).Span(it)
      ensures forall k :: 0 <= k < buf.Length && !(at <= k < at + size) ==> buf[k] == old(buf[k])
      ensures store.Fine() ==> Vol(store).ItemHas(it, offset, buf[at..at + size])
      ensures store.dev.bad == {} && old(store.Fine()) && left > 0 && Vol(store).ItemPresent(it, offset, offset + size)
        ==> store.Fine()
    {
      ghost var v := Vol(store);
      var sectors := store.journal.blockSectors;
      var blockSize := sectors * SECTOR_SIZE;
      var nr, r := Pointer(it, Quot(offset, blockSize)), Rem(offset, blockSize);
      size := Min(left, blockSize - r);
      PieceOfItem(v, it, offset, size);
      if size > 0 && v.ItemPresent(it, offset, offset + size) {
        PieceIsInside(v, nr, r, size, store.dev.partLength, it, offset);
      }
      store.DataRead(BlockSector(nr, sectors), r, size, buf, at);
      if store.Fine() && size > 0 { PieceIsItem(v, it, offset, buf[at..at + size]); }
    }

    method CopyDirect(it: Item, offset: nat, size: nat, buf: array<byte>, at: nat)
      requires offset + size <= |it.body| && at + size <= buf.Length
      modifies buf
      ensures buf[at..at + size] == it.body[offset..offset + size]
      ensures forall k :: 0 <= k < buf.Length && !(at <= k < at + size) ==> buf[k] == old(buf[k])
    {
      forall i | 0 <= i < size { buf[at + i] := it.body[offset + i]; }
    }

    /** Reads on from one block of an indirect item, of which `got` has been read. */
    method ReadMore(it: Item, offset: nat, size: nat, ghost got: seq<byte>, left: nat, buf: array<byte>, at: nat)
        returns (piece: nat, ghost now: seq<byte>)
      requires Mounted(store) && Indirect(it) && offset + size < Vol(store).Span(it)
      requires size <= left && at + left <= buf.Length && got == buf[at..at + size]
      requires store.Fine() ==> Vol(store).ItemHas(it, offset, got)
      modifies store.dev`errnum, buf
      ensures Mounted(store) && (!old(store.Fine()) ==> !store.Fine())
      ensures size + piece <= left && offset + size + piece <= Vol(store).Span(it) && (left > size ==> piece > 0)
      ensures forall k :: 0 <= k < buf.Length && !(at <= k < at + size + piece) ==> buf[k] == old(buf[k])
      ensures now == buf[at..at + size + piece] && (store.Fine() ==> Vol(store).ItemHas(it, offset, now))
      ensures store.dev.bad == {} && old(store.Fine()) && left > size
          && Vol(store).ItemPresent(it, offset + size, offset + size + piece)
        ==> store.Fine()
    {
      var here, next := offset + size, at + size;
      piece := ReadPiece(it, here, left - size, buf, next);
      ghost var more := buf[next..next + piece];
      StillThere(buf, at, got);
      now := got + more;
      Joined(buf, at, got, next, more, next + piece);
      if store.Fine() { ItemHasMore(Vol(store), it, offset, got, here, more); }
    }

    /** The inner loop, for an indirect item. */
    method ReadIndirect(it: Item, offset0: nat, left: nat, buf: array<byte>, at: nat) returns (size: nat, done: bool)
      requires Mounted(store) && Indirect(it) && at + left <= buf.Length
      modifies this`filepos, store.dev`errnum, buf
      ensures Mounted(store) && (!old(store.Fine()) ==> !store.Fine())
      ensures size == Vol(store).Wanted(it, offset0, left) && filepos == old(filepos) + size
      ensures done <==> offset0 < Vol(store).Span(it) && size == left
      ensures forall k :: 0 <= k < buf.Length && !(at <= k < at + size) ==> buf[k] == old(buf[k])
      ensures store.Fine() && offset0 < Vol(store).Span(it) ==> Vol(store).ItemHas(it, offset0, buf[at..at + size])
      ensures store.dev.bad == {} && old(store.Fine()) && left > 0
          && (offset0 < Vol(store).Span(it) ==> Vol(store).ItemPresent(it, offset0, offset0 + size))
        ==> store.Fine()
    {
      ghost var v, got: seq<byte> := Vol(store), [];
      size, done := 0, false;
      var offset, blockSize := offset0, Product(|it.body| / 4, store.journal.blockSectors * SECTOR_SIZE);
      ghost var there := store.dev.bad == {} && store.Fine() && left > 0
        && (offset0 < v.Span(it) ==> v.ItemPresent(it, offset0, offset0 + v.Wanted(it, offset0, left)));
      while offset < blockSize && !done
        invariant Mounted(store) && (!old(store.Fine()) ==> !store.Fine())
        invariant offset == offset0 + size && size <= left && filepos == old(filepos) + size
        invariant if done then size == left && offset0 < v.Span(it) else size == 0 || size < left
        invariant size > 0 ==> offset <= v.Span(it)
        invariant forall k :: 0 <= k < buf.Length && !(at <= k < at + size) ==> buf[k] == old(buf[k])
        invariant got == buf[at..at + size] && (store.Fine() && offset0 < v.Span(it) ==> v.ItemHas(it, offset0, got))
        invariant there ==> store.Fine()
        decreases blockSize - offset, !done
      {
        var piece;
        piece, got := ReadMore(it, offset0, size, got, left, buf, at);
        size, offset, filepos := size + piece, offset + piece, filepos + piece;
        done := size == left;
      }
    }

    /** The part of the loop that reads from the item the cursor has come to; `done` if the caller has
        got everything. */
    method ReadItem(it: Item, offset: nat, left: nat, buf: array<byte>, at: nat) returns (size: nat, done: bool)
      requires Mounted(store) && at + left <= buf.Length
      modifies this`filepos, store.dev`errnum, buf
      ensures Mounted(store) && (!old(store.Fine()) ==> !store.Fine())
      ensures size == Vol(store).Wanted(it, offset, left) && filepos == old(filepos) + size
      ensures done <==> offset < Vol(store).Span(it) && size == left
      ensures forall k :: 0 <= k < buf.Length && !(at <= k < at + size) ==> buf[k] == old(buf[k])
      ensures store.Fine() && offset < Vol(store).Span(it) ==> Vol(store).ItemHas(it, offset, buf[at..at + size])
      ensures store.dev.bad == {} && old(store.Fine()) && left > 0
          && (offset < Vol(store).Span(it) ==> Vol(store).ItemPresent(it, offset, offset + size))
        ==> store.Fine()
    {
      size, done := 0, false;
      if Direct(it) && offset < |it.body| {
        size := Min(|it.body| - offset, left);
        CopyDirect(it, offset, size, buf, at);
        filepos := filepos + size;
        done := size == left;
        DirectHas(Vol(store), it, offset, buf[at..at + size]);
      } else if Indirect(it) {
        size, done := ReadIndirect(it, offset, left, buf, at);
      }
    }

    /** The same, behind the `n` bytes already in the buffer. */
    method ReadBehind(it: Item, offset: nat, n: nat, len: nat, buf: array<byte>, at: nat)
        returns (size: nat, done: bool, ghost piece: seq<byte>)
      requires Mounted(store) && n <= len && at + len <= buf.Length
      modifies this`filepos, store.dev`errnum, buf
      ensures Mounted(store) && (!old(store.Fine()) ==> !store.Fine())
      ensures size == |piece| == Vol(store).Wanted(it, offset, len - n) && filepos == old(filepos) + size
      ensures done <==> offset < Vol(store).Span(it) && n + size == len
      ensures forall k :: 0 <= k < buf.Length && !(at <= k < at + len) ==> buf[k] == old(buf[k])
      ensures buf[at..at + n + size] == old(buf[at..at + n]) + piece
      ensures store.Fine() && offset < Vol(store).Span(it) ==> Vol(store).ItemHas(it, offset, piece)
      ensures store.dev.bad == {} && old(store.Fine()) && n < len
          && (offset < Vol(store).Span(it) ==> Vol(store).ItemPresent(it, offset, offset + size))
        ==> store.Fine()
    {
      ghost var got := buf[at..at + n];
      size, done := ReadItem(it, offset, len - n, buf, at + n);
      piece := buf[at + n..at + n + size];
      StillThere(buf, at, got);
      Joined(buf, at, got, at + n, piece, at + n + size);
    }

    /** One turn of the loop, at item `j`: reads what is wanted of it. */
    method ReadTurn(ghost f: File, head: Item, offset: nat, ghost start: nat, n: nat, ghost got: seq<byte>, len: nat, ghost j: nat,
        buf: array<byte>, at: nat) returns (m: nat, done: bool, ghost now: seq<byte>)
      requires Mounted(store) && HasFile(cursor, f) && store == cursor.store && store.Fine()
      requires n <= len && at + len <= buf.Length && j < |f.items| && head == f.items[j]
      requires HasRead(Vol(store), f, start, n, filepos, j, got) && got == buf[at..at + n]
      requires Vol(store).Span(head) == 0 || offset == filepos - Vol(store).Before(f.items, j)
      modifies this`filepos, store.dev`errnum, buf
      ensures Mounted(store) && m <= len && if done then m == len else m == n || m < len
      ensures forall k :: 0 <= k < buf.Length && !(at <= k < at + len) ==> buf[k] == old(buf[k])
      ensures now == buf[at..at + m]
      ensures store.Fine() ==> HasRead(Vol(store), f, start, m, filepos, if done then j else j + 1, now)
      ensures store.dev.bad == {} && n < len && Present(Vol(store), f, start, start + len) ==> store.Fine()
    {
      ghost var v, pos := Vol(store), filepos;
      assert Holds(cursor, f, Valued);
      if n < len && Present(v, f, start, start + len) && offset < v.Span(head) {
        PartIsPresent(v, f, j, offset, offset + v.Wanted(head, offset, len - n), start, start + len);
      }
      var size;
      ghost var piece;
      size, done, piece := ReadBehind(head, offset, n, len, buf, at);
      m, now := n + size, got + piece;
      if store.Fine() { HasReadMore(v, f, start, pos, j, got, offset, piece); }
    }

    /** `next_key` on the way through the file. */
    method Advance(ghost f: File, ghost j: nat)
      requires Ready(cursor) && HasFile(cursor, f) && store == cursor.store && j < |f.items|
      requires store.Fine() ==> At(cursor, f, j)
      modifies cursor`nb, cursor`c, cursor`currentIh, store.dev`errnum, cursor.slots, cursor.blocks, cursor.nextKeyNr
      ensures Ready(cursor) && (!old(store.Fine()) ==> !store.Fine())
      ensures store.Sound() && old(store.Fine()) ==> store.Fine()
      ensures store.Fine() ==> At(cursor, f, j + 1)
    {
      assert Has(cursor, Blocks) && Has(cursor, Tree) && Has(cursor, Place);
      assert store.Fine() ==> StandsAt(cursor, f, j, Under) && StandsAt(cursor, f, j, Ahead);
      var _ := cursor.NextKey();
      if store.Fine() { IsNext(cursor, f, j); }
    }

    /** Goes to the file's first item behind the stat item. */
    method FromStat(ghost f: File)
      requires Ready(cursor) && HasFile(cursor, f) && store == cursor.store && f.dir == dir && f.obj == obj
      modifies cursor`nb, cursor`c, cursor`currentIh, store.dev`errnum, cursor.slots, cursor.blocks, cursor.nextKeyNr
      ensures Ready(cursor) && (!old(store.Fine()) ==> !store.Fine())
      ensures store.Sound() && old(store.Fine()) ==> store.Fine()
      ensures store.Fine() ==> At(cursor, f, 1)
    {
      HasItsStat(cursor, f);
      FirstStarts(cursor, f);
      assert Holds(cursor, f, Sorted) && Has(cursor, Blocks) && Has(cursor, Tree) && Has(cursor, Place);
      var _ := cursor.SearchStat(dir, obj);
      if store.Fine() { StandsOnStat(cursor, f); }
      Advance(f, 0);
    }

    /** The beginning of `reiserfs_read`: the cursor goes to the file's first item behind the stat
        item, unless it stands on an item of the file that does not lie behind `filepos`. */
    method FindPlace(ghost f: File) returns (ghost j: nat)
      requires Ready(cursor) && HasFile(cursor, f) && store == cursor.store && f.dir == dir && f.obj == obj
      modifies cursor`nb, cursor`c, cursor`currentIh, store.dev`errnum, cursor.slots, cursor.blocks, cursor.nextKeyNr
      ensures Ready(cursor) && (!old(store.Fine()) ==> !store.Fine())
      ensures store.Sound() && old(store.Fine()) ==> store.Fine()
      ensures j <= |f.items| && Vol(store).Before(f.items, j) <= filepos && (store.Fine() ==> At(cursor, f, j))
    {
      j := 0;
      assert Has(cursor, Blocks) && Has(cursor, Tree) && Has(cursor, Place);
      var head := cursor.CurrentHead();
      assert Holds(cursor, f, Apart);
      if head.key.obj != obj || Offset(head) > filepos + 1 {
        FirstStarts(cursor, f);
        FromStat(f);
        j := 1;
      } else if store.Fine() {
        j := StandsOn(cursor, f);
      }
    }

    /** The item under the cursor, and where `filepos` lies in it; `over` if it is none of the file. */
    method Here(ghost f: File, ghost j: nat) returns (head: Item, offset: nat, over: bool)
      requires Ready(cursor) && HasFile(cursor, f) && store == cursor.store && f.obj == obj && store.Fine()
      requires At(cursor, f, j) && j <= |f.items| && Vol(store).Before(f.items, j) <= filepos
      ensures over <==> j == |f.items|
      ensures !over ==> head == f.items[j]
      ensures !over ==> Vol(store).Span(head) == 0 || offset == filepos - Vol(store).Before(f.items, j)
    {
      assert Has(cursor, Tree) && Has(cursor, Place) && StandsAt(cursor, f, j, Under);
      head := cursor.CurrentHead();
      offset := 0;
      assert Holds(cursor, f, Apart);
      if j < |f.items| { ItemStarts(cursor, f, j, filepos); }
      over := head.key.obj != obj;
      if !over { offset := filepos + 1 - Offset(head); }
    }

    /** Reading moves no cursor. */
    method ReadThere(ghost f: File, head: Item, offset: nat, ghost start: nat, n: nat, ghost got: seq<byte>, len: nat,
        ghost j: nat, buf: array<byte>, at: nat) returns (m: nat, done: bool, ghost now: seq<byte>)
      requires Ready(cursor) && HasFile(cursor, f) && store == cursor.store && store.Fine()
      requires n <= len && at + len <= buf.Length && j < |f.items| && head == f.items[j]
      requires HasRead(Vol(store), f, start, n, filepos, j, got) && got == buf[at..at + n] && At(cursor, f, j)
      requires Vol(store).Span(head) == 0 || offset == filepos - Vol(store).Before(f.items, j)
      modifies this`filepos, store.dev`errnum, buf
      ensures Ready(cursor) && At(cursor, f, j) && m <= len && if done then m == len else m == n || m < len
      ensures forall k :: 0 <= k < buf.Length && !(at <= k < at + len) ==> buf[k] == old(buf[k])
      ensures now == buf[at..at + m]
      ensures store.Fine() ==> HasRead(Vol(store), f, start, m, filepos, if done then j else j + 1, now)
      ensures store.Sound() && n < len && Present(Vol(store), f, start, start + len) ==> store.Fine()
    {
      assert Has(cursor, Blocks) && Has(cursor, Tree) && Has(cursor, Place);
      m, done, now := ReadTurn(f, head, offset, start, n, got, len, j, buf, at);
      StillReady(cursor);
    }

    /** A turn of the loop, at the item under the cursor; `over` if it is the last one. */
    method OneItem(ghost f: File, ghost start: nat, n: nat, ghost got: seq<byte>, len: nat, ghost j: nat, buf: array<byte>,
        at: nat) returns (m: nat, over: bool, ghost now: seq<byte>)
      requires Ready(cursor) && HasFile(cursor, f) && store == cursor.store && f.obj == obj && store.Fine()
      requires n <= len && at + len <= buf.Length && (n < len || n == 0)
      requires At(cursor, f, j) && HasRead(Vol(store), f, start, n, filepos, j, got) && got == buf[at..at + n]
      modifies this`filepos, buf
      modifies cursor`nb, cursor`c, cursor`currentIh, store.dev`errnum, cursor.slots, cursor.blocks, cursor.nextKeyNr
      ensures Ready(cursor) && m <= len && (!over ==> j < |f.items| && (m < len || m == 0))
      ensures forall k :: 0 <= k < buf.Length && !(at <= k < at + len) ==> buf[k] == old(buf[k])
      ensures now == buf[at..at + m]
      ensures store.Fine() && over ==> ReadAll(Vol(store), f, start, m, filepos, len, now)
      ensures store.Fine() && !over ==> At(cursor, f, j + 1) && HasRead(Vol(store), f, start, m, filepos, j + 1, now)
      ensures store.Sound() && 0 < len && Present(Vol(store), f, start, start + len) ==> store.Fine()
    {
      var head, offset;
      head, offset, over := Here(f, j);
      if over {
        IsAll(Vol(store), f, start, n, filepos, len, j, got);
        return n, true, got;
      }
      m, over, now := ReadThere(f, head, offset, start, n, got, len, j, buf, at);
      if !over {
        Advance(f, j);
      } else if store.Fine() {
        IsAll(Vol(store), f, start, m, filepos, len, j, now);
      }
    }

    /** The loop of `reiserfs_read`. */
    method ReadLoop(ghost f: File, len: nat, ghost j0: nat, buf: array<byte>, at: nat) returns (n: nat)
      requires Ready(cursor) && HasFile(cursor, f) && store == cursor.store && f.obj == obj
      requires at + len <= buf.Length && j0 <= |f.items| && Vol(store).Before(f.items, j0) <= filepos
      requires store.Fine() ==> At(cursor, f, j0)
      modifies this`filepos, buf
      modifies cursor`nb, cursor`c, cursor`currentIh, store.dev`errnum, cursor.slots, cursor.blocks, cursor.nextKeyNr
      ensures Ready(cursor) && n <= len && (!old(store.Fine()) ==> !store.Fine())
      ensures forall k :: 0 <= k < buf.Length && !(at <= k < at + len) ==> buf[k] == old(buf[k])
      ensures store.Fine() ==> ReadAll(Vol(store), f, old(filepos), n, filepos, len, buf[at..at + n])
      ensures store.Sound() && old(store.Fine()) && len > 0 && Present(Vol(store), f, old(filepos), old(filepos) + len)
        ==> store.Fine()
    {
      ghost var v, j, start, got: seq<byte> := Vol(store), j0, filepos, [];
      var over := false;
      n := 0;
      while store.Fine() && !over
        invariant Ready(cursor) && n <= len && j <= |f.items| && (!old(store.Fine()) ==> !store.Fine())
        invariant forall k :: 0 <= k < buf.Length && !(at <= k < at + len) ==> buf[k] == old(buf[k])
        invariant got == buf[at..at + n] && (over || n < len || n == 0)
        invariant store.Fine() && over ==> ReadAll(v, f, start, n, filepos, len, got)
        invariant store.Fine() && !over ==> At(cursor, f, j) && HasRead(v, f, start, n, filepos, j, got)
        invariant store.Sound() && old(store.Fine()) && len > 0 && Present(v, f, start, start + len) ==> store.Fine()
        decreases |f.items| - j, !over
      {
        n, over, got := OneItem(f, start, n, got, len, j, buf, at);
        if !over { j := j + 1; }
      }
    }

    /** `reiserfs_read`. As long as no error is reported the bytes are those of the file, and fewer of
        them arrive only where it ends, wherever in the tree the cursor stood. */
    method ReadFile(ghost f: File, buf: array<byte>, at: nat, len: nat) returns (n: nat)
      requires Ready(cursor) && HasFile(cursor, f) && store == cursor.store && f.dir == dir && f.obj == obj
      requires at + len <= buf.Length
      modifies this`filepos, buf
      modifies cursor`nb, cursor`c, cursor`currentIh, store.dev`errnum, cursor.slots, cursor.blocks, cursor.nextKeyNr
      ensures Ready(cursor) && n <= len && (!old(store.Fine()) ==> !store.Fine()) && (!store.Fine() ==> n == 0)
      ensures forall k :: 0 <= k < buf.Length && !(at <= k < at + len) ==> buf[k] == old(buf[k])
      ensures store.Fine() ==> ReadAll(Vol(store), f, old(filepos), n, filepos, len, buf[at..at + n])
      ensures store.Sound() && old(store.Fine()) && len > 0 && Present(Vol(store), f, old(filepos), old(filepos) + len)
        ==> store.Fine()
    {
      ghost var j := FindPlace(f);
      n := ReadLoop(f, len, j, buf, at);
      if !store.Fine() { n := 0; }
    }
  }
}
