/** The formatted blocks and the items of ReiserFS, laid out field by field as the structures of
    fs/grub/fsys_reiserfs.c have them, against what the reader takes from them. */
module ReiserFormat {
  import opened Disk
  import opened Encoding
  import opened ReiserNode
  import opened ReiserFile

  // ---------- keys and heads ----------

  predicate KeyOk(k: Key) { AreWords([k.dir, k.obj, k.offset, k.uniq]) }

  /** struct key */
  function EncodeKey(k: Key): seq<byte>
    requires KeyOk(k)
  {
    Words([k.dir, k.obj, k.offset, k.uniq])
  }

  /** struct block_head: level, number of items, free space, two bytes of padding, right delimiting key */
  function EncodeHead(level: nat, nr: nat, free: nat, pad: nat, delim: Key): seq<byte>
    requires AreHalves([level, nr, free, pad]) && KeyOk(delim)
  {
    Halves([level, nr, free, pad]) + EncodeKey(delim)
  }

  /** struct disk_child */
  datatype Child = Child(number: nat, size: nat, pad: nat) {
    predicate Ok() { AreWords([number]) && AreHalves([size, pad]) }

    function Encode(): seq<byte>
      requires Ok()
    {
      Words([number]) + Halves([size, pad])
    }
  }

  /** struct item_head */
  datatype Head = Head(key: Key, count: nat, len: nat, location: nat, version: nat) {
    predicate Ok() { KeyOk(key) && AreHalves([count, len, location, version]) }

    function Encode(): seq<byte>
      requires Ok()
    {
      EncodeKey(key) + Halves([count, len, location, version])
    }
  }

  function Keys(keys: seq<Key>): seq<seq<byte>>
    requires forall i :: 0 <= i < |keys| ==> KeyOk(keys[i])
  {
    seq(|keys|, i requires 0 <= i < |keys| => EncodeKey(keys[i]))
  }

  function Children(kids: seq<Child>): seq<seq<byte>>
    requires forall i :: 0 <= i < |kids| ==> kids[i].Ok()
  {
    seq(|kids|, i requires 0 <= i < |kids| => kids[i].Encode())
  }

  function Heads(heads: seq<Head>): seq<seq<byte>>
    requires forall i :: 0 <= i < |heads| ==> heads[i].Ok()
  {
    seq(|heads|, i requires 0 <= i < |heads| => heads[i].Encode())
  }

  // ---------- reading them ----------

  lemma {:induction false} WordAtIsU32(s: seq<byte>, i: nat)
    ensures i + 4 <= |s| ==> ReiserNode.WordAt(s, i) == U32(s, i)
    ensures i + 2 <= |s| ==> Half(s, i) == U16(s, i)
  {
  }

  lemma {:induction false} WordIsRead(s: seq<byte>, at: nat, ws: seq<int>, i: nat)
    requires AreWords(ws) && i < |ws| && Stands(s, at, Words(ws))
    ensures ReiserNode.WordAt(s, at + 4 * i) == ws[i]
  {
    WordsAreRead(s, at, ws, i);
    WordAtIsU32(s, at + 4 * i);
  }

  lemma {:induction false} HalfIsRead(s: seq<byte>, at: nat, hs: seq<int>, i: nat)
    requires AreHalves(hs) && i < |hs| && Stands(s, at, Halves(hs))
    ensures Half(s, at + 2 * i) == hs[i]
  {
    HalvesAreRead(s, at, hs, i);
    WordAtIsU32(s, at + 2 * i);
  }

  lemma {:induction false} KeyIsRead(s: seq<byte>, at: nat, k: Key)
    requires KeyOk(k) && Stands(s, at, EncodeKey(k))
    ensures KeyAt(s, at) == k
  {
    var ws := [k.dir, k.obj, k.offset, k.uniq];
    WordIsRead(s, at, ws, 0);
    WordIsRead(s, at, ws, 1);
    WordIsRead(s, at, ws, 2);
    WordIsRead(s, at, ws, 3);
  }

  lemma {:induction false} TwoPieces(s: seq<byte>, at: nat, a: seq<byte>, b: seq<byte>)
    requires Stands(s, at, a + b)
    ensures Stands(s, at, a) && Stands(s, at + |a|, b)
  {
    var t := a + b;
    assert t[0..0 + |a|] == a && t[|a|..|a| + |b|] == b;
    StandsWithin(s, at, t, 0, a);
    StandsWithin(s, at, t, |a|, b);
  }

  lemma {:induction false} HeadIsRead(block: seq<byte>, level: nat, nr: nat, free: nat, pad: nat, delim: Key)
    requires AreHalves([level, nr, free, pad]) && KeyOk(delim) && Stands(block, 0, EncodeHead(level, nr, free, pad, delim))
    ensures Half(block, 0) == level && Half(block, 2) == nr && KeyAt(block, 8) == delim
  {
    var hs := [level, nr, free, pad];
    HalvesSize(hs);
    TwoPieces(block, 0, Halves(hs), EncodeKey(delim));
    HalfIsRead(block, 0, hs, 0);
    HalfIsRead(block, 0, hs, 1);
    KeyIsRead(block, 8, delim);
  }

  lemma {:induction false} ChildIsRead(s: seq<byte>, at: nat, kid: Child)
    requires kid.Ok() && Stands(s, at, kid.Encode())
    ensures ReiserNode.WordAt(s, at) == kid.number
  {
    TwoPieces(s, at, Words([kid.number]), Halves([kid.size, kid.pad]));
    WordIsRead(s, at, [kid.number], 0);
  }

  lemma {:induction false} ItemHeadIsRead(s: seq<byte>, at: nat, h: Head)
    requires h.Ok() && Stands(s, at, h.Encode())
    ensures KeyAt(s, at) == h.key && Half(s, at + 18) == h.len && Half(s, at + 20) == h.location && Half(s, at + 22) == h.version
  {
    var hs := [h.count, h.len, h.location, h.version];
    WordsSize([h.key.dir, h.key.obj, h.key.offset, h.key.uniq]);
    TwoPieces(s, at, EncodeKey(h.key), Halves(hs));
    KeyIsRead(s, at, h.key);
    HalfIsRead(s, at + 16, hs, 1);
    HalfIsRead(s, at + 16, hs, 2);
    HalfIsRead(s, at + 16, hs, 3);
  }

  // ---------- blocks ----------

  /** An internal block: its head, its keys, its children. */
  ghost predicate IsInternal(block: seq<byte>, level: nat, free: nat, pad: nat, delim: Key, keys: seq<Key>, kids: seq<Child>) {
    && (forall i :: 0 <= i < |keys| ==> KeyOk(keys[i])) && (forall i :: 0 <= i < |kids| ==> kids[i].Ok())
    && AreHalves([level, |keys|, free, pad]) && KeyOk(delim) && |kids| == |keys| + 1
    && Stands(block, 0, EncodeHead(level, |keys|, free, pad, delim))
    && Stands(block, 24, Table(Keys(keys))) && Stands(block, 24 + 16 * |keys|, Table(Children(kids)))
  }

  /** Its keys and the block numbers of its children are what is read. */
  lemma {:induction false} InternalIsRead(block: seq<byte>, level: nat, free: nat, pad: nat, delim: Key, keys: seq<Key>,
      kids: seq<Child>)
    requires IsInternal(block, level, free, pad, delim, keys, kids)
    ensures var n := Decode(block);
      && n.level == level && n.rightDelim == delim && n.keys == keys && |n.children| == |kids|
      && forall i :: 0 <= i < |kids| ==> n.children[i] == kids[i].number
  {
    var n := Decode(block);
    HeadIsRead(block, level, |keys|, free, pad, delim);
    forall i | 0 <= i < |keys| ensures n.keys[i] == keys[i] { KeyOfTable(block, keys, i); }
    forall i | 0 <= i < |kids| ensures n.children[i] == kids[i].number { ChildOfTable(block, 24 + 16 * |keys|, kids, i); }
  }

  lemma {:induction false} KeyOfTable(block: seq<byte>, keys: seq<Key>, i: nat)
    requires (forall i :: 0 <= i < |keys| ==> KeyOk(keys[i])) && Stands(block, 24, Table(Keys(keys))) && i < |keys|
    ensures KeyAt(block, 24 + 16 * i) == keys[i]
  {
    var records := Keys(keys);
    forall k | 0 <= k < |records| ensures |records[k]| == 16 {
      WordsSize([keys[k].dir, keys[k].obj, keys[k].offset, keys[k].uniq]);
    }
    RecordAt(records, 16, i);
    StandsWithin(block, 24, Table(records), i * 16, records[i]);
    KeyIsRead(block, 24 + i * 16, keys[i]);
  }

  lemma {:induction false} ChildOfTable(block: seq<byte>, at: nat, kids: seq<Child>, i: nat)
    requires (forall i :: 0 <= i < |kids| ==> kids[i].Ok()) && Stands(block, at, Table(Children(kids))) && i < |kids|
    ensures ReiserNode.WordAt(block, at + 8 * i) == kids[i].number
  {
    var records := Children(kids);
    forall k | 0 <= k < |records| ensures |records[k]| == 8 {
      WordsSize([kids[k].number]);
      HalvesSize([kids[k].size, kids[k].pad]);
    }
    RecordAt(records, 8, i);
    StandsWithin(block, at, Table(records), i * 8, records[i]);
    ChildIsRead(block, at + i * 8, kids[i]);
  }

  /** A leaf: its head, the heads of its items, and their bodies where these say. */
  ghost predicate IsLeafBlock(block: seq<byte>, free: nat, pad: nat, delim: Key, heads: seq<Head>, bodies: seq<seq<byte>>) {
    && (forall i :: 0 <= i < |heads| ==> heads[i].Ok()) && AreHalves([1, |heads|, free, pad]) && KeyOk(delim)
    && Stands(block, 0, EncodeHead(1, |heads|, free, pad, delim)) && Stands(block, 24, Table(Heads(heads)))
    && |bodies| == |heads|
    && forall i :: 0 <= i < |heads| ==> |bodies[i]| == heads[i].len && Stands(block, heads[i].location, bodies[i])
  }

  /** Its items are what is read, each with its own key, version and body. */
  lemma {:induction false} LeafIsRead(block: seq<byte>, free: nat, pad: nat, delim: Key, heads: seq<Head>, bodies: seq<seq<byte>>)
    requires IsLeafBlock(block, free, pad, delim, heads, bodies)
    ensures var n := Decode(block);
      && n.level == 1 && n.rightDelim == delim && |n.items| == |heads|
      && forall i :: 0 <= i < |heads| ==> n.items[i] == Item(heads[i].key, heads[i].version, bodies[i])
  {
    var n := Decode(block);
    HeadIsRead(block, 1, |heads|, free, pad, delim);
    forall i | 0 <= i < |heads| ensures n.items[i] == Item(heads[i].key, heads[i].version, bodies[i]) {
      ItemOfTable(block, heads, i);
      BodyIsRead(block, heads[i].location, bodies[i]);
    }
  }

  lemma {:induction false} ItemOfTable(block: seq<byte>, heads: seq<Head>, i: nat)
    requires (forall i :: 0 <= i < |heads| ==> heads[i].Ok()) && Stands(block, 24, Table(Heads(heads))) && i < |heads|
    ensures ItemAt(block, 24 + 24 * i) == Item(heads[i].key, heads[i].version, Bytes(block, heads[i].location, heads[i].len))
  {
    var records := Heads(heads);
    forall k | 0 <= k < |records| ensures |records[k]| == 24 {
      WordsSize([heads[k].key.dir, heads[k].key.obj, heads[k].key.offset, heads[k].key.uniq]);
      HalvesSize([heads[k].count, heads[k].len, heads[k].location, heads[k].version]);
    }
    RecordAt(records, 24, i);
    StandsWithin(block, 24, Table(records), i * 24, records[i]);
    ItemHeadIsRead(block, 24 + i * 24, heads[i]);
  }

  lemma {:induction false} BodyIsRead(block: seq<byte>, at: nat, body: seq<byte>)
    requires Stands(block, at, body)
    ensures Bytes(block, at, |body|) == body
  {
    forall k | 0 <= k < |body| ensures Bytes(block, at, |body|)[k] == body[k] {
      assert Bytes(block, at, |body|)[k] == ByteAt(block, at + k) == block[at..at + |body|][k];
    }
  }

  // ---------- items of files ----------

  /** The pointers of an indirect item are the words of its body, one after another. */
  lemma {:induction false} PointersAreRead(it: Item, ws: seq<int>, q: nat)
    requires AreWords(ws) && it.body == Words(ws) && q < |ws|
    ensures Pointer(it, q) == ws[q] && |it.body| / 4 == |ws|
  {
    WordsSize(ws);
    assert it.body[0..0 + |it.body|] == it.body;
    WordIsRead(it.body, 0, ws, q);
  }

  /** The keys of version 2 hold the offset in 60 bits and the type in four. */
  function KeyV2(dir: nat, obj: nat, offset: nat, kind: nat): Key {
    var long := kind * 0x1000_0000_0000_0000 + offset;
    Key(dir, obj, long % 0x1_0000_0000, long / 0x1_0000_0000)
  }

  lemma {:induction false} V2IsRead(it: Item, dir: nat, obj: nat, offset: nat, kind: nat)
    requires it.version != 0 && offset < 0x1000_0000_0000_0000 && kind < 16 && it.key == KeyV2(dir, obj, offset, kind)
    ensures Offset(it) == offset && (Indirect(it) <==> kind == 1) && (Direct(it) <==> kind == 2) && KeyOk(KeyV2(0, 0, offset, kind))
  {
    var high, low := offset / 0x1_0000_0000, offset % 0x1_0000_0000;
    assert it.key.offset == low && it.key.uniq == kind * 0x1000_0000 + high;
  }

  /** Those of version 1 have a word for each. */
  lemma {:induction false} V1IsRead(it: Item)
    requires it.version == 0
    ensures Offset(it) == it.key.offset
    ensures (Indirect(it) <==> it.key.uniq == 0xffff_fffe) && (Direct(it) <==> it.key.uniq == 0xffff_ffff)
  {
  }
}
