/** The ReiserFS tree walk of fs/grub/fsys_reiserfs.c: `read_tree_node` with its node cache,
    `search_stat` and `next_key`.  A cached block is held in decoded form. */
module ReiserTree {
  import opened Disk
  import opened ReiserNode

  const MAX_HEIGHT: nat := 7

  predicate Less(a: Key, b: Key) {
    a.dir < b.dir || (a.dir == b.dir && (a.obj < b.obj || (a.obj == b.obj &&
      (a.offset < b.offset || (a.offset == b.offset && a.uniq < b.uniq)))))
  }

  function StatKey(dir: nat, obj: nat): Key {
    Key(dir, obj, 0, 0)
  }

  /** The comparison with which `search_stat` picks a child. */
  predicate Above(k: Key, dir: nat, obj: nat) {
    k.dir > dir || (k.dir == dir && (k.obj > obj || (k.obj == obj && (k.offset > 0 || k.uniq > 0))))
  }

  // ---------- the tree on disk ----------

  ghost predicate WellFormed(node: nat -> Node, b: nat, depth: nat)
    decreases depth
  {
    var n := node(b);
    && depth >= LEAF_LEVEL && n.level == depth
    && (depth == LEAF_LEVEL ==> n.items != [])
    && (depth > LEAF_LEVEL ==>
      && |n.children| == |n.keys| + 1
      && forall i :: 0 <= i < |n.children| ==> n.children[i] != 0 && WellFormed(node, n.children[i], depth - 1))
  }

  /** All items below a block, in key order. */
  ghost function Items(node: nat -> Node, b: nat, depth: nat): seq<Item>
    decreases depth, 0, 0
  {
    if depth <= LEAF_LEVEL then node(b).items else ItemsFrom(node, b, depth, 0)
  }

  /** The items below the children of a block from the `i`-th on. */
  ghost function ItemsFrom(node: nat -> Node, b: nat, depth: nat, i: nat): seq<Item>
    requires depth > LEAF_LEVEL
    decreases depth - 1, 1, |node(b).children| - i
  {
    if i >= |node(b).children| then []
    else Items(node, node(b).children[i], depth - 1) + ItemsFrom(node, b, depth, i + 1)
  }

  /** Separator `i` of an internal node is above everything to its left and not above
      anything to its right. */
  ghost predicate Ordered(node: nat -> Node, b: nat, depth: nat)
    decreases depth
  {
    var n := node(b);
    depth > LEAF_LEVEL ==>
      && |n.children| == |n.keys| + 1
      && (forall i, j :: 0 <= i < j < |n.keys| ==> Less(n.keys[i], n.keys[j]))
      && (forall i :: 0 <= i < |n.children| ==> Ordered(node, n.children[i], depth - 1))
      && (forall i, x :: 0 <= i < |n.children| && x in Items(node, n.children[i], depth - 1) ==>
        && (i < |n.keys| ==> Less(x.key, n.keys[i]))
        && (i > 0 ==> !Less(x.key, n.keys[i - 1])))
  }

  ghost predicate HasStat(items: seq<Item>, dir: nat, obj: nat) {
    exists x :: x in items && x.key == StatKey(dir, obj)
  }

  lemma {:induction false} Associate<T>(a: seq<T>, b: seq<T>, c: seq<T>)
    ensures (a + b) + c == a + (b + c)
  {
  }

  // ---------- a path from the root to a leaf ----------

  /** `nb[d]` is the block on the path at depth `d`, and `c[d]` the child taken there,
      for the depths from `hi` down to `lo`. */
  ghost predicate Path(node: nat -> Node, nb: seq<nat>, c: seq<nat>, lo: nat, hi: nat) {
    && LEAF_LEVEL <= lo <= hi < |nb| == |c| == MAX_HEIGHT
    && forall d :: lo < d <= hi ==>
      c[d] < |node(nb[d]).children| && nb[d - 1] == node(nb[d]).children[c[d]]
  }

  /** The nodes of a path in a well-formed tree are well-formed. */
  lemma {:induction false} PathWellFormed(node: nat -> Node, nb: seq<nat>, c: seq<nat>, hi: nat, d: nat)
    requires Path(node, nb, c, LEAF_LEVEL, hi) && LEAF_LEVEL <= d <= hi
    requires WellFormed(node, nb[hi], hi)
    ensures WellFormed(node, nb[d], d)
    decreases hi
  {
    if d < hi {
      assert WellFormed(node, node(nb[hi]).children[c[hi]], hi - 1);
      PathWellFormed(node, nb, c, hi - 1, d);
    }
  }

  /** The items after the leaf of the path, as far as they lie below its block at depth `d`. */
  ghost function After(node: nat -> Node, nb: seq<nat>, c: seq<nat>, d: nat): seq<Item>
    requires d < |nb| == |c|
  {
    if d <= LEAF_LEVEL then [] else After(node, nb, c, d - 1) + ItemsFrom(node, nb[d], d, c[d] + 1)
  }

  /** The path goes through the last child at every depth up to `d`. */
  ghost predicate LastUpTo(node: nat -> Node, nb: seq<nat>, c: seq<nat>, d: nat)
    requires |nb| == |c| == MAX_HEIGHT && d < MAX_HEIGHT
  {
    forall e :: LEAF_LEVEL < e <= d ==> c[e] + 1 == |node(nb[e]).children|
  }

  /** The last leaf below a block. */
  ghost function LastLeaf(node: nat -> Node, b: nat, depth: nat): nat
    decreases depth
  {
    var n := |node(b).children|;
    if depth <= LEAF_LEVEL || n == 0 then b else LastLeaf(node, node(b).children[n - 1], depth - 1)
  }

  /** A path through last children only leads there. */
  lemma {:induction false} LastPath(node: nat -> Node, nb: seq<nat>, c: seq<nat>, d: nat)
    requires Path(node, nb, c, LEAF_LEVEL, d) && LastUpTo(node, nb, c, d)
    ensures nb[LEAF_LEVEL] == LastLeaf(node, nb[d], d)
    decreases d
  {
    if d > LEAF_LEVEL { LastPath(node, nb, c, d - 1); }
  }

  lemma {:induction false} AfterLast(node: nat -> Node, nb: seq<nat>, c: seq<nat>, d: nat)
    requires |nb| == |c| == MAX_HEIGHT && d < MAX_HEIGHT && LastUpTo(node, nb, c, d)
    ensures After(node, nb, c, d) == []
  {
    if d > LEAF_LEVEL { AfterLast(node, nb, c, d - 1); }
  }

  /** From the leftmost leaf below a block on, all its items are still to come. */
  lemma {:induction false} LeftmostSeesAll(node: nat -> Node, nb: seq<nat>, c: seq<nat>, d: nat)
    requires Path(node, nb, c, LEAF_LEVEL, d)
    requires forall e :: LEAF_LEVEL < e <= d ==> c[e] == 0
    ensures node(nb[LEAF_LEVEL]).items + After(node, nb, c, d) == Items(node, nb[d], d)
    decreases d
  {
    if d > LEAF_LEVEL {
      LeftmostSeesAll(node, nb, c, d - 1);
      var leaf, rest := node(nb[LEAF_LEVEL]).items, ItemsFrom(node, nb[d], d, 1);
      Associate(leaf, After(node, nb, c, d - 1), rest);
    }
  }

  /** The path turns to the next child at depth `t` and goes leftmost below it. */
  lemma {:induction false} TurnAt(node: nat -> Node, nb: seq<nat>, c: seq<nat>, nb': seq<nat>, c': seq<nat>, t: nat)
    requires |nb| == |c| == MAX_HEIGHT && LEAF_LEVEL < t && Path(node, nb', c', LEAF_LEVEL, t)
    requires LastUpTo(node, nb, c, t - 1)
    requires nb'[t] == nb[t] && c'[t] == c[t] + 1 && forall e :: LEAF_LEVEL < e < t ==> c'[e] == 0
    ensures After(node, nb, c, t) == node(nb'[LEAF_LEVEL]).items + After(node, nb', c', t)
  {
    var leaf, below := node(nb'[LEAF_LEVEL]).items, After(node, nb', c', t - 1);
    var next, rest := Items(node, nb'[t - 1], t - 1), ItemsFrom(node, nb[t], t, c[t] + 2);
    assert leaf + below == next by {
      assert Path(node, nb', c', LEAF_LEVEL, t - 1);
      LeftmostSeesAll(node, nb', c', t - 1);
    }
    assert ItemsFrom(node, nb[t], t, c[t] + 1) == next + rest by { NextChild(node, nb, nb', c', t); }
    assert After(node, nb, c, t - 1) == [] by { AfterLast(node, nb, c, t - 1); }
    Regroup(leaf, below, next, rest);
  }

  lemma {:induction false} NextChild(node: nat -> Node, nb: seq<nat>, nb': seq<nat>, c': seq<nat>, t: nat)
    requires LEAF_LEVEL < t < |nb| && Path(node, nb', c', LEAF_LEVEL, t) && nb'[t] == nb[t]
    ensures ItemsFrom(node, nb[t], t, c'[t]) == Items(node, nb'[t - 1], t - 1) + ItemsFrom(node, nb[t], t, c'[t] + 1)
  {
  }

  lemma {:induction false} Regroup<T>(leaf: seq<T>, below: seq<T>, next: seq<T>, rest: seq<T>)
    requires leaf + below == next
    ensures [] + (next + rest) == leaf + (below + rest)
  {
    Associate(leaf, below, rest);
  }

  /** Above that depth the path stays as it was, and so does what lies after it. */
  lemma {:induction false} TurnSeenFrom(node: nat -> Node, nb: seq<nat>, c: seq<nat>, nb': seq<nat>, c': seq<nat>, t: nat, d: nat)
    requires |nb| == |c| == |nb'| == |c'| == MAX_HEIGHT && LEAF_LEVEL < t <= d < MAX_HEIGHT
    requires After(node, nb, c, t) == node(nb'[LEAF_LEVEL]).items + After(node, nb', c', t)
    requires forall e :: t < e <= d ==> nb'[e] == nb[e] && c'[e] == c[e]
    ensures After(node, nb, c, d) == node(nb'[LEAF_LEVEL]).items + After(node, nb', c', d)
    decreases d - t
  {
    if t < d {
      TurnSeenFrom(node, nb, c, nb', c', t, d - 1);
      SeenOneUp(node, nb, c, nb', c', d, node(nb'[LEAF_LEVEL]).items);
    }
  }

  lemma {:induction false} SeenOneUp(node: nat -> Node, nb: seq<nat>, c: seq<nat>, nb': seq<nat>, c': seq<nat>, d: nat,
      leaf: seq<Item>)
    requires |nb| == |c| == |nb'| == |c'| && LEAF_LEVEL < d < |nb| && nb'[d] == nb[d] && c'[d] == c[d]
    requires After(node, nb, c, d - 1) == leaf + After(node, nb', c', d - 1)
    ensures After(node, nb, c, d) == leaf + After(node, nb', c', d)
  {
    AppendBehind(After(node, nb, c, d - 1), leaf, After(node, nb', c', d - 1), ItemsFrom(node, nb[d], d, c[d] + 1));
  }

  /** Seen from the top: what was still to come is the new leaf and what comes after it. */
  lemma {:induction false} TurnSkipsNothing(node: nat -> Node, nb: seq<nat>, c: seq<nat>, nb': seq<nat>, c': seq<nat>, t: nat, top: nat)
    requires |nb| == |c| == MAX_HEIGHT && LEAF_LEVEL < t <= top && Path(node, nb', c', LEAF_LEVEL, top)
    requires LastUpTo(node, nb, c, t - 1) && c'[t] == c[t] + 1
    requires forall e :: LEAF_LEVEL < e < t ==> c'[e] == 0
    requires forall e :: t <= e <= top ==> nb'[e] == nb[e]
    requires forall e :: t < e <= top ==> c'[e] == c[e]
    ensures After(node, nb, c, top) == node(nb'[LEAF_LEVEL]).items + After(node, nb', c', top)
  {
    assert Path(node, nb', c', LEAF_LEVEL, t);
    TurnAt(node, nb, c, nb', c', t);
    TurnSeenFrom(node, nb, c, nb', c', t, top);
  }

  lemma {:induction false} AppendBehind<T>(all: seq<T>, leaf: seq<T>, below: seq<T>, rest: seq<T>)
    requires all == leaf + below
    ensures all + rest == leaf + (below + rest)
  {
    Associate(leaf, below, rest);
  }

  lemma {:induction false} OneVisited<T>(all: seq<T>, visited: seq<T>, rest: seq<T>, x: T, now: seq<T>)
    requires all == visited + rest && rest == [x] + now
    ensures all == (visited + [x]) + now
    ensures |now| < |rest|
  {
    Associate(visited, [x], now);
  }

  lemma {:induction false} CutAt(before: seq<Item>, items: seq<Item>, after: seq<Item>, i: nat)
    requires i < |items|
    ensures (before + items[..i]) + [items[i]] + (items[i + 1..] + after) == before + items + after
  {
    var left, right := items[..i], items[i + 1..];
    assert items == (left + [items[i]]) + right;
    Associate(before, left, [items[i]]);
    Associate(before, left + [items[i]], right);
    Associate(before + left + [items[i]], right, after);
  }

  lemma {:induction false} FirstOfLeaf(items: seq<Item>, rest: seq<Item>)
    requires items != []
    ensures items + rest == [items[0]] + (items[1..] + rest)
  {
    assert items == [items[0]] + items[1..];
  }

  // ---------- finding a stat item ----------

  /** The items below the first `i` children of a block. */
  ghost function ItemsUpTo(node: nat -> Node, b: nat, depth: nat, i: nat): seq<Item>
    requires depth > LEAF_LEVEL
  {
    if i == 0 || i > |node(b).children| then [] else ItemsUpTo(node, b, depth, i - 1) + Items(node, node(b).children[i - 1], depth - 1)
  }

  lemma {:induction false} ItemsSplit(node: nat -> Node, b: nat, depth: nat, i: nat)
    requires depth > LEAF_LEVEL && i <= |node(b).children|
    ensures ItemsUpTo(node, b, depth, i) + ItemsFrom(node, b, depth, i) == Items(node, b, depth)
  {
    if i == 0 {
      assert [] + ItemsFrom(node, b, depth, 0) == ItemsFrom(node, b, depth, 0);
    } else {
      ItemsSplit(node, b, depth, i - 1);
      var left, mid, right := ItemsUpTo(node, b, depth, i - 1), Items(node, node(b).children[i - 1], depth - 1), ItemsFrom(node, b, depth, i);
      assert (left + mid) + right == left + (mid + right);
    }
  }

  lemma {:induction false} InSomeChild(node: nat -> Node, b: nat, depth: nat, i: nat, x: Item) returns (j: nat)
    requires depth > LEAF_LEVEL && x in ItemsFrom(node, b, depth, i)
    ensures i <= j < |node(b).children| && x in Items(node, node(b).children[j], depth - 1)
    decreases |node(b).children| - i
  {
    if x in Items(node, node(b).children[i], depth - 1) {
      j := i;
    } else {
      j := InSomeChild(node, b, depth, i + 1, x);
    }
  }

  /** The child `search_stat` picks: the one left of the first separator above the key.
      If the stat item is below the block at all, it is below that child. */
  lemma {:induction false} PickedChild(node: nat -> Node, b: nat, depth: nat, i: nat, dir: nat, obj: nat)
    requires depth > LEAF_LEVEL && Ordered(node, b, depth) && i <= |node(b).keys|
    requires forall k :: 0 <= k < i ==> !Above(node(b).keys[k], dir, obj)
    requires i < |node(b).keys| ==> Above(node(b).keys[i], dir, obj)
    ensures HasStat(Items(node, b, depth), dir, obj) ==> HasStat(Items(node, node(b).children[i], depth - 1), dir, obj)
  {
    if HasStat(Items(node, b, depth), dir, obj) {
      var x :| x in Items(node, b, depth) && x.key == StatKey(dir, obj);
      var j := InSomeChild(node, b, depth, 0, x);
      assert j < |node(b).keys| ==> Above(node(b).keys[j], dir, obj);
      assert j > 0 ==> !Above(node(b).keys[j - 1], dir, obj);
      assert forall k :: i <= k < |node(b).keys| ==> Above(node(b).keys[k], dir, obj);
    }
  }

  /** The items before the leaf of the path. */
  ghost function Before(node: nat -> Node, nb: seq<nat>, c: seq<nat>, d: nat): seq<Item>
    requires d < |nb| == |c|
    decreases d
  {
    if d <= LEAF_LEVEL then [] else ItemsUpTo(node, nb[d], d, c[d]) + Before(node, nb, c, d - 1)
  }

  /** Every path cuts the items of the tree into those before, in and after its leaf. */
  lemma {:induction false} PathCuts(node: nat -> Node, nb: seq<nat>, c: seq<nat>, d: nat)
    requires Path(node, nb, c, LEAF_LEVEL, d)
    ensures Before(node, nb, c, d) + node(nb[LEAF_LEVEL]).items + After(node, nb, c, d) == Items(node, nb[d], d)
    decreases d
  {
    var leaf := node(nb[LEAF_LEVEL]).items;
    if d == LEAF_LEVEL {
      assert [] + leaf + [] == leaf;
    } else {
      PathCuts(node, nb, c, d - 1);
      ItemsSplit(node, nb[d], d, c[d]);
      var left, right := ItemsUpTo(node, nb[d], d, c[d]), ItemsFrom(node, nb[d], d, c[d] + 1);
      var before, after := Before(node, nb, c, d - 1), After(node, nb, c, d - 1);
      var inner := before + leaf + after;
      assert Items(node, nb[d], d) == left + (inner + right);
      Associate(left, inner, right);
      Associate(left, before + leaf, after);
      Associate(left, before, leaf);
      Associate(left + before + leaf, after, right);
    }
  }

  // ---------- the cursor ----------

  datatype Aspect = Followed | Toward

  class Cursor {
    const store: BlockStore
    const root: nat
    const treeDepth: nat
    const cachedSlots: nat
    const slots: array<Node>       // 0 ROOT, 1 LEAF, then the nodes of the path from bottom to top
    const blocks: array<nat>       // the block a slot was read from, by depth
    const nextKeyNr: array<nat>    // the child to take next, by depth; 0 if there is none
    var currentIh: int             // index of the current item in LEAF; -1 for its right delimiter
    ghost var nb: seq<nat>         // the blocks of the current path, by depth
    ghost var c: seq<nat>          // the children it takes, by depth

    /** The end of `reiserfs_mount`, which has read the root: clears the node cache. */
    constructor (store: BlockStore, root: nat, node: Node, cachedSlots: nat)
      requires node == store.node(root) && 2 <= cachedSlots
      requires node.level < MAX_HEIGHT && WellFormed(store.node, root, node.level)
      ensures this.store == store && this.root == root && this.cachedSlots == cachedSlots
      ensures treeDepth == node.level
      ensures fresh(slots) && fresh(blocks) && fresh(nextKeyNr)
      ensures Shape() && CacheOk()
    {
      this.store, this.root, this.cachedSlots := store, root, cachedSlots;
      treeDepth := node.level;
      slots := new Node[cachedSlots + 1](_ => node);
      blocks := new nat[MAX_HEIGHT](_ => 0);
      nextKeyNr := new nat[MAX_HEIGHT](_ => 0);
      currentIh, nb, c := -1, [], [];
    }

    /** The slot of a depth: the depths from `cachedSlots` on share the last one. */
    function Slot(depth: nat): nat {
      if depth < cachedSlots then depth else cachedSlots
    }

    ghost predicate Shape() {
      && 2 <= cachedSlots && slots.Length == cachedSlots + 1
      && blocks.Length == nextKeyNr.Length == MAX_HEIGHT && blocks != nextKeyNr
      && LEAF_LEVEL <= treeDepth < MAX_HEIGHT
      && WellFormed(store.node, root, treeDepth)
    }

    /** The node cache can be trusted: ROOT holds the root, and each slot below the shared
        one holds the block noted for it. */
    ghost predicate CacheOk()
      requires Shape()
      reads slots, blocks
    {
      && slots[0] == store.node(root)
      && (treeDepth == LEAF_LEVEL ==> slots[LEAF_LEVEL] == store.node(root))
      && forall d :: LEAF_LEVEL <= d < cachedSlots && d < treeDepth && blocks[d] != 0 ==> slots[d] == store.node(blocks[d])
    }

    /** The path has been followed from the root down to `depth`: the cache, the noted
        blocks and the next child of each depth agree with it. */
    ghost predicate Descended(depth: nat)
      requires Shape()
      reads this`nb, this`c, slots, blocks, nextKeyNr
    {
      && CacheOk()
      && Path(store.node, nb, c, depth, treeDepth) && nb[treeDepth] == root
      && WellFormed(store.node, nb[depth], depth)
      && (forall d :: depth <= d < treeDepth ==> blocks[d] == nb[d] != 0)
      && (forall d :: depth < d <= treeDepth ==>
        nextKeyNr[d] == if c[d] == |store.node(nb[d]).keys| then 0 else c[d] + 1)
      && (depth <= cachedSlots < treeDepth ==> slots[cachedSlots] == store.node(nb[cachedSlots]))
    }

    /** The slot in which a node of the path is looked up. */
    /** The node the path has come to is in its slot. */
    ghost predicate Showing(depth: nat)
      requires Shape()
      reads this`nb, this`c, slots, blocks, nextKeyNr
    {
      Descended(depth) && slots[Slot(depth)] == store.node(nb[depth])
    }

    function NodeSlot(depth: nat): nat {
      if depth == treeDepth then 0 else Slot(depth)
    }

    /** `read_tree_node`: brings a node into its slot, unless it is there already. */
    method ReadTreeNode(blockNr: nat, depth: nat) returns (ok: bool)
      requires Shape() && store.Valid() && LEAF_LEVEL <= depth < treeDepth
      requires store.Fine() ==> CacheOk() && blockNr != 0
      modifies store.dev`errnum, slots, blocks
      ensures store.Valid() && (!ok || !old(store.Fine()) ==> !store.Fine())
      ensures store.Fine() ==> ok && CacheOk() && blocks[depth] == blockNr && slots[Slot(depth)] == store.node(blockNr)
      ensures forall k :: 0 <= k < slots.Length && k != Slot(depth) ==> slots[k] == old(slots[k])
      ensures forall d :: 0 <= d < blocks.Length && d != depth ==> blocks[d] == old(blocks[d])
      ensures store.Sound() && old(store.Fine()) && store.node(blockNr).level == depth ==> store.Fine()
    {
      var cache := depth;
      if depth < cachedSlots {
        if blockNr == blocks[depth] { return true; }
      } else {
        cache := cachedSlots;
      }
      var n;
      ok, n := store.BlockRead(blockNr);
      slots[cache] := n;
      if !ok { return false; }
      if slots[cache].level != depth {
        store.Fail();
        return false;
      }
      blocks[depth] := blockNr;
    }

    /** One step down: takes child `i` of the node at `depth`. */
    method Descend(depth: nat, i: nat) returns (ok: bool)
      requires Shape() && store.Valid() && LEAF_LEVEL < depth <= treeDepth
      requires store.Fine() ==>
        && Descended(depth) && i < |store.node(nb[depth]).children|
        && slots[NodeSlot(depth)] == store.node(nb[depth])
        && nextKeyNr[depth] == if i == |store.node(nb[depth]).keys| then 0 else i + 1
      modifies this`nb, this`c, store.dev`errnum, slots, blocks
      ensures store.Valid() && (!ok || !old(store.Fine()) ==> !store.Fine())
      ensures store.Sound() && old(store.Fine()) ==> store.Fine()
      ensures store.Fine() ==>
        && ok && |nb| == |old(nb)| == |c| == |old(c)|
        && (forall d :: depth <= d < |nb| ==> nb[d] == old(nb[d]))
        && (forall d :: depth < d < |c| ==> c[d] == old(c[d])) && c[depth] == i
        && nb[depth - 1] == store.node(nb[depth]).children[i]
      ensures store.Fine() ==> Showing(depth - 1)
    {
      var child := slots[NodeSlot(depth)].Child(i);
      if store.Fine() {
        assert child != 0 && WellFormed(store.node, child, depth - 1);
        nb, c := nb[depth - 1 := child], c[depth := i];
      }
      ok := ReadTreeNode(child, depth - 1);
    }

    /** No error is pending, and the cursor stands somewhere. */
    ghost predicate Valid()
      reads this, store.dev, slots, blocks, nextKeyNr
    {
      store.Fine() && Standing()
    }

    /** The cursor stands on an item of the leaf of its path, or on the right delimiter of the last leaf. */
    ghost predicate Standing()
      reads this, slots, blocks, nextKeyNr
    {
      && Shape() && Descended(LEAF_LEVEL)
      && slots[LEAF_LEVEL] == store.node(nb[LEAF_LEVEL])
      && Placed() && (currentIh == -1 ==> nb[LEAF_LEVEL] == LastLeaf(store.node, root, treeDepth))
    }

    ghost predicate Placed()
      reads this
    {
      |nb| == |c| == MAX_HEIGHT && treeDepth < MAX_HEIGHT && -1 <= currentIh < |store.node(nb[LEAF_LEVEL]).items|
    }

    /** The item the cursor stands on. */
    ghost function Current(): Item
      requires Placed() && currentIh >= 0
      reads this
    {
      store.node(nb[LEAF_LEVEL]).items[currentIh]
    }

    /** The items of the tree before the current one. */
    ghost function Passed(): seq<Item>
      requires Placed() && currentIh >= 0
      reads this
    {
      Before(store.node, nb, c, treeDepth) + store.node(nb[LEAF_LEVEL]).items[..currentIh]
    }

    /** The items of the tree still to come. */
    ghost function Remaining(): seq<Item>
      requires Placed()
      reads this
    {
      if currentIh < 0 then []
      else store.node(nb[LEAF_LEVEL]).items[currentIh + 1..] + After(store.node, nb, c, treeDepth)
    }

    /** Together they are all the items of the tree, in order. */
    lemma {:induction false} CursorCuts()
      requires Valid() && currentIh >= 0
      ensures Passed() + [Current()] + Remaining() == Items(store.node, root, treeDepth)
    {
      var leaf := store.node(nb[LEAF_LEVEL]).items;
      var before, after := Before(store.node, nb, c, treeDepth), After(store.node, nb, c, treeDepth);
      PathCuts(store.node, nb, c, treeDepth);
      CutAt(before, leaf, after, currentIh);
    }

    /** The scan of the separators of a node for the first one above the key. */
    method PickChild(slot: nat, dir: nat, obj: nat) returns (i: nat)
      requires slot < slots.Length
      ensures i <= |slots[slot].keys|
      ensures forall k :: 0 <= k < i ==> !Above(slots[slot].keys[k], dir, obj)
      ensures i < |slots[slot].keys| ==> Above(slots[slot].keys[i], dir, obj)
    {
      i := 0;
      while i < |slots[slot].keys|
        invariant i <= |slots[slot].keys|
        invariant forall k :: 0 <= k < i ==> !Above(slots[slot].keys[k], dir, obj)
      {
        if Above(slots[slot].keys[i], dir, obj) { break; }
        i := i + 1;
      }
    }

    /** Block `b` at `depth` has the stat item below it if the tree has it. */
    ghost predicate Leads(b: nat, depth: nat, dir: nat, obj: nat) {
      && Ordered(store.node, b, depth)
      && (HasStat(Items(store.node, root, treeDepth), dir, obj) ==> HasStat(Items(store.node, b, depth), dir, obj))
    }

    /** The way has been followed down to `depth`, with the node there in its slot, and leads to the
        stat item if the tree has it. */
    ghost predicate Leading(depth: nat, dir: nat, obj: nat)
      requires Shape() && LEAF_LEVEL <= depth <= treeDepth
      reads this`nb, this`c, slots, blocks, nextKeyNr
    {
      forall aspect :: Led(depth, dir, obj, aspect)
    }

    ghost predicate Led(depth: nat, dir: nat, obj: nat, aspect: Aspect)
      requires Shape() && LEAF_LEVEL <= depth <= treeDepth
      reads this`nb, this`c, slots, blocks, nextKeyNr
    {
      match aspect
      case Followed => Descended(depth) && slots[NodeSlot(depth)] == store.node(nb[depth])
      case Toward => |nb| == MAX_HEIGHT && Leads(nb[depth], depth, dir, obj)
    }

    /** One step of the way down that `search_stat` takes. */
    method StepDownTo(depth: nat, dir: nat, obj: nat) returns (ok: bool)
      requires Shape() && store.Valid() && LEAF_LEVEL <= depth < treeDepth
      requires store.Fine() ==> Leading(depth + 1, dir, obj)
      modifies this`nb, this`c, store.dev`errnum, slots, blocks, nextKeyNr
      ensures store.Valid() && (!ok || !old(store.Fine()) ==> !store.Fine())
      ensures store.Sound() && old(store.Fine()) ==> store.Fine()
      ensures store.Fine() ==> ok && Leading(depth, dir, obj)
    {
      var i := PickNext(depth + 1, dir, obj);
      ok := Descend(depth + 1, i);
    }

    /** The child to take on that way, with the one behind it noted as the next. */
    method PickNext(depth: nat, dir: nat, obj: nat) returns (i: nat)
      requires Shape() && LEAF_LEVEL < depth <= treeDepth
      requires store.Fine() ==> Leading(depth, dir, obj)
      modifies nextKeyNr
      ensures store.Fine() ==>
        && Descended(depth) && i < |store.node(nb[depth]).children|
        && slots[NodeSlot(depth)] == store.node(nb[depth])
        && nextKeyNr[depth] == (if i == |store.node(nb[depth]).keys| then 0 else i + 1)
        && Leads(store.node(nb[depth]).children[i], depth - 1, dir, obj)
    {
      assert store.Fine() ==> Led(depth, dir, obj, Followed) && Led(depth, dir, obj, Toward);
      i := PickChild(NodeSlot(depth), dir, obj);
      if store.Fine() { PickedChild(store.node, nb[depth], depth, i, dir, obj); }
      nextKeyNr[depth] := if i == slots[NodeSlot(depth)].NrItem() then 0 else i + 1;
    }

    /** The way down from the root that `search_stat` takes. */
    method DescendTo(dir: nat, obj: nat) returns (ok: bool)
      requires Shape() && store.Valid() && Ordered(store.node, root, treeDepth)
      requires store.Fine() ==> CacheOk()
      modifies this`nb, this`c, store.dev`errnum, slots, blocks, nextKeyNr
      ensures store.Valid() && (!ok || !old(store.Fine()) ==> !store.Fine())
      ensures store.Sound() && old(store.Fine()) ==> store.Fine()
      ensures store.Fine() ==> ok && Descended(LEAF_LEVEL) && slots[LEAF_LEVEL] == store.node(nb[LEAF_LEVEL])
      ensures store.Fine() && HasStat(Items(store.node, root, treeDepth), dir, obj) ==>
        HasStat(store.node(nb[LEAF_LEVEL]).items, dir, obj)
    {
      nb := seq(MAX_HEIGHT, _ => root);
      c := seq(MAX_HEIGHT, _ => 0);
      var depth := treeDepth;
      ok := true;
      if store.Fine() { AtRoot(dir, obj); }
      while depth > LEAF_LEVEL
        invariant LEAF_LEVEL <= depth <= treeDepth && ok && store.Valid()
        invariant !old(store.Fine()) ==> !store.Fine()
        invariant store.Sound() && old(store.Fine()) ==> store.Fine()
        invariant store.Fine() ==> Leading(depth, dir, obj)
      {
        depth := depth - 1;
        ok := StepDownTo(depth, dir, obj);
        if !ok { return; }
      }
      if store.Fine() { AtLeaf(dir, obj); }
    }

    lemma {:induction false} AtRoot(dir: nat, obj: nat)
      requires Shape() && CacheOk() && Ordered(store.node, root, treeDepth)
      requires |nb| == |c| == MAX_HEIGHT && nb[treeDepth] == root
      ensures Leading(treeDepth, dir, obj)
    {
    }

    lemma {:induction false} AtLeaf(dir: nat, obj: nat)
      requires Shape() && Leading(LEAF_LEVEL, dir, obj)
      ensures Descended(LEAF_LEVEL) && slots[LEAF_LEVEL] == store.node(nb[LEAF_LEVEL])
      ensures HasStat(Items(store.node, root, treeDepth), dir, obj) ==> HasStat(store.node(nb[LEAF_LEVEL]).items, dir, obj)
    {
      assert Led(LEAF_LEVEL, dir, obj, Followed) && Led(LEAF_LEVEL, dir, obj, Toward);
    }

    /** `search_stat`: puts the cursor on the stat item of an object. */
    method SearchStat(dir: nat, obj: nat) returns (ok: bool)
      requires Shape() && store.Valid() && Ordered(store.node, root, treeDepth)
      requires store.Fine() ==> CacheOk()
      modifies this`nb, this`c, this`currentIh, store.dev`errnum, slots, blocks, nextKeyNr
      ensures store.Valid() && (!ok || !old(store.Fine()) ==> !store.Fine())
      ensures store.Fine() ==> ok && Valid() && currentIh >= 0 && Current().key == StatKey(dir, obj)
      ensures store.Fine() ==> Passed() + [Current()] + Remaining() == Items(store.node, root, treeDepth)
      ensures store.Fine() ==> HasStat(Items(store.node, root, treeDepth), dir, obj)
      ensures store.Sound() && old(store.Fine()) && HasStat(Items(store.node, root, treeDepth), dir, obj) ==> store.Fine()
    {
      ok := DescendTo(dir, obj);
      if !ok { return; }
      var n := slots[LEAF_LEVEL].NrItem();
      var i := 0;
      while i < n
        invariant i <= n
        invariant forall k :: 0 <= k < i && k < |slots[LEAF_LEVEL].items| ==>
          slots[LEAF_LEVEL].items[k].key != StatKey(dir, obj)
      {
        var key := slots[LEAF_LEVEL].Head(i);
        if key.dir == dir && key.obj == obj && key.offset == 0 && key.uniq == 0 {
          currentIh := i;
          ShowsStat(dir, obj);
          return true;
        }
        i := i + 1;
      }
      store.Fail();
      return false;
    }

    lemma {:induction false} ShowsStat(dir: nat, obj: nat)
      requires store.Fine() ==> Valid() && currentIh >= 0 && Current().key == StatKey(dir, obj)
      ensures store.Fine() ==>
        && Passed() + [Current()] + Remaining() == Items(store.node, root, treeDepth)
        && HasStat(Items(store.node, root, treeDepth), dir, obj)
    {
      if store.Fine() {
        CursorCuts();
        assert Current() in Passed() + [Current()] + Remaining();
      }
    }

    /** The climb of `next_key`: the lowest depth where the path has a next child, or the
        depth of the tree plus one if there is none. */
    method Climb() returns (depth: nat)
      requires Shape()
      ensures LEAF_LEVEL < depth <= treeDepth + 1
      ensures forall d :: LEAF_LEVEL < d < depth ==> nextKeyNr[d] == 0
      ensures depth <= treeDepth ==> nextKeyNr[depth] != 0
    {
      depth := LEAF_LEVEL;
      while true
        invariant LEAF_LEVEL <= depth <= treeDepth
        invariant forall d :: LEAF_LEVEL < d <= depth ==> nextKeyNr[d] == 0
        decreases treeDepth - depth
      {
        if depth == treeDepth { return depth + 1; }
        depth := depth + 1;
        if nextKeyNr[depth] != 0 { return; }
      }
    }

    /** Where no next child is noted, the path goes through the last one. */
    lemma {:induction false} NoNextUpTo(t: nat)
      requires Valid() && t <= treeDepth
      requires forall d :: LEAF_LEVEL < d <= t ==> nextKeyNr[d] == 0
      ensures LastUpTo(store.node, nb, c, t)
    {
      forall e | LEAF_LEVEL < e <= t ensures c[e] + 1 == |store.node(nb[e]).children| {
        PathWellFormed(store.node, nb, c, treeDepth, e);
      }
    }

    /** The cursor stands on the last item of its leaf. */
    ghost predicate AtLeafEnd()
      reads this, store.dev, slots, blocks, nextKeyNr
    {
      Valid() && currentIh >= 0 && currentIh + 1 == |store.node(nb[LEAF_LEVEL]).items|
    }

    /** The part of `next_key` that leaves an exhausted leaf. */
    method NextLeaf() returns (ok: bool)
      requires Shape() && store.Valid() && (store.Fine() ==> AtLeafEnd())
      modifies this`nb, this`c, this`currentIh, store.dev`errnum, slots, blocks, nextKeyNr
      ensures store.Valid() && (!ok || !old(store.Fine()) ==> !store.Fine())
      ensures store.Sound() && old(store.Fine()) ==> store.Fine()
      ensures store.Fine() ==> ok && Moved(old(Remaining()))
    {
      if store.Fine() { RestIsBehind(); }
      var turn := Climb();
      if turn > treeDepth {
        NoLeafLeft();
        ok := true;
      } else {
        ok := LeafBehind(turn);
      }
    }

    /** There is no leaf left: the cursor goes onto the right delimiter. */
    method NoLeafLeft()
      requires store.Fine() ==> AtLeafEnd() && forall d :: LEAF_LEVEL < d <= treeDepth ==> nextKeyNr[d] == 0
      modifies this`currentIh
      ensures store.Fine() ==> Moved(old(After(store.node, nb, c, treeDepth)))
    {
      if store.Fine() { LeafIsLast(); }
      currentIh := -1;
    }

    /** The next leaf is below the next child at depth `turn`. */
    method LeafBehind(turn: nat) returns (ok: bool)
      requires Shape() && store.Valid() && LEAF_LEVEL < turn <= treeDepth && (store.Fine() ==> AtLeafEnd())
      requires nextKeyNr[turn] != 0 && forall d :: LEAF_LEVEL < d < turn ==> nextKeyNr[d] == 0
      modifies this`nb, this`c, this`currentIh, store.dev`errnum, slots, blocks, nextKeyNr
      ensures store.Valid() && (!ok || !old(store.Fine()) ==> !store.Fine())
      ensures store.Sound() && old(store.Fine()) ==> store.Fine()
      ensures store.Fine() ==> ok && Moved(old(After(store.node, nb, c, treeDepth)))
    {
      ghost var path, children := nb, c;
      if store.Fine() { NoNextUpTo(turn - 1); }
      ok := Turn(turn);
      if ok {
        currentIh := 0;
        if store.Fine() { LeafIsNext(path, children, turn); }
      }
    }

    /** At the end of its leaf the cursor has to come to what is behind the leaf. */
    lemma {:induction false} RestIsBehind()
      requires AtLeafEnd()
      ensures Remaining() == After(store.node, nb, c, treeDepth)
    {
      var leaf := store.node(nb[LEAF_LEVEL]).items;
      assert leaf[currentIh + 1..] == [];
    }

    /** Where no next child is noted at any depth, nothing is left. */
    lemma {:induction false} LeafIsLast()
      requires Valid() && forall d :: LEAF_LEVEL < d <= treeDepth ==> nextKeyNr[d] == 0
      ensures After(store.node, nb, c, treeDepth) == [] && nb[LEAF_LEVEL] == LastLeaf(store.node, root, treeDepth)
    {
      NoNextUpTo(treeDepth);
      AfterLast(store.node, nb, c, treeDepth);
      LastPath(store.node, nb, c, treeDepth);
    }

    /** The path has turned to the next child at depth `turn`, and goes leftmost below it. */
    ghost predicate Turned(path: seq<nat>, children: seq<nat>, turn: nat)
      requires Shape() && LEAF_LEVEL < turn <= treeDepth && |path| == |children| == MAX_HEIGHT
      reads this`nb, this`c, slots, blocks, nextKeyNr
    {
      && Descended(LEAF_LEVEL) && slots[LEAF_LEVEL] == store.node(nb[LEAF_LEVEL])
      && c[turn] == children[turn] + 1
      && (forall d :: LEAF_LEVEL < d < turn ==> c[d] == 0)
      && (forall d :: turn <= d <= treeDepth ==> nb[d] == path[d])
      && (forall d :: turn < d <= treeDepth ==> c[d] == children[d])
    }

    /** Its first item is the next one. */
    lemma {:induction false} LeafIsNext(path: seq<nat>, children: seq<nat>, turn: nat)
      requires Shape() && LEAF_LEVEL < turn <= treeDepth && |path| == |children| == MAX_HEIGHT && store.Fine()
      requires Turned(path, children, turn) && LastUpTo(store.node, path, children, turn - 1) && currentIh == 0
      ensures Moved(After(store.node, path, children, treeDepth))
    {
      TurnSkipsNothing(store.node, path, children, nb, c, turn, treeDepth);
      FirstOfLeaf(store.node(nb[LEAF_LEVEL]).items, After(store.node, nb, c, treeDepth));
    }

    /** The cursor has moved on to the first of the items that were left `before`, or to the delimiter
        if there were none. */
    ghost predicate Moved(before: seq<Item>)
      reads this, store.dev, slots, blocks, nextKeyNr
    {
      && Valid()
      && if before == [] then currentIh == -1 else currentIh >= 0 && before == [Current()] + Remaining()
    }

    /** The item head at `current_ih`: behind the last item, the right delimiter of the last leaf
        stands for one. */
    method CurrentHead() returns (item: Item)
      requires Shape() && (store.Fine() ==> Valid())
      ensures store.Fine() && currentIh >= 0 ==> item == Current()
      ensures store.Fine() && currentIh < 0 ==>
        item.key == store.node(LastLeaf(store.node, root, treeDepth)).rightDelim
    {
      var leaf := slots[LEAF_LEVEL];
      item := if 0 <= currentIh < |leaf.items| then leaf.items[currentIh] else Item(leaf.rightDelim, 0, []);
    }

    /** `next_key`: moves the cursor to the next item in tree order, or onto the right
        delimiter of the last leaf. */
    method NextKey() returns (ok: bool)
      requires Shape() && store.Valid() && (store.Fine() ==> Valid() && currentIh >= 0)
      modifies this`nb, this`c, this`currentIh, store.dev`errnum, slots, blocks, nextKeyNr
      ensures store.Valid() && (!ok || !old(store.Fine()) ==> !store.Fine())
      ensures store.Sound() && old(store.Fine()) ==> store.Fine()
      ensures store.Fine() ==> ok && Moved(old(Remaining()))
    {
      var ih := currentIh + 1;
      if ih == slots[LEAF_LEVEL].NrItem() {
        ok := NextLeaf();
      } else {
        if store.Fine() {
          ghost var leaf := store.node(nb[LEAF_LEVEL]).items;
          FirstOfLeaf(leaf[ih..], After(store.node, nb, c, treeDepth));
        }
        currentIh := ih;
        ok := true;
      }
    }

    /** The loop body of that descent: takes the child noted as the next one. */
    method TakeNext(depth: nat) returns (ok: bool)
      requires Shape() && store.Valid() && LEAF_LEVEL < depth <= treeDepth
      requires store.Fine() ==>
        && Descended(depth) && nextKeyNr[depth] <= |store.node(nb[depth]).keys|
        && slots[NodeSlot(depth)] == store.node(nb[depth])
      modifies this`nb, this`c, store.dev`errnum, slots, blocks, nextKeyNr
      ensures store.Valid() && (!ok || !old(store.Fine()) ==> !store.Fine())
      ensures store.Sound() && old(store.Fine()) ==> store.Fine()
      ensures forall d :: 0 <= d < MAX_HEIGHT && d != depth ==> nextKeyNr[d] == old(nextKeyNr[d])
      ensures store.Fine() ==>
        && ok && |nb| == |c| == MAX_HEIGHT && c[depth] == old(nextKeyNr[depth])
        && (forall d :: depth <= d < MAX_HEIGHT ==> nb[d] == old(nb[d]))
        && (forall d :: depth < d < MAX_HEIGHT ==> c[d] == old(c[d]))
      ensures store.Fine() ==> Showing(depth - 1)
    {
      var nrItem := slots[NodeSlot(depth)].NrItem();
      var keyNr := nextKeyNr[depth];
      nextKeyNr[depth] := keyNr + 1;
      if keyNr == nrItem { nextKeyNr[depth] := 0; }
      ok := Descend(depth, keyNr);
    }

    /** The path is as it was from depth `from` up, and takes the first children from there down
        to `depth`. */
    ghost predicate LeftBelow(path: seq<nat>, children: seq<nat>, from: nat, depth: nat)
      reads this`nb, this`c
    {
      && |nb| == |c| == |path| == |children| == MAX_HEIGHT
      && (forall d :: from <= d < MAX_HEIGHT ==> nb[d] == path[d])
      && (forall d :: depth < d <= from < MAX_HEIGHT ==> c[d] == 0)
      && (forall d :: from < d < MAX_HEIGHT ==> c[d] == children[d])
    }

    /** One step further down: the first child, where no next one had been noted. */
    lemma {:induction false} LeftMore(path: seq<nat>, children: seq<nat>, nb0: seq<nat>, c0: seq<nat>, from: nat, depth: nat)
      requires LEAF_LEVEL < depth <= from < MAX_HEIGHT && |path| == |children| == |nb0| == |c0| == |nb| == |c| == MAX_HEIGHT
      requires forall d :: from <= d < MAX_HEIGHT ==> nb0[d] == path[d]
      requires forall d :: depth < d <= from ==> c0[d] == 0
      requires forall d :: from < d < MAX_HEIGHT ==> c0[d] == children[d]
      requires c[depth] == 0 && forall d :: depth <= d < MAX_HEIGHT ==> nb[d] == nb0[d]
      requires forall d :: depth < d < MAX_HEIGHT ==> c[d] == c0[d]
      ensures LeftBelow(path, children, from, depth - 1)
    {
    }

    /** The leftmost way down from `from` has come to `depth`. */
    ghost predicate GoesLeft(path: seq<nat>, children: seq<nat>, from: nat, depth: nat)
      requires Shape()
      reads this`nb, this`c, slots, blocks, nextKeyNr
    {
      Showing(depth) && LeftBelow(path, children, from, depth)
    }

    /** One of the further turns of that descent. */
    method StepLeft(from: nat, depth: nat, ghost path: seq<nat>, ghost children: seq<nat>) returns (ok: bool)
      requires Shape() && store.Valid() && LEAF_LEVEL < depth <= from < treeDepth && nextKeyNr[depth] == 0
      requires store.Fine() ==> GoesLeft(path, children, from, depth)
      modifies this`nb, this`c, store.dev`errnum, slots, blocks, nextKeyNr
      ensures store.Valid() && (!ok || !old(store.Fine()) ==> !store.Fine())
      ensures store.Sound() && old(store.Fine()) ==> store.Fine()
      ensures forall d :: 0 <= d < MAX_HEIGHT && d != depth ==> nextKeyNr[d] == old(nextKeyNr[d])
      ensures store.Fine() ==> ok && GoesLeft(path, children, from, depth - 1)
    {
      ghost var nb0, c0 := nb, c;
      ok := TakeNext(depth);
      if store.Fine() { LeftMore(path, children, nb0, c0, from, depth); }
    }

    /** All of them: the leftmost way down from `from`. */
    method Leftmost(from: nat) returns (ok: bool)
      requires Shape() && store.Valid() && LEAF_LEVEL <= from < treeDepth
      requires store.Fine() ==> Showing(from) && |nb| == |c| == MAX_HEIGHT
      requires forall d :: LEAF_LEVEL < d <= from ==> nextKeyNr[d] == 0
      modifies this`nb, this`c, store.dev`errnum, slots, blocks, nextKeyNr
      ensures store.Valid() && (!ok || !old(store.Fine()) ==> !store.Fine())
      ensures store.Sound() && old(store.Fine()) ==> store.Fine()
      ensures store.Fine() ==> ok && GoesLeft(old(nb), old(c), from, LEAF_LEVEL)
    {
      ghost var path, children := nb, c;
      var depth := from;
      ok := true;
      while ok && depth > LEAF_LEVEL
        invariant LEAF_LEVEL <= depth <= from && store.Valid()
        invariant !ok || !old(store.Fine()) ==> !store.Fine()
        invariant store.Sound() && old(store.Fine()) ==> store.Fine()
        invariant forall d :: LEAF_LEVEL < d <= depth ==> nextKeyNr[d] == 0
        invariant store.Fine() ==> ok && GoesLeft(path, children, from, depth)
      {
        ok := StepLeft(from, depth, path, children);
        depth := depth - 1;
      }
    }

    /** The node at depth `turn` is in its slot, and the next child noted there is one it has. */
    ghost predicate Reloaded(turn: nat)
      requires Shape() && turn <= treeDepth
      reads this`nb, this`c, slots, blocks, nextKeyNr
    {
      && Descended(turn) && slots[NodeSlot(turn)] == store.node(nb[turn])
      && nextKeyNr[turn] <= |store.node(nb[turn]).keys|
    }

    /** A node in the slot that several depths share has to be read again. */
    method Reload(turn: nat) returns (ok: bool)
      requires Shape() && store.Valid() && LEAF_LEVEL < turn <= treeDepth
      requires store.Fine() ==> Valid()
      modifies store.dev`errnum, slots, blocks
      ensures store.Valid() && (!ok || !old(store.Fine()) ==> !store.Fine())
      ensures store.Sound() && old(store.Fine()) ==> store.Fine()
      ensures store.Fine() ==> ok && Reloaded(turn)
    {
      if store.Fine() { PathWellFormed(store.node, nb, c, treeDepth, turn); }
      ok := true;
      if turn != treeDepth && turn > cachedSlots { ok := ReadTreeNode(blocks[turn], turn); }
    }

    /** The path has taken the next child at depth `turn`, and is as it was from there up. */
    ghost predicate Branched(path: seq<nat>, children: seq<nat>, path': seq<nat>, children': seq<nat>, turn: nat) {
      && |path| == |children| == |path'| == |children'| == MAX_HEIGHT && turn < MAX_HEIGHT
      && children'[turn] == children[turn] + 1
      && (forall d :: turn <= d < MAX_HEIGHT ==> path'[d] == path[d])
      && (forall d :: turn < d < MAX_HEIGHT ==> children'[d] == children[d])
    }

    /** The beginning of the descent of `next_key`: the next child at depth `turn`. */
    method Branch(turn: nat) returns (ok: bool)
      requires Shape() && store.Valid() && LEAF_LEVEL < turn <= treeDepth && nextKeyNr[turn] != 0
      requires store.Fine() ==> Valid()
      requires forall d :: LEAF_LEVEL < d < turn ==> nextKeyNr[d] == 0
      modifies this`nb, this`c, store.dev`errnum, slots, blocks, nextKeyNr
      ensures store.Valid() && (!ok || !old(store.Fine()) ==> !store.Fine())
      ensures store.Sound() && old(store.Fine()) ==> store.Fine()
      ensures forall d :: LEAF_LEVEL < d < turn ==> nextKeyNr[d] == 0
      ensures store.Fine() ==> ok && Showing(turn - 1) && Branched(old(nb), old(c), nb, c, turn)
    {
      ok := Reload(turn);
      if !ok { return; }
      ok := TakeNext(turn);
    }

    /** The descent of `next_key`: from the node at depth `turn` to the leftmost leaf below
        its next child. */
    method Turn(turn: nat) returns (ok: bool)
      requires Shape() && store.Valid() && LEAF_LEVEL < turn <= treeDepth && nextKeyNr[turn] != 0
      requires store.Fine() ==> Valid()
      requires forall d :: LEAF_LEVEL < d < turn ==> nextKeyNr[d] == 0
      modifies this`nb, this`c, store.dev`errnum, slots, blocks, nextKeyNr
      ensures store.Valid() && (!ok || !old(store.Fine()) ==> !store.Fine())
      ensures store.Sound() && old(store.Fine()) ==> store.Fine()
      ensures store.Fine() ==> ok && |old(nb)| == |old(c)| == MAX_HEIGHT && Turned(old(nb), old(c), turn)
    {
      ghost var path, children := nb, c;
      ok := Branch(turn);
      if !ok { return; }
      ghost var path', children' := nb, c;
      ok := Leftmost(turn - 1);
      if store.Fine() { HasTurned(path, children, path', children', turn); }
    }

    lemma {:induction false} HasTurned(path: seq<nat>, children: seq<nat>, path': seq<nat>, children': seq<nat>, turn: nat)
      requires Shape() && LEAF_LEVEL < turn <= treeDepth
      requires Branched(path, children, path', children', turn) && GoesLeft(path', children', turn - 1, LEAF_LEVEL)
      ensures |path| == |children| == MAX_HEIGHT && Turned(path, children, turn)
    {
    }

    /** A whole run: calling `next_key` until it shows the right delimiter visits exactly
        the items still to come, in order and once each. */
    method Walk() returns (ok: bool, ghost visited: seq<Item>, count: nat)
      requires Valid() && store.Valid() && currentIh >= 0
      modifies this`nb, this`c, this`currentIh, store.dev`errnum, slots, blocks, nextKeyNr
      ensures store.Valid() && (!ok ==> !store.Fine()) && (store.Sound() ==> store.Fine())
      ensures store.Fine() ==> ok && Valid() && currentIh == -1 && visited == old(Remaining()) && count == |old(Remaining())|
    {
      visited, count := [], 0;
      ghost var all, left := Remaining(), Remaining();
      assert all == [] + all;
      while true
        invariant Valid() && store.Valid() && currentIh >= 0 && left == Remaining()
        invariant all == visited + left && count == |visited|
        decreases |left|
      {
        ok := NextKey();
        if store.dev.errnum != ErrNone || currentIh < 0 { return; }
        ghost var x, now := Current(), Remaining();
        OneVisited(all, visited, left, x, now);
        visited, count, left := visited + [x], count + 1, now;
      }
    }
  }
}
