/** The intrusive doubly linked lists of include/list.h. A list is a ring of nodes with a head
    among them; the ring is given as the sequence of its nodes from some node on. */
module List {
  class Node {
    var next: Node?
    var prev: Node?
  }

  function Succ(n: nat, i: nat): nat { if i + 1 == n then 0 else i + 1 }

  function Pred(n: nat, i: nat): int { if i == 0 then n - 1 else i - 1 }

  /** The nodes of `r`, all different, are linked in this order in both directions, the last to
      the first. */
  ghost predicate IsRing(r: seq<Node>)
    reads r
  {
    && r != []
    && (forall i, j :: 0 <= i < j < |r| ==> r[i] != r[j])
    && (forall i :: 0 <= i < |r| ==> Linked(r, i))
  }

  /** Node `i` of a ring points to its neighbours. */
  ghost predicate Linked(r: seq<Node>, i: nat)
    requires i < |r|
    reads r
  {
    r[i].next == r[Succ(|r|, i)] && r[i].prev == r[Pred(|r|, i)]
  }

  ghost predicate Disjoint(r: seq<Node>, s: seq<Node>) {
    forall x :: x in r ==> x !in s
  }

  /** The two links are inverse to each other. */
  lemma {:induction false} LinksAreInverse(r: seq<Node>, x: Node)
    requires IsRing(r) && x in r
    ensures x.next != null && x.next in r && x.next.prev == x
    ensures x.prev != null && x.prev in r && x.prev.next == x
  {
    var i :| 0 <= i < |r| && r[i] == x;
    assert Linked(r, i) && Linked(r, Succ(|r|, i)) && Linked(r, Pred(|r|, i));
  }

  /** The links determine the ring: two rings that start with one node are the same. */
  lemma {:induction false} RingIsUnique(r: seq<Node>, s: seq<Node>)
    requires IsRing(r) && IsRing(s) && r[0] == s[0] && |r| <= |s|
    ensures r == s
  {
    SamePrefix(r, s, |r|);
    assert s[|r| - 1] == s[..|r|][|r| - 1] == r[|r| - 1];
    assert Linked(r, |r| - 1);
    NextIsHead(s, |r| - 1);
  }

  lemma {:induction false} NextIsHead(s: seq<Node>, i: nat)
    requires IsRing(s) && i < |s| && s[i].next == s[0]
    ensures i + 1 == |s|
  {
    assert Linked(s, i);
  }

  lemma {:induction false} SamePrefix(r: seq<Node>, s: seq<Node>, n: nat)
    requires IsRing(r) && IsRing(s) && r[0] == s[0] && n <= |r| && n <= |s|
    ensures r[..n] == s[..n]
  {
    if n > 1 {
      SamePrefix(r, s, n - 1);
      assert r[..n - 1][n - 2] == s[..n - 1][n - 2];
      assert Linked(r, n - 2) && Linked(s, n - 2);
      assert r[..n] == r[..n - 1] + [r[n - 1]] && s[..n] == s[..n - 1] + [s[n - 1]];
    }
  }

  /** A ring may be read from any of its nodes. */
  lemma {:induction false} Rotate(r: seq<Node>, k: nat)
    requires IsRing(r) && k < |r|
    ensures IsRing(r[k..] + r[..k])
  {
    var s, n := r[k..] + r[..k], |r|;
    forall i | 0 <= i < n ensures s[i] == r[Turn(n, k, i)] {
    }
    forall i, j | 0 <= i < j < n ensures s[i] != s[j] {
      var a, b := Turn(n, k, i), Turn(n, k, j);
      assert if a < b then r[a] != r[b] else r[b] != r[a];
    }
    forall i | 0 <= i < n ensures Linked(s, i) {
      var a := Turn(n, k, i);
      assert Linked(r, a);
      assert Turn(n, k, Succ(n, i)) == Succ(n, a) && Turn(n, k, Pred(n, i)) == Pred(n, a);
    }
  }

  /** Node `i` of a ring read from node `k` on. */
  function Turn(n: nat, k: nat, i: nat): nat
    requires i < n && k < n
  {
    if i + k < n then i + k else i + k - n
  }

  /** `INIT_LIST_HEAD` */
  method InitListHead(p: Node)
    modifies p
    ensures IsRing([p])
  {
    p.next, p.prev := p, p;
  }

  /** `__list_add`: links `n` in between two neighbours, the last and the first of a ring read
      from there. */
  method LinkIn(n: Node, prev: Node, next: Node, ghost q: seq<Node>)
    requires IsRing(q) && prev == q[|q| - 1] && next == q[0] && n !in q
    modifies n, prev, next
    ensures IsRing(q + [n])
  {
    next.prev := n;
    n.next := next;
    n.prev := prev;
    prev.next := n;
    ghost var s, m := q + [n], |q|;
    forall i | 0 <= i < m + 1 ensures Linked(s, i) {
      if i < m {
        assert old(Linked(q, i));
        assert q[i] in q;
        assert i < m - 1 ==> q[i] != q[m - 1];
        assert i > 0 ==> q[0] != q[i];
      }
    }
    forall i, j | 0 <= i < j < m + 1 ensures s[i] != s[j] {
      assert s[i] == q[i] && q[i] in q;
    }
  }

  /** `list_add` */
  method ListAdd(n: Node, head: Node, ghost r: seq<Node>)
    requires IsRing(r) && head == r[0] && n !in r
    modifies n, head, head.next
    ensures IsRing([head, n] + r[1..])
  {
    ghost var q := r[1..] + [head];
    TurnToEnd(r, 0);
    assert Others(r, 0) + [r[0]] == q;
    assert Linked(r, 0);
    LinkIn(n, head, head.next, q);
    Rotate(q + [n], |r| - 1);
    assert (q + [n])[|r| - 1..] + (q + [n])[..|r| - 1] == [head, n] + r[1..];
  }

  /** `list_add_tail` */
  method ListAddTail(n: Node, head: Node, ghost r: seq<Node>)
    requires IsRing(r) && head == r[0] && n !in r
    modifies n, head, head.prev
    ensures IsRing(r + [n])
  {
    assert Linked(r, 0);
    LinkIn(n, head.prev, head, r);
  }

  /** The ring without its node `k`. */
  function Without<T>(r: seq<T>, k: nat): seq<T>
    requires k < |r|
  {
    r[..k] + r[k + 1..]
  }

  /** The other nodes of the ring, in order, from the one after node `k` on. */
  function Others<T>(r: seq<T>, k: nat): seq<T>
    requires k < |r|
  {
    r[k + 1..] + r[..k]
  }

  lemma {:induction false} TurnToEnd(r: seq<Node>, k: nat)
    requires IsRing(r) && k < |r|
    ensures IsRing(Others(r, k) + [r[k]])
  {
    if k + 1 < |r| { Rotate(r, k + 1); }
    assert r[k + 1..] + r[..k + 1] == Others(r, k) + [r[k]];
    assert k + 1 == |r| ==> r[k + 1..] + r[..k + 1] == r;
  }

  lemma {:induction false} TurnBack(r: seq<Node>, k: nat)
    requires k < |r| && |r| > 1 && IsRing(Others(r, k))
    ensures IsRing(Without(r, k))
  {
    var q, m := Others(r, k), |r| - k - 1;
    if k > 0 { Rotate(q, m); }
    assert q[m..] + q[..m] == Without(r, k);
    assert k == 0 ==> q == Without(r, k);
  }

  lemma {:induction false} LastIsNew(q: seq<Node>, x: Node)
    requires IsRing(q + [x])
    ensures x !in q
  {
    forall i | 0 <= i < |q| ensures q[i] != x {
      assert (q + [x])[i] != (q + [x])[|q|];
    }
  }

  /** `__list_del` of the last node of a ring. */
  method UnlinkLast(entry: Node, head: Node, ghost q: seq<Node>)
    requires IsRing(q + [entry])
    modifies entry.prev, entry.next
    ensures head.next == old(head.next) || head.next == old(entry.next)
    ensures head.prev == old(head.prev) || head.prev == old(entry.prev)
    ensures q != [] ==> IsRing(q) && entry.prev == old(entry.prev) && entry.next == old(entry.next)
  {
    ghost var r, n := q + [entry], |q|;
    assert r[n] == entry && Linked(r, n);
    var next, prev := entry.next, entry.prev;
    next.prev := prev;
    prev.next := next;
    forall i | 0 <= i < n ensures q[i] == r[i] && Linked(q, i) {
      assert old(Linked(r, i));
      assert i < n - 1 ==> r[i] != r[n - 1];
      assert i > 0 ==> r[0] != r[i];
      assert r[i] != r[n];
    }
    forall i, j | 0 <= i < j < n ensures q[i] != q[j] {
      assert r[i] != r[j];
    }
  }

  /** `list_del_init`: the node leaves its ring, wherever in it, and makes one of its own. */
  method ListDelInit(entry: Node, ghost r: seq<Node>, ghost k: nat)
    requires IsRing(r) && k < |r| && entry == r[k]
    modifies entry, entry.prev, entry.next
    ensures IsRing([entry])
    ensures |r| > 1 ==> IsRing(Without(r, k))
  {
    TurnToEnd(r, k);
    ghost var q := Others(r, k);
    assert entry !in q by { LastIsNew(q, entry); }
    UnlinkLast(entry, entry, q);
    InitListHead(entry);
    if |r| > 1 { TurnBack(r, k); }
  }

  /** `list_del`: the node leaves its ring and points nowhere. */
  method ListDel(entry: Node, ghost r: seq<Node>, ghost k: nat)
    requires IsRing(r) && k < |r| && entry == r[k]
    modifies entry, entry.prev, entry.next
    ensures entry.next == null && entry.prev == null
    ensures |r| > 1 ==> IsRing(Without(r, k))
  {
    TurnToEnd(r, k);
    UnlinkLast(entry, entry, Others(r, k));
    entry.next, entry.prev := null, null;
    if |r| > 1 { TurnBack(r, k); }
  }

  /** `list_empty` */
  method ListEmpty(head: Node, ghost r: seq<Node>) returns (empty: bool)
    requires IsRing(r) && head == r[0]
    ensures empty <==> r == [head]
  {
    assert Linked(r, 0);
    empty := head.next == head;
    if empty { NextIsHead(r, 0); }
  }

  lemma {:induction false} WithoutIsRest(r: seq<Node>, k: nat)
    requires IsRing(r) && k < |r|
    ensures forall x :: x in Without(r, k) ==> x in r && x != r[k]
    ensures |Without(r, k)| == |r| - 1 && (k > 0 ==> Without(r, k)[0] == r[0])
  {
    var w := Without(r, k);
    forall i | 0 <= i < |w| ensures w[i] in r && w[i] != r[k] {
      assert w[i] == r[if i < k then i else i + 1];
    }
  }

  /** `__list_del` for a node that goes elsewhere; `head` may be any node. */
  method Leave(entry: Node, head: Node, ghost r: seq<Node>, ghost k: nat)
    requires IsRing(r) && k < |r| && entry == r[k]
    modifies entry.prev, entry.next
    ensures |r| > 1 ==> IsRing(Without(r, k))
    ensures head.next == old(head.next) || head.next == old(entry.next)
    ensures head.prev == old(head.prev) || head.prev == old(entry.prev)
  {
    TurnToEnd(r, k);
    LinksAreInverse(r, entry);
    UnlinkLast(entry, head, Others(r, k));
    if |r| > 1 { TurnBack(r, k); }
  }

  /** `list_move` within a ring whose head comes first. */
  method ListMove(entry: Node, head: Node, ghost r: seq<Node>, ghost k: nat)
    requires IsRing(r) && 0 < k < |r| && entry == r[k] && head == r[0]
    modifies entry, entry.prev, entry.next, head, head.next
    ensures IsRing([head, entry] + Without(r, k)[1..])
  {
    WithoutIsRest(r, k);
    Leave(entry, head, r, k);
    ListAdd(entry, head, Without(r, k));
  }

  /** `list_move_tail` within a ring whose head comes first. */
  method ListMoveTail(entry: Node, head: Node, ghost r: seq<Node>, ghost k: nat)
    requires IsRing(r) && 0 < k < |r| && entry == r[k] && head == r[0]
    modifies entry, entry.prev, entry.next, head, head.prev
    ensures IsRing(Without(r, k) + [entry])
  {
    WithoutIsRest(r, k);
    Leave(entry, head, r, k);
    ListAddTail(entry, head, Without(r, k));
  }

  /** `list_move` from one ring to another. */
  method ListMoveOver(entry: Node, head: Node, ghost r: seq<Node>, ghost k: nat, ghost h: seq<Node>)
    requires IsRing(r) && k < |r| && entry == r[k] && IsRing(h) && head == h[0] && Disjoint(r, h)
    modifies entry, entry.prev, entry.next, head, head.next
    ensures IsRing([head, entry] + h[1..])
    ensures |r| > 1 ==> IsRing(Without(r, k))
  {
    ghost var w := Without(r, k);
    WithoutIsRest(r, k);
    LinksAreInverse(r, entry);
    LinksAreInverse(h, head);
    assert Disjoint(w, h) && entry !in w && entry !in h;
    Leave(entry, head, r, k);
    assert IsRing(h);
    AddElsewhere(entry, head, h, w);
  }

  /** `list_add` leaves other rings alone. */
  method AddElsewhere(n: Node, head: Node, ghost h: seq<Node>, ghost w: seq<Node>)
    requires IsRing(h) && head == h[0] && n !in h && n !in w && Disjoint(w, h)
    modifies n, head, head.next
    ensures IsRing([head, n] + h[1..])
    ensures w != [] && old(IsRing(w)) ==> IsRing(w)
  {
    LinksAreInverse(h, head);
    ListAdd(n, head, h);
  }

  /** Moving a node within a ring only changes the order. */
  lemma {:induction false} MovesPermute<T>(r: seq<T>, k: nat)
    requires 0 < k < |r|
    ensures multiset([r[0], r[k]] + Without(r, k)[1..]) == multiset(r)
    ensures multiset(Without(r, k) + [r[k]]) == multiset(r)
  {
    assert r == [r[0]] + r[1..k] + [r[k]] + r[k + 1..];
    assert Without(r, k) == [r[0]] + r[1..k] + r[k + 1..];
    assert Without(r, k)[1..] == r[1..k] + r[k + 1..];
  }

  /** The ring `h` with the nodes of the ring `l` after its head put in after the head of `h`. */
  function Joined<T>(l: seq<T>, h: seq<T>): (s: seq<T>)
    requires l != [] && h != []
    ensures |s| == |l| + |h| - 1
    ensures s[0] == h[0]
    ensures forall i :: 0 < i < |l| ==> s[i] == l[i]
    ensures forall i :: |l| <= i < |s| ==> s[i] == h[i - |l| + 1]
  {
    [h[0]] + l[1..] + h[1..]
  }

  lemma {:induction false} AllDifferent(l: seq<Node>, h: seq<Node>)
    requires IsRing(l) && IsRing(h) && Disjoint(l, h)
    ensures forall i, j :: 0 <= i < j < |Joined(l, h)| ==> Joined(l, h)[i] != Joined(l, h)[j]
    ensures l[0] !in Joined(l, h)
  {
    var n, s := |l|, Joined(l, h);
    forall i, j | 0 <= i < j < |s| ensures s[i] != s[j] {
      if 0 < i < n <= j { assert s[i] in l && s[j] in h; }
      if i == 0 && j < n { assert s[j] in l && s[i] in h; }
    }
    forall i | 0 <= i < |s| ensures s[i] != l[0] {
      if i == 0 || i >= n { assert s[i] in h; }
    }
  }

  /** The links of two rings, told along the ring they are to become: all as in that ring, but
      for the two places where the rings meet. */
  ghost predicate Unjoined(s: seq<Node>, n: nat)
    requires 1 < n <= |s|
    reads s
  {
    && (forall i, j :: 0 <= i < j < |s| ==> s[i] != s[j])
    && (forall i :: 0 <= i < |s| ==> LinkedButFor(s, n, i))
  }

  ghost predicate LinkedButFor(s: seq<Node>, n: nat, i: nat)
    requires 1 < n <= |s| && i < |s|
    reads s
  {
    && (i == 0 || i == n - 1 || s[i].next == s[Succ(|s|, i)])
    && (i == 1 || i == Succ(|s|, n - 1) || s[i].prev == s[Pred(|s|, i)])
  }

  lemma {:induction false} JoinedLinks(l: seq<Node>, h: seq<Node>)
    requires IsRing(l) && IsRing(h) && Disjoint(l, h) && |l| > 1
    ensures Unjoined(Joined(l, h), |l|)
    ensures l[0].next == Joined(l, h)[1] && l[0].prev == Joined(l, h)[|l| - 1]
    ensures h[0].next == Joined(l, h)[Succ(|Joined(l, h)|, |l| - 1)]
  {
    AllDifferent(l, h);
    var n, s := |l|, Joined(l, h);
    forall i | 0 <= i < |s| ensures LinkedButFor(s, n, i) {
      if 0 < i < n {
        assert Linked(l, i);
      } else {
        assert Linked(h, if i == 0 then 0 else i - n + 1);
      }
    }
    assert Linked(l, 0) && Linked(h, 0);
  }

  /** The assignments of `__list_splice`. */
  method Relink(first: Node, last: Node, head: Node, at: Node, ghost s: seq<Node>, ghost n: nat)
    requires 1 < n <= |s| && Unjoined(s, n)
    requires first == s[1] && last == s[n - 1] && head == s[0] && at == s[Succ(|s|, n - 1)]
    modifies first, last, head, at
    ensures IsRing(s)
  {
    first.prev := head;
    head.next := first;
    last.next := at;
    at.prev := last;
    forall i | 0 <= i < |s| ensures Linked(s, i) {
      assert old(LinkedButFor(s, n, i));
      Apart(s, i, 0);
      Apart(s, i, 1);
      Apart(s, i, n - 1);
      Apart(s, i, Succ(|s|, n - 1));
    }
  }

  lemma {:induction false} Apart(s: seq<Node>, i: nat, j: nat)
    requires (forall a, b :: 0 <= a < b < |s| ==> s[a] != s[b]) && i < |s| && j < |s|
    ensures s[i] == s[j] <==> i == j
  {
  }

  /** `__list_splice`; the head of `l` is left with its old links. */
  method Splice(list: Node, head: Node, ghost l: seq<Node>, ghost h: seq<Node>)
    requires IsRing(l) && IsRing(h) && list == l[0] && head == h[0] && Disjoint(l, h) && |l| > 1
    modifies list.next, list.prev, head, head.next
    ensures IsRing(Joined(l, h))
  {
    JoinedLinks(l, h);
    var first, last, at := list.next, list.prev, head.next;
    Relink(first, last, head, at, Joined(l, h), |l|);
  }

  /** `list_splice_init` */
  method ListSpliceInit(list: Node, head: Node, ghost l: seq<Node>, ghost h: seq<Node>)
    requires IsRing(l) && IsRing(h) && list == l[0] && head == h[0] && Disjoint(l, h)
    modifies list, list.next, list.prev, head, head.next
    ensures IsRing(Joined(l, h)) && IsRing([list])
  {
    var empty := ListEmpty(list, l);
    if !empty {
      AllDifferent(l, h);
      Splice(list, head, l, h);
      InitListHead(list);
    } else {
      assert Joined(l, h) == h;
    }
  }

  /** `list_splice` */
  method ListSplice(list: Node, head: Node, ghost l: seq<Node>, ghost h: seq<Node>)
    requires IsRing(l) && IsRing(h) && list == l[0] && head == h[0] && Disjoint(l, h)
    modifies list.next, list.prev, head, head.next
    ensures IsRing(Joined(l, h))
  {
    var empty := ListEmpty(list, l);
    if !empty {
      Splice(list, head, l, h);
    } else {
      assert Joined(l, h) == h;
    }
  }
}
