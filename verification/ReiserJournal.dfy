/** The ReiserFS journal overlay of fs/grub/fsys_reiserfs.c: `journal_init` collects the
    committed but unflushed transactions, and `block_read` reads a block through them.  */
module ReiserJournal {
  import opened Disk
  import opened Division

  const JOURNAL_TRANS_HALF: nat := 1018
  const DESC_SIZE: nat := 4096           // sizeof the descriptor and the commit block
  const JOURNAL_START: nat := 0x6e060    // the address behind INFO, of 96 bytes, at FSYS_BUF + 24K
  const JOURNAL_END: nat := 0x70000
  const JOURNAL_CAPACITY: nat := 2024    // JOURNAL_END - JOURNAL_START, in words
  type u32 = w: int | 0 <= w < 0x1_0000_0000

  const MARKER: int := 0xffff_ffff
  const WORD: int := 0x1_0000_0000
  const DESC_MAGIC: seq<byte> := [0x52, 0x65, 0x49, 0x73, 0x45, 0x72, 0x4C, 0x42]  // "ReIsErLB"

  /** Transaction ids count up without bound and are stored in 32 bits. */
  function Id32(id: nat): u32 {
    if id < WORD then id else Id32(id - WORD)
  }

  /** The increment of a 32-bit id. */
  function NextId(id: u32): u32 {
    if id + 1 == WORD then 0 else id + 1
  }

  lemma {:induction false} Id32IsModulo(id: nat)
    ensures Id32(id) == id % WORD
  {
    if id >= WORD { Id32IsModulo(id - WORD); }
  }

  lemma {:induction false} Id32Step(id: nat)
    ensures Id32(id + 1) == NextId(Id32(id))
  {
    if id >= WORD { Id32Step(id - WORD); }
  }

  lemma {:induction false} Id32Differs(id: nat, i: nat, j: nat)
    requires i < j < i + WORD
    ensures Id32(id + i) != Id32(id + j)
  {
    Id32IsModulo(id + i);
    Id32IsModulo(id + j);
  }

  /** The subtraction with which `journal_init` recovers the number of transactions. */
  lemma {:induction false} Id32Counts(flushed: u32, n: nat)
    requires n < WORD
    ensures (Id32(flushed + 1 + n) - flushed - 1) % WORD == n
  {
    Id32IsModulo(flushed + 1 + n);
  }

  /** The ring position `x` falls on in a ring of `n` blocks: what `x & (n - 1)` leaves
      when `n` is a power of two, that is `x` modulo `n`. */
  function Wrap(x: int, n: nat): (w: nat)
    requires n > 0
    ensures w < n
    decreases if x < 0 then n - x else x
  {
    if x < 0 then Wrap(x + n, n) else if x < n then x else Wrap(x - n, n)
  }

  lemma {:induction false} WrapIsModulo(x: int, n: nat)
    requires n > 0
    ensures Wrap(x, n) == x % n
    decreases if x < 0 then n - x else x
  {
    if x < 0 {
      WrapIsModulo(x + n, n);
      ModUnique(x, n, (x + n) / n - 1, (x + n) % n);
    } else if x >= n {
      WrapIsModulo(x - n, n);
      ModUnique(x, n, (x - n) / n + 1, (x - n) % n);
    } else {
      ModUnique(x, n, 0, x);
    }
  }

  function Power2(k: nat): (n: nat)
    ensures n > 0
  {
    if k == 0 then 1 else 2 * Power2(k - 1)
  }

  /** The low `k` bits of `x`: what the mask of a ring of 2^k blocks leaves. */
  function LowBits(x: nat, k: nat): nat {
    if k == 0 then 0 else 2 * LowBits(x / 2, k - 1) + x % 2
  }

  lemma {:induction false} WrapOfHalf(x: nat, n: nat)
    requires n > 0
    ensures Wrap(x, 2 * n) == 2 * Wrap(x / 2, n) + x % 2
    decreases x
  {
    if x >= 2 * n {
      WrapOfHalf(x - 2 * n, n);
      assert (x - 2 * n) / 2 == x / 2 - n && (x - 2 * n) % 2 == x % 2;
    }
  }

  /** Masking with 2^k - 1 is wrapping around a ring of 2^k blocks. */
  lemma {:induction false} MaskIsWrap(x: nat, k: nat)
    ensures LowBits(x, k) == Wrap(x, Power2(k))
    decreases k, x
  {
    if k > 0 {
      MaskIsWrap(x / 2, k - 1);
      WrapOfHalf(x, Power2(k - 1));
    } else if x > 0 {
      MaskIsWrap(x - 1, 0);
    }
  }

  lemma {:induction false} WrapStep(x: nat, n: nat)
    requires n > 0
    ensures Wrap(Wrap(x, n) + 1, n) == Wrap(x + 1, n)
    decreases x
  {
    if x >= n { WrapStep(x - n, n); }
  }

  // ---------- the journal on disk ----------

  /** One committed transaction: where its descriptor lies in the ring, and the home
      block of each logged block, in log order. */
  datatype Transaction = Transaction(desc: nat, home: seq<int>)

  /** The ring of journal blocks as read from the disk: word `off` / 4 of block `d`, and
      whether block `d` carries the descriptor magic.  Block `count` is the journal header. */
  datatype Ring = Ring(count: nat, word: (nat, nat) -> u32, magic: nat -> bool) {
    function Word(d: nat, off: nat): u32 { word(d, off) }
    predicate Magic(d: nat) { magic(d) }
    function TransId(d: nat): u32 { Word(d, 0) }
    function Len(d: nat): u32 { Word(d, 4) }
    function MountId(d: nat): u32 { Word(d, 8) }

    function CommitOf(d: nat): nat
      requires count > 0
    {
      Wrap(d + Len(d) + 1, count)
    }

    /** The home block of logged block `i`: the first half is listed in the descriptor,
        the rest in the commit block. */
    function Home(d: nat, i: nat): int
      requires count > 0
    {
      if i < JOURNAL_TRANS_HALF then Word(d, 12 + 4 * i)
      else Word(CommitOf(d), 8 + 4 * (i - JOURNAL_TRANS_HALF))
    }

    /** A committed transaction with this id and mount id starts at ring position `d`. */
    predicate Committed(d: nat, id: nat, mount: u32)
      requires count > 0
    {
      && Magic(d) && TransId(d) == Id32(id) && MountId(d) == mount
      && Word(CommitOf(d), 0) == Id32(id) && Word(CommitOf(d), 4) == Len(d)
    }

    function At(d: nat): Transaction
      requires count > 0
    {
      Transaction(d, seq(Len(d), i requires 0 <= i => Home(d, i)))
    }

    function Next(d: nat): nat
      requires count > 0
    {
      Wrap(d + Len(d) + 2, count)
    }

    /** The transactions, oldest first, that follow one another from `d` with ids `id`, `id`+1, ... */
    function Scan(d: nat, id: nat, mount: u32, fuel: nat): (ts: seq<Transaction>)
      requires count > 0
      ensures |ts| <= fuel
      decreases fuel
    {
      if fuel == 0 || !Committed(d, id, mount) then []
      else [At(d)] + Scan(Next(d), id + 1, mount, fuel - 1)
    }

    /** The whole log: `count` steps are always enough, see `ScanIsBounded`. */
    function Log(): (ts: seq<Transaction>)
      ensures |ts| <= count
    {
      if Word(count, 4) >= count then []
      else Scan(Word(count, 4), Word(count, 0) + 1, Word(count, 8), count)
    }
  }

  /** `log` is a run of committed transactions with consecutive ids that starts at `first`
      with id `id`; the next one would have to start at `d`. */
  ghost predicate Chain(r: Ring, first: nat, id: nat, mount: u32, log: seq<Transaction>, d: nat)
    requires r.count > 0
    decreases |log|
  {
    if log == [] then d == first
    else
      var rest, last := log[..|log| - 1], log[|log| - 1];
      && Chain(r, first, id, mount, rest, last.desc)
      && r.Committed(last.desc, id + |rest|, mount)
      && last == r.At(last.desc)
      && d == r.Next(last.desc)
  }

  lemma {:induction false} ChainIds(r: Ring, first: nat, id: nat, mount: u32, log: seq<Transaction>, d: nat, i: nat)
    requires r.count > 0 && first < r.count && Chain(r, first, id, mount, log, d) && i < |log|
    ensures log[i].desc < r.count && r.TransId(log[i].desc) == Id32(id + i)
    decreases |log|
  {
    var rest := log[..|log| - 1];
    if i < |rest| {
      ChainIds(r, first, id, mount, rest, log[|log| - 1].desc, i);
    } else if rest != [] {
      assert rest[..|rest| - 1] <= rest;
    }
  }

  /** Termination of the search of `journal_init` on every disk image: a block carries one
      transaction id while the id looked for differs at every step, so a run of
      transactions is never longer than the ring. */
  lemma {:induction false} ChainFits(r: Ring, first: nat, id: nat, mount: u32, log: seq<Transaction>, d: nat)
    requires 0 < r.count < WORD && first < r.count && Chain(r, first, id, mount, log, d)
    ensures |log| <= r.count
    decreases |log|
  {
    if log != [] {
      var rest, last := log[..|log| - 1], log[|log| - 1];
      ChainFits(r, first, id, mount, rest, last.desc);
      var descs: seq<nat> := seq(|log|, i requires 0 <= i < |log| => log[i].desc);
      forall i | 0 <= i < |log| ensures descs[i] < r.count && r.TransId(descs[i]) == Id32(id + i) {
        ChainIds(r, first, id, mount, log, d, i);
      }
      forall i, j | 0 <= i < j < |descs| ensures descs[i] != descs[j] {
        Id32Differs(id, i, j);
      }
      DistinctWithinBound(descs, r.count);
    }
  }

  /** A run is what a scan lists first. */
  lemma {:induction false} ChainIsScanned(r: Ring, first: nat, id: nat, mount: u32, log: seq<Transaction>, d: nat, fuel: nat)
    requires r.count > 0 && Chain(r, first, id, mount, log, d) && |log| <= fuel
    ensures r.Scan(first, id, mount, fuel) == log + r.Scan(d, id + |log|, mount, fuel - |log|)
    decreases |log|
  {
    if log != [] {
      var rest, last := log[..|log| - 1], log[|log| - 1];
      ChainIsScanned(r, first, id, mount, rest, last.desc, fuel);
      assert log == rest + [last];
    }
  }

  /** However long one goes on scanning, no more than `count` transactions turn up, so
      `Log` is the whole log. */
  lemma {:induction false} ScanIsBounded(r: Ring, first: nat, id: nat, mount: u32, fuel: nat)
    requires 0 < r.count < WORD && first < r.count
    ensures |r.Scan(first, id, mount, fuel)| <= r.count
  {
    ScanContinues(r, first, id, mount, [], first, fuel);
  }

  lemma {:induction false} ChainGrows(r: Ring, first: nat, id: nat, mount: u32, log: seq<Transaction>, d: nat)
    requires r.count > 0 && Chain(r, first, id, mount, log, d) && r.Committed(d, id + |log|, mount)
    ensures Chain(r, first, id, mount, log + [r.At(d)], r.Next(d))
  {
    assert (log + [r.At(d)])[..|log|] == log;
  }

  lemma {:induction false} ScanContinues(r: Ring, first: nat, id: nat, mount: u32, log: seq<Transaction>, d: nat, fuel: nat)
    requires 0 < r.count < WORD && first < r.count && Chain(r, first, id, mount, log, d)
    ensures |log| + |r.Scan(d, id + |log|, mount, fuel)| <= r.count
    decreases fuel
  {
    ChainFits(r, first, id, mount, log, d);
    if fuel > 0 && r.Committed(d, id + |log|, mount) {
      ChainGrows(r, first, id, mount, log, d);
      ScanContinues(r, first, id, mount, log + [r.At(d)], r.Next(d), fuel - 1);
    }
  }

  /** The pigeonhole principle: distinct numbers below `n` are at most `n`. */
  lemma {:induction false} DistinctWithinBound(s: seq<nat>, n: nat)
    requires forall i :: 0 <= i < |s| ==> s[i] < n
    requires forall i, j :: 0 <= i < j < |s| ==> s[i] != s[j]
    ensures |s| <= n
    decreases n
  {
    if s == [] {
    } else if n - 1 in s {
      var i :| 0 <= i < |s| && s[i] == n - 1;
      DistinctWithinBound(s[..i] + s[i + 1..], n - 1);
    } else {
      assert s[0] < n;
      DistinctWithinBound(s, n - 1);
    }
  }

  // ---------- the overlay ----------

  /** The block that holds the newest copy of block `nr` in view of the first `n`
      transactions: the last of them that logs it wins, and within it the first entry. */
  function Translate(ts: seq<Transaction>, n: nat, nr: nat, base: nat, count: nat): nat
    requires n <= |ts| && (n > 0 ==> count > 0)
    decreases n
  {
    if n == 0 then nr
    else if nr in ts[n - 1].home then base + Wrap(ts[n - 1].desc + 1 + IndexOf(ts[n - 1].home, nr), count)
    else Translate(ts, n - 1, nr, base, count)
  }

  lemma {:induction false} FoldStep(ts: seq<Transaction>, t: nat, nr: nat, base: nat, count: nat)
    requires t < |ts| && count > 0
    ensures Translate(ts, t + 1, nr, base, count) ==
      if nr in ts[t].home then base + Wrap(ts[t].desc + 1 + IndexOf(ts[t].home, nr), count)
      else Translate(ts, t, nr, base, count)
  {
  }

  /** A logged block is read from the newest transaction that logs it. */
  lemma {:induction false} NewestCopyWins(ts: seq<Transaction>, n: nat, nr: nat, base: nat, count: nat, t: nat)
    requires t < n <= |ts| && count > 0
    requires nr in ts[t].home && forall u :: t < u < n ==> nr !in ts[u].home
    ensures Translate(ts, n, nr, base, count) == base + Wrap(ts[t].desc + 1 + IndexOf(ts[t].home, nr), count)
    decreases n
  {
    if t < n - 1 { NewestCopyWins(ts, n - 1, nr, base, count, t); }
  }

  /** A block that no transaction logs is read from its home. */
  lemma {:induction false} UnloggedStaysHome(ts: seq<Transaction>, n: nat, nr: nat, base: nat, count: nat)
    requires n <= |ts| && (n > 0 ==> count > 0)
    requires forall t :: 0 <= t < n ==> nr !in ts[t].home
    ensures Translate(ts, n, nr, base, count) == nr
    decreases n
  {
    if n > 0 { UnloggedStaysHome(ts, n - 1, nr, base, count); }
  }

  /** The ring blocks that the first `t` transactions take up. */
  function Span(ts: seq<Transaction>, t: nat): nat
    requires t <= |ts|
  {
    if t == 0 then 0 else Span(ts, t - 1) + |ts[t - 1].home| + 2
  }

  lemma {:induction false} SpanGrows(ts: seq<Transaction>, s: nat, t: nat)
    requires s <= t <= |ts|
    ensures Span(ts, s) <= Span(ts, t)
  {
    if s < t { SpanGrows(ts, s, t - 1); }
  }

  /** Each of the first `n` transactions starts where the one before it ends. */
  ghost predicate Linked(ts: seq<Transaction>, n: nat, first: nat, count: nat)
    requires n <= |ts| && count > 0
  {
    n > 0 ==>
      && Linked(ts, n - 1, first, count)
      && ts[n - 1].desc == Wrap(if n == 1 then first else ts[n - 2].desc + |ts[n - 2].home| + 2, count)
  }

  lemma {:induction false} WrapSum(x: nat, y: nat, n: nat)
    requires n > 0
    ensures Wrap(Wrap(x, n) + y, n) == Wrap(x + y, n)
    decreases x
  {
    if x >= n { WrapSum(x - n, y, n); }
  }

  lemma {:induction false} LinkedAt(ts: seq<Transaction>, n: nat, first: nat, count: nat, t: nat)
    requires t < n <= |ts| && count > 0 && Linked(ts, n, first, count)
    ensures ts[t].desc == Wrap(first + Span(ts, t), count)
  {
    if t < n - 1 {
      LinkedAt(ts, n - 1, first, count, t);
    } else if t > 0 {
      LinkedAt(ts, n - 1, first, count, t - 1);
      WrapSum(first + Span(ts, t - 1), |ts[t - 1].home| + 2, count);
    }
  }

  /** Ring positions less than a round apart are different. */
  lemma {:induction false} WrapDiffers(x: nat, y: nat, n: nat)
    requires n > 0 && x < y < x + n
    ensures Wrap(x, n) != Wrap(y, n)
    decreases x
  {
    if x >= n { WrapDiffers(x - n, y - n, n); }
  }

  /** Where the copy of block `nr` in transaction `t` lies. */
  function Place(ts: seq<Transaction>, t: nat, nr: nat, base: nat, count: nat): nat
    requires t < |ts| && nr in ts[t].home && count > 0
  {
    base + Wrap(ts[t].desc + 1 + IndexOf(ts[t].home, nr), count)
  }

  lemma {:induction false} PlaceIs(ts: seq<Transaction>, first: nat, t: nat, nr: nat, base: nat, count: nat)
    requires t < |ts| && count > 0 && Linked(ts, |ts|, first, count) && nr in ts[t].home
    ensures Place(ts, t, nr, base, count) == base + Wrap(first + Span(ts, t) + 1 + IndexOf(ts[t].home, nr), count)
  {
    LinkedAt(ts, |ts|, first, count, t);
    WrapSum(first + Span(ts, t), 1 + IndexOf(ts[t].home, nr), count);
  }

  /** In a log that does not run over its own beginning, two copies never share a place. */
  lemma {:induction false} PlacesDiffer(ts: seq<Transaction>, first: nat, s: nat, t: nat, nr: nat, base: nat, count: nat)
    requires s < t < |ts| && count > 0 && Linked(ts, |ts|, first, count) && Span(ts, |ts|) <= count
    requires nr in ts[s].home && nr in ts[t].home
    ensures Place(ts, s, nr, base, count) != Place(ts, t, nr, base, count)
  {
    PlaceIs(ts, first, s, nr, base, count);
    PlaceIs(ts, first, t, nr, base, count);
    SpanGrows(ts, s + 1, t);
    SpanGrows(ts, t + 1, |ts|);
    WrapDiffers(first + Span(ts, s) + 1 + IndexOf(ts[s].home, nr), first + Span(ts, t) + 1 + IndexOf(ts[t].home, nr), count);
  }

  /** What the fold over `n` transactions finds: the newest copy of the block, or its home. */
  lemma {:induction false} FoldFinds(ts: seq<Transaction>, n: nat, nr: nat, base: nat, count: nat) returns (t: nat)
    requires n <= |ts| && count > 0
    ensures t <= n
    ensures t < n ==> nr in ts[t].home && Translate(ts, n, nr, base, count) == Place(ts, t, nr, base, count)
    ensures t < n ==> forall u :: t < u < n ==> nr !in ts[u].home
    ensures t == n ==> Translate(ts, n, nr, base, count) == nr && forall u :: 0 <= u < n ==> nr !in ts[u].home
  {
    if n == 0 {
      t := 0;
    } else if nr in ts[n - 1].home {
      t := n - 1;
    } else {
      t := FoldFinds(ts, n - 1, nr, base, count);
      if t == n - 1 { t := n; }
    }
  }

  /** The fold over the first `n` transactions finds the newest copy in all of them exactly if no
      later one logs the block. */
  lemma {:induction false} PrefixSuffices(ts: seq<Transaction>, n: nat, first: nat, nr: nat, base: nat, count: nat)
    requires n <= |ts| && count > 0 && Linked(ts, |ts|, first, count) && Span(ts, |ts|) <= count
    requires nr < base || nr >= base + count
    ensures Translate(ts, n, nr, base, count) == Translate(ts, |ts|, nr, base, count)
      <==> forall t :: n <= t < |ts| ==> nr !in ts[t].home
  {
    var a := FoldFinds(ts, n, nr, base, count);
    var b := FoldFinds(ts, |ts|, nr, base, count);
    if n <= b < |ts| {
      if a < n { PlacesDiffer(ts, first, a, b, nr, base, count); }
    } else if b < n {
      assert a == b;
    }
  }

  function IndexOf(s: seq<int>, x: int): (i: nat)
    requires x in s
    ensures i < |s| && s[i] == x && forall k :: 0 <= k < i ==> s[k] != x
  {
    if s[0] == x then 0 else 1 + IndexOf(s[1..], x)
  }

  /** The search of the transaction at `d` for `nr` came out as it should: `i` is one past
      the first of its blocks that is `nr`. */
  ghost predicate FoundBy(r: Ring, d: nat, nr: nat, found: bool, i: nat)
    requires r.count > 0
  {
    var home := r.At(d).home;
    && (found <==> nr in home)
    && (found ==> i == IndexOf(home, nr) + 1)
  }

  lemma {:induction false} FoundAt(r: Ring, d: nat, nr: nat, i: nat)
    requires r.count > 0 && i < r.Len(d) && r.Home(d, i) == nr
    requires forall k :: 0 <= k < i ==> r.Home(d, k) != nr
    ensures FoundBy(r, d, nr, true, i + 1)
  {
    var home := r.At(d).home;
    assert home[i] == nr;
    assert forall k :: 0 <= k < i ==> home[k] == r.Home(d, k);
  }

  lemma {:induction false} FoundNowhere(r: Ring, d: nat, nr: nat, i: nat)
    requires r.count > 0
    requires forall k :: 0 <= k < r.Len(d) ==> r.Home(d, k) != nr
    ensures FoundBy(r, d, nr, false, i)
  {
    var home := r.At(d).home;
    assert forall k :: 0 <= k < |home| ==> home[k] == r.Home(d, k);
  }

  /** What a scan lists are transactions on the disk, each where the one before it ends. */
  lemma {:induction false} ScanLinks(r: Ring, d: nat, id: nat, mount: u32, fuel: nat, t: nat)
    requires r.count > 0 && d < r.count && t < |r.Scan(d, id, mount, fuel)|
    ensures var ts := r.Scan(d, id, mount, fuel);
      && ts[t].desc < r.count && r.Magic(ts[t].desc) && ts[t] == r.At(ts[t].desc)
      && (t == 0 ==> ts[t].desc == d)
      && (t + 1 < |ts| ==> ts[t + 1].desc == r.Next(ts[t].desc))
    decreases fuel
  {
    if t > 0 {
      ScanLinks(r, r.Next(d), id + 1, mount, fuel - 1, t - 1);
    } else if |r.Scan(d, id, mount, fuel)| > 1 {
      ScanLinks(r, r.Next(d), id + 1, mount, fuel - 1, 0);
    }
  }

  /** What the format asks of the log, word by word: transaction `t` has its descriptor where the one
      before it ends, with the header's mount id and the next id; the block behind its copies carries
      the same id and length; and its home blocks stand in these two blocks. */
  ghost predicate Committed32(r: Ring, d: nat, id: nat, len: nat) {
    && r.count > 0 && d < r.count && r.magic(d)
    && r.word(d, 0) == id % 0x1_0000_0000 && r.word(d, 4) == len && r.word(d, 8) == r.word(r.count, 8)
    && r.word((d + len + 1) % r.count, 0) == id % 0x1_0000_0000 && r.word((d + len + 1) % r.count, 4) == len
  }

  lemma {:induction false} CommittedIs(r: Ring, d: nat, id: nat)
    requires r.count > 0 && d < r.count
    ensures r.Committed(d, id, r.word(r.count, 8)) <==> Committed32(r, d, id, r.word(d, 4))
    ensures r.CommitOf(d) == (d + r.word(d, 4) + 1) % r.count && r.Next(d) == (d + r.word(d, 4) + 2) % r.count
  {
    Id32IsModulo(id);
    WrapIsModulo(d + r.Len(d) + 1, r.count);
    WrapIsModulo(d + r.Len(d) + 2, r.count);
  }

  lemma {:induction false} ScanCommits(r: Ring, d: nat, id: nat, mount: u32, fuel: nat, t: nat)
    requires r.count > 0 && t < |r.Scan(d, id, mount, fuel)|
    ensures r.Committed(r.Scan(d, id, mount, fuel)[t].desc, id + t, mount)
    decreases fuel
  {
    if t > 0 { ScanCommits(r, r.Next(d), id + 1, mount, fuel - 1, t - 1); }
  }

  /** Home block `i` of a transaction of `len` blocks at `d`, by the word that holds it. */
  function ListedHome(r: Ring, d: nat, len: nat, i: nat): int
    requires r.count > 0
  {
    if i < 1018 then r.word(d, 12 + 4 * i) else r.word((d + len + 1) % r.count, 8 + 4 * (i - 1018))
  }

  lemma {:induction false} AtLists(r: Ring, d: nat)
    requires r.count > 0 && d < r.count
    ensures |r.At(d).home| == r.word(d, 4)
    ensures forall i :: 0 <= i < |r.At(d).home| ==> r.At(d).home[i] == ListedHome(r, d, r.word(d, 4), i)
  {
    CommittedIs(r, d, 0);
    var home := r.At(d).home;
    forall i | 0 <= i < |home| ensures home[i] == ListedHome(r, d, r.word(d, 4), i) {
      assert home[i] == r.Home(d, i);
    }
  }

  lemma {:induction false} InLog(r: Ring, t: nat)
    requires t < |r.Log()|
    ensures var log, d := r.Log(), r.Log()[t].desc;
      && d < r.count && log[t] == r.At(d) && r.Committed(d, r.word(r.count, 0) + 1 + t, r.word(r.count, 8))
      && (t == 0 ==> d == r.word(r.count, 4)) && (t + 1 < |log| ==> log[t + 1].desc == r.Next(d))
  {
    var first, id, mount := r.Word(r.count, 4), r.Word(r.count, 0) + 1, r.Word(r.count, 8);
    ScanCommits(r, first, id, mount, r.count, t);
    ScanLinks(r, first, id, mount, r.count, t);
  }

  /** Every transaction of the log is committed on the disk, follows the one before it, and lists the
      home blocks that its descriptor and its commit block hold. */
  lemma {:induction false} LogIsCommitted(r: Ring, t: nat)
    requires t < |r.Log()|
    ensures var log, d, len := r.Log(), r.Log()[t].desc, |r.Log()[t].home|;
      && Committed32(r, d, r.word(r.count, 0) + 1 + t, len)
      && (t == 0 ==> d == r.word(r.count, 4))
      && (t + 1 < |log| ==> log[t + 1].desc == (d + len + 2) % r.count)
      && forall i :: 0 <= i < len ==> log[t].home[i] == ListedHome(r, d, len, i)
  {
    InLog(r, t);
    CommittedIs(r, r.Log()[t].desc, r.word(r.count, 0) + 1 + t);
    AtLists(r, r.Log()[t].desc);
  }

  /** Where the next transaction behind `ts`, which begin at `d`, would have to stand. */
  function Behind(r: Ring, d: nat, ts: seq<Transaction>): nat
    requires r.count > 0
  {
    if ts == [] then d else r.Next(ts[|ts| - 1].desc)
  }

  lemma {:induction false} ScanStops(r: Ring, d: nat, id: nat, mount: u32, fuel: nat)
    requires r.count > 0 && |r.Scan(d, id, mount, fuel)| < fuel
    ensures !r.Committed(Behind(r, d, r.Scan(d, id, mount, fuel)), id + |r.Scan(d, id, mount, fuel)|, mount)
    decreases fuel
  {
    if r.Committed(d, id, mount) {
      ScanStops(r, r.Next(d), id + 1, mount, fuel - 1);
      var ts, rest := r.Scan(d, id, mount, fuel), r.Scan(r.Next(d), id + 1, mount, fuel - 1);
      assert ts == [r.At(d)] + rest;
      assert rest != [] ==> ts[|ts| - 1] == rest[|rest| - 1];
    }
  }

  lemma {:induction false} MoreFuel(r: Ring, d: nat, id: nat, mount: u32, fuel: nat)
    requires r.count > 0 && |r.Scan(d, id, mount, fuel + 1)| <= fuel
    ensures r.Scan(d, id, mount, fuel + 1) == r.Scan(d, id, mount, fuel)
    decreases fuel
  {
    if r.Committed(d, id, mount) { MoreFuel(r, r.Next(d), id + 1, mount, fuel - 1); }
  }

  /** Where the log ends. */
  function LogEnd(r: Ring): nat
    requires r.count > 0
  {
    var log := r.Log();
    if log == [] then r.word(r.count, 4) else (log[|log| - 1].desc + |log[|log| - 1].home| + 2) % r.count
  }

  /** And it ends only where no committed transaction follows: with no length does one stand there. */
  lemma {:induction false} LogStops(r: Ring, len: nat)
    requires 0 < r.count < WORD && r.word(r.count, 4) < r.count
    ensures !Committed32(r, LogEnd(r), r.word(r.count, 0) + 1 + |r.Log()|, len)
  {
    var first, id, mount := r.Word(r.count, 4), r.Word(r.count, 0) + 1, r.Word(r.count, 8);
    ScanIsBounded(r, first, id, mount, r.count + 1);
    MoreFuel(r, first, id, mount, r.count);
    ScanStops(r, first, id, mount, r.count + 1);
    EndIsBehind(r);
    CommittedIs(r, LogEnd(r), id + |r.Log()|);
  }

  lemma {:induction false} EndIsBehind(r: Ring)
    requires r.count > 0 && r.word(r.count, 4) < r.count
    ensures LogEnd(r) == Behind(r, r.word(r.count, 4), r.Log()) < r.count
  {
    var log := r.Log();
    if log != [] {
      InLog(r, |log| - 1);
      CommittedIs(r, log[|log| - 1].desc, 0);
      AtLists(r, log[|log| - 1].desc);
    }
  }

  /** Where the cached form of transaction `t` starts: each takes a word for its length and
      one for each home block. */
  ghost function Offset(ts: seq<Transaction>, t: nat): nat
    requires t <= |ts|
  {
    if t == 0 then 0 else Offset(ts, t - 1) + 1 + |ts[t - 1].home|
  }

  lemma {:induction false} OffsetOfMore(ts: seq<Transaction>, more: seq<Transaction>, t: nat)
    requires t <= |ts| && ts <= more
    ensures Offset(more, t) == Offset(ts, t)
  {
    if t > 0 { OffsetOfMore(ts, more, t - 1); }
  }

  lemma {:induction false} OffsetGrows(ts: seq<Transaction>, s: nat, t: nat)
    requires s <= t <= |ts|
    ensures Offset(ts, s) <= Offset(ts, t)
  {
    if s < t { OffsetGrows(ts, s, t - 1); }
  }

  /** The table holds transaction `t` of `ts` at its place. */
  ghost predicate Cached(table: seq<int>, ts: seq<Transaction>, t: nat)
    requires t < |ts|
  {
    var p, home := Offset(ts, t), ts[t].home;
    && p + 1 + |home| <= |table|
    && table[p] == |home|
    && forall k :: 0 <= k < |home| ==> table[p + 1 + k] == home[k]
  }

  /** The table lists the transactions `ts`, and is closed by the marker if there are more. */
  ghost predicate Encodes(table: seq<int>, ts: seq<Transaction>, more: bool) {
    && |table| == JOURNAL_CAPACITY && Offset(ts, |ts|) <= JOURNAL_CAPACITY
    && (forall t :: 0 <= t < |ts| ==> Cached(table, ts, t))
    && (more ==> Offset(ts, |ts|) < JOURNAL_CAPACITY && table[Offset(ts, |ts|)] == MARKER)
  }

  /** Writing at the end of the table keeps what it holds. */
  lemma {:induction false} CachedStays(before: seq<int>, after: seq<int>, ts: seq<Transaction>, more: seq<Transaction>, t: nat)
    requires t < |ts| && ts <= more && Cached(before, ts, t)
    requires Offset(ts, |ts|) <= |before| == |after| && before[..Offset(ts, |ts|)] == after[..Offset(ts, |ts|)]
    ensures Cached(after, more, t)
  {
    var p, n, home := Offset(ts, t), Offset(ts, |ts|), ts[t].home;
    OffsetOfMore(ts, more, t);
    OffsetGrows(ts, t + 1, |ts|);
    assert forall k :: 0 <= k < n ==> before[..n][k] == before[k] && after[..n][k] == after[k];
  }

  lemma {:induction false} EncodesClosed(before: seq<int>, after: seq<int>, ts: seq<Transaction>)
    requires Encodes(before, ts, false) && Offset(ts, |ts|) < |after| == |before|
    requires before[..Offset(ts, |ts|)] == after[..Offset(ts, |ts|)] && after[Offset(ts, |ts|)] == MARKER
    ensures Encodes(after, ts, true)
  {
    forall t | 0 <= t < |ts| ensures Cached(after, ts, t) {
      CachedStays(before, after, ts, ts, t);
    }
  }

  lemma {:induction false} ListedAt(table: seq<int>, n: nat, home: seq<int>)
    requires n + 1 + |home| <= |table| && table[n..n + 1 + |home|] == [|home|] + home
    ensures table[n] == |home| && forall k :: 0 <= k < |home| ==> table[n + 1 + k] == home[k]
  {
    var piece := table[n..n + 1 + |home|];
    assert table[n] == piece[0];
    forall k | 0 <= k < |home| ensures table[n + 1 + k] == home[k] {
      assert table[n + 1 + k] == piece[k + 1] == ([|home|] + home)[k + 1];
    }
  }

  lemma {:induction false} EncodesMore(before: seq<int>, after: seq<int>, ts: seq<Transaction>, last: Transaction)
    requires Encodes(before, ts, false) && Offset(ts, |ts|) + 1 + |last.home| <= |after| == |before|
    requires var n := Offset(ts, |ts|);
      before[..n] == after[..n] && after[n..n + 1 + |last.home|] == [|last.home|] + last.home
    ensures Encodes(after, ts + [last], false)
    ensures Offset(ts + [last], |ts| + 1) == Offset(ts, |ts|) + 1 + |last.home|
  {
    var more, n := ts + [last], Offset(ts, |ts|);
    OffsetOfMore(ts, more, |ts|);
    forall t | 0 <= t < |more| ensures Cached(after, more, t) {
      if t < |ts| {
        CachedStays(before, after, ts, more, t);
      } else {
        ListedAt(after, n, last.home);
      }
    }
  }

  // ---------- room in the table ----------

  /** The address behind a transaction of `len` blocks at word `at` of the table. */
  function AddressBehind(at: nat, len: nat): nat {
    JOURNAL_START + 4 * (at + 1 + len)
  }

  /** The test of `journal_init` for a transaction that does not fit, on 32-bit addresses. */
  predicate SeemsFull(at: nat, len: nat) {
    AddressBehind(at, len) % WORD >= JOURNAL_END
  }

  /** The address wraps, and falls below the end of the table. */
  predicate Slips(at: nat, len: nat) {
    AddressBehind(at, len) >= WORD && AddressBehind(at, len) % WORD < JOURNAL_END
  }

  /** The test is the one intended exactly where the address does not slip below the end. */
  lemma {:induction false} RoomTestIsRight(at: nat, len: nat)
    requires at < JOURNAL_CAPACITY
    ensures (SeemsFull(at, len) <==> at + 1 + len >= JOURNAL_CAPACITY) <==> !Slips(at, len)
    ensures Slips(at, len) ==> len >= 0x3ffe_4000
  {
    assert JOURNAL_START + 4 * JOURNAL_CAPACITY == JOURNAL_END;
    if AddressBehind(at, len) < WORD { assert AddressBehind(at, len) % WORD == AddressBehind(at, len); }
  }

  /** Transaction `t` of `ts` comes while the table still has room, and is taken to fit although
      it does not. */
  ghost predicate OverrunsAt(ts: seq<Transaction>, t: nat)
    requires t < |ts|
  {
    Offset(ts, t) < JOURNAL_CAPACITY && Slips(Offset(ts, t), |ts[t].home|)
  }

  /** Caching these transactions runs over the end of the table. */
  ghost predicate Overruns(ts: seq<Transaction>) {
    exists t :: 0 <= t < |ts| && OverrunsAt(ts, t)
  }

  lemma {:induction false} OverrunsMore(ts: seq<Transaction>, more: seq<Transaction>)
    requires ts <= more && Overruns(ts)
    ensures Overruns(more)
  {
    var t :| 0 <= t < |ts| && OverrunsAt(ts, t);
    OffsetOfMore(ts, more, t);
    assert OverrunsAt(more, t);
  }

  lemma {:induction false} OverrunsNext(ts: seq<Transaction>, last: Transaction)
    ensures Overruns(ts + [last]) <==> Overruns(ts) || OverrunsAt(ts + [last], |ts|)
    ensures Offset(ts + [last], |ts|) == Offset(ts, |ts|)
  {
    var more := ts + [last];
    OffsetOfMore(ts, more, |ts|);
    if Overruns(more) && !OverrunsAt(more, |ts|) {
      var t :| 0 <= t < |more| && OverrunsAt(more, t);
      OffsetOfMore(ts, more, t);
      assert OverrunsAt(ts, t);
    }
    if Overruns(ts) { OverrunsMore(ts, more); }
  }

  /** Without a transaction of close to 2^30 blocks or more, nothing runs over. */
  lemma {:induction false} ShortNeverOverruns(ts: seq<Transaction>)
    requires forall t :: 0 <= t < |ts| ==> |ts[t].home| < 0x3ffe_4000
    ensures !Overruns(ts)
  {
    forall t | 0 <= t < |ts| ensures !OverrunsAt(ts, t) {
      if Offset(ts, t) < JOURNAL_CAPACITY { RoomTestIsRight(Offset(ts, t), |ts[t].home|); }
    }
  }

  // ---------- the journal in memory ----------

  /** The byte of the partition at which block `nr` starts, by its 32-bit sector number. */
  function BlockPos(nr: nat, blockSectors: nat): int {
    BlockSector(nr, blockSectors) * SECTOR_SIZE
  }

  /** The byte of the partition at which journal block `d` starts. */
  function Pos(base: nat, blockSectors: nat, d: nat): int {
    BlockPos(base + d, blockSectors)
  }

  /** The journal ring at block `base` of the partition. */
  function RingOf(part: seq<byte>, base: nat, blockSectors: nat, count: nat): Ring {
    Ring(count,
      (d: nat, off: nat) =>
        var p := Pos(base, blockSectors, d);
        if 0 <= p && p + off + 4 <= |part| then U32(part, p + off) else 0,
      (d: nat) =>
        var p := Pos(base, blockSectors, d);
        0 <= p && p + DESC_SIZE <= |part| && part[p + 4084..p + 4092] == DESC_MAGIC)
  }

  /** The words and the magic of a journal block, by their bytes in the partition. */
  lemma {:induction false} RingIsRead(part: seq<byte>, base: nat, blockSectors: nat, count: nat, d: nat, off: nat)
    requires (base + d) * blockSectors < 0x8000_0000
    ensures var p := (base + d) * blockSectors * 512;
      p + off + 4 <= |part| ==> RingOf(part, base, blockSectors, count).word(d, off) == U32(part, p + off)
    ensures var p, r := (base + d) * blockSectors * 512, RingOf(part, base, blockSectors, count);
      p + 4096 <= |part| ==>
        (r.magic(d) <==> part[p + 4084..p + 4092] == [0x52, 0x65, 0x49, 0x73, 0x45, 0x72, 0x4c, 0x42])
  {
    BlockSectorIs(base + d, blockSectors);
  }

  /** Home block `i` as listed by the two buffers of a transaction. */
  function BufferHome(desc: seq<byte>, commit: seq<byte>, i: nat): int
    requires |desc| == |commit| == DESC_SIZE
  {
    if i < JOURNAL_TRANS_HALF then U32(desc, 12 + 4 * i)
    else if i < 2 * JOURNAL_TRANS_HALF then U32(commit, 8 + 4 * (i - JOURNAL_TRANS_HALF))
    else 0
  }

  function BufferHomes(desc: seq<byte>, commit: seq<byte>, n: nat): (s: seq<int>)
    requires |desc| == |commit| == DESC_SIZE
    ensures |s| == n
  {
    seq(n, i requires 0 <= i => BufferHome(desc, commit, i))
  }

  /** Block `d` of the ring is the one on the disk. */
  ghost predicate BlockOnDisk(r: Ring, part: seq<byte>, base: nat, blockSectors: nat, d: nat) {
    var one := RingOf(part, base, blockSectors, r.count);
    r.magic(d) == one.magic(d) && forall off: nat :: r.word(d, off) == one.word(d, off)
  }

  /** A buffer shows what the ring has in block `d`. */
  ghost predicate Shows(block: seq<byte>, r: Ring, d: nat)
    requires |block| == DESC_SIZE
  {
    && r.Magic(d) == (block[4084..4092] == DESC_MAGIC)
    && (forall off: nat :: off + 4 <= DESC_SIZE ==> r.word(d, off) == U32(block, off))
  }

  lemma {:induction false} SliceShows(r: Ring, part: seq<byte>, base: nat, blockSectors: nat, d: nat, block: seq<byte>)
    requires BlockOnDisk(r, part, base, blockSectors, d)
    requires 0 <= Pos(base, blockSectors, d) && Pos(base, blockSectors, d) + DESC_SIZE <= |part|
    requires block == part[Pos(base, blockSectors, d)..Pos(base, blockSectors, d) + DESC_SIZE]
    ensures Shows(block, r, d)
  {
    var p := Pos(base, blockSectors, d);
    SliceOfSlice(part, p, DESC_SIZE, 4084, 4092);
    forall off: nat | off + 4 <= DESC_SIZE ensures r.word(d, off) == U32(block, off) {
      U32OfSlice(part, p, DESC_SIZE, off);
    }
  }

  /** Buffers that show a committed transaction list the home blocks the ring lists. */
  lemma {:induction false} ShownHomes(r: Ring, d: nat, desc: seq<byte>, commit: seq<byte>)
    requires r.count > 0 && |desc| == |commit| == DESC_SIZE
    requires Shows(desc, r, d) && Shows(commit, r, r.CommitOf(d))
    requires r.Len(d) <= 2 * JOURNAL_TRANS_HALF
    ensures Transaction(d, BufferHomes(desc, commit, r.Len(d))) == r.At(d)
  {
    forall i: nat | i < r.Len(d) ensures BufferHome(desc, commit, i) == r.Home(d, i) {
      if i < JOURNAL_TRANS_HALF {
        assert r.word(d, 12 + 4 * i) == U32(desc, 12 + 4 * i);
      } else {
        var off := 8 + 4 * (i - JOURNAL_TRANS_HALF);
        assert r.word(r.CommitOf(d), off) == U32(commit, off);
      }
    }
  }

  lemma {:induction false} ModUnique(x: int, n: nat, q: int, m: nat)
    requires m < n && x == q * n + m
    ensures x % n == m
  {
    var e := x / n;
    if e < q {
      Monotone(e + 1, q, n);
    } else if e > q {
      Monotone(q + 1, e, n);
    }
  }

  lemma {:induction false} Monotone(a: int, b: int, n: nat)
    requires a <= b
    ensures a * n <= b * n
  {
    assert b * n - a * n == (b - a) * n;
  }

  /** A run that cannot go on is the whole scan. */
  lemma {:induction false} ChainStops(r: Ring, first: nat, id: nat, mount: u32, log: seq<Transaction>, d: nat, fuel: nat)
    requires r.count > 0 && Chain(r, first, id, mount, log, d) && |log| <= fuel
    requires !r.Committed(d, id + |log|, mount)
    ensures log == r.Scan(first, id, mount, fuel)
  {
    ChainIsScanned(r, first, id, mount, log, d, fuel);
    var rest := r.Scan(d, id + |log|, mount, fuel - |log|);
    assert rest == [];
  }

  lemma {:induction false} AfterCommit(r: Ring, d: nat)
    requires r.count > 0
    ensures Wrap(r.CommitOf(d) + 1, r.count) == r.Next(d)
  {
    WrapStep(d + r.Len(d) + 1, r.count);
  }

  /** One turn of the search. */
  lemma {:induction false} ChainStep(r: Ring, first: nat, id: nat, mount: u32, log: seq<Transaction>, d: nat)
    requires 0 < r.count < WORD && first < r.count && Chain(r, first, id, mount, log, d)
    ensures |log| <= r.count
    ensures r.Committed(d, id + |log|, mount) ==>
      && |log| < r.count
      && Chain(r, first, id, mount, log + [r.At(d)], Wrap(r.CommitOf(d) + 1, r.count))
    ensures !r.Committed(d, id + |log|, mount) ==> log == r.Scan(first, id, mount, r.count)
  {
    ChainFits(r, first, id, mount, log, d);
    if r.Committed(d, id + |log|, mount) {
      AfterCommit(r, d);
      ChainGrows(r, first, id, mount, log, d);
      ChainFits(r, first, id, mount, log + [r.At(d)], r.Next(d));
    } else {
      ChainStops(r, first, id, mount, log, d, r.count);
    }
  }

  /** What holds between two turns of the loop of `journal_init`, which looks at `d` for
      transaction `id`, while no read has failed (`fine`) and after; `held` is the id in
      the descriptor buffer. */
  ghost predicate AtTurn(r: Ring, first: nat, mount: u32, id0: nat, d: nat, id: u32, log: seq<Transaction>,
      fine: bool, held: u32)
    requires r.count > 0
  {
    && d < r.count && |log| <= r.count + 1
    && id == Id32(id0 + |log|)
    && (fine ==> Chain(r, first, id0, mount, log, d))
    && (!fine && held == id ==> log == [])
  }

  /** A turn that finds transaction `t`, during which a read may have failed. */
  lemma {:induction false} TurnTakes(r: Ring, first: nat, mount: u32, id0: nat, d: nat, id: u32, log: seq<Transaction>,
      before: bool, after: bool, held: u32, commitBlock: nat, t: Transaction)
    requires 0 < r.count < WORD && first < r.count
    requires AtTurn(r, first, mount, id0, d, id, log, before, held)
    requires after ==> before && r.Committed(d, id0 + |log|, mount) && commitBlock == r.CommitOf(d) && t == r.At(d)
    requires !before ==> held == id
    ensures AtTurn(r, first, mount, id0, Wrap(commitBlock + 1, r.count), NextId(id), log + [t], after, id)
  {
    Id32Step(id0 + |log|);
    if before { ChainFits(r, first, id0, mount, log, d); }
    if after { ChainStep(r, first, id0, mount, log, d); }
  }

  lemma {:induction false} OverrunIsScanned(r: Ring, first: nat, mount: u32, id: nat, d: nat, log: seq<Transaction>)
    requires 0 < r.count < WORD && first < r.count && Chain(r, first, id, mount, log, d) && Overruns(log)
    ensures Overruns(r.Scan(first, id, mount, r.count))
  {
    ChainFits(r, first, id, mount, log, d);
    ChainIsScanned(r, first, id, mount, log, d, r.count);
    OverrunsMore(log, r.Scan(first, id, mount, r.count));
  }

  class Journal {
    const dev: Device
    const blockSectors: nat          // 1 << blocksize_shift
    const journalBlock: nat
    const journalBlockCount: nat
    const table: array<int>          // JOURNAL_START .. JOURNAL_END
    ghost const ring: Ring           // the journal ring as it is on the disk
    var journalFirstDesc: nat
    var journalTransactions: nat     // a 16-bit field
    ghost var active: bool           // journal_init has been called
    ghost var log: seq<Transaction>  // the transactions it accepted
    ghost var cached: seq<Transaction>  // those of them that the table holds

    /** The state in which reiserfs_mount leaves a file system without a usable journal. */
    constructor (dev: Device, blockSectors: nat, journalBlock: nat, journalBlockCount: nat)
      requires dev.Valid() && blockSectors > 0 && journalBlockCount <= 0x8000_0000
      ensures this.dev == dev && this.blockSectors == blockSectors
      ensures this.journalBlock == journalBlock && this.journalBlockCount == journalBlockCount
      ensures ring == RingOf(dev.Part(), journalBlock, blockSectors, journalBlockCount)
      ensures fresh(table) && Valid() && !active && log == []
    {
      this.dev, this.blockSectors := dev, blockSectors;
      this.journalBlock, this.journalBlockCount := journalBlock, journalBlockCount;
      table := new int[JOURNAL_CAPACITY];
      ring := RingOf(dev.Part(), journalBlock, blockSectors, journalBlockCount);
      journalFirstDesc, journalTransactions := 0, 0;
      active, log, cached := false, [], [];
    }

    ghost predicate RingIsOnDisk()
      requires dev.Valid()
    {
      && ring.count == journalBlockCount
      && (forall d :: 0 <= d <= journalBlockCount ==> BlockOnDisk(ring, dev.Part(), journalBlock, blockSectors, d))
    }

    ghost predicate Shape() {
      && dev.Valid() && blockSectors > 0 && RingIsOnDisk()
      && table.Length == JOURNAL_CAPACITY
      && journalBlockCount <= 0x8000_0000
    }

    ghost predicate TableHolds()
      reads this, table
    {
      cached <= log && Encodes(table[..], cached, cached != log)
    }

    /** What block_read relies on.  The log is the one on the disk as long as no read has failed. */
    ghost predicate Valid()
      reads this, dev, table
    {
      && Shape() && TableHolds()
      && journalTransactions == |log| % 0x1_0000
      && (log != [] ==> journalFirstDesc < journalBlockCount)
      && (dev.errnum == ErrNone ==> log == if active then ring.Log() else [])
      && (dev.errnum == ErrNone && log != [] ==>
        journalFirstDesc == ring.Word(journalBlockCount, 4) < journalBlockCount)
    }

    /** Where `block_read` looks for block `nr`: in the journal, or at its home. */
    ghost function Resolve(nr: nat): (at: nat)
      requires journalTransactions <= |log| && (log != [] ==> journalBlockCount > 0)
      reads this
    {
      Translate(log, journalTransactions, nr, journalBlock, journalBlockCount)
    }

    /** The `len` bytes at `start` of block `nr` lie in the partition. */
    ghost predicate InPart(nr: nat, start: nat, len: nat)
      requires dev.Valid()
    {
      0 <= BlockPos(nr, blockSectors) <= |dev.Part()| - start - len
    }

    /** The same for all blocks. */
    ghost function Resolver(): (f: nat -> nat)
      requires Valid()
      reads this, dev, table
      ensures forall nr: nat :: f(nr) == Resolve(nr)
    {
      var ts, n, base, count := log, journalTransactions, journalBlock, journalBlockCount;
      (nr: nat) => if n <= |ts| && (ts != [] ==> count > 0) then Translate(ts, n, nr, base, count) else nr
    }

    /** Every sector of the partition can be read, and the whole journal lies in it. */
    ghost predicate Healthy()
      requires dev.Valid()
    {
      && dev.bad == {}
      && (forall d :: 0 <= d < journalBlockCount ==>
        0 <= Pos(journalBlock, blockSectors, d) <= |dev.Part()| - DESC_SIZE)
      && InPart(journalBlock + journalBlockCount, 0, 12)
    }

    method JournalRead(block: nat, len: nat, buffer: array<byte>) returns (r: int)
      requires dev.Valid() && 0 < len == buffer.Length
      modifies dev`errnum, buffer
      ensures old(dev.errnum) != ErrNone ==> r == 0 && dev.errnum != ErrNone && buffer[..] == old(buffer[..])
      ensures r == 0 ==> dev.errnum != ErrNone
      ensures dev.errnum == ErrNone ==>
        var p := Pos(journalBlock, blockSectors, block);
        InPart(journalBlock + block, 0, len) && buffer[..] == dev.Part()[p..p + len]
      ensures dev.bad == {} && old(dev.errnum) == ErrNone && InPart(journalBlock + block, 0, len)
        ==> dev.errnum == ErrNone
    {
      r := dev.DevRead(BlockSector(journalBlock + block, blockSectors), 0, len, buffer, 0);
      assert buffer[..] == buffer[0..0 + len];
    }

    /** Reads a descriptor or commit block. */
    method ReadLogBlock(d: nat, block: array<byte>) returns (r: int)
      requires dev.Valid() && RingIsOnDisk() && d <= journalBlockCount && block.Length == DESC_SIZE
      modifies dev`errnum, block
      ensures old(dev.errnum) != ErrNone ==> r == 0 && dev.errnum != ErrNone && block[..] == old(block[..])
      ensures r == 0 ==> dev.errnum != ErrNone
      ensures dev.errnum == ErrNone ==> Shows(block[..], ring, d)
      ensures dev.bad == {} && old(dev.errnum) == ErrNone ==>
        0 <= Pos(journalBlock, blockSectors, d) <= |dev.Part()| - DESC_SIZE ==> dev.errnum == ErrNone
    {
      r := JournalRead(d, DESC_SIZE, block);
      if dev.errnum == ErrNone {
        assert BlockOnDisk(ring, dev.Part(), journalBlock, blockSectors, d);
        SliceShows(ring, dev.Part(), journalBlock, blockSectors, d, block[..]);
      }
    }

    /** Stores a transaction in the table, or closes the table if it does not seem to fit; `inside`
        is false if it goes on beyond the end of the table. */
    method CacheTransaction(at: nat, desc: array<byte>, commit: array<byte>, len: nat) returns (next: nat, inside: bool)
      requires table.Length == JOURNAL_CAPACITY && at < JOURNAL_CAPACITY && len < WORD
      requires desc.Length == commit.Length == DESC_SIZE
      modifies table
      ensures inside <==> !Slips(at, len)
      ensures table[..at] == old(table[..at])
      ensures inside && at + 1 + len >= JOURNAL_CAPACITY ==> next == JOURNAL_CAPACITY && table[at] == MARKER
      ensures at + 1 + len < JOURNAL_CAPACITY ==>
        inside && next == at + 1 + len && table[at..next] == [len] + BufferHomes(desc[..], commit[..], len)
    {
      RoomTestIsRight(at, len);
      if SeemsFull(at, len) {
        table[at] := MARKER;
        return JOURNAL_CAPACITY, true;
      }
      table[at] := len;
      next, inside := at + 1, true;
      var i := 0;
      ghost var homes := BufferHomes(desc[..], commit[..], len);
      while i < len && i < JOURNAL_TRANS_HALF
        invariant i <= len && i <= JOURNAL_TRANS_HALF && next == at + 1 + i <= JOURNAL_CAPACITY
        invariant table[..at] == old(table[..at]) && table[at] == len
        invariant forall k :: 0 <= k < i ==> table[at + 1 + k] == homes[k]
      {
        if next == JOURNAL_CAPACITY { return next, false; }
        table[next] := U32(desc[..], 12 + 4 * i);
        next, i := next + 1, i + 1;
      }
      while i < len
        invariant i <= len && next == at + 1 + i <= JOURNAL_CAPACITY && (i < len ==> JOURNAL_TRANS_HALF <= i)
        invariant table[..at] == old(table[..at]) && table[at] == len
        invariant forall k :: 0 <= k < i ==> table[at + 1 + k] == homes[k]
      {
        if next == JOURNAL_CAPACITY { return next, false; }
        table[next] := U32(commit[..], 8 + 4 * (i - JOURNAL_TRANS_HALF));
        next, i := next + 1, i + 1;
      }
      assert table[at..next] == [table[at]] + table[at + 1..next];
    }

    /** Reads the transaction at ring position `d` into the buffers and checks that it is
        a committed one with the id looked for. */
    method ReadTransaction(d: nat, id: u32, ghost n: nat, mount: u32, desc: array<byte>, commit: array<byte>)
        returns (valid: bool, len: nat, commitBlock: nat)
      requires Shape() && d < journalBlockCount
      requires desc.Length == commit.Length == DESC_SIZE && desc != commit && id == Id32(n)
      modifies dev`errnum, desc, commit
      ensures old(dev.errnum) != ErrNone ==> dev.errnum != ErrNone && desc[..] == old(desc[..])
      ensures valid ==> U32(desc[..], 0) == id && len < WORD && commitBlock == Wrap(d + len + 1, journalBlockCount)
      ensures dev.errnum == ErrNone ==> valid == ring.Committed(d, n, mount)
      ensures dev.errnum == ErrNone && valid ==>
        && commitBlock == ring.CommitOf(d) && len == ring.Len(d)
        && (len <= 2 * JOURNAL_TRANS_HALF ==> Transaction(d, BufferHomes(desc[..], commit[..], len)) == ring.At(d))
      ensures Healthy() && old(dev.errnum) == ErrNone ==> dev.errnum == ErrNone
    {
      valid, len, commitBlock := false, 0, 0;
      var _ := ReadLogBlock(d, desc);
      if desc[4084..4092] != DESC_MAGIC || U32(desc[..], 0) != id || U32(desc[..], 8) != mount { return; }
      len := U32(desc[..], 4);
      commitBlock := Wrap(d + len + 1, journalBlockCount);
      var _ := ReadLogBlock(commitBlock, commit);
      if U32(commit[..], 0) != U32(desc[..], 0) || U32(commit[..], 4) != len { return; }
      valid := true;
      if dev.errnum == ErrNone && len <= 2 * JOURNAL_TRANS_HALF { ShownHomes(ring, d, desc[..], commit[..]); }
    }

    /** The two buffers list the blocks of transaction `t`, if there can be room for it in the table. */
    ghost predicate Lists(desc: seq<byte>, commit: seq<byte>, len: nat, t: Transaction)
      requires |desc| == |commit| == DESC_SIZE
    {
      |t.home| == len < WORD && (len < JOURNAL_CAPACITY ==> t.home == BufferHomes(desc, commit, len))
    }

    /** Notes one more valid transaction, in the table if that still has room. */
    method RecordTransaction(at: nat, desc: array<byte>, commit: array<byte>, len: nat, ghost t: Transaction)
        returns (next: nat, inside: bool)
      requires TableHolds() && TableEnd(at)
      requires desc.Length == commit.Length == DESC_SIZE && Lists(desc[..], commit[..], len, t)
      modifies this`log, this`cached, table
      ensures log == old(log) + [t]
      ensures inside <==> !OverrunsAt(log, |old(log)|)
      ensures inside ==> TableHolds() && TableEnd(next)
    {
      OverrunsNext(log, t);
      next, inside := at, true;
      if at < JOURNAL_CAPACITY {
        ghost var before := table[..];
        next, inside := CacheTransaction(at, desc, commit, len);
        assert before[..at] == table[..at] == table[..][..at];
        if at + 1 + len < JOURNAL_CAPACITY {
          assert table[at..next] == table[..][at..next];
          EncodesMore(before, table[..], cached, t);
          cached := cached + [t];
        } else if inside {
          EncodesClosed(before, table[..], cached);
        }
      }
      log := log + [t];
    }

    /** Where the table ends: just after the log, or at its capacity once it is closed. */
    ghost predicate TableEnd(at: nat)
      reads this
    {
      if at < JOURNAL_CAPACITY then cached == log && at == Offset(log, |log|)
      else at == JOURNAL_CAPACITY && cached != log && Offset(log, |log|) >= JOURNAL_CAPACITY
    }

    /** Reads the transaction at `d`, and steps past it if it is valid. */
    method TakeTransaction(first: nat, mount: u32, ghost id0: nat, d: nat, id: u32, ghost log: seq<Transaction>,
        desc: array<byte>, commit: array<byte>)
        returns (valid: bool, len: nat, nextBlock: nat, nextId: u32, ghost t: Transaction)
      requires Shape() && first < journalBlockCount
      requires desc.Length == commit.Length == DESC_SIZE && desc != commit
      requires AtTurn(ring, first, mount, id0, d, id, log, dev.errnum == ErrNone, U32(desc[..], 0))
      modifies dev`errnum, desc, commit
      ensures old(dev.errnum) != ErrNone ==> dev.errnum != ErrNone
      ensures valid ==>
        && AtTurn(ring, first, mount, id0, nextBlock, nextId, log + [t], dev.errnum == ErrNone, U32(desc[..], 0))
        && Lists(desc[..], commit[..], len, t)
      ensures !valid ==> nextId == id
      ensures !valid && dev.errnum == ErrNone ==> log == ring.Scan(first, id0, mount, journalBlockCount)
      ensures Healthy() && old(dev.errnum) == ErrNone ==> dev.errnum == ErrNone
    {
      ghost var before, held := dev.errnum == ErrNone, U32(desc[..], 0);
      nextBlock, nextId := d, id;
      var commitBlock;
      valid, len, commitBlock := ReadTransaction(d, id, id0 + |log|, mount, desc, commit);
      ghost var after := dev.errnum == ErrNone;
      t := if after then ring.At(d) else Transaction(d, BufferHomes(desc[..], commit[..], len));
      if valid {
        TurnTakes(ring, first, mount, id0, d, id, log, before, after, held, commitBlock, t);
        nextId := NextId(id);
        nextBlock := Wrap(commitBlock + 1, journalBlockCount);
      } else if after {
        ChainStep(ring, first, id0, mount, log, d);
      }
    }

    /** One turn of the loop: takes the transaction at `d` and notes it, if it is valid. */
    method CollectOne(first: nat, mount: u32, ghost id0: nat, d: nat, id: u32, at: nat, desc: array<byte>, commit: array<byte>)
        returns (valid: bool, nextBlock: nat, nextId: u32, next: nat, inside: bool)
      requires Shape() && first < journalBlockCount && TableHolds() && TableEnd(at) && !Overruns(log)
      requires desc.Length == commit.Length == DESC_SIZE && desc != commit
      requires AtTurn(ring, first, mount, id0, d, id, log, dev.errnum == ErrNone, U32(desc[..], 0))
      modifies this`log, this`cached, dev`errnum, table, desc, commit
      ensures inside ==> TableHolds() && TableEnd(next)
      ensures old(dev.errnum) != ErrNone ==> dev.errnum != ErrNone
      ensures |log| == |old(log)| + if valid then 1 else 0
      ensures inside <==> !Overruns(log)
      ensures valid ==>
        AtTurn(ring, first, mount, id0, nextBlock, nextId, log, dev.errnum == ErrNone, U32(desc[..], 0))
      ensures !valid ==> inside && nextId == id == Id32(id0 + |log|) && |log| <= journalBlockCount + 1
      ensures !valid && dev.errnum == ErrNone ==> log == ring.Scan(first, id0, mount, journalBlockCount)
      ensures Healthy() && old(dev.errnum) == ErrNone ==> dev.errnum == ErrNone
    {
      var len;
      ghost var t;
      next, inside := at, true;
      valid, len, nextBlock, nextId, t := TakeTransaction(first, mount, id0, d, id, log, desc, commit);
      if valid {
        OverrunsNext(log, t);
        next, inside := RecordTransaction(at, desc, commit, len, t);
      }
    }

    /** The loop of `journal_init`: collects the transactions from ring position `first`. */
    method CollectTransactions(first: nat, flushed: u32, mount: u32) returns (nextTransId: u32, inside: bool)
      requires Shape() && first < journalBlockCount
      requires TableHolds() && log == []
      modifies this`log, this`cached, dev`errnum, table
      ensures old(dev.errnum) != ErrNone ==> dev.errnum != ErrNone
      ensures inside ==>
        && TableHolds() && |log| <= journalBlockCount + 1 && nextTransId == Id32(flushed + 1 + |log|)
        && (dev.errnum == ErrNone ==> log == ring.Scan(first, flushed + 1, mount, journalBlockCount))
      ensures dev.errnum == ErrNone ==>
        (inside <==> !Overruns(ring.Scan(first, flushed + 1, mount, journalBlockCount)))
      ensures Healthy() && old(dev.errnum) == ErrNone ==> dev.errnum == ErrNone
    {
      var desc, commit := new byte[DESC_SIZE], new byte[DESC_SIZE];
      ghost var id0: nat, healthy := flushed + 1, Healthy() && dev.errnum == ErrNone;
      var descBlock, at := first, 0;
      nextTransId, inside := NextId(flushed), true;
      Id32Step(flushed);
      while true
        invariant old(dev.errnum) != ErrNone ==> dev.errnum != ErrNone
        invariant healthy ==> dev.errnum == ErrNone
        invariant AtTurn(ring, first, mount, id0, descBlock, nextTransId, log, dev.errnum == ErrNone, U32(desc[..], 0))
        invariant TableHolds() && TableEnd(at) && inside && !Overruns(log)
        decreases journalBlockCount + 2 - |log|
      {
        var valid;
        valid, descBlock, nextTransId, at, inside :=
          CollectOne(first, mount, id0, descBlock, nextTransId, at, desc, commit);
        if !inside {
          if dev.errnum == ErrNone { OverrunIsScanned(ring, first, mount, id0, descBlock, log); }
          return;
        }
        if !valid { break; }
      }
    }

    /** Reads the journal header: the last flushed id, the offset to start from, the mount id. */
    method ReadHeader() returns (flushed: u32, first: u32, mount: u32)
      requires dev.Valid() && RingIsOnDisk()
      modifies dev`errnum
      ensures dev.errnum == ErrNone ==>
        var n := journalBlockCount;
        flushed == ring.Word(n, 0) && first == ring.Word(n, 4) && mount == ring.Word(n, 8)
      ensures dev.bad == {} && old(dev.errnum) == ErrNone && InPart(journalBlock + journalBlockCount, 0, 12)
        ==> dev.errnum == ErrNone
    {
      var header := new byte[12];
      var _ := JournalRead(journalBlockCount, 12, header);
      flushed, first, mount := U32(header[..], 0), U32(header[..], 4), U32(header[..], 8);
      if dev.errnum == ErrNone {
        var p := Pos(journalBlock, blockSectors, journalBlockCount);
        assert BlockOnDisk(ring, dev.Part(), journalBlock, blockSectors, journalBlockCount);
        U32OfSlice(dev.Part(), p, 12, 0);
        U32OfSlice(dev.Part(), p, 12, 4);
        U32OfSlice(dev.Part(), p, 12, 8);
      }
    }

    /** `inside` is false if the caching of the log runs over the end of the table; what becomes of
        the memory behind it is not described. */
    method JournalInit() returns (ok: bool, inside: bool)
      requires Valid() && !active && log == [] && dev.errnum == ErrNone
      modifies this, dev`errnum, table
      ensures inside ==> Valid() && active
      ensures dev.errnum == ErrNone ==> (inside <==> !Overruns(ring.Log()))
      ensures inside && ok ==> dev.errnum == ErrNone
      ensures inside && dev.errnum == ErrNone ==> ok == (ring.Word(journalBlockCount, 4) < journalBlockCount)
      ensures Healthy() && old(dev.errnum) == ErrNone ==> dev.errnum == ErrNone
    {
      active := true;
      var flushed, first, mount := ReadHeader();
      if first >= journalBlockCount { return false, true; }
      journalFirstDesc := first;
      var nextTransId;
      nextTransId, inside := CollectTransactions(first, flushed, mount);
      if !inside { return false, false; }
      Id32Counts(flushed, |log|);
      journalTransactions := (nextTransId - flushed - 1) % WORD % 0x1_0000;
      return dev.errnum == ErrNone, true;
    }

    /** Searches the cached transaction at `p` of the table. */
    method SearchCached(p: nat, nr: nat, ghost home: seq<int>) returns (found: bool, i: nat, jLen: nat, next: nat)
      requires table.Length == JOURNAL_CAPACITY && p + 1 + |home| <= JOURNAL_CAPACITY
      requires table[p] == |home| && forall k :: 0 <= k < |home| ==> table[p + 1 + k] == home[k]
      ensures jLen == |home| && next == p + 1 + jLen
      ensures found <==> nr in home
      ensures found ==> i == IndexOf(home, nr) + 1
    {
      jLen := table[p];
      next := p + 1;
      i := 0;
      while i < jLen
        invariant i <= jLen && next == p + 1 + i
        invariant forall k :: 0 <= k < i ==> home[k] != nr
      {
        i := i + 1;
        next := next + 1;
        if table[next - 1] == nr {
          assert home[i - 1] == nr;
          next := next + (jLen - i);
          return true, i, jLen, next;
        }
      }
      return false, i, jLen, next;
    }

    /** Searches the blocks that the commit block of the transaction at `d` lists. */
    method SearchCommit(d: nat, nr: nat, jLen: nat) returns (ok: bool, found: bool, i: nat)
      requires Shape() && d < journalBlockCount && JOURNAL_TRANS_HALF <= jLen
      requires dev.errnum == ErrNone ==> ring.Len(d) == jLen <= 2 * JOURNAL_TRANS_HALF
      requires dev.errnum == ErrNone ==> forall k :: 0 <= k < JOURNAL_TRANS_HALF ==> ring.Home(d, k) != nr
      modifies dev`errnum
      ensures old(dev.errnum) != ErrNone ==> !ok && dev.errnum != ErrNone
      ensures !ok ==> dev.errnum != ErrNone
      ensures dev.errnum == ErrNone ==> FoundBy(ring, d, nr, found, i)
      ensures Healthy() && old(dev.errnum) == ErrNone ==> dev.errnum == ErrNone
    {
      var commit := new byte[DESC_SIZE];
      found, i := false, JOURNAL_TRANS_HALF;
      var commitBlock := Wrap(d + 1 + jLen, journalBlockCount);
      var r := ReadLogBlock(commitBlock, commit);
      if r == 0 { return false, false, 0; }
      ok := true;
      while i < jLen
        invariant JOURNAL_TRANS_HALF <= i <= jLen <= 2 * JOURNAL_TRANS_HALF
        invariant dev.errnum == ErrNone ==> forall k :: 0 <= k < i ==> ring.Home(d, k) != nr
      {
        i := i + 1;
        if U32(commit[..], 8 + 4 * (i - 1 - JOURNAL_TRANS_HALF)) == nr {
          if dev.errnum == ErrNone { FoundAt(ring, d, nr, i - 1); }
          found := true;
          return;
        }
      }
      if dev.errnum == ErrNone { FoundNowhere(ring, d, nr, i); }
    }

    /** Searches the transaction on disk at ring position `d`. */
    method SearchLogged(d: nat, nr: nat) returns (ok: bool, found: bool, i: nat, jLen: int)
      requires Shape() && d < journalBlockCount
      requires dev.errnum == ErrNone ==> ring.Len(d) <= 2 * JOURNAL_TRANS_HALF
      modifies dev`errnum
      ensures old(dev.errnum) != ErrNone ==> !ok && dev.errnum != ErrNone
      ensures !ok ==> dev.errnum != ErrNone
      ensures dev.errnum == ErrNone ==> jLen == ring.Len(d) && FoundBy(ring, d, nr, found, i)
      ensures Healthy() && old(dev.errnum) == ErrNone ==> dev.errnum == ErrNone
    {
      var desc := new byte[DESC_SIZE];
      found, i, jLen := false, 0, 0;
      var r := ReadLogBlock(d, desc);
      if r == 0 { return false, false, 0, 0; }
      ok := true;
      jLen := Signed(U32(desc[..], 4));
      while i < jLen && i < JOURNAL_TRANS_HALF
        invariant i <= JOURNAL_TRANS_HALF && (i == 0 || i <= jLen)
        invariant dev.errnum == ErrNone ==>
          ring.word(d, 4) == jLen && forall k :: 0 <= k < i ==> ring.Home(d, k) != nr
      {
        i := i + 1;
        if U32(desc[..], 12 + 4 * (i - 1)) == nr {
          if dev.errnum == ErrNone { FoundAt(ring, d, nr, i - 1); }
          found := true;
          return;
        }
      }
      if jLen >= JOURNAL_TRANS_HALF {
        ok, found, i := SearchCommit(d, nr, jLen);
      } else if dev.errnum == ErrNone {
        FoundNowhere(ring, d, nr, i);
      }
    }

    /** The search of `block_read` after `t` transactions. */
    ghost predicate Searched(t: nat, nr: nat, p: nat, descBlock: nat, translated: nat)
      requires Shape() && t <= |log| && cached <= log && (log != [] ==> journalBlockCount > 0)
      reads this, dev
    {
      && p == Offset(cached, if t < |cached| then t else |cached|)
      && (dev.errnum == ErrNone ==>
        && translated == Translate(log, t, nr, journalBlock, journalBlockCount)
        && (t < |log| ==> descBlock == log[t].desc))
    }

    /** No transaction of the log lists more blocks than descriptor and commit block have room for. */
    ghost predicate Bounded()
      reads this
    {
      forall t :: 0 <= t < |log| ==> |log[t].home| <= 2 * JOURNAL_TRANS_HALF
    }

    /** Transaction `t` of the log is the one on the disk, and the next one follows it. */
    ghost predicate Entry(t: nat)
      requires t < |log| && journalBlockCount == ring.count
      reads this
    {
      var d := log[t].desc;
      && d < journalBlockCount && ring.Len(d) <= 2 * JOURNAL_TRANS_HALF && log[t] == ring.At(d)
      && (t + 1 < |log| ==> log[t + 1].desc == ring.Next(d))
    }

    /** The first `n` transactions of the log are. */
    ghost predicate Entries(n: nat)
      requires n <= |log| && journalBlockCount == ring.count
      reads this
    {
      n > 0 ==> Entries(n - 1) && Entry(n - 1)
    }

    lemma {:induction false} EntryAt(n: nat, t: nat)
      requires t < n <= |log| && journalBlockCount == ring.count && Entries(n)
      ensures Entry(t)
      decreases n
    {
      if t < n - 1 { EntryAt(n - 1, t); }
    }

    lemma {:induction false} LogEntries(n: nat)
      requires Valid() && Bounded() && n <= |log| && dev.errnum == ErrNone
      ensures Entries(n)
      decreases n
    {
      if n > 0 {
        LogEntries(n - 1);
        LogEntry(n - 1);
      }
    }

    lemma {:induction false} LogEntry(t: nat)
      requires Valid() && Bounded() && t < |log| && dev.errnum == ErrNone
      ensures Entry(t)
      ensures t == 0 ==> log[t].desc == journalFirstDesc
    {
      ScanLinks(ring, ring.Word(journalBlockCount, 4), ring.Word(journalBlockCount, 0) + 1,
        ring.Word(journalBlockCount, 8), journalBlockCount, t);
    }

    /** Looks for a block in transaction `t` of the log, in the table or on the disk. */
    method SearchEntry(ghost t: nat, nr: nat, p: nat, descBlock: nat)
        returns (ok: bool, found: bool, i: nat, jLen: int, nextP: nat)
      requires Shape() && TableHolds() && t < |log| && descBlock < journalBlockCount
      requires dev.errnum == ErrNone ==> Entries(|log|) && descBlock == log[t].desc
      requires p == Offset(cached, if t < |cached| then t else |cached|)
      modifies dev`errnum
      ensures !ok ==> dev.errnum != ErrNone
      ensures old(dev.errnum) != ErrNone ==> dev.errnum != ErrNone
      ensures ok ==> nextP == Offset(cached, if t + 1 < |cached| then t + 1 else |cached|)
      ensures dev.errnum == ErrNone ==>
        && ok && jLen == ring.Len(descBlock) && (found <==> nr in log[t].home)
        && (found ==> i == IndexOf(log[t].home, nr) + 1)
      ensures Healthy() && old(dev.errnum) == ErrNone ==> dev.errnum == ErrNone
    {
      ghost var home := log[t].home;
      if dev.errnum == ErrNone { EntryAt(|log|, t); }
      if t < |cached| { assert Cached(table[..], cached, t); }
      ok := true;
      if table[p] != MARKER {
        found, i, jLen, nextP := SearchCached(p, nr, home);
        assert nextP == Offset(cached, t + 1);
      } else {
        assert |cached| <= t;
        nextP := p;
        ok, found, i, jLen := SearchLogged(descBlock, nr);
      }
    }

    /** One turn of the search of `block_read`. */
    method SearchTransaction(ghost t: nat, nr: nat, p: nat, descBlock: nat, translated: nat)
        returns (ok: bool, nextP: nat, nextDesc: nat, nextTranslated: nat)
      requires Shape() && TableHolds() && t < |log| && descBlock < journalBlockCount
      requires dev.errnum == ErrNone ==> Entries(|log|)
      requires Searched(t, nr, p, descBlock, translated)
      modifies dev`errnum
      ensures !ok ==> dev.errnum != ErrNone
      ensures old(dev.errnum) != ErrNone ==> dev.errnum != ErrNone
      ensures ok ==> nextDesc < journalBlockCount && Searched(t + 1, nr, nextP, nextDesc, nextTranslated)
      ensures Healthy() && old(dev.errnum) == ErrNone ==> dev.errnum == ErrNone
    {
      var found, i, jLen;
      nextTranslated := translated;
      ok, found, i, jLen, nextP := SearchEntry(t, nr, p, descBlock);
      if !ok { return false, p, descBlock, translated; }
      nextDesc := Wrap(descBlock + 2 + jLen, journalBlockCount);
      if found { nextTranslated := journalBlock + Wrap(descBlock + i, journalBlockCount); }
      SearchedOn(t, nr, nextP, found, i, jLen, descBlock, translated, nextTranslated);
    }

    /** What has been found in transaction `t` makes up the search after it. */
    lemma {:induction false} SearchedOn(t: nat, nr: nat, nextP: nat, found: bool, i: nat, jLen: int, desc: nat, before: nat, after: nat)
      requires Shape() && t < |log| && cached <= log && desc < journalBlockCount
      requires nextP == Offset(cached, if t + 1 < |cached| then t + 1 else |cached|)
      requires after == if found then journalBlock + Wrap(desc + i, journalBlockCount) else before
      requires dev.errnum == ErrNone ==>
        && Entries(|log|) && desc == log[t].desc && jLen == ring.Len(desc)
        && before == Translate(log, t, nr, journalBlock, journalBlockCount)
        && (found <==> nr in log[t].home) && (found ==> i == IndexOf(log[t].home, nr) + 1)
      ensures Searched(t + 1, nr, nextP, Wrap(desc + 2 + jLen, journalBlockCount), after)
    {
      if dev.errnum == ErrNone {
        EntryAt(|log|, t);
        FoldStep(log, t, nr, journalBlock, journalBlockCount);
      }
    }

    /** The read that `block_read` ends with. */
    method ReadAt(nr: nat, start: nat, len: nat, buffer: array<byte>, at: nat) returns (r: int)
      requires dev.Valid() && 0 < len && at + len <= buffer.Length
      modifies dev`errnum, buffer
      ensures old(dev.errnum) != ErrNone ==> dev.errnum != ErrNone
      ensures r == 0 || r == 1
      ensures r == 0 ==> dev.errnum != ErrNone
      ensures old(dev.errnum) != ErrNone ==> r == 0
      ensures forall k :: 0 <= k < buffer.Length && !(at <= k < at + len) ==> buffer[k] == old(buffer[k])
      ensures dev.errnum == ErrNone ==>
        var p := BlockPos(nr, blockSectors) + start;
        InPart(nr, start, len) && buffer[at..at + len] == dev.Part()[p..p + len]
      ensures dev.bad == {} && old(dev.errnum) == ErrNone && InPart(nr, start, len)
        ==> dev.errnum == ErrNone
    {
      r := dev.DevRead(BlockSector(nr, blockSectors), start, len, buffer, at);
    }

    /** All that the search of `block_read` needs to know of the log. */
    ghost predicate Searchable()
      reads this, dev, table
    {
      && Shape() && TableHolds() && journalTransactions <= |log|
      && (log != [] ==> journalFirstDesc < journalBlockCount)
      && (dev.errnum == ErrNone ==> Entries(|log|) && (log != [] ==> log[0].desc == journalFirstDesc))
    }

    lemma {:induction false} ValidIsSearchable()
      requires Valid() && Bounded()
      ensures Searchable()
    {
      if dev.errnum == ErrNone {
        LogEntries(|log|);
        if log != [] { LogEntry(0); }
      }
    }

    /** The search loop of `block_read`. */
    method TranslateBlock(nr: nat) returns (ok: bool, translated: nat)
      requires Searchable()
      modifies dev`errnum
      ensures !ok ==> dev.errnum != ErrNone
      ensures old(dev.errnum) != ErrNone ==> dev.errnum != ErrNone
      ensures dev.errnum == ErrNone ==> translated == Resolve(nr)
      ensures Healthy() && old(dev.errnum) == ErrNone ==> dev.errnum == ErrNone
    {
      var transactions := journalTransactions;
      var descBlock: nat := journalFirstDesc;
      translated := nr;
      var p: nat := 0;
      ghost var t := 0;
      while transactions > 0
        invariant t + transactions == journalTransactions
        invariant old(dev.errnum) != ErrNone ==> dev.errnum != ErrNone
        invariant Healthy() && old(dev.errnum) == ErrNone ==> dev.errnum == ErrNone
        invariant transactions > 0 ==> descBlock < journalBlockCount
        invariant Searched(t, nr, p, descBlock, translated)
        invariant dev.errnum == ErrNone ==> Entries(|log|)
      {
        ok, p, descBlock, translated := SearchTransaction(t, nr, p, descBlock, translated);
        if !ok { return; }
        transactions, t := transactions - 1, t + 1;
      }
      ok := true;
    }

    /** Reads `len` bytes at `start` of block `nr`, from the newest committed copy. */
    method BlockRead(nr: nat, start: nat, len: nat, buffer: array<byte>, at: nat) returns (r: int)
      requires Valid() && Bounded()
      requires 0 < len && at + len <= buffer.Length
      modifies dev`errnum, buffer
      ensures Valid()
      ensures old(dev.errnum) != ErrNone ==> r == 0 && dev.errnum != ErrNone
      ensures r == 0 ==> dev.errnum != ErrNone
      ensures forall k :: 0 <= k < buffer.Length && !(at <= k < at + len) ==> buffer[k] == old(buffer[k])
      ensures dev.errnum == ErrNone ==>
        var p := BlockPos(Resolve(nr), blockSectors) + start;
        InPart(Resolve(nr), start, len) && buffer[at..at + len] == dev.Part()[p..p + len]
      ensures Healthy() && old(dev.errnum) == ErrNone && InPart(Resolve(nr), start, len)
        ==> r == 1 && dev.errnum == ErrNone
    {
      ValidIsSearchable();
      var ok, translated := TranslateBlock(nr);
      if !ok { return 0; }
      r := ReadAt(translated, start, len, buffer, at);
    }

    /** The place of the newest copy of block `nr` in the whole log, or its home. */
    ghost function Newest(nr: nat): nat
      requires log != [] ==> journalBlockCount > 0
      reads this
    {
      Translate(log, |log|, nr, journalBlock, journalBlockCount)
    }

    /** The 16-bit transaction count loses nothing as long as the journal has fewer than
        65536 blocks; it is the true count exactly if that fits, and then every block is read from
        its newest copy. */
    lemma {:induction false} WholeLogIsUsed(nr: nat)
      requires Valid() && dev.errnum == ErrNone
      ensures journalTransactions == |log| <==> |log| < 0x1_0000
      ensures journalBlockCount < 0x1_0000 ==> journalTransactions == |log|
      ensures |log| < 0x1_0000 ==> Resolve(nr) == Newest(nr)
    {
      assert |ring.Log()| <= journalBlockCount;
    }

    /** From 65536 transactions on, a block that only later transactions than the first
        `|log| % 65536` log is read from its home. */
    lemma {:induction false} LateCopiesAreMissed(nr: nat)
      requires Valid() && dev.errnum == ErrNone
      requires forall t :: 0 <= t < |log| % 0x1_0000 ==> nr !in log[t].home
      ensures Resolve(nr) == nr
    {
      UnloggedStaysHome(log, journalTransactions, nr, journalBlock, journalBlockCount);
    }

    lemma {:induction false} LogIsLinked(n: nat)
      requires Valid() && dev.errnum == ErrNone && journalBlockCount > 0 && n <= |log|
      ensures Linked(log, n, journalFirstDesc, journalBlockCount)
      decreases n
    {
      if n > 0 {
        var c := journalBlockCount;
        LogIsLinked(n - 1);
        ScanLinks(ring, ring.Word(c, 4), ring.Word(c, 0) + 1, ring.Word(c, 8), c, if n == 1 then 0 else n - 2);
      }
    }

    /** In a log that does not run over its own beginning, a block outside the journal is read
        from its newest copy exactly if none of the transactions that the 16-bit count leaves out
        logs it. */
    lemma {:induction false} NewestIsRead(nr: nat)
      requires Valid() && dev.errnum == ErrNone && journalBlockCount > 0 && Span(log, |log|) <= journalBlockCount
      requires nr < journalBlock || nr >= journalBlock + journalBlockCount
      ensures Resolve(nr) == Newest(nr) <==> forall t :: |log| % 0x1_0000 <= t < |log| ==> nr !in log[t].home
    {
      LogIsLinked(|log|);
      PrefixSuffices(log, journalTransactions, journalFirstDesc, nr, journalBlock, journalBlockCount);
    }
  }
}
