/** The whole way of a network boot: what the TFTP client hands over goes to `load_block`, and the
    image in memory depends on the file alone. */
module NetBoot {
  import opened Disk
  import opened ElfLoader
  import Tftp

  /** The delivery is block `k + 1` of the file, numbered and with the end marked as `load_block`
      wants it. */
  predicate IsBlock(d: Tftp.Delivery, blocks: seq<seq<byte>>, k: nat) {
    k < |blocks| && d.payload == blocks[k] && d.number == k + 1 && d.eof == (k + 1 == |blocks|)
  }

  /** In every state of every run the deliveries are the first blocks of the file, whatever the network did. */
  lemma {:induction false} GivenAreBlocks(f: Tftp.Served, run: seq<Tftp.Sys>, i: nat)
    requires f.Valid() && Tftp.IsRun(f, run) && i < |run|
    ensures |run[i].given| <= |f.blocks|
    ensures forall k :: 0 <= k < |run[i].given| ==> IsBlock(run[i].given[k], f.blocks, k)
  {
    Tftp.TransferIsSafe(f, run, i);
  }

  /** All deliveries but the first go to `load_block`, until that starts the image. */
  method HandOverRest(loader: OsLoader, given: seq<Tftp.Delivery>, ghost blocks: seq<seq<byte>>,
      ghost file: seq<byte>, ghost before: seq<byte>)
    returns (n: nat)
    requires 0 < |given| <= |blocks| && IsCut(blocks, file) && loader.Taken(blocks, 1, file, before)
    requires forall k :: 0 <= k < |given| ==> IsBlock(given[k], blocks, k)
    modifies loader, loader.estate, loader.estate.mem
    ensures 0 < n <= |given| && (n == |given| || loader.estate.booted)
    ensures loader.Taken(blocks, n, file, before) && loader.estate.phdrs == old(loader.estate.phdrs)
  {
    n := 1;
    while n < |given| && !loader.estate.booted
      invariant 1 <= n <= |given|
      invariant loader.Taken(blocks, n, file, before) && loader.estate.phdrs == old(loader.estate.phdrs)
    {
      var _ := loader.LoadBlock(given[n].payload, given[n].number, given[n].eof, blocks, file, before);
      n := n + 1;
    }
  }

  /** Boots with what the client has handed over in any state of any run of the protocol: every
      delivery goes to `load_block`, until that starts the image. */
  method Boot(loader: OsLoader, given: seq<Tftp.Delivery>, ghost f: Tftp.Served, ghost run: seq<Tftp.Sys>, ghost i: nat)
    returns (accepted: bool)
    requires f.Valid() && Tftp.IsRun(f, run) && i < |run| && given == run[i].given
    requires !loader.estate.booted && loader.estate.Machine() && Presentable(f.blocks[0], loader.estate.ram)
    modifies loader, loader.estate, loader.estate.mem
    ensures |given| <= |f.blocks|
    ensures given == [] ==> !loader.estate.booted && loader.estate.mem[..] == old(loader.estate.mem[..])
    ensures accepted == (given != [] && Accepts(loader.estate.ram, f.blocks[0]))
    ensures !accepted ==> !loader.estate.booted
    ensures accepted ==> loader.estate.booted == StartedBy(Phdrs(f.blocks[0]), f.blocks, |given|)
    ensures accepted && !loader.estate.booted ==>
      && loader.estate.Shape() && loader.Ready(Start(f.blocks, |given|))
      && loader.Debt() == DebtAfter(Phdrs(f.blocks[0]), f.blocks, |given|)
    ensures accepted && loader.estate.booted ==>
      && Fits(Phdrs(f.blocks[0]), loader.estate.mem.Length)
      && Loaded(loader.estate.mem[..], old(loader.estate.mem[..]), Flatten(f.blocks), Phdrs(f.blocks[0]))
  {
    GivenAreBlocks(f, run, i);
    if given == [] { return false; }
    FlattenIsCut(f.blocks);
    ghost var file, before := Flatten(f.blocks), loader.estate.mem[..];
    assert IsBlock(given[0], f.blocks, 0);
    var r := loader.LoadBlock(given[0].payload, given[0].number, given[0].eof, f.blocks, file, before);
    if r == 0 { return false; }
    var n := HandOverRest(loader, given, f.blocks, file, before);
    if loader.estate.booted { loader.StartedEarlier(f.blocks, n, |given|, file, before); }
    return true;
  }

  lemma {:induction false} WordOfPrefix(a: seq<byte>, b: seq<byte>, p: nat)
    requires |a| <= |b| && a == b[..|a|] && p + 4 <= |a|
    ensures U32(a, p) == U32(b, p) && U16(a, p) == U16(b, p)
  {
    assert forall k :: 0 <= k < |a| ==> a[k] == b[..|a|][k] == b[k];
  }

  /** Headers that lie in the front of a file are the headers of the file. */
  lemma {:induction false} HeadersOfPrefix(a: seq<byte>, b: seq<byte>)
    requires |a| <= |b| && a == b[..|a|] && |a| >= EHDR_SIZE && HeadersFit(a)
    ensures HeadersFit(b) && Phdrs(b) == Phdrs(a)
  {
    WordOfPrefix(a, b, 28);
    WordOfPrefix(a, b, 44);
    forall i | 0 <= i < PhNum(a) ensures PhdrAt(a, i) == PhdrAt(b, i) {
      var p := PhOff(a) + i * PHDR_SIZE;
      WordOfPrefix(a, b, p);
      WordOfPrefix(a, b, p + 4);
      WordOfPrefix(a, b, p + 12);
      WordOfPrefix(a, b, p + 16);
      WordOfPrefix(a, b, p + 20);
    }
  }

  lemma {:induction false} FirstIsPrefix(blocks: seq<seq<byte>>)
    requires blocks != []
    ensures |blocks[0]| <= |Flatten(blocks)| && blocks[0] == Flatten(blocks)[..|blocks[0]|]
  {
    BlockIsPart(blocks, 0);
  }

  /** Two downloads of one file, cut into blocks of any sizes and over any two networks, leave
      the same memory behind, complete or not. */
  lemma {:induction false} CuttingDoesNotMatter(b: seq<seq<byte>>, b': seq<seq<byte>>, before: seq<byte>, m: seq<byte>, m': seq<byte>)
    requires b != [] && b' != [] && Flatten(b) == Flatten(b') && |m| == |m'| == |before|
    requires |b[0]| >= EHDR_SIZE && HeadersFit(b[0]) && |b'[0]| >= EHDR_SIZE && HeadersFit(b'[0])
    requires Fits(Phdrs(b[0]), |before|) && Fits(Phdrs(b'[0]), |before|)
    requires Loaded(m, before, Flatten(b), Phdrs(b[0])) && Loaded(m', before, Flatten(b'), Phdrs(b'[0]))
    ensures m == m'
  {
    FirstIsPrefix(b);
    FirstIsPrefix(b');
    HeadersOfPrefix(b[0], Flatten(b));
    HeadersOfPrefix(b'[0], Flatten(b));
    LoadedIsUnique(m, m', before, Flatten(b), Phdrs(b[0]));
  }

  /** Two machines alike boot one file, cut in two ways.  If both accept it, a file that has all
      the bytes its headers ask for is started on both; and whenever it is started on both, their
      memories are the same. */
  method BootTwice(a: OsLoader, a': OsLoader, b: seq<seq<byte>>, b': seq<seq<byte>>) returns (ok: bool, ok': bool)
    requires b != [] && b' != [] && Flatten(b) == Flatten(b')
    requires a != a' && a.estate != a'.estate && a.estate.mem != a'.estate.mem && a.estate.ram == a'.estate.ram
    requires !a.estate.booted && a.estate.Machine() && Presentable(b[0], a.estate.ram)
    requires !a'.estate.booted && a'.estate.Machine() && Presentable(b'[0], a'.estate.ram)
    requires a.estate.mem[..] == a'.estate.mem[..]
    modifies a, a.estate, a.estate.mem, a', a'.estate, a'.estate.mem
    ensures ok == Accepts(a.estate.ram, b[0]) && ok' == Accepts(a.estate.ram, b'[0])
    ensures ok && ok' && Covers(Flatten(b), Phdrs(b[0])) ==> a.estate.booted && a'.estate.booted
    ensures a.estate.booted && a'.estate.booted ==> a.estate.mem[..] == a'.estate.mem[..]
  {
    ghost var before := a.estate.mem[..];
    ok := a.LoadImage(b);
    ok' := a'.LoadImage(b');
    if ok && ok' {
      FirstIsPrefix(b);
      FirstIsPrefix(b');
      HeadersOfPrefix(b[0], Flatten(b));
      HeadersOfPrefix(b'[0], Flatten(b));
      if a.estate.booted && a'.estate.booted {
        CuttingDoesNotMatter(b, b', before, a.estate.mem[..], a'.estate.mem[..]);
      }
    }
  }
}
