/** The streaming ELF loader of etherboot/core/elf_loader.c and the block interface of
    etherboot/core/osloader.c that feeds it. */
module ElfLoader {
  import opened Disk

  const EHDR_SIZE: nat := 52
  const PHDR_SIZE: nat := 32
  const PHDR_ROOM: nat := 1024          // sizeof estate.p
  const PT_LOAD: nat := 1
  const ADDRESS_MASK: nat := 0x1000_0000  // addresses are reduced to their low 28 bits
  const ULONG: nat := 0x1_0000_0000

  datatype Phdr = Phdr(ptype: nat, offset: nat, paddr: nat, filesz: nat, memsz: nat) {
    predicate Load() { ptype == PT_LOAD }

    /** A segment for which bytes have to be taken from the file. */
    predicate Wanted() { Load() && filesz != 0 }

    function FileEnd(): nat { offset + filesz }
    function MemEnd(): nat { paddr + memsz }

    /** Neither end of the segment in memory leaves 32 bits. */
    predicate NoWrap() { paddr + filesz < ULONG && paddr + memsz < ULONG }

    predicate WordSized() { offset < ULONG && paddr < ADDRESS_MASK && filesz < ULONG && memsz < ULONG }
  }

  // ---------- the headers ----------

  predicate HeaderValid(data: seq<byte>)
    requires |data| >= EHDR_SIZE
  {
    && U32(data, 0) == 0x464c_457f                        // "\177ELF"
    && U16(data, 4) == 0x101 && data[6] == 1              // ELFCLASS32, ELFDATA2LSB, EV_CURRENT
    && U16(data, 16) == 2 && U32(data, 20) == 1           // ET_EXEC, EV_CURRENT
    && U16(data, 40) == EHDR_SIZE && U16(data, 42) == PHDR_SIZE
    && (U16(data, 18) == 3 || U16(data, 18) == 6)         // EM_386, EM_486
  }

  function PhNum(data: seq<byte>): nat
    requires |data| >= EHDR_SIZE
  {
    U16(data, 44)
  }

  function PhOff(data: seq<byte>): nat
    requires |data| >= EHDR_SIZE
  {
    U32(data, 28)
  }

  /** The program headers lie in the block and fit the loader's copy of them. */
  predicate HeadersFit(data: seq<byte>)
    requires |data| >= EHDR_SIZE
  {
    PhOff(data) + PhNum(data) * PHDR_SIZE <= |data| && PhNum(data) * PHDR_SIZE <= PHDR_ROOM
  }

  /** The test for that in `elf32_probe`, whose sum is taken in 32 bits. */
  predicate HeadersPass(data: seq<byte>)
    requires |data| >= EHDR_SIZE
  {
    (PhOff(data) + PhNum(data) * PHDR_SIZE) % ULONG <= |data| && PhNum(data) * PHDR_SIZE <= PHDR_ROOM
  }

  /** Program header `i`, its physical address masked. */
  function PhdrAt(data: seq<byte>, i: nat): Phdr
    requires |data| >= EHDR_SIZE && HeadersFit(data) && i < PhNum(data)
  {
    var p := PhOff(data) + i * PHDR_SIZE;
    Phdr(U32(data, p), U32(data, p + 4), U32(data, p + 12) % ADDRESS_MASK, U32(data, p + 16), U32(data, p + 20))
  }

  function Phdrs(data: seq<byte>): (ps: seq<Phdr>)
    requires |data| >= EHDR_SIZE && HeadersFit(data)
    ensures |ps| == PhNum(data)
  {
    seq(PhNum(data), i requires 0 <= i < PhNum(data) => PhdrAt(data, i))
  }

  // ---------- what loading an image means ----------

  predicate ApartInFile(a: Phdr, b: Phdr) {
    a.FileEnd() <= b.offset || b.FileEnd() <= a.offset
  }

  predicate ApartInMemory(a: Phdr, b: Phdr) {
    a.MemEnd() <= b.paddr || b.MemEnd() <= a.paddr
  }

  /** The segments take disjoint parts of the file and have disjoint targets. */
  ghost predicate Separate(ps: seq<Phdr>) {
    && (forall i, j :: 0 <= i < j < |ps| && ps[i].Wanted() && ps[j].Wanted() ==> ApartInFile(ps[i], ps[j]))
    && (forall i, j :: 0 <= i < j < |ps| && ps[i].Load() && ps[j].Load() ==> ApartInMemory(ps[i], ps[j]))
  }

  ghost predicate InTarget(ps: seq<Phdr>, a: nat) {
    exists i :: 0 <= i < |ps| && ps[i].Load() && ps[i].paddr <= a < ps[i].MemEnd()
  }

  /** The first `n` bytes of the segment are in place, as far as the file has them. */
  ghost predicate HasBytes(mem: seq<byte>, file: seq<byte>, ph: Phdr, n: nat)
    requires ph.paddr + n <= |mem|
  {
    forall k :: ph.paddr <= k < ph.paddr + n && ph.offset + k - ph.paddr < |file| ==> mem[k] == file[ph.offset + k - ph.paddr]
  }

  ghost predicate BssZero(mem: seq<byte>, ph: Phdr)
    requires ph.MemEnd() <= |mem|
  {
    forall k :: ph.paddr + ph.filesz <= k < ph.MemEnd() ==> mem[k] == 0
  }

  ghost predicate Fits(ps: seq<Phdr>, size: nat) {
    forall i :: 0 <= i < |ps| && ps[i].Load() ==> ps[i].filesz <= ps[i].memsz && ps[i].MemEnd() <= size
  }

  /** Where the file ends before the segment does, the memory is as it was. */
  ghost predicate KeepsRest(mem: seq<byte>, before: seq<byte>, file: seq<byte>, ph: Phdr)
    requires ph.paddr + ph.filesz <= |mem| == |before|
  {
    forall k :: ph.paddr <= k < ph.paddr + ph.filesz && ph.offset + k - ph.paddr >= |file| ==> mem[k] == before[k]
  }

  /** Nothing outside the targets has changed. */
  ghost predicate Untouched(mem: seq<byte>, before: seq<byte>, ps: seq<Phdr>)
    requires |mem| == |before|
  {
    forall a :: 0 <= a < |mem| && !InTarget(ps, a) ==> mem[a] == before[a]
  }

  /** The memory image that booting needs: every segment's bytes at its address, as far as the
      file has them, its bss zero, and all else as before. */
  ghost predicate Loaded(mem: seq<byte>, before: seq<byte>, file: seq<byte>, ps: seq<Phdr>)
    requires |mem| == |before| && Fits(ps, |mem|)
  {
    && (forall i :: 0 <= i < |ps| && ps[i].Load() ==>
      HasBytes(mem, file, ps[i], ps[i].filesz) && KeepsRest(mem, before, file, ps[i]) && BssZero(mem, ps[i]))
    && Untouched(mem, before, ps)
  }

  /** Every segment is over by file position `pos`. */
  ghost predicate CompleteBy(ps: seq<Phdr>, pos: nat) {
    forall i :: 0 <= i < |ps| && ps[i].Wanted() ==> ps[i].FileEnd() <= pos
  }

  /** The file has all the bytes that the segments ask for. */
  ghost predicate Covers(file: seq<byte>, ps: seq<Phdr>) {
    CompleteBy(ps, |file|)
  }

  /** The image is determined by the file and the memory before: however the file was cut
      into blocks, and whether or not it is complete, the result is the same. */
  lemma {:induction false} LoadedIsUnique(m: seq<byte>, m': seq<byte>, before: seq<byte>, file: seq<byte>, ps: seq<Phdr>)
    requires |m| == |m'| == |before| && Fits(ps, |before|)
    requires Loaded(m, before, file, ps) && Loaded(m', before, file, ps)
    ensures m == m'
  {
    forall a | 0 <= a < |m| ensures m[a] == m'[a] {
      if InTarget(ps, a) {
        var i :| 0 <= i < |ps| && ps[i].Load() && ps[i].paddr <= a < ps[i].MemEnd();
        assert HasBytes(m, file, ps[i], ps[i].filesz) && HasBytes(m', file, ps[i], ps[i].filesz);
        assert KeepsRest(m, before, file, ps[i]) && KeepsRest(m', before, file, ps[i]);
        assert BssZero(m, ps[i]) && BssZero(m', ps[i]);
      }
    }
  }

  /** An image loaded from a file that does not cover it lacks bytes: some segment ends with
      what was in memory before. */
  lemma {:induction false} TruncatedLacksBytes(mem: seq<byte>, before: seq<byte>, file: seq<byte>, ps: seq<Phdr>) returns (i: nat)
    requires |mem| == |before| && Fits(ps, |mem|) && Loaded(mem, before, file, ps) && !Covers(file, ps)
    ensures i < |ps| && ps[i].Wanted() && ps[i].FileEnd() > |file|
    ensures mem[ps[i].paddr + ps[i].filesz - 1] == before[ps[i].paddr + ps[i].filesz - 1]
  {
    i :| 0 <= i < |ps| && ps[i].Wanted() && ps[i].FileEnd() > |file|;
    assert KeepsRest(mem, before, file, ps[i]);
  }

  // ---------- which images are accepted ----------

  predicate InRam(ram: seq<(nat, nat)>, start: nat, end: nat) {
    exists i :: 0 <= i < |ram| && ram[i].0 <= start && end <= ram[i].0 + ram[i].1
  }

  /** A segment can be loaded: it is no longer in the file than in memory, and lies in one
      region of RAM. */
  predicate Acceptable(ram: seq<(nat, nat)>, ph: Phdr) {
    ph.filesz <= ph.memsz && InRam(ram, ph.paddr, ph.MemEnd())
  }

  /** The test for that in `elf32_probe` and `prep_segment`, with both ends taken in 32 bits. */
  predicate Passes(ram: seq<(nat, nat)>, ph: Phdr) {
    (ph.paddr + ph.filesz) % ULONG <= ph.MemEnd() % ULONG && InRam(ram, ph.paddr, ph.MemEnd() % ULONG)
  }

  predicate AllAcceptable(ram: seq<(nat, nat)>, ps: seq<Phdr>) {
    forall i :: 0 <= i < |ps| && ps[i].Load() ==> Acceptable(ram, ps[i])
  }

  predicate AllPass(ram: seq<(nat, nat)>, ps: seq<Phdr>) {
    forall i :: 0 <= i < |ps| && ps[i].Load() ==> Passes(ram, ps[i])
  }

  predicate NoneWraps(ps: seq<Phdr>) {
    forall i :: 0 <= i < |ps| && ps[i].Load() ==> ps[i].NoWrap()
  }

  /** The header is valid, the program headers are in the block, and every segment can be loaded. */
  predicate Accepts(ram: seq<(nat, nat)>, data: seq<byte>) {
    |data| >= EHDR_SIZE && HeaderValid(data) && HeadersFit(data) && AllAcceptable(ram, Phdrs(data))
  }

  /** The program headers as `elf32_probe` copies them: where the sum has wrapped, it copies
      `stray`, which lies elsewhere in memory. */
  function HeadersRead(data: seq<byte>, stray: seq<Phdr>): seq<Phdr>
    requires |data| >= EHDR_SIZE
  {
    if HeadersFit(data) then Phdrs(data) else stray
  }

  predicate HeaderPasses(data: seq<byte>) {
    |data| >= EHDR_SIZE && HeaderValid(data) && HeadersPass(data)
  }

  /** What `elf32_probe` really tests. */
  predicate Probes(ram: seq<(nat, nat)>, data: seq<byte>, stray: seq<Phdr>) {
    HeaderPasses(data) && AllPass(ram, HeadersRead(data, stray))
  }

  /** None of the sums that `elf32_probe` takes in 32 bits wraps. */
  predicate NothingWraps(data: seq<byte>) {
    |data| >= EHDR_SIZE ==>
      && PhOff(data) + PhNum(data) * PHDR_SIZE < ULONG
      && (HeadersFit(data) ==> NoneWraps(Phdrs(data)))
  }

  ghost predicate RamBelow(ram: seq<(nat, nat)>, size: nat) {
    forall i :: 0 <= i < |ram| ==> ram[i].0 + ram[i].1 <= size
  }

  /** A segment can be loaded exactly if it passes the test and neither of its ends wraps. */
  lemma {:induction false} PassesUnlessWrapped(ram: seq<(nat, nat)>, ph: Phdr, size: nat)
    requires RamBelow(ram, size) && size < ULONG
    ensures Acceptable(ram, ph) <==> Passes(ram, ph) && ph.NoWrap()
  {
    if Acceptable(ram, ph) {
      var i :| 0 <= i < |ram| && ram[i].0 <= ph.paddr && ph.MemEnd() <= ram[i].0 + ram[i].1;
      assert ph.NoWrap();
    }
  }

  lemma {:induction false} AllPassUnlessWrapped(ram: seq<(nat, nat)>, ps: seq<Phdr>, size: nat)
    requires RamBelow(ram, size) && size < ULONG
    ensures AllAcceptable(ram, ps) <==> AllPass(ram, ps) && NoneWraps(ps)
  {
    forall i | 0 <= i < |ps| ensures Acceptable(ram, ps[i]) <==> Passes(ram, ps[i]) && ps[i].NoWrap() {
      PassesUnlessWrapped(ram, ps[i], size);
    }
  }

  lemma {:induction false} PassUnlessWrapped(data: seq<byte>)
    requires EHDR_SIZE <= |data| < ULONG
    ensures HeadersFit(data) <==> HeadersPass(data) && PhOff(data) + PhNum(data) * PHDR_SIZE < ULONG
  {
    var sum := PhOff(data) + PhNum(data) * PHDR_SIZE;
    assert sum < ULONG ==> sum % ULONG == sum;
  }

  /** The probe makes the intended test exactly if none of its sums wraps. */
  lemma {:induction false} ProbeIsAccurate(ram: seq<(nat, nat)>, data: seq<byte>, stray: seq<Phdr>, size: nat)
    requires RamBelow(ram, size) && size < ULONG && |data| < ULONG
    ensures Accepts(ram, data) <==> Probes(ram, data, stray) && NothingWraps(data)
  {
    if |data| >= EHDR_SIZE {
      PassUnlessWrapped(data);
      if HeadersFit(data) { AllPassUnlessWrapped(ram, Phdrs(data), size); }
    }
  }

  // ---------- the cursor of the download ----------

  /** A segment that is not being copied is either finished or still ahead of file
      position `pos`. */
  ghost predicate Settled(mem: seq<byte>, file: seq<byte>, ph: Phdr, pos: nat, ahead: nat)
    requires ph.paddr + ph.filesz <= |mem|
  {
    (ph.FileEnd() <= pos && HasBytes(mem, file, ph, ph.filesz)) || ph.offset >= ahead
  }

  /** Copying `n` bytes of one segment leaves the others as they are. */
  lemma {:induction false} CopyKeepsOthers(before: seq<byte>, after: seq<byte>, original: seq<byte>, file: seq<byte>, ph: Phdr,
      a: nat, n: nat, k: nat)
    requires |before| == |after| == |original| && a + n <= |before|
    requires forall j :: 0 <= j < |before| && !(a <= j < a + n) ==> after[j] == before[j]
    requires ph.filesz <= ph.memsz && ph.MemEnd() <= |before| && k <= ph.filesz
    requires ph.MemEnd() <= a || a + n <= ph.paddr
    ensures HasBytes(before, file, ph, k) ==> HasBytes(after, file, ph, k)
    ensures BssZero(before, ph) ==> BssZero(after, ph)
    ensures KeepsRest(before, original, file, ph) ==> KeepsRest(after, original, file, ph)
  {
  }

  /** Copying the next `n` bytes of a segment extends what is in place. */
  lemma {:induction false} CopyExtends(before: seq<byte>, after: seq<byte>, original: seq<byte>, file: seq<byte>, ph: Phdr,
      done: nat, n: nat)
    requires |before| == |after| == |original| && ph.filesz <= ph.memsz && ph.MemEnd() <= |before|
    requires done + n <= ph.filesz && ph.offset + done + n <= |file|
    requires forall j :: 0 <= j < |before| && !(ph.paddr + done <= j < ph.paddr + done + n) ==> after[j] == before[j]
    requires forall j :: ph.paddr + done <= j < ph.paddr + done + n ==> after[j] == file[ph.offset + j - ph.paddr]
    requires HasBytes(before, file, ph, done)
    ensures HasBytes(after, file, ph, done + n)
    ensures BssZero(before, ph) ==> BssZero(after, ph)
    ensures KeepsRest(before, original, file, ph) ==> KeepsRest(after, original, file, ph)
  {
  }

  /** Of the first `n` segments every one but `s` is finished at file position `pos` or starts at
      `ahead` or later. */
  ghost predicate Others(ps: seq<Phdr>, n: nat, mem: seq<byte>, file: seq<byte>, s: int, pos: nat, ahead: nat)
    requires n <= |ps| && Fits(ps, |mem|)
  {
    n > 0 ==>
      && Others(ps, n - 1, mem, file, s, pos, ahead)
      && (n - 1 != s && ps[n - 1].Wanted() ==> Settled(mem, file, ps[n - 1], pos, ahead))
  }

  lemma {:induction false} OthersIs(ps: seq<Phdr>, n: nat, mem: seq<byte>, file: seq<byte>, s: int, pos: nat, ahead: nat)
    requires n <= |ps| && Fits(ps, |mem|)
    ensures Others(ps, n, mem, file, s, pos, ahead) <==>
      forall i :: 0 <= i < n && i != s && ps[i].Wanted() ==> Settled(mem, file, ps[i], pos, ahead)
  {
    if n > 0 { OthersIs(ps, n - 1, mem, file, s, pos, ahead); }
  }

  /** Nothing outside the targets has changed, and the first `n` segments have their bss zero and,
      where the file ends too early, what was in memory before. */
  ghost predicate Intact(ps: seq<Phdr>, n: nat, mem: seq<byte>, before: seq<byte>, file: seq<byte>)
    requires n <= |ps| && Fits(ps, |mem|) && |mem| == |before|
  {
    if n == 0 then Untouched(mem, before, ps)
    else
      && Intact(ps, n - 1, mem, before, file)
      && (ps[n - 1].Load() ==> BssZero(mem, ps[n - 1]) && KeepsRest(mem, before, file, ps[n - 1]))
  }

  lemma {:induction false} IntactIs(ps: seq<Phdr>, n: nat, mem: seq<byte>, before: seq<byte>, file: seq<byte>)
    requires n <= |ps| && Fits(ps, |mem|) && |mem| == |before|
    ensures Intact(ps, n, mem, before, file) <==>
      && Untouched(mem, before, ps)
      && forall i :: 0 <= i < n && ps[i].Load() ==> BssZero(mem, ps[i]) && KeepsRest(mem, before, file, ps[i])
  {
    if n > 0 { IntactIs(ps, n - 1, mem, before, file); }
  }

  /** The first `n` segments have all the bytes that the file has of them. */
  ghost predicate Filled(ps: seq<Phdr>, n: nat, mem: seq<byte>, file: seq<byte>)
    requires n <= |ps| && Fits(ps, |mem|)
  {
    n > 0 ==>
      && Filled(ps, n - 1, mem, file)
      && (ps[n - 1].Wanted() ==> HasBytes(mem, file, ps[n - 1], ps[n - 1].filesz))
  }

  lemma {:induction false} FilledIs(ps: seq<Phdr>, n: nat, mem: seq<byte>, file: seq<byte>)
    requires n <= |ps| && Fits(ps, |mem|)
    ensures Filled(ps, n, mem, file) <==>
      forall i :: 0 <= i < n && ps[i].Wanted() ==> HasBytes(mem, file, ps[i], ps[i].filesz)
  {
    if n > 0 { FilledIs(ps, n - 1, mem, file); }
  }

  lemma {:induction false} LoadedIs(ps: seq<Phdr>, mem: seq<byte>, before: seq<byte>, file: seq<byte>)
    requires Fits(ps, |mem|) && |mem| == |before|
    ensures Loaded(mem, before, file, ps) <==> Intact(ps, |ps|, mem, before, file) && Filled(ps, |ps|, mem, file)
  {
    IntactIs(ps, |ps|, mem, before, file);
    FilledIs(ps, |ps|, mem, file);
    assert forall i :: 0 <= i < |ps| && ps[i].Load() && !ps[i].Wanted() ==> HasBytes(mem, file, ps[i], ps[i].filesz);
  }

  /** What copying the next `n` bytes of segment `s` does to the image as a whole. */
  lemma {:induction false} CopyStep(ps: seq<Phdr>, before: seq<byte>, after: seq<byte>, original: seq<byte>, file: seq<byte>,
      s: nat, done: nat, n: nat, pos: nat, ahead: nat)
    requires |before| == |after| == |original| && Fits(ps, |before|) && Separate(ps)
    requires s < |ps| && ps[s].Wanted() && done + n <= ps[s].filesz && ps[s].offset + done + n <= |file|
    requires forall j :: 0 <= j < |before| && !(ps[s].paddr + done <= j < ps[s].paddr + done + n) ==> after[j] == before[j]
    requires forall j :: ps[s].paddr + done <= j < ps[s].paddr + done + n ==> after[j] == file[ps[s].offset + j - ps[s].paddr]
    requires HasBytes(before, file, ps[s], done) && Others(ps, |ps|, before, file, s, pos, ahead)
    requires Intact(ps, |ps|, before, original, file)
    ensures HasBytes(after, file, ps[s], done + n) && Others(ps, |ps|, after, file, s, pos, ahead)
    ensures Intact(ps, |ps|, after, original, file)
  {
    IntactIs(ps, |ps|, before, original, file);
    IntactIs(ps, |ps|, after, original, file);
    OthersIs(ps, |ps|, before, file, s, pos, ahead);
    OthersIs(ps, |ps|, after, file, s, pos, ahead);
    CopyExtends(before, after, original, file, ps[s], done, n);
    forall i | 0 <= i < |ps| && i != s && ps[i].Load()
      ensures BssZero(after, ps[i]) && KeepsRest(after, original, file, ps[i])
      ensures ps[i].Wanted() ==> Settled(after, file, ps[i], pos, ahead)
    {
      assert if i < s then ApartInMemory(ps[i], ps[s]) else ApartInMemory(ps[s], ps[i]);
      CopyKeepsOthers(before, after, original, file, ps[i], ps[s].paddr + done, n, ps[i].filesz);
      assert ps[i].Wanted() ==> Settled(before, file, ps[i], pos, ahead);
    }
  }

  /** Settled segments stay settled as the file position moves on. */
  lemma {:induction false} SettledLater(ps: seq<Phdr>, mem: seq<byte>, file: seq<byte>, s: int, pos: nat, next: nat, ahead: nat)
    requires Fits(ps, |mem|) && pos <= next && Others(ps, |ps|, mem, file, s, pos, ahead)
    ensures Others(ps, |ps|, mem, file, s, next, ahead)
  {
    OthersIs(ps, |ps|, mem, file, s, pos, ahead);
    OthersIs(ps, |ps|, mem, file, s, next, ahead);
    forall i | 0 <= i < |ps| && i != s && ps[i].Wanted() ensures Settled(mem, file, ps[i], next, ahead) {
      assert Settled(mem, file, ps[i], pos, ahead);
    }
  }

  /** A segment that is complete joins the settled ones. */
  lemma {:induction false} SegmentSettled(ps: seq<Phdr>, mem: seq<byte>, file: seq<byte>, s: nat)
    requires Fits(ps, |mem|) && s < |ps| && ps[s].Wanted() && HasBytes(mem, file, ps[s], ps[s].filesz)
    requires Others(ps, |ps|, mem, file, s, ps[s].FileEnd(), ps[s].FileEnd())
    ensures Others(ps, |ps|, mem, file, -1, ps[s].FileEnd(), ps[s].FileEnd())
  {
    OthersIs(ps, |ps|, mem, file, s, ps[s].FileEnd(), ps[s].FileEnd());
    OthersIs(ps, |ps|, mem, file, -1, ps[s].FileEnd(), ps[s].FileEnd());
    forall i | 0 <= i < |ps| && ps[i].Wanted() ensures Settled(mem, file, ps[i], ps[s].FileEnd(), ps[s].FileEnd()) {
      assert i != s ==> Settled(mem, file, ps[i], ps[s].FileEnd(), ps[s].FileEnd());
    }
  }

  /** `data` is what the file holds from byte `pos` on. */
  ghost predicate PartOf(data: seq<byte>, file: seq<byte>, pos: nat) {
    pos + |data| <= |file| && file[pos..pos + |data|] == data
  }

  /** How far ahead of file position `pos` the next byte is that one of the first `n` segments
      needs; -1 if there is none. */
  function Gap(ps: seq<Phdr>, n: nat, pos: nat): (g: int)
    requires n <= |ps|
    ensures g >= -1
  {
    if n == 0 then -1
    else
      var g, ph := Gap(ps, n - 1, pos), ps[n - 1];
      if !ph.Wanted() || ph.FileEnd() <= pos then g
      else
        var d := if ph.offset > pos then ph.offset - pos else 0;
        if g == -1 || d < g then d else g
  }

  lemma {:induction false} NoGap(ps: seq<Phdr>, n: nat, pos: nat)
    requires n <= |ps|
    ensures Gap(ps, n, pos) == -1 <==> forall i :: 0 <= i < n && ps[i].Wanted() ==> ps[i].FileEnd() <= pos
  {
    if n > 0 { NoGap(ps, n - 1, pos); }
  }

  lemma {:induction false} NoGapStays(ps: seq<Phdr>, pos: nat, next: nat)
    requires pos <= next && Gap(ps, |ps|, pos) == -1
    ensures Gap(ps, |ps|, next) == -1
  {
    NoGap(ps, |ps|, pos);
    NoGap(ps, |ps|, next);
  }

  /** The gap leads to the segment that is the nearest. */
  lemma {:induction false} GapIs(ps: seq<Phdr>, n: nat, pos: nat, s: nat, d: nat)
    requires n <= |ps| && s < |ps| && ps[s].Wanted() && ps[s].FileEnd() > pos
    requires d == if ps[s].offset > pos then ps[s].offset - pos else 0
    requires forall i :: 0 <= i < n && i != s && ps[i].Wanted() ==> ps[i].FileEnd() <= pos || ps[i].offset >= pos + d
    ensures if s < n then Gap(ps, n, pos) == d else Gap(ps, n, pos) == -1 || Gap(ps, n, pos) >= d
  {
    if n > 0 { GapIs(ps, n - 1, pos, s, d); }
  }

  lemma {:induction false} PartOfRest(data: seq<byte>, file: seq<byte>, pos: nat, n: nat)
    requires PartOf(data, file, pos) && n <= |data|
    ensures PartOf(data[n..], file, pos + n)
  {
    SliceOfSlice(file, pos, |data|, n, |data|);
  }

  // ---------- preparing memory ----------

  /** The bss of a loadable segment has been cleared, and nothing else has changed. */
  ghost predicate Cleared(before: seq<byte>, after: seq<byte>, ph: Phdr) {
    && |before| == |after|
    && forall k :: 0 <= k < |after| ==>
      after[k] == if ph.Load() && ph.paddr + ph.filesz <= k < ph.MemEnd() then 0 else before[k]
  }

  ghost predicate InBss(ps: seq<Phdr>, a: nat) {
    exists i :: 0 <= i < |ps| && ps[i].Load() && ps[i].paddr + ps[i].filesz <= a < ps[i].MemEnd()
  }

  /** The first `n` segments fit the memory and their bss is zero; outside bss all is as before. */
  ghost predicate Prepared(ps: seq<Phdr>, n: nat, mem: seq<byte>, before: seq<byte>)
    requires n <= |ps|
  {
    && |mem| == |before|
    && (forall i :: 0 <= i < n && ps[i].Load() ==>
      ps[i].filesz <= ps[i].memsz && ps[i].MemEnd() <= |mem| && BssZero(mem, ps[i]))
    && (forall a :: 0 <= a < |mem| && !InBss(ps, a) ==> mem[a] == before[a])
  }

  lemma {:induction false} PreparedStep(ps: seq<Phdr>, n: nat, now: seq<byte>, next: seq<byte>, before: seq<byte>,
      ram: seq<(nat, nat)>)
    requires n < |ps| && Prepared(ps, n, now, before) && Cleared(now, next, ps[n])
    requires RamBelow(ram, |now|) && (ps[n].Load() ==> Acceptable(ram, ps[n]))
    ensures Prepared(ps, n + 1, next, before)
  {
    forall i | 0 <= i < n && ps[i].Load() ensures BssZero(next, ps[i]) {
      assert BssZero(now, ps[i]);
    }
  }

  /** As the segments are apart, clearing bss has left all the rest of the targets alone. */
  lemma {:induction false} PreparedIsReady(ps: seq<Phdr>, mem: seq<byte>, before: seq<byte>, file: seq<byte>)
    requires Prepared(ps, |ps|, mem, before) && Separate(ps)
    ensures Fits(ps, |mem|) && Intact(ps, |ps|, mem, before, file)
  {
    forall a | 0 <= a < |mem| && !InTarget(ps, a) ensures mem[a] == before[a] {
      assert !InBss(ps, a);
    }
    forall i, k | 0 <= i < |ps| && ps[i].Load() && ps[i].paddr <= k < ps[i].paddr + ps[i].filesz
      ensures mem[k] == before[k]
    {
      forall j | 0 <= j < |ps| && ps[j].Load() ensures !(ps[j].paddr + ps[j].filesz <= k < ps[j].MemEnd()) {
        if i < j { assert ApartInMemory(ps[i], ps[j]); }
        if j < i { assert ApartInMemory(ps[j], ps[i]); }
      }
      assert !InBss(ps, k);
    }
    IntactIs(ps, |ps|, mem, before, file);
  }

  /** The static `estate`, together with the memory it loads into. */
  class ElfState {
    const mem: array<byte>
    const ram: seq<(nat, nat)>     // start and size of each E820_RAM region
    var phdrs: seq<Phdr>
    var segment: int               // current segment number, -1 for none
    var loc: nat                   // start offset of current block
    var skip: nat                  // padding to be skipped to current segment
    var toread: nat                // remaining data to be read in the segment
    var curaddr: nat
    var booted: bool               // control has passed to the image
    ghost var before: seq<byte>    // the memory before the image was looked at
    ghost var file: seq<byte>

    constructor (mem: array<byte>, ram: seq<(nat, nat)>)
      requires RamBelow(ram, mem.Length) && mem.Length < ULONG
      ensures this.mem == mem && this.ram == ram && !booted && phdrs == [] && Machine()
    {
      this.mem, this.ram := mem, ram;
      phdrs, segment, loc, skip, toread, curaddr, booted := [], -1, 0, 0, 0, 0, false;
      before, file := [], [];
    }

    /** The memory is addressed with 32 bits, and has the regions the memory map names. */
    ghost predicate Machine() {
      mem.Length < ULONG && RamBelow(ram, mem.Length)
    }

    ghost predicate Shape()
      reads this`before, this`phdrs, this`file, mem
    {
      && |before| == mem.Length && Fits(phdrs, mem.Length) && Separate(phdrs)
      && Intact(phdrs, |phdrs|, mem[..], before, file)
    }

    /** Every segment but `s` is finished at file position `pos` or starts at `ahead` or later. */
    ghost predicate OthersSettled(s: int, pos: nat, ahead: nat)
      requires Fits(phdrs, mem.Length)
      reads this`phdrs, this`file, mem
    {
      Others(phdrs, |phdrs|, mem[..], file, s, pos, ahead)
    }

    /** The cursor of the download at file position `pos`: the next byte the current segment
        needs is `skip` ahead, `toread` more are due, and they go to `curaddr`. */
    ghost predicate Copying(pos: nat)
      requires Fits(phdrs, mem.Length)
      reads this`segment, this`skip, this`toread, this`curaddr, this`phdrs, this`file, mem
    {
      && 0 <= segment < |phdrs|
      && var ph := phdrs[segment];
      && ph.Wanted() && 0 < toread <= ph.filesz
      && pos + skip + toread == ph.FileEnd()
      && (skip > 0 ==> toread == ph.filesz)
      && curaddr + toread == ph.paddr + ph.filesz
      && HasBytes(mem[..], file, ph, ph.filesz - toread)
      && OthersSettled(segment, pos, pos + skip + toread)
    }

    /** Between two blocks: nothing chosen yet, or in the middle of a segment. */
    ghost predicate Waiting(pos: nat)
      requires Fits(phdrs, mem.Length)
      reads this`segment, this`skip, this`toread, this`curaddr, this`phdrs, this`file, mem
    {
      if segment == -1 then skip == 0 && toread == 0 && OthersSettled(-1, pos, pos) else Copying(pos)
    }

    /** The selection loop of `elf32_download`: the segment with the lowest file offset not
        yet passed. */
    method FindSegment(pos: nat)
      requires Shape() && OthersSettled(-1, pos, pos)
      modifies this`segment
      ensures -1 <= segment < |phdrs|
      ensures segment >= 0 ==> phdrs[segment].Wanted() && phdrs[segment].offset >= pos
      ensures segment >= 0 ==> OthersSettled(segment, pos, phdrs[segment].FileEnd())
      ensures segment == -1 ==> Gap(phdrs, |phdrs|, pos) == -1
      ensures segment == -1 ==> Filled(phdrs, |phdrs|, mem[..], file)
    {
      segment := -1;
      var i := 0;
      while i < |phdrs|
        invariant 0 <= i <= |phdrs| && -1 <= segment < i
        invariant segment >= 0 ==> phdrs[segment].Wanted() && phdrs[segment].offset >= pos
        invariant forall j :: 0 <= j < i && phdrs[j].Wanted() && phdrs[j].offset >= pos ==>
          segment >= 0 && phdrs[segment].offset <= phdrs[j].offset
      {
        if phdrs[i].ptype == PT_LOAD && phdrs[i].filesz != 0 && phdrs[i].offset >= pos
          && !(segment != -1 && phdrs[i].offset >= phdrs[segment].offset)
        {
          segment := i;
        }
        i := i + 1;
      }
      if segment >= 0 { NextIsAhead(pos); } else { AllAreOver(pos); }
    }

    /** What follows the segment with the lowest offset not yet passed lies behind its end. */
    lemma {:induction false} NextIsAhead(pos: nat)
      requires Shape() && OthersSettled(-1, pos, pos)
      requires 0 <= segment < |phdrs| && phdrs[segment].Wanted() && phdrs[segment].offset >= pos
      requires forall j :: 0 <= j < |phdrs| && phdrs[j].Wanted() && phdrs[j].offset >= pos ==>
        phdrs[segment].offset <= phdrs[j].offset
      ensures OthersSettled(segment, pos, phdrs[segment].FileEnd())
    {
      OthersIs(phdrs, |phdrs|, mem[..], file, -1, pos, pos);
      OthersIs(phdrs, |phdrs|, mem[..], file, segment, pos, phdrs[segment].FileEnd());
      forall j | 0 <= j < |phdrs| && j != segment && phdrs[j].Wanted()
        ensures Settled(mem[..], file, phdrs[j], pos, phdrs[segment].FileEnd())
      {
        assert Settled(mem[..], file, phdrs[j], pos, pos);
        assert if j < segment then ApartInFile(phdrs[j], phdrs[segment]) else ApartInFile(phdrs[segment], phdrs[j]);
      }
    }

    lemma {:induction false} AllAreOver(pos: nat)
      requires Shape() && OthersSettled(-1, pos, pos)
      requires forall j :: 0 <= j < |phdrs| && phdrs[j].Wanted() ==> phdrs[j].offset < pos
      ensures Gap(phdrs, |phdrs|, pos) == -1 && Filled(phdrs, |phdrs|, mem[..], file)
    {
      OthersIs(phdrs, |phdrs|, mem[..], file, -1, pos, pos);
      forall j | 0 <= j < |phdrs| && phdrs[j].Wanted()
        ensures HasBytes(mem[..], file, phdrs[j], phdrs[j].filesz) && phdrs[j].FileEnd() <= pos
      {
        assert Settled(mem[..], file, phdrs[j], pos, pos);
      }
      NoGap(phdrs, |phdrs|, pos);
      FilledIs(phdrs, |phdrs|, mem[..], file);
    }

    method MemCpy(dest: nat, data: seq<byte>, offset: nat, n: nat)
      requires dest + n <= mem.Length && offset + n <= |data|
      modifies mem
      ensures forall j :: dest <= j < dest + n ==> mem[j] == data[offset + j - dest]
      ensures forall j :: 0 <= j < mem.Length && !(dest <= j < dest + n) ==> mem[j] == old(mem[j])
    {
      forall j | dest <= j < dest + n { mem[j] := data[offset + j - dest]; }
    }

    /** The copying part of `elf32_download`: as much of the current segment as the block has. */
    method CopyBytes(data: seq<byte>, offset: nat) returns (next: nat)
      requires Shape() && Copying(loc + offset) && skip == 0
      requires offset <= |data| && PartOf(data, file, loc)
      modifies this`toread, this`curaddr, mem
      ensures Shape() && offset <= next <= |data|
      ensures next + toread == offset + old(toread)
      ensures toread > 0 ==> next == |data| && Copying(loc + next)
      ensures toread == 0 ==> OthersSettled(-1, loc + next, loc + next)
    {
      ghost var ph, image := phdrs[segment], mem[..];
      ghost var done, end := ph.filesz - toread, ph.FileEnd();
      var cplen := |data| - offset;
      if cplen >= toread { cplen := toread; }
      MemCpy(curaddr, data, offset, cplen);
      CopyStep(phdrs, image, mem[..], before, file, segment, done, cplen, loc + offset, end);
      curaddr, toread, next := curaddr + cplen, toread - cplen, offset + cplen;
      SettledLater(phdrs, mem[..], file, segment, loc + offset, loc + next, end);
      if toread == 0 { SegmentSettled(phdrs, mem[..], file, segment); }
    }

    /** The skipping part of `elf32_download`. */
    method SkipPadding(len: nat, offset: nat) returns (exhausted: bool, next: nat)
      requires Shape() && Copying(loc + offset) && offset <= len
      modifies this`skip
      ensures Shape() && Copying(loc + next) && offset <= next <= len
      ensures if exhausted then next == len else skip == 0
    {
      ghost var end := phdrs[segment].FileEnd();
      exhausted, next := false, offset;
      if skip != 0 {
        if skip >= len - offset {
          skip := skip - (len - offset);
          exhausted, next := true, len;
        } else {
          next := offset + skip;
          skip := 0;
        }
        SettledLater(phdrs, mem[..], file, segment, loc + offset, loc + next, end);
      }
    }

    /** Goes on to the next segment; if there is none, starts the image. */
    method NextSegment(offset: nat)
      requires !booted && Shape() && OthersSettled(-1, loc + offset, loc + offset)
      modifies this`segment, this`curaddr, this`skip, this`toread, this`booted
      ensures Shape()
      ensures booted ==> Filled(phdrs, |phdrs|, mem[..], file) && Gap(phdrs, |phdrs|, loc + offset) == -1
      ensures !booted ==> Copying(loc + offset)
    {
      FindSegment(loc + offset);
      if segment == -1 {
        booted := true;
        return;
      }
      curaddr := phdrs[segment].paddr;
      skip := phdrs[segment].offset - (loc + offset);
      toread := phdrs[segment].filesz;
    }

    /** Serves the current segment from the block, until one of them is used up. */
    method Consume(data: seq<byte>, offset: nat) returns (stop: bool, next: nat)
      requires Shape() && Copying(loc + offset) && offset <= |data| && PartOf(data, file, loc)
      modifies this`skip, this`toread, this`curaddr, mem
      ensures Shape() && offset <= next <= |data|
      ensures stop ==> next == |data| && Copying(loc + next)
      ensures !stop ==> next > offset && OthersSettled(-1, loc + next, loc + next)
    {
      stop, next := SkipPadding(|data|, offset);
      if stop { return; }
      assert toread > 0 && PartOf(data, file, loc);
      next := CopyBytes(data, next);
      stop := toread != 0;
    }

    /** One turn of the loop of `elf32_download`: `more` says whether to go round again. */
    method LoadSome(data: seq<byte>, offset: nat) returns (more: bool, next: nat)
      requires !booted && Shape() && Waiting(loc + offset)
      requires offset <= |data| && PartOf(data, file, loc)
      modifies this`segment, this`skip, this`toread, this`curaddr, this`booted, mem
      ensures Shape() && offset <= next <= |data|
      ensures booted ==> Filled(phdrs, |phdrs|, mem[..], file) && Gap(phdrs, |phdrs|, loc + next) == -1
      ensures !booted ==> Copying(loc + next)
      ensures !more && !booted ==> next == |data|
      ensures more ==> !booted && next < |data| && (next > offset || old(segment) == -1)
    {
      next := offset;
      if segment != -1 {
        var stop;
        stop, next := Consume(data, offset);
        if stop { return false, next; }
      }
      NextSegment(next);
      more := !booted && next < |data|;
    }

    /** The loop of `elf32_download`. */
    method LoadLoop(data: seq<byte>)
      requires !booted && Shape() && Waiting(loc) && PartOf(data, file, loc)
      modifies this`segment, this`skip, this`toread, this`curaddr, this`booted, mem
      ensures Shape()
      ensures booted ==> Filled(phdrs, |phdrs|, mem[..], file) && Gap(phdrs, |phdrs|, loc + |data|) == -1
      ensures !booted ==> Copying(loc + |data|)
    {
      var more, offset := LoadSome(data, 0);
      while more
        invariant Shape() && 0 <= offset <= |data|
        invariant booted ==> !more && Filled(phdrs, |phdrs|, mem[..], file) && Gap(phdrs, |phdrs|, loc + offset) == -1
        invariant !booted ==> Copying(loc + offset) && (more || offset == |data|)
        decreases |data| - offset, more
      {
        more, offset := LoadSome(data, offset);
      }
      if booted { NoGapStays(phdrs, loc + offset, loc + |data|); }
    }

    /** In the middle of a download the way to the next byte needed is `skip`. */
    lemma {:induction false} SkipIsGap(pos: nat)
      requires Fits(phdrs, mem.Length) && Copying(pos)
      ensures Gap(phdrs, |phdrs|, pos) == skip
    {
      OthersIs(phdrs, |phdrs|, mem[..], file, segment, pos, pos + skip + toread);
      forall i | 0 <= i < |phdrs| && i != segment && phdrs[i].Wanted()
        ensures phdrs[i].FileEnd() <= pos || phdrs[i].offset >= pos + skip
      {
        assert Settled(mem[..], file, phdrs[i], pos, pos + skip + toread);
      }
      GapIs(phdrs, |phdrs|, pos, segment, skip);
    }

    /** At the end of the file the image is as complete as it can be. */
    lemma {:induction false} TruncatedIsFilled(pos: nat)
      requires Shape() && Copying(pos) && pos >= |file|
      ensures Filled(phdrs, |phdrs|, mem[..], file)
    {
      OthersIs(phdrs, |phdrs|, mem[..], file, segment, pos, pos + skip + toread);
      forall i | 0 <= i < |phdrs| && phdrs[i].Wanted() ensures HasBytes(mem[..], file, phdrs[i], phdrs[i].filesz) {
        assert i != segment ==> Settled(mem[..], file, phdrs[i], pos, pos + skip + toread);
      }
      FilledIs(phdrs, |phdrs|, mem[..], file);
    }

    /** `elf32_download`: takes the next block of the file; returns the number of whole
        sectors after it that are not needed.  At the end of the file, or as soon as every
        segment is in place, the image is started. */
    method Download(data: seq<byte>, eof: bool) returns (skipSectors: nat)
      requires !booted && Shape() && Waiting(loc) && PartOf(data, file, loc)
      requires eof ==> loc + |data| == |file|
      modifies this`segment, this`loc, this`skip, this`toread, this`curaddr, this`booted, mem
      ensures Shape()
      ensures booted <==> Gap(phdrs, |phdrs|, old(loc) + |data|) == -1 || eof
      ensures booted ==> Filled(phdrs, |phdrs|, mem[..], file)
      ensures !booted ==> Copying(loc) && loc == old(loc) + |data| + skipSectors * SECTOR_SIZE
      ensures !booted ==> skipSectors == Gap(phdrs, |phdrs|, old(loc) + |data|) / SECTOR_SIZE
    {
      LoadLoop(data);
      if booted { return 0; }
      skipSectors := EndBlock(|data|);
      if eof { StartKernel(); }
    }

    /** The end of the file: the image is started as it is. */
    method StartKernel()
      requires !booted && Shape() && Copying(loc) && loc >= |file|
      modifies this`booted
      ensures booted && Shape() && Filled(phdrs, |phdrs|, mem[..], file)
    {
      TruncatedIsFilled(loc);
      booted := true;
    }

    /** The end of `elf32_download`: whole sectors of padding are left to the caller to skip. */
    method EndBlock(len: nat) returns (skipSectors: nat)
      requires !booted && Shape() && Copying(loc + len)
      modifies this`loc, this`skip
      ensures Shape() && Copying(loc) && skip < SECTOR_SIZE
      ensures loc == old(loc) + len + skipSectors * SECTOR_SIZE
      ensures Gap(phdrs, |phdrs|, old(loc) + len) >= 0
      ensures skipSectors == Gap(phdrs, |phdrs|, old(loc) + len) / SECTOR_SIZE
    {
      SkipIsGap(loc + len);
      ghost var pos := loc + len;
      skipSectors := skip / SECTOR_SIZE;
      loc := loc + len + skipSectors * SECTOR_SIZE;
      skip := skip % SECTOR_SIZE;
      SettledLater(phdrs, mem[..], file, segment, pos, loc, phdrs[segment].FileEnd());
    }

    /** `prep_segment`: checks a segment by its three addresses and clears its bss. */
    method PrepSegment(start: nat, mid: nat, end: nat) returns (ok: bool)
      requires Machine()
      modifies mem
      ensures ok <==> mid <= end && InRam(ram, start, end)
      ensures ok ==> end <= mem.Length
      ensures forall k :: 0 <= k < mem.Length ==> mem[k] == if ok && mid <= k < end then 0 else old(mem[k])
    {
      if mid > end { return false; }
      var fit, i := false, 0;
      while i < |ram| && !fit
        invariant 0 <= i <= |ram|
        invariant fit ==> InRam(ram, start, end)
        invariant !fit ==> forall j :: 0 <= j < i ==> !(ram[j].0 <= start && end <= ram[j].0 + ram[j].1)
      {
        if ram[i].0 <= start && end <= ram[i].0 + ram[i].1 { fit := true; }
        i := i + 1;
      }
      if !fit { return false; }
      forall k | mid <= k < end { mem[k] := 0; }
      return true;
    }

    /** One turn of the loop over the segments in `elf32_probe`, which adds in 32 bits. */
    method PrepOne() returns (ok: bool)
      requires Machine() && 0 <= segment < |phdrs|
      modifies mem
      ensures ok <==> (phdrs[segment].Load() ==> Passes(ram, phdrs[segment]))
      ensures forall k :: 0 <= k < mem.Length ==> mem[k] == old(mem[k]) || mem[k] == 0
      ensures ok && (phdrs[segment].Load() ==> phdrs[segment].NoWrap()) ==>
        Cleared(old(mem[..]), mem[..], phdrs[segment])
    {
      var ph := phdrs[segment];
      if ph.ptype != PT_LOAD { return true; }
      ok := PrepSegment(ph.paddr, (ph.paddr + ph.filesz) % ULONG, (ph.paddr + ph.memsz) % ULONG);
    }

    /** The loop over the segments in `elf32_probe`. */
    method PrepAll() returns (ok: bool)
      requires Machine() && before == mem[..]
      modifies this`segment, mem
      ensures ok <==> AllPass(ram, phdrs)
      ensures ok && NoneWraps(phdrs) ==> Prepared(phdrs, |phdrs|, mem[..], before)
      ensures forall k :: 0 <= k < mem.Length ==> mem[k] == old(mem[k]) || mem[k] == 0
    {
      segment := 0;
      while segment < |phdrs|
        invariant 0 <= segment <= |phdrs|
        invariant forall i :: 0 <= i < segment && phdrs[i].Load() ==> Passes(ram, phdrs[i])
        invariant (forall i :: 0 <= i < segment && phdrs[i].Load() ==> phdrs[i].NoWrap()) ==>
          Prepared(phdrs, segment, mem[..], before)
        invariant forall k :: 0 <= k < mem.Length ==> mem[k] == old(mem[k]) || mem[k] == 0
      {
        ghost var now := mem[..];
        PassesUnlessWrapped(ram, phdrs[segment], mem.Length);
        ok := PrepOne();
        if !ok { return false; }
        if forall i :: 0 <= i <= segment && phdrs[i].Load() ==> phdrs[i].NoWrap() {
          PreparedStep(phdrs, segment, now, mem[..], before, ram);
        }
        segment := segment + 1;
      }
      return true;
    }

    /** The tests of `elf32_probe` on the header, and its copying of the program headers. */
    method ReadHeaders(data: seq<byte>, stray: seq<Phdr>) returns (ok: bool)
      modifies this`phdrs
      ensures ok <==> HeaderPasses(data)
      ensures ok ==> phdrs == HeadersRead(data, stray)
    {
      if |data| < EHDR_SIZE { return false; }
      if !HeaderValid(data) { return false; }
      if !HeadersPass(data) { return false; }
      phdrs := HeadersRead(data, stray);
      return true;
    }

    /** `elf32_probe`: accepts an image by its first block and prepares memory for it.  `stray` is
        what is copied in place of program headers whose position has wrapped. */
    method Probe(data: seq<byte>, stray: seq<Phdr>, ghost image: seq<byte>) returns (ok: bool)
      requires Machine() && |data| < ULONG
      modifies this, mem
      ensures ok <==> Probes(ram, data, stray)
      ensures booted == old(booted) && file == image && before == old(mem[..])
      ensures ok ==> phdrs == HeadersRead(data, stray) && loc == 0 && segment == -1
      ensures ok && NoneWraps(phdrs) && Separate(phdrs) ==> Shape() && Waiting(0)
      ensures forall k :: 0 <= k < mem.Length ==> mem[k] == old(mem[k]) || mem[k] == 0
    {
      before, file := mem[..], image;
      ok := ReadHeaders(data, stray);
      if !ok { return false; }
      ok := PrepAll();
      if !ok { return false; }
      segment, loc, skip, toread := -1, 0, 0, 0;
      if NoneWraps(phdrs) && Separate(phdrs) { PreparedIsWaiting(); }
      return true;
    }

    lemma {:induction false} PreparedIsWaiting()
      requires Prepared(phdrs, |phdrs|, mem[..], before) && Separate(phdrs) && segment == -1 && skip == 0 && toread == 0
      ensures Shape() && Waiting(0)
    {
      PreparedIsReady(phdrs, mem[..], before, file);
      OthersIs(phdrs, |phdrs|, mem[..], file, -1, 0, 0);
    }
  }

  // ---------- blocks ----------

  function Flatten(blocks: seq<seq<byte>>): seq<byte> {
    if blocks == [] then [] else Flatten(blocks[..|blocks| - 1]) + blocks[|blocks| - 1]
  }

  /** The file position at which block `i` starts. */
  function Start(blocks: seq<seq<byte>>, i: nat): nat
    requires i <= |blocks|
  {
    if i == 0 then 0 else Start(blocks, i - 1) + |blocks[i - 1]|
  }

  lemma {:induction false} BlockIsPart(blocks: seq<seq<byte>>, i: nat)
    requires i < |blocks|
    ensures PartOf(blocks[i], Flatten(blocks), Start(blocks, i))
    decreases |blocks|
  {
    var front := blocks[..|blocks| - 1];
    StartOfFront(blocks, i);
    if i < |front| {
      BlockIsPart(front, i);
    } else {
      StartIsLength(front);
    }
  }

  lemma {:induction false} StartOfFront(blocks: seq<seq<byte>>, i: nat)
    requires i < |blocks|
    ensures Start(blocks[..|blocks| - 1], i) == Start(blocks, i)
  {
    if i > 0 { StartOfFront(blocks, i - 1); }
  }

  lemma {:induction false} StartIsLength(blocks: seq<seq<byte>>)
    ensures Start(blocks, |blocks|) == |Flatten(blocks)|
    decreases |blocks|
  {
    if blocks != [] {
      StartIsLength(blocks[..|blocks| - 1]);
      StartOfFront(blocks, |blocks| - 1);
    }
  }

  /** The first `n` blocks stand one after the other in the file. */
  ghost predicate InFile(blocks: seq<seq<byte>>, n: nat, file: seq<byte>)
    requires n <= |blocks|
  {
    n > 0 ==> InFile(blocks, n - 1, file) && PartOf(blocks[n - 1], file, Start(blocks, n - 1))
  }

  /** `file` has been cut into `blocks`. */
  ghost predicate IsCut(blocks: seq<seq<byte>>, file: seq<byte>) {
    InFile(blocks, |blocks|, file) && |file| == Start(blocks, |blocks|)
  }

  lemma {:induction false} InFileAt(blocks: seq<seq<byte>>, n: nat, file: seq<byte>, i: nat)
    requires i < n <= |blocks| && InFile(blocks, n, file)
    ensures PartOf(blocks[i], file, Start(blocks, i))
  {
    if i < n - 1 { InFileAt(blocks, n - 1, file, i); }
  }

  lemma {:induction false} FlattenInFile(blocks: seq<seq<byte>>, n: nat)
    requires n <= |blocks|
    ensures InFile(blocks, n, Flatten(blocks))
  {
    if n > 0 {
      FlattenInFile(blocks, n - 1);
      BlockIsPart(blocks, n - 1);
    }
  }

  lemma {:induction false} FlattenIsCut(blocks: seq<seq<byte>>)
    ensures IsCut(blocks, Flatten(blocks))
  {
    FlattenInFile(blocks, |blocks|);
    StartIsLength(blocks);
  }

  lemma {:induction false} StartIsMonotone(blocks: seq<seq<byte>>, n: nat, m: nat)
    requires n <= m <= |blocks|
    ensures Start(blocks, n) <= Start(blocks, m)
  {
    if n < m { StartIsMonotone(blocks, n, m - 1); }
  }

  // ---------- when an image is started ----------

  /** What is left of the bytes to be skipped when `n` blocks have come and the image has not been
      started: whole sectors before the next byte that is needed. */
  function DebtAfter(ps: seq<Phdr>, blocks: seq<seq<byte>>, n: nat): (d: nat)
    requires n <= |blocks|
  {
    if n == 0 then 0 else NextDebt(ps, DebtAfter(ps, blocks, n - 1), |blocks[n - 1]|, Start(blocks, n))
  }

  /** The bytes of the whole sectors among the next `gap`. */
  function WholeSectors(gap: int): nat {
    if gap < 0 then 0 else gap / SECTOR_SIZE * SECTOR_SIZE
  }

  /** What is to be skipped after a block that ends at `end`, when it was `d` before it. */
  function NextDebt(ps: seq<Phdr>, d: nat, len: nat, end: nat): nat {
    if d >= len then d - len else WholeSectors(Gap(ps, |ps|, end))
  }

  /** The image is started with one of the first `n` blocks: when its segments are over, or with
      the last block of the file, if that reaches beyond what is to be skipped. */
  ghost predicate StartedBy(ps: seq<Phdr>, blocks: seq<seq<byte>>, n: nat)
    requires 0 < n <= |blocks|
  {
    || Gap(ps, |ps|, Start(blocks, n)) == -1
    || (n == |blocks| && |blocks[n - 1]| > DebtAfter(ps, blocks, n - 1))
  }

  lemma {:induction false} StartedStays(ps: seq<Phdr>, blocks: seq<seq<byte>>, n: nat, m: nat)
    requires 0 < n <= m <= |blocks| && StartedBy(ps, blocks, n)
    ensures StartedBy(ps, blocks, m)
  {
    StartIsMonotone(blocks, n, m);
    if Gap(ps, |ps|, Start(blocks, n)) == -1 { NoGapStays(ps, Start(blocks, n), Start(blocks, m)); }
  }

  /** What is assumed of the first block of a file: none of the sums over its headers wraps, and
      its segments are apart. */
  ghost predicate Presentable(data: seq<byte>, ram: seq<(nat, nat)>) {
    && |data| < ULONG && NothingWraps(data)
    && (Accepts(ram, data) ==> Separate(Phdrs(data)))
  }

  // ---------- examples ----------

  const EXAMPLE_RAM: seq<(nat, nat)> := [(0, 0x400_0000)]

  /** Byte `k` of a file for the i386 with one program header: a segment of 100 bytes at file
      offset `at`, which is to go to 0x100000. */
  function ExampleByte(k: nat, at: nat): byte
    requires at < 0x1_0000
  {
    match k
    case 0 => 0x7f case 1 => 0x45 case 2 => 0x4c case 3 => 0x46
    case 4 => 1 case 5 => 1 case 6 => 1
    case 16 => 2 case 18 => 3 case 20 => 1
    case 28 => 52 case 40 => 52 case 42 => 32 case 44 => 1
    case 52 => 1 case 56 => at % 256 case 57 => at / 256
    case 66 => 0x10 case 68 => 100 case 72 => 100
    case _ => 0
  }

  /** The first block of such a file. */
  function ExampleBlock(at: nat): (b: seq<byte>)
    requires at < 0x1_0000
  {
    seq(SECTOR_SIZE, k requires 0 <= k < SECTOR_SIZE => ExampleByte(k, at))
  }

  /** The segment the example has. */
  function ExampleSegment(at: nat): Phdr {
    Phdr(PT_LOAD, at, 0x10_0000, 100, 100)
  }

  /** A block that begins as the example does, but perhaps for e_phoff. */
  lemma {:induction false} BeginsValid(b: seq<byte>)
    requires |b| == SECTOR_SIZE && forall k :: 0 <= k < EHDR_SIZE && !(28 <= k < 32) ==> b[k] == ExampleByte(k, 0)
    ensures HeaderValid(b) && PhNum(b) == 1
  {
  }

  /** A block with one program header, right behind the ELF header. */
  lemma {:induction false} HasOneHeader(b: seq<byte>, ph: Phdr)
    requires |b| == SECTOR_SIZE && HeaderValid(b) && PhNum(b) == 1 && PhOff(b) == EHDR_SIZE
    requires ph == Phdr(U32(b, 52), U32(b, 56), U32(b, 64) % ADDRESS_MASK, U32(b, 68), U32(b, 72))
    ensures HeadersFit(b) && HeadersPass(b) && Phdrs(b) == [ph]
  {
    assert PhdrAt(b, 0) == ph;
  }

  lemma {:induction false} HasOneSegment(b: seq<byte>, ph: Phdr, stray: seq<Phdr>)
    requires |b| == SECTOR_SIZE && HeaderValid(b) && HeadersFit(b) && HeadersPass(b) && Phdrs(b) == [ph] && ph.Load()
    ensures Accepts(EXAMPLE_RAM, b) <==> Acceptable(EXAMPLE_RAM, ph)
    ensures Probes(EXAMPLE_RAM, b, stray) <==> Passes(EXAMPLE_RAM, ph)
  {
    var ps := Phdrs(b);
    assert ps[0] == ph;
  }

  lemma {:induction false} ExampleHeaders(at: nat)
    requires at < 0x1_0000
    ensures Accepts(EXAMPLE_RAM, ExampleBlock(at)) && Presentable(ExampleBlock(at), EXAMPLE_RAM)
    ensures Phdrs(ExampleBlock(at)) == [ExampleSegment(at)]
  {
    var b := ExampleBlock(at);
    BeginsValid(b);
    HasOneHeader(b, ExampleSegment(at));
    HasOneSegment(b, ExampleSegment(at), []);
    assert Acceptable(EXAMPLE_RAM, ExampleSegment(at)) by { assert EXAMPLE_RAM[0] == (0, 0x400_0000); }
  }

  lemma {:induction false} ExampleDebt(at: nat, first: seq<byte>, last: seq<byte>)
    requires |first| == 512 && |last| == 10 && at >= 522
    ensures !Covers(Flatten([first, last]), [ExampleSegment(at)])
    ensures Gap([ExampleSegment(at)], 1, Start([first, last], 2)) == at - 522
    ensures DebtAfter([ExampleSegment(at)], [first, last], 1) == (at - 512) / SECTOR_SIZE * SECTOR_SIZE
  {
    var ps, blocks := [ExampleSegment(at)], [first, last];
    StartIsLength(blocks);
    assert Start(blocks, 1) == 512 && Start(blocks, 2) == 522;
    assert ps[0].Wanted() && ps[0].FileEnd() > |Flatten(blocks)|;
    GapIs(ps, 1, 512, 0, at - 512);
    GapIs(ps, 1, 522, 0, at - 522);
    assert DebtAfter(ps, blocks, 0) == 0;
  }

  /** A file whose segment is to begin at 600 but which ends at 522 is started, with no byte of
      its segment in memory: nothing is to be skipped before its last block. */
  lemma {:induction false} StartedTruncated(first: seq<byte>, last: seq<byte>)
    requires |first| == 512 && |last| == 10
    ensures !Covers(Flatten([first, last]), [ExampleSegment(600)])
    ensures StartedBy([ExampleSegment(600)], [first, last], 2)
  {
    ExampleDebt(600, first, last);
  }

  /** A file whose segment is to begin at 2048 and which ends at 522 is never started: its last
      block lies within the 1536 bytes to be skipped. */
  lemma {:induction false} NeverStarted(first: seq<byte>, last: seq<byte>)
    requires |first| == 512 && |last| == 10
    ensures !Covers(Flatten([first, last]), [ExampleSegment(2048)])
    ensures !StartedBy([ExampleSegment(2048)], [first, last], 2)
  {
    ExampleDebt(2048, first, last);
  }

  /** The example with e_phoff 0xffffffe0. */
  function WrappedHeader(): (b: seq<byte>)
    ensures |b| == SECTOR_SIZE
  {
    seq(SECTOR_SIZE, k requires 0 <= k < SECTOR_SIZE =>
      if k == 28 then 0xe0 else if 29 <= k < 32 then 0xff else ExampleByte(k, 600))
  }

  /** The sum of e_phoff and one program header is 0 in 32 bits: the probe accepts this block,
      whose program header does not lie in it, by whatever lies in the 32 bytes before it. */
  lemma {:induction false} WrappedHeaderPasses(stray: seq<Phdr>)
    ensures !HeadersFit(WrappedHeader()) && !Accepts(EXAMPLE_RAM, WrappedHeader())
    ensures Probes(EXAMPLE_RAM, WrappedHeader(), stray) <==> AllPass(EXAMPLE_RAM, stray)
    ensures AllPass(EXAMPLE_RAM, [ExampleSegment(600)])
  {
    var b := WrappedHeader();
    BeginsValid(b);
    assert PhOff(b) == 0xffff_ffe0;
    assert EXAMPLE_RAM[0] == (0, 0x400_0000);
  }

  /** A segment that claims 0xffffffff bytes of the file and 0x1000 of memory. */
  const LONG_SEGMENT: Phdr := Phdr(PT_LOAD, 600, 0x10_0000, 0xffff_ffff, 0x1000)

  /** The example with that segment. */
  function WrappedSegment(): (b: seq<byte>)
    ensures |b| == SECTOR_SIZE
  {
    seq(SECTOR_SIZE, k requires 0 <= k < SECTOR_SIZE =>
      if 68 <= k < 72 then 0xff else if k == 72 then 0 else if k == 73 then 0x10 else ExampleByte(k, 600))
  }

  lemma {:induction false} WrappedSegmentHeaders()
    ensures var b := WrappedSegment(); HeaderValid(b) && HeadersFit(b) && HeadersPass(b) && Phdrs(b) == [LONG_SEGMENT]
  {
    BeginsValid(WrappedSegment());
    HasOneHeader(WrappedSegment(), LONG_SEGMENT);
  }

  lemma {:induction false} LongSegmentPasses()
    ensures Passes(EXAMPLE_RAM, LONG_SEGMENT) && !Acceptable(EXAMPLE_RAM, LONG_SEGMENT)
    ensures (LONG_SEGMENT.paddr + LONG_SEGMENT.filesz) % ULONG == LONG_SEGMENT.paddr - 1
  {
    assert EXAMPLE_RAM[0] == (0, 0x400_0000);
  }

  /** The probe accepts it, and the clearing of the bss begins one byte below the segment. */
  lemma {:induction false} WrappedSegmentPasses(stray: seq<Phdr>)
    ensures Probes(EXAMPLE_RAM, WrappedSegment(), stray) && !Accepts(EXAMPLE_RAM, WrappedSegment())
    ensures HeadersFit(WrappedSegment()) && Phdrs(WrappedSegment()) == [LONG_SEGMENT]
    ensures (LONG_SEGMENT.paddr + LONG_SEGMENT.filesz) % ULONG == LONG_SEGMENT.paddr - 1
  {
    WrappedSegmentHeaders();
    HasOneSegment(WrappedSegment(), LONG_SEGMENT, stray);
    LongSegmentPasses();
  }

  /** The static variables of `load_block`. */
  class OsLoader {
    const estate: ElfState
    var active: bool            // os_download is set
    var skipSectors: nat
    var skipBytes: nat

    constructor (estate: ElfState)
      ensures this.estate == estate && !active
    {
      this.estate, active, skipSectors, skipBytes := estate, false, 0, 0;
    }

    /** What is still to be skipped. */
    function Debt(): nat
      reads this
    {
      skipSectors * SECTOR_SIZE + skipBytes
    }

    /** After `pos` bytes of the file: the debt leads to where the loader goes on. */
    ghost predicate Ready(pos: nat)
      requires Fits(estate.phdrs, estate.mem.Length)
      reads this, estate, estate.mem
    {
      active && skipBytes < SECTOR_SIZE && estate.Waiting(estate.loc) && pos + Debt() == estate.loc
    }

    /** The arithmetic of `load_block` on a block that is skipped altogether: the debt falls
        by exactly its length, and the byte part stays below a sector. */
    method PayDebt(len: nat)
      requires skipBytes < SECTOR_SIZE && Debt() >= len
      modifies this`skipSectors, this`skipBytes
      ensures Debt() == old(Debt()) - len && skipBytes < SECTOR_SIZE
    {
      if skipBytes < len {
        var borrow := len - skipBytes + 511;
        skipSectors := skipSectors - borrow / SECTOR_SIZE;
        skipBytes := skipBytes + borrow / SECTOR_SIZE * SECTOR_SIZE;
      }
      skipBytes := skipBytes - len;
    }

    lemma {:induction false} NotOver(pos: nat)
      requires estate.Shape() && estate.Copying(estate.loc) && pos <= estate.loc
      ensures Gap(estate.phdrs, |estate.phdrs|, pos) != -1
    {
      estate.SkipIsGap(estate.loc);
      if Gap(estate.phdrs, |estate.phdrs|, pos) == -1 { NoGapStays(estate.phdrs, pos, estate.loc); }
    }

    /** A block that lies wholly within what is to be skipped. */
    method Swallow(len: nat, ghost pos: nat)
      requires !estate.booted && estate.Shape() && Ready(pos) && Debt() >= len && estate.segment >= 0
      modifies this`skipSectors, this`skipBytes
      ensures Ready(pos + len) && Debt() == old(Debt()) - len
      ensures Gap(estate.phdrs, |estate.phdrs|, pos + len) != -1
    {
      NotOver(pos + len);
      PayDebt(len);
    }

    /** A block that reaches beyond what is to be skipped: the rest of it goes to the loader. */
    method PassOn(data: seq<byte>, eof: bool, ghost pos: nat)
      requires !estate.booted && PartOf(data, estate.file, pos) && estate.Shape() && Ready(pos) && Debt() < |data|
      requires eof ==> pos + |data| == |estate.file|
      modifies this`skipSectors, this`skipBytes, estate, estate.mem
      ensures estate.file == old(estate.file) && estate.phdrs == old(estate.phdrs) && estate.before == old(estate.before)
      ensures estate.Shape()
      ensures estate.booted <==> Gap(estate.phdrs, |estate.phdrs|, pos + |data|) == -1 || eof
      ensures estate.booted ==> Filled(estate.phdrs, |estate.phdrs|, estate.mem[..], estate.file)
      ensures !estate.booted ==> Ready(pos + |data|) && estate.segment >= 0
      ensures !estate.booted ==> Debt() == WholeSectors(Gap(estate.phdrs, |estate.phdrs|, pos + |data|))
    {
      var debt := skipSectors * SECTOR_SIZE + skipBytes;
      PartOfRest(data, estate.file, pos, debt);
      var rest := data[debt..];
      assert estate.loc + |rest| == pos + |data|;
      var sectors := estate.Download(rest, eof);
      skipSectors, skipBytes := sectors, 0;
    }

    /** The second half of `load_block`: the part of a block that is not skipped goes to the
        loader. */
    method Feed(data: seq<byte>, eof: bool, ghost pos: nat)
      requires !estate.booted && PartOf(data, estate.file, pos) && estate.Shape() && Ready(pos)
      requires eof ==> pos + |data| == |estate.file|
      requires Debt() < |data| || estate.segment >= 0
      modifies this`skipSectors, this`skipBytes, estate, estate.mem
      ensures estate.file == old(estate.file) && estate.phdrs == old(estate.phdrs) && estate.before == old(estate.before)
      ensures estate.Shape()
      ensures estate.booted <==>
        Gap(estate.phdrs, |estate.phdrs|, pos + |data|) == -1 || (eof && |data| > old(Debt()))
      ensures estate.booted ==> Filled(estate.phdrs, |estate.phdrs|, estate.mem[..], estate.file)
      ensures !estate.booted ==> Ready(pos + |data|) && estate.segment >= 0
      ensures !estate.booted ==> Debt() == NextDebt(estate.phdrs, old(Debt()), |data|, pos + |data|)
    {
      var len := |data|;
      if skipSectors > len / SECTOR_SIZE || (skipSectors == len / SECTOR_SIZE && skipBytes >= len % SECTOR_SIZE) {
        Swallow(len, pos);
      } else {
        PassOn(data, eof, pos);
      }
    }

    /** The first `n` blocks have been taken: everything that holds between two blocks. */
    ghost predicate Taken(blocks: seq<seq<byte>>, n: nat, file: seq<byte>, before: seq<byte>)
      requires n <= |blocks|
      reads this, estate, estate.mem
    {
      if n == 0 then
        !estate.booted && estate.Machine() && before == estate.mem[..]
      else
        && estate.file == file && estate.before == before && estate.Shape()
        && estate.booted == StartedBy(estate.phdrs, blocks, n)
        && (estate.booted ==> Filled(estate.phdrs, |estate.phdrs|, estate.mem[..], estate.file))
        && (!estate.booted ==>
          && Ready(Start(blocks, n)) && estate.segment >= 0
          && Debt() == DebtAfter(estate.phdrs, blocks, n))
    }

    /** `load_block` on the first block of a file. */
    method LoadFirst(data: seq<byte>, eof: bool, ghost blocks: seq<seq<byte>>, ghost file: seq<byte>,
        ghost before: seq<byte>)
      returns (r: int)
      requires IsCut(blocks, file) && blocks != [] && data == blocks[0] && (eof <==> |blocks| == 1)
      requires Presentable(data, estate.ram) && Taken(blocks, 0, file, before)
      modifies this, estate, estate.mem
      ensures r == if Accepts(estate.ram, data) then 1 else 0
      ensures r == 0 ==> !estate.booted
      ensures r == 1 ==> Taken(blocks, 1, file, before) && estate.phdrs == Phdrs(data)
    {
      InFileAt(blocks, |blocks|, file, 0);
      skipSectors, skipBytes := 0, 0;
      ProbeIsAccurate(estate.ram, data, [], estate.mem.Length);
      active := estate.Probe(data, [], file);
      if !active { return 0; }
      assert Start(blocks, 1) == Start(blocks, 0) + |data|;
      Feed(data, eof, 0);
      return 1;
    }

    /** `load_block` on a later block. */
    method LoadNext(data: seq<byte>, n: nat, eof: bool, ghost blocks: seq<seq<byte>>, ghost file: seq<byte>,
        ghost before: seq<byte>)
      requires IsCut(blocks, file) && !estate.booted && 0 < n < |blocks|
      requires data == blocks[n] && (eof <==> n + 1 == |blocks|)
      requires Taken(blocks, n, file, before)
      modifies this`skipSectors, this`skipBytes, estate, estate.mem
      ensures Taken(blocks, n + 1, file, before) && estate.phdrs == old(estate.phdrs)
    {
      InFileAt(blocks, |blocks|, file, n);
      ghost var ps, pos, debt := estate.phdrs, Start(blocks, n), Debt();
      assert Start(blocks, n + 1) == pos + |data|;
      assert DebtAfter(ps, blocks, n + 1) == NextDebt(ps, debt, |data|, pos + |data|);
      Feed(data, eof, pos);
    }

    /** `load_block`: number `block` of the blocks of a file, `eof` on the last one. */
    method LoadBlock(data: seq<byte>, block: nat, eof: bool, ghost blocks: seq<seq<byte>>, ghost file: seq<byte>,
        ghost before: seq<byte>)
      returns (r: int)
      requires IsCut(blocks, file) && !estate.booted && 1 <= block <= |blocks|
      requires data == blocks[block - 1] && (eof <==> block == |blocks|)
      requires Taken(blocks, block - 1, file, before) && (block == 1 ==> Presentable(data, estate.ram))
      modifies this, estate, estate.mem
      ensures r == if block > 1 || Accepts(estate.ram, data) then 1 else 0
      ensures r == 0 ==> !estate.booted
      ensures r == 1 ==> Taken(blocks, block, file, before)
      ensures r == 1 ==> estate.phdrs == if block == 1 then Phdrs(data) else old(estate.phdrs)
    {
      if block == 1 {
        r := LoadFirst(data, eof, blocks, file, before);
      } else {
        LoadNext(data, block - 1, eof, blocks, file, before);
        r := 1;
      }
    }

    /** What has been reached when the image has been started with the first of `n` blocks or more. */
    lemma {:induction false} StartedEarlier(blocks: seq<seq<byte>>, n: nat, m: nat, file: seq<byte>, before: seq<byte>)
      requires 0 < n <= m <= |blocks| && Taken(blocks, n, file, before) && estate.booted
      ensures StartedBy(estate.phdrs, blocks, m)
      ensures Fits(estate.phdrs, estate.mem.Length) && |before| == estate.mem.Length
      ensures Loaded(estate.mem[..], before, file, estate.phdrs)
    {
      StartedStays(estate.phdrs, blocks, n, m);
      LoadedIs(estate.phdrs, estate.mem[..], before, file);
    }

    /** What has been reached when the image is started, or when there are no more blocks. */
    lemma {:induction false} Finished(blocks: seq<seq<byte>>, n: nat, file: seq<byte>, before: seq<byte>)
      requires 0 < n <= |blocks| && |file| == Start(blocks, |blocks|)
      requires Taken(blocks, n, file, before) && (n == |blocks| || estate.booted)
      ensures var ps, last := estate.phdrs, |blocks| - 1;
        estate.booted == (Covers(file, ps) || |blocks[last]| > DebtAfter(ps, blocks, last))
      ensures estate.booted ==>
        && Fits(estate.phdrs, estate.mem.Length) && |before| == estate.mem.Length
        && Loaded(estate.mem[..], before, file, estate.phdrs)
    {
      if estate.booted { StartedEarlier(blocks, n, |blocks|, file, before); }
      NoGap(estate.phdrs, |estate.phdrs|, |file|);
    }

    /** All blocks but the first go to `load_block` one after the other, until that starts the image. */
    method LoadRest(blocks: seq<seq<byte>>, ghost file: seq<byte>, ghost before: seq<byte>) returns (n: nat)
      requires IsCut(blocks, file) && blocks != [] && Taken(blocks, 1, file, before)
      modifies this, estate, estate.mem
      ensures 0 < n <= |blocks| && (n == |blocks| || estate.booted)
      ensures Taken(blocks, n, file, before) && estate.phdrs == old(estate.phdrs)
    {
      n := 1;
      while n < |blocks| && !estate.booted
        invariant 1 <= n <= |blocks|
        invariant Taken(blocks, n, file, before) && estate.phdrs == old(estate.phdrs)
      {
        var _ := LoadBlock(blocks[n], n + 1, n + 1 == |blocks|, blocks, file, before);
        n := n + 1;
      }
    }

    /** A whole download: the blocks of a file, however it was cut, go to `load_block` one after
        the other until the image is started.  With acceptable headers in the first block, a file
        that has all the bytes they ask for is always started, and one that has not exactly if its
        last block reaches beyond what is to be skipped; started images have in memory all that
        the file has of them. */
    method LoadImage(blocks: seq<seq<byte>>) returns (accepted: bool)
      requires !estate.booted && estate.Machine() && blocks != [] && Presentable(blocks[0], estate.ram)
      modifies this, estate, estate.mem
      ensures accepted == Accepts(estate.ram, blocks[0])
      ensures !accepted ==> !estate.booted
      ensures accepted ==>
        var ps, last := Phdrs(blocks[0]), |blocks| - 1;
        estate.booted == (Covers(Flatten(blocks), ps) || |blocks[last]| > DebtAfter(ps, blocks, last))
      ensures accepted && estate.booted ==>
        && Fits(Phdrs(blocks[0]), estate.mem.Length)
        && Loaded(estate.mem[..], old(estate.mem[..]), Flatten(blocks), Phdrs(blocks[0]))
    {
      FlattenIsCut(blocks);
      ghost var file, before := Flatten(blocks), estate.mem[..];
      var r := LoadBlock(blocks[0], 1, |blocks| == 1, blocks, file, before);
      if r == 0 { return false; }
      var n := LoadRest(blocks, file, before);
      Finished(blocks, n, file, before);
      return true;
    }
  }
}
