/** The ELF headers of etherboot/include/elf.h, laid out field by field, against what the loader
    reads; and a file with two segments. */
module ElfFormat {
  import opened Disk
  import opened ElfLoader
  import opened Encoding

  // ---------- headers ----------

  /** Elf32_Ehdr */
  datatype Ehdr = Ehdr(ident: seq<byte>, etype: nat, machine: nat, version: nat, entry: nat, phoff: nat, shoff: nat,
    flags: nat, ehsize: nat, phentsize: nat, phnum: nat, shentsize: nat, shnum: nat, shstrndx: nat)
  {
    predicate Sized() {
      |ident| == 16 && AreHalves([etype, machine]) && AreWords([version, entry, phoff, shoff, flags])
        && AreHalves([ehsize, phentsize, phnum, shentsize, shnum, shstrndx])
    }

    /** A 32-bit little-endian executable for the i386 or i486. */
    predicate Executable() {
      && |ident| == 16 && ident[..7] == [0x7f, 0x45, 0x4c, 0x46, 1, 1, 1] && etype == 2 && version == 1
      && (machine == 3 || machine == 6) && ehsize == 52 && phentsize == 32
    }

    function Encode(): seq<byte>
      requires Sized()
    {
      ident + Halves([etype, machine]) + Words([version, entry, phoff, shoff, flags])
        + Halves([ehsize, phentsize, phnum, shentsize, shnum, shstrndx])
    }
  }

  /** Elf32_Phdr */
  datatype RawPhdr = RawPhdr(ptype: nat, offset: nat, vaddr: nat, paddr: nat, filesz: nat, memsz: nat, flags: nat, align: nat)
  {
    function Fields(): seq<int> { [ptype, offset, vaddr, paddr, filesz, memsz, flags, align] }

    function Encode(): (s: seq<byte>)
      requires AreWords(Fields())
    {
      Words(Fields())
    }
  }

  predicate AllSized(raws: seq<RawPhdr>) {
    forall i :: 0 <= i < |raws| ==> AreWords(raws[i].Fields())
  }

  /** The program headers, one after another. */
  function EncodeAll(raws: seq<RawPhdr>): seq<byte>
    requires AllSized(raws)
  {
    Table(seq(|raws|, i requires 0 <= i < |raws| => raws[i].Encode()))
  }

  /** What the loader takes from a program header; of the address it uses the low 28 bits. */
  function View(raw: RawPhdr): Phdr
  {
    Phdr(raw.ptype, raw.offset, raw.paddr % 0x1000_0000, raw.filesz, raw.memsz)
  }

  lemma {:induction false} EhdrSize(h: Ehdr)
    requires h.Sized()
    ensures |h.Encode()| == 52
  {
    HalvesSize([h.etype, h.machine]);
    WordsSize([h.version, h.entry, h.phoff, h.shoff, h.flags]);
    HalvesSize([h.ehsize, h.phentsize, h.phnum, h.shentsize, h.shnum, h.shstrndx]);
  }

  lemma {:induction false} EncodeAllSize(raws: seq<RawPhdr>)
    requires AllSized(raws)
    ensures |EncodeAll(raws)| == 32 * |raws|
  {
    var records := seq(|raws|, i requires 0 <= i < |raws| => raws[i].Encode());
    forall i | 0 <= i < |records| ensures |records[i]| == 32 {
      WordsSize(raws[i].Fields());
    }
    Encoding.LengthOfTable(records, 32);
  }

  /** The ELF header at the front of a block is read field by field. */
  lemma {:induction false} EhdrIsRead(data: seq<byte>, h: Ehdr)
    requires h.Sized() && Stands(data, 0, h.Encode())
    ensures |data| >= EHDR_SIZE && PhNum(data) == h.phnum && PhOff(data) == h.phoff
    ensures HeaderValid(data) <==> h.Executable()
  {
    var kind, words, sizes := [h.etype, h.machine], [h.version, h.entry, h.phoff, h.shoff, h.flags],
      [h.ehsize, h.phentsize, h.phnum, h.shentsize, h.shnum, h.shstrndx];
    HalvesSize(kind);
    WordsSize(words);
    HalvesSize(sizes);
    FourPieces(data, 0, h.ident, Halves(kind), Words(words), Halves(sizes));
    HalvesAreRead(data, 16, kind, 0);
    HalvesAreRead(data, 16, kind, 1);
    WordsAreRead(data, 20, words, 0);
    WordsAreRead(data, 20, words, 2);
    HalvesAreRead(data, 40, sizes, 0);
    HalvesAreRead(data, 40, sizes, 1);
    HalvesAreRead(data, 40, sizes, 2);
    IdentIsRead(data, h.ident);
  }

  lemma {:induction false} IdentIsRead(data: seq<byte>, ident: seq<byte>)
    requires |ident| == 16 && Stands(data, 0, ident)
    ensures ident[..7] == [0x7f, 0x45, 0x4c, 0x46, 1, 1, 1] <==>
      U32(data, 0) == 0x464c_457f && U16(data, 4) == 0x101 && data[6] == 1
  {
    var t := data[0..16];
    assert forall k :: 0 <= k < 16 ==> data[k] == t[k] == ident[k];
    var magic := [0x7f, 0x45, 0x4c, 0x46, 1, 1, 1];
    assert ident[..7] == magic <==> forall k :: 0 <= k < 7 ==> ident[k] == magic[k];
    assert (forall k :: 0 <= k < 7 ==> ident[k] == magic[k]) <==>
      ident[0] == 0x7f && ident[1] == 0x45 && ident[2] == 0x4c && ident[3] == 0x46
      && ident[4] == 1 && ident[5] == 1 && ident[6] == 1;
  }

  lemma {:induction false} PhdrIsRead(data: seq<byte>, p: nat, raw: RawPhdr)
    requires AreWords(raw.Fields()) && Stands(data, p, raw.Encode())
    ensures p + 32 <= |data|
    ensures U32(data, p) == raw.ptype && U32(data, p + 4) == raw.offset && U32(data, p + 12) == raw.paddr
    ensures U32(data, p + 16) == raw.filesz && U32(data, p + 20) == raw.memsz
  {
    var fields := raw.Fields();
    WordsSize(fields);
    WordsAreRead(data, p, fields, 0);
    WordsAreRead(data, p, fields, 1);
    WordsAreRead(data, p, fields, 3);
    WordsAreRead(data, p, fields, 4);
    WordsAreRead(data, p, fields, 5);
  }

  /** Whatever program headers are laid out where the ELF header says, those are what the loader
      reads, each from its own record. */
  lemma {:induction false} PhdrsAreRead(data: seq<byte>, h: Ehdr, raws: seq<RawPhdr>)
    requires h.Sized() && Stands(data, 0, h.Encode()) && h.phnum == |raws| <= 32
    requires AllSized(raws) && Stands(data, h.phoff, EncodeAll(raws))
    ensures |data| >= EHDR_SIZE && HeadersFit(data) && |Phdrs(data)| == |raws|
    ensures forall i :: 0 <= i < |raws| ==> Phdrs(data)[i] == View(raws[i])
  {
    EhdrIsRead(data, h);
    var records := seq(|raws|, i requires 0 <= i < |raws| => raws[i].Encode());
    forall i | 0 <= i < |records| ensures |records[i]| == 32 {
      WordsSize(raws[i].Fields());
    }
    Encoding.LengthOfTable(records, 32);
    forall i | 0 <= i < |raws| ensures Phdrs(data)[i] == View(raws[i]) {
      RecordAt(records, 32, i);
      StandsWithin(data, h.phoff, Table(records), i * 32, raws[i].Encode());
      PhdrIsRead(data, h.phoff + i * 32, raws[i]);
    }
  }

  /** The memory after an image has been loaded, byte by byte, by the fields of its headers. */
  lemma {:induction false} SegmentIsInPlace(mem: seq<byte>, before: seq<byte>, file: seq<byte>, data: seq<byte>, h: Ehdr,
      raws: seq<RawPhdr>, i: nat, k: nat)
    requires h.Sized() && Stands(data, 0, h.Encode()) && h.phnum == |raws| <= 32
    requires AllSized(raws) && Stands(data, h.phoff, EncodeAll(raws))
    requires |data| >= EHDR_SIZE && HeadersFit(data) && |mem| == |before| && Fits(Phdrs(data), |mem|)
    requires Loaded(mem, before, file, Phdrs(data))
    requires i < |raws| && raws[i].ptype == 1 && k < raws[i].memsz
    ensures var a := raws[i].paddr % 0x1000_0000 + k;
      a < |mem| && mem[a] ==
        if k >= raws[i].filesz then 0
        else if raws[i].offset + k < |file| then file[raws[i].offset + k] else before[a]
  {
    PhdrsAreRead(data, h, raws);
    var ph, a := Phdrs(data)[i], raws[i].paddr % 0x1000_0000 + k;
    assert ph == View(raws[i]) && ph.Load();
    assert HasBytes(mem, file, ph, ph.filesz) && KeepsRest(mem, before, file, ph) && BssZero(mem, ph);
    assert ph.offset + a - ph.paddr == raws[i].offset + k;
  }

  // ---------- a file with two segments ----------

  const HEADER: Ehdr :=
    Ehdr([0x7f, 0x45, 0x4c, 0x46, 1, 1, 1, 0, 0, 0, 0, 0, 0, 0, 0, 0], 2, 3, 1, 16, 52, 0, 0, 52, 32, 2, 0, 0, 0)
  const FIRST: RawPhdr := RawPhdr(1, 116, 0, 16, 2, 4, 5, 1)     // two bytes and two of bss to 16
  const SECOND: RawPhdr := RawPhdr(1, 118, 0, 0x3000_000d, 3, 3, 6, 1)   // three bytes to 13, right before them
  const RAM: seq<(nat, nat)> := [(13, 7)]

  function TwoSegments(): (data: seq<byte>)
    requires AllSized([FIRST, SECOND]) && HEADER.Sized()
  {
    HEADER.Encode() + EncodeAll([FIRST, SECOND]) + [1, 2, 3, 4, 5]
  }

  lemma {:induction false} TwoAreSized()
    ensures AllSized([FIRST, SECOND]) && HEADER.Sized() && HEADER.Executable()
  {
  }

  lemma {:induction false} TwoAreLaidOut()
    requires AllSized([FIRST, SECOND]) && HEADER.Sized()
    ensures |TwoSegments()| == 121 && TwoSegments()[116..] == [1, 2, 3, 4, 5]
    ensures Stands(TwoSegments(), 0, HEADER.Encode()) && Stands(TwoSegments(), 52, EncodeAll([FIRST, SECOND]))
  {
    EhdrSize(HEADER);
    EncodeAllSize([FIRST, SECOND]);
    var a, b, c := HEADER.Encode(), EncodeAll([FIRST, SECOND]), [1, 2, 3, 4, 5];
    StandsBetween(a, b, c);
    assert (a + b + c)[0..52] == a && (a + b + c)[116..] == c;
  }

  lemma {:induction false} TwoAreRead()
    requires AllSized([FIRST, SECOND]) && HEADER.Sized() && HEADER.Executable()
    ensures var data := TwoSegments();
      && |data| >= EHDR_SIZE && HeaderValid(data) && HeadersFit(data) && PhOff(data) == 52
      && Phdrs(data) == [Phdr(1, 116, 16, 2, 4), Phdr(1, 118, 13, 3, 3)]
  {
    var data := TwoSegments();
    TwoAreLaidOut();
    EhdrIsRead(data, HEADER);
    PhdrsAreRead(data, HEADER, [FIRST, SECOND]);
    var ps := Phdrs(data);
    assert ps[0] == View(FIRST) && ps[1] == View(SECOND);
  }

  lemma {:induction false} TwoFit(ps: seq<Phdr>)
    requires ps == [Phdr(1, 116, 16, 2, 4), Phdr(1, 118, 13, 3, 3)]
    ensures AllAcceptable(RAM, ps) && NoneWraps(ps) && Separate(ps) && CompleteBy(ps, 121)
  {
    assert RAM[0] == (13, 7);
  }

  /** The loader accepts it. */
  lemma {:induction false} TwoAreAccepted()
    requires AllSized([FIRST, SECOND]) && HEADER.Sized() && HEADER.Executable()
    ensures var data := TwoSegments();
      && |data| >= EHDR_SIZE && HeadersFit(data)
      && Accepts(RAM, data) && Presentable(data, RAM) && Covers(data, Phdrs(data))
  {
    TwoAreRead();
    TwoAreLaidOut();
    TwoFit(Phdrs(TwoSegments()));
  }

  /** The byte at address `a` of a memory that is full of 9s but for the two segments. */
  function Wanted(a: nat): byte {
    match a
    case 16 => 1 case 17 => 2 case 18 => 0 case 19 => 0
    case 13 => 3 case 14 => 4 case 15 => 5
    case _ => 9
  }

  ghost predicate HoldsTwo(m: seq<byte>) {
    |m| == 64 && forall a :: 0 <= a < 64 ==> m[a] == Wanted(a)
  }

  /** What loading it must come to. */
  ghost predicate TwoLoaded(m: seq<byte>, before: seq<byte>) {
    && AllSized([FIRST, SECOND]) && HEADER.Sized() && HEADER.Executable() && |m| == |before| == 64
    && (forall a :: 0 <= a < 64 ==> before[a] == 9)
    && var data := TwoSegments();
    |data| >= EHDR_SIZE && HeadersFit(data) && Fits(Phdrs(data), 64) && Loaded(m, before, data, Phdrs(data))
  }

  lemma {:induction false} FirstInPlace(m: seq<byte>, before: seq<byte>, k: nat)
    requires TwoLoaded(m, before) && k < 4
    ensures m[16 + k] == if k < 2 then 1 + k else 0
  {
    TwoAreLaidOut();
    assert [FIRST, SECOND][0] == FIRST;
    SegmentIsInPlace(m, before, TwoSegments(), TwoSegments(), HEADER, [FIRST, SECOND], 0, k);
    assert k < 2 ==> TwoSegments()[116 + k] == TwoSegments()[116..][k];
  }

  lemma {:induction false} SecondInPlace(m: seq<byte>, before: seq<byte>, k: nat)
    requires TwoLoaded(m, before) && k < 3
    ensures m[13 + k] == 3 + k
  {
    TwoAreLaidOut();
    assert [FIRST, SECOND][1] == SECOND;
    SegmentIsInPlace(m, before, TwoSegments(), TwoSegments(), HEADER, [FIRST, SECOND], 1, k);
    assert TwoSegments()[118 + k] == TwoSegments()[116..][2 + k];
  }

  lemma {:induction false} InPlace(m: seq<byte>, before: seq<byte>, a: nat)
    requires TwoLoaded(m, before) && a < 64
    ensures m[a] == Wanted(a)
  {
    if 16 <= a < 20 {
      FirstInPlace(m, before, a - 16);
    } else if 13 <= a < 16 {
      SecondInPlace(m, before, a - 13);
    } else {
      TwoAreRead();
      assert !InTarget(Phdrs(TwoSegments()), a);
    }
  }

  lemma {:induction false} TwoAreInPlace(m: seq<byte>, before: seq<byte>)
    requires TwoLoaded(m, before)
    ensures HoldsTwo(m)
  {
    forall a | 0 <= a < 64 ensures m[a] == Wanted(a) {
      InPlace(m, before, a);
    }
  }

  /** A run that loads it into a memory full of 9s: each segment in its place, with its own length,
      and nothing else changed. */
  method LoadsTwo() returns (mem: array<byte>, booted: bool)
    ensures fresh(mem) && booted && HoldsTwo(mem[..])
  {
    TwoAreSized();
    TwoAreAccepted();
    mem := new byte[64](_ => 9);
    ghost var before := mem[..];
    var estate := new ElfState(mem, RAM);
    var loader := new OsLoader(estate);
    var data := TwoSegments();
    OneBlock(data);
    var _ := loader.LoadImage([data]);
    booted := estate.booted;
    assert TwoLoaded(mem[..], before);
    TwoAreInPlace(mem[..], before);
  }

  lemma {:induction false} OneBlock(data: seq<byte>)
    ensures Flatten([data]) == data
  {
  }
}
