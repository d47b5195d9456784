/** Directory entries laid out as the FAT format has them, field by field, against what the search
    takes from them: every name that is laid out so is found. */
module DirFormat {
  import opened Disk
  import opened Encoding
  import opened LongName

  // ---------- entries ----------

  /** A part of a long name: its number, whether it is the last part, which comes first, thirteen
      16-bit characters, and the checksum of the short name. */
  datatype RawPart = RawPart(number: nat, last: bool, chars: seq<int>, sum: byte)
  {
    predicate Ok() { 1 <= number < 0x40 && |chars| == 13 && AreHalves(chars) }

    function Encode(): (e: Entry)
      requires Ok()
    {
      HalvesSize(chars[..5]);
      HalvesSize(chars[5..11]);
      HalvesSize(chars[11..]);
      [number + if last then 0x40 else 0] + Halves(chars[..5]) + [0x0f, 0, sum] + Halves(chars[5..11])
        + ([0, 0] + Halves(chars[11..]))
    }
  }

  /** A character of a stretch of them that stands at `at`. */
  lemma {:induction false} CharAt(e: Entry, at: nat, hs: seq<int>, k: nat)
    requires AreHalves(hs) && k < |hs| && Stands(e, at, Halves(hs))
    ensures at + 2 * k < 32 && e[at + 2 * k] == hs[k] % 0x100
  {
    HalvesAreRead(e, at, hs, k);
    assert U16(e, at + 2 * k) % 0x100 == e[at + 2 * k];
  }

  ghost predicate InPlaces(e: Entry, raw: RawPart)
    requires raw.Ok()
  {
    && e[0] == raw.number + (if raw.last then 0x40 else 0) && e[11] == 0x0f && e[13] == raw.sum
    && Stands(e, 1, Halves(raw.chars[..5])) && Stands(e, 14, Halves(raw.chars[5..11])) && Stands(e, 28, Halves(raw.chars[11..]))
  }

  lemma {:induction false} PartPlaces(raw: RawPart)
    requires raw.Ok()
    ensures InPlaces(raw.Encode(), raw)
  {
    var e := raw.Encode();
    var c := raw.chars;
    HalvesSize(c[..5]);
    HalvesSize(c[5..11]);
    HalvesSize(c[11..]);
    assert e[1..11] == Halves(c[..5]);
    assert e[14..26] == Halves(c[5..11]);
    assert e[28..32] == Halves(c[11..]);
  }

  lemma {:induction false} CharsAreRead(e: Entry, raw: RawPart, i: nat)
    requires raw.Ok() && InPlaces(e, raw) && i < 13
    ensures Text(e)[i] == raw.chars[i] % 0x100
  {
    var c := raw.chars;
    if i < 5 {
      CharAt(e, 1, c[..5], i);
    } else if i < 11 {
      CharAt(e, 14, c[5..11], i - 5);
    } else {
      CharAt(e, 28, c[11..], i - 11);
    }
  }

  /** All of it is read. */
  lemma {:induction false} PartIsRead(raw: RawPart)
    requires raw.Ok()
    ensures IsPart(raw.Encode(), raw.number, raw.sum, raw.last)
    ensures forall i :: 0 <= i < 13 ==> Text(raw.Encode())[i] == raw.chars[i] % 0x100
  {
    PartPlaces(raw);
    forall i | 0 <= i < 13 ensures Text(raw.Encode())[i] == raw.chars[i] % 0x100 {
      CharsAreRead(raw.Encode(), raw, i);
    }
  }

  /** The attributes of a file, bit by bit. */
  datatype Attributes = Attributes(readOnly: bool, hidden: bool, system: bool, volume: bool, directory: bool, archive: bool)
  {
    function Encode(): byte {
      (if readOnly then 1 else 0) + (if hidden then 2 else 0) + (if system then 4 else 0) + (if volume then 8 else 0)
        + (if directory then 16 else 0) + (if archive then 32 else 0)
    }
  }

  /** An entry with an 8.3 name is looked at unless it is deleted, a volume label, or the end. */
  lemma {:induction false} ShortIsRead(e: Entry, name: seq<byte>, a: Attributes)
    requires |name| == 11 && Stands(e, 0, name) && e[11] == a.Encode()
    requires a != Attributes(true, true, true, true, false, false)    // these are the parts of long names
    ensures Short(e) <==> !a.volume && name[0] != 0xE5 && name[0] != 0
  {
    assert e[0..11][0] == e[0];
  }

  // ---------- long names ----------

  /** The characters of a name of `n` parts: the name, a 0 if there is room, and filling. */
  function Pad(w: seq<byte>, n: nat): (chars: seq<int>)
    ensures |chars| == 13 * n && AreHalves(chars)
  {
    seq(13 * n, i requires 0 <= i => if i < |w| then w[i] as int else if i == |w| then 0 else 0xffff)
  }

  /** Part `number` of it. */
  function PartOf(w: seq<byte>, n: nat, sum: byte, number: nat): (raw: RawPart)
    requires 1 <= number <= n < 0x40
    ensures raw.Ok()
  {
    RawPart(number, number == n, Pad(w, n)[13 * (number - 1)..13 * number], sum)
  }

  function PartEntry(w: seq<byte>, n: nat, sum: byte, number: nat): Entry
    requires 1 <= number <= n < 0x40
  {
    PartOf(w, n, sum, number).Encode()
  }

  lemma {:induction false} EntryIsPart(w: seq<byte>, n: nat, sum: byte, number: nat)
    requires 1 <= number <= n < 0x40
    ensures IsPart(PartEntry(w, n, sum, number), number, sum, number == n) && PartEntry(w, n, sum, number)[0] != 0
  {
    PartIsRead(PartOf(w, n, sum, number));
    PartPlaces(PartOf(w, n, sum, number));
  }

  /** The parts, the last of them first. */
  function Parts(w: seq<byte>, n: nat, sum: byte): (s: seq<Entry>)
    requires n < 0x40
    ensures |s| == n
  {
    seq(n, i requires 0 <= i < n => PartEntry(w, n, sum, n - i))
  }

  function Low(chars: seq<int>): (s: seq<byte>)
    ensures |s| == |chars|
  {
    seq(|chars|, i requires 0 <= i < |chars| => chars[i] % 0x100)
  }

  function Places(from: nat, n: nat): (at: seq<nat>)
    ensures |at| == n
  {
    seq(n, m requires 0 <= m < n => from + m)
  }

  lemma {:induction false} PartsAreLongName(before: seq<Entry>, w: seq<byte>, n: nat, e: Entry)
    requires 1 <= n < 0x40
    ensures IsLongName(before + Parts(w, n, NameSum(e, 11)), e, Places(|before|, n))
  {
    var sum := NameSum(e, 11);
    var s, at := before + Parts(w, n, sum), Places(|before|, n);
    forall m | 0 <= m < n ensures PartHere(s, n, sum, at, m) {
      EntryIsPart(w, n, sum, n - m);
    }
  }

  lemma {:induction false} TextOfPart(w: seq<byte>, n: nat, sum: byte, number: nat)
    requires 1 <= number <= n < 0x40
    ensures Text(PartEntry(w, n, sum, number)) == Low(Pad(w, n))[13 * (number - 1)..13 * number]
  {
    PartIsRead(PartOf(w, n, sum, number));
  }

  lemma {:induction false} Joined<T>(s: seq<T>, a: nat, b: nat)
    requires a <= b <= |s|
    ensures s[a..] == s[a..b] + s[b..]
  {
  }

  /** Entry `m` from there on has the thirteen characters that are `n - m`th of the name. */
  predicate HasText(s: seq<Entry>, from: nat, all: seq<byte>, n: nat, m: nat)
    requires |all| == 13 * n && m < n
  {
    from + m < |s| && Text(s[from + m]) == all[13 * (n - m - 1)..13 * (n - m)]
  }

  /** The first `i` of these make up the end of the name. */
  lemma {:induction false} TextOfParts(s: seq<Entry>, from: nat, all: seq<byte>, n: nat, i: nat)
    requires |all| == 13 * n && i <= n && forall m :: 0 <= m < n ==> HasText(s, from, all, n, m)
    ensures forall m :: 0 <= m < i ==> Places(from, i)[m] < |s|
    ensures LongText(s, Places(from, i)) == all[13 * (n - i)..]
  {
    if i == 0 {
      assert Places(from, i) == [] && all[13 * n..] == [];
    } else {
      TextOfParts(s, from, all, n, i - 1);
      assert HasText(s, from, all, n, i - 1);
      assert Places(from, i)[..i - 1] == Places(from, i - 1);
      Joined(all, 13 * (n - i), 13 * (n - i + 1));
    }
  }

  lemma {:induction false} CStringOfPad(w: seq<byte>, n: nat)
    requires 0 !in w && |w| <= 13 * n
    ensures CString(Low(Pad(w, n))) == w
  {
    var s := Low(Pad(w, n));
    assert s[..|w|] == w;
    if |w| < 13 * n {
      CStringIs(s, w);
    } else {
      assert s == w;
      CStringWhole(w);
    }
  }

  lemma {:induction false} CStringWhole(w: seq<byte>)
    requires 0 !in w
    ensures CString(w) == w
  {
    if w != [] { CStringWhole(w[1..]); }
  }

  /** A long name laid out before the entry it belongs to is the name of that entry, whatever comes
      before. */
  lemma {:induction false} LongNameIsRead(before: seq<Entry>, w: seq<byte>, n: nat, e: Entry)
    requires 1 <= n < 0x40 && 0 !in w && |w| <= 13 * n && Short(e)
    ensures var s := before + Parts(w, n, NameSum(e, 11)); LongNameOf(s, e) == [w] && Named(s + [e], w)
  {
    var sum := NameSum(e, 11);
    var s, at := before + Parts(w, n, sum), Places(|before|, n);
    PartsAreLongName(before, w, n, e);
    LongNamesAreTaken(s, e, at);
    var all := Low(Pad(w, n));
    forall m | 0 <= m < n ensures HasText(s, |before|, all, n, m) {
      TextOfPart(w, n, sum, n - m);
    }
    TextOfParts(s, |before|, all, n, n);
    assert all[0..] == all;
    CStringOfPad(w, n);
    NamedIs(s, e, w);
  }

  /** A part is neither a name of its own nor the end of the directory. */
  lemma {:induction false} PartIsPassed(before: seq<Entry>, entries: seq<Entry>, w: seq<byte>, n: nat, sum: byte, i: nat, name: seq<byte>)
    requires n < 0x40 && i < n <= |entries| && entries[i] == Parts(w, n, sum)[i]
    ensures PassedBy(before, entries, i, name) && entries[i][0] != 0 && !Named(Upto(before, entries, i + 1), name)
  {
    EntryIsPart(w, n, sum, n - i);
    NamedIs(Upto(before, entries, i), entries[i], name);
  }

  /** A search that comes to the parts of a long name and the entry behind them ends with that entry. */
  method FindsLongName(search: DirSearch, w: seq<byte>, n: nat, e: Entry) returns (found: bool, at: nat)
    requires search.Valid() && 1 <= n < 0x40 && 0 !in w && |w| <= 13 * n && Short(e)
    modifies search, search.filename
    ensures found && at == n
  {
    ghost var sum := NameSum(e, 11);
    var entries := Parts(w, n, NameSum(e, 11)) + [e];
    ghost var before := search.seen;
    found, at := search.LookUp(entries, w);
    if at < n { PartIsPassed(before, entries, w, n, sum, at, w); }
    UptoIs(before, entries, n);
    assert entries[..n] == Parts(w, n, sum);
    LongNameIsRead(before, w, n, e);
    if at == n + 1 { EachPassed(before, entries, at, w, n); }
  }

  // ---------- short names ----------

  /** An 8.3 name as it is written: base and extension filled up with blanks. */
  function Fill(w: seq<byte>, n: nat): (s: seq<byte>)
    requires |w| <= n
    ensures |s| == n
  {
    w + seq<byte>(n - |w|, _ => 32)
  }

  predicate IsWord(w: seq<byte>) {
    forall i :: 0 <= i < |w| ==> 32 < w[i] && !(97 <= w[i] <= 122)
  }

  /** Letters in lower case. */
  function InLowerCase(w: seq<byte>): (s: seq<byte>)
    ensures |s| == |w|
  {
    seq(|w|, i requires 0 <= i < |w| => if 65 <= w[i] <= 90 then w[i] + 32 else w[i])
  }

  lemma {:induction false} LowerFirst(w: seq<byte>)
    requires w != []
    ensures InLowerCase(w) == [if 65 <= w[0] <= 90 then w[0] + 32 else w[0]] + InLowerCase(w[1..])
  {
  }

  lemma {:induction false} WordOfFill(w: seq<byte>, n: nat)
    requires IsWord(w) && |w| <= n
    ensures Word(Fill(w, n)) == InLowerCase(w)
  {
    var s := Fill(w, n);
    if w == [] {
      assert n > 0 ==> s[0] == 32;
    } else {
      WordOfFill(w[1..], n - 1);
      assert s[0] == w[0] && s[1..] == Fill(w[1..], n - 1);
      LowerFirst(w);
    }
  }

  /** The name that an entry goes by: base, a dot and the extension in lower case, and without an
      extension no dot. */
  lemma {:induction false} ShortNameIsRead(e: Entry, base: seq<byte>, extension: seq<byte>)
    requires IsWord(base) && |base| <= 8 && IsWord(extension) && |extension| <= 3
    requires Stands(e, 0, Fill(base, 8)) && Stands(e, 8, Fill(extension, 3))
    ensures ShortName(e) == InLowerCase(base) + if extension == [] then [] else [46] + InLowerCase(extension)
  {
    WordOfFill(base, 8);
    WordOfFill(extension, 3);
    assert e[..8] == e[0..0 + 8] && e[8..11] == e[8..8 + 3];
  }

  /** The checksum of the short name README.TXT. */
  lemma {:induction false} ReadmeSum(e: Entry)
    requires Stands(e, 0, [82, 69, 65, 68, 77, 69, 32, 32, 84, 88, 84])
    ensures NameSum(e, 11) == 0x73
  {
    var t := e[0..11];
    assert forall i :: 0 <= i < 11 ==> e[i] == t[i];
    FrontSum(e);
    MiddleSum(e);
    assert NameSum(e, 9) == 205 && NameSum(e, 10) == 62;
  }

  lemma {:induction false} MiddleSum(e: Entry)
    requires NameSum(e, 5) == 141 && e[5] == 69 && e[6] == e[7] == 32
    ensures NameSum(e, 8) == 242
  {
    assert NameSum(e, 6) == 11 && NameSum(e, 7) == 165;
  }

  lemma {:induction false} FrontSum(e: Entry)
    requires e[0] == 82 && e[1] == 69 && e[2] == 65 && e[3] == 68 && e[4] == 77
    ensures NameSum(e, 5) == 141
  {
    assert NameSum(e, 1) == 82 && NameSum(e, 2) == 110 && NameSum(e, 3) == 120 && NameSum(e, 4) == 128;
  }
}
