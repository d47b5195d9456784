/** Looking a name up in a FAT directory: the entry loop of `fat_dir` in fs/grub/fsys_fat.c,
    which assembles long names back to front in one buffer. */
module LongName {
  import opened Disk

  type Entry = e: seq<byte> | |e| == 32 witness seq(32, _ => 0)

  // ---------- entries ----------

  const LONGDIR_POS: seq<nat> := [1, 3, 5, 7, 9, 14, 16, 18, 20, 22, 24, 28, 30]

  /** A part of a long name. */
  predicate Long(e: Entry) { e[11] == 0x0f }

  /** A file or directory; not deleted, not a volume label. */
  predicate Short(e: Entry) {
    !Long(e) && e[0] != 0 && e[0] != 0xE5 && e[11] < 0x40 && e[11] / 8 % 2 == 0
  }

  /** The last part of a long name, which comes first. */
  predicate Starts(e: Entry) { e[0] / 0x40 % 2 == 1 }

  /** The number of a part of a long name. */
  function Number(e: Entry): nat { if Starts(e) then e[0] % 0x40 else e[0] }

  /** The checksum of the short name that a part of a long name belongs to. */
  function Sum(e: Entry): byte { e[13] }

  /** The low bytes of the thirteen characters of a part. */
  function Text(e: Entry): (t: seq<byte>)
    ensures |t| == 13
  {
    seq(13, i requires 0 <= i < 13 => e[LONGDIR_POS[i]])
  }

  /** The checksum of the first `i` bytes of a short name: rotate right, add. */
  function NameSum(e: Entry, i: nat): byte
    requires i <= 11
  {
    if i == 0 then 0 else
      var sum := NameSum(e, i - 1);
      (sum / 2 + 0x80 * (sum % 2) + e[i - 1]) % 0x100
  }

  // ---------- what a directory says ----------

  /** The entries at the places `at` are parts `n` down to `k + 1` of one long name with checksum
      `sum`, in this order; no other part has come since the first, and no short entry has used
      the name up. Volume labels and deleted short entries may lie between, and so may live short
      entries before the last part has come. A deleted part is still a part, and ends the chain. */
  ghost predicate Chain(s: seq<Entry>, n: nat, k: nat, sum: byte, at: seq<nat>) {
    && k + |at| == n && at != []
    && (forall m :: 0 <= m < |at| ==> PartHere(s, n, sum, at, m))
    && (forall j :: 0 <= j < |s| ==> OnlyParts(s, at, j))
    && (k == 0 ==> forall j :: 0 <= j < |s| ==> NotUsed(s, at, j))
  }

  /** The place number `m` holds the part that should be there, behind the part before it. */
  predicate PartHere(s: seq<Entry>, n: nat, sum: byte, at: seq<nat>, m: nat)
    requires m < |at|
  {
    at[m] < |s| && IsPart(s[at[m]], n - m, sum, m == 0) && (m > 0 ==> at[m - 1] < at[m])
  }

  /** From the first part on, entry `j` is a part of a long name only if it is one of these. */
  predicate OnlyParts(s: seq<Entry>, at: seq<nat>, j: nat)
    requires j < |s| && at != []
  {
    at[0] <= j && Long(s[j]) ==> j in at
  }

  /** After the last part, entry `j` is not a file or directory. */
  predicate NotUsed(s: seq<Entry>, at: seq<nat>, j: nat)
    requires j < |s| && at != []
  {
    at[|at| - 1] < j ==> !Short(s[j])
  }

  predicate IsPart(e: Entry, number: int, sum: byte, first: bool) {
    Long(e) && Number(e) == number && Sum(e) == sum && Starts(e) == first
  }

  /** The name whose parts are at these places: the last to come is the front. */
  function LongText(s: seq<Entry>, at: seq<nat>): (t: seq<byte>)
    requires forall m :: 0 <= m < |at| ==> at[m] < |s|
    ensures |t| == 13 * |at|
  {
    if at == [] then [] else Text(s[at[|at| - 1]]) + LongText(s, at[..|at| - 1])
  }

  /** The part of a buffer before its first 0. */
  function CString(s: seq<byte>): seq<byte> {
    if s == [] || s[0] == 0 then [] else [s[0]] + CString(s[1..])
  }

  // ---------- following a directory ----------

  /** Where an assembly stands after some entries. */
  datatype Track = Idle | Run(n: nat, k: nat, sum: byte, at: seq<nat>)

  function After(s: seq<Entry>): Track {
    if s == [] then Idle else Next(After(s[..|s| - 1]), s[|s| - 1], |s| - 1)
  }

  /** What entry `e` at place `j` does to an assembly. */
  function Next(t: Track, e: Entry, j: nat): Track {
    if Long(e) then
      var u := if Starts(e) then Run(Number(e), Number(e), Sum(e), []) else t;
      if u.Run? && u.k == Number(e) && u.k > 0 && u.sum == Sum(e) then Run(u.n, u.k - 1, u.sum, u.at + [j]) else Idle
    else if Short(e) && t.Run? && t.k == 0 then Idle
    else t
  }

  lemma {:induction false} PlacesIncrease(s: seq<Entry>, n: nat, sum: byte, at: seq<nat>, i: nat, j: nat)
    requires (forall m :: 0 <= m < |at| ==> PartHere(s, n, sum, at, m)) && i < j < |at|
    ensures at[i] < at[j] < |s|
    decreases j
  {
    assert PartHere(s, n, sum, at, j);
    if i < j - 1 { PlacesIncrease(s, n, sum, at, i, j - 1); }
  }

  lemma {:induction false} ChainGrows(p: seq<Entry>, e: Entry, n: nat, k: nat, sum: byte, at: seq<nat>)
    requires Chain(p, n, k, sum, at) && k > 0 && IsPart(e, k, sum, false)
    ensures Chain(p + [e], n, k - 1, sum, at + [|p|])
  {
    var s, more := p + [e], at + [|p|];
    forall m | 0 <= m < |more| ensures PartHere(s, n, sum, more, m) {
      if m < |at| { assert PartHere(p, n, sum, at, m); } else { assert PartHere(p, n, sum, at, m - 1); }
    }
    forall j | 0 <= j < |s| ensures OnlyParts(s, more, j) {
      if j < |p| { assert OnlyParts(p, at, j); }
    }
    forall j | 0 <= j < |s| ensures NotUsed(s, more, j) {
    }
  }

  lemma {:induction false} ChainStays(p: seq<Entry>, e: Entry, n: nat, k: nat, sum: byte, at: seq<nat>)
    requires Chain(p, n, k, sum, at) && !Long(e) && (k == 0 ==> !Short(e))
    ensures Chain(p + [e], n, k, sum, at)
  {
    var s := p + [e];
    forall m | 0 <= m < |at| ensures PartHere(s, n, sum, at, m) {
      assert PartHere(p, n, sum, at, m);
    }
    forall j | 0 <= j < |s| ensures OnlyParts(s, at, j) {
      if j < |p| { assert OnlyParts(p, at, j); }
    }
    forall j | 0 <= j < |s| && k == 0 ensures NotUsed(s, at, j) {
      if j < |p| { assert NotUsed(p, at, j); }
    }
  }

  lemma {:induction false} ChainStarts(p: seq<Entry>, e: Entry, n: nat, sum: byte)
    requires n > 0 && IsPart(e, n, sum, true)
    ensures Chain(p + [e], n, n - 1, sum, [|p|])
  {
    assert PartHere(p + [e], n, sum, [|p|], 0);
  }

  lemma {:induction false} ChainShrinks(s: seq<Entry>, n: nat, k: nat, sum: byte, at: seq<nat>)
    requires Chain(s, n, k, sum, at) && |at| > 1 && at[|at| - 1] == |s| - 1
    ensures Chain(s[..|s| - 1], n, k + 1, sum, at[..|at| - 1])
  {
    var p, less := s[..|s| - 1], at[..|at| - 1];
    forall m | 0 <= m < |less| ensures PartHere(p, n, sum, less, m) {
      assert PartHere(s, n, sum, at, m);
      PlacesIncrease(s, n, sum, at, m, |at| - 1);
    }
    forall j | 0 <= j < |p| ensures OnlyParts(p, less, j) {
      assert OnlyParts(s, at, j);
    }
  }

  lemma {:induction false} ChainBefore(s: seq<Entry>, n: nat, k: nat, sum: byte, at: seq<nat>)
    requires Chain(s, n, k, sum, at) && s != [] && !Long(s[|s| - 1])
    ensures Chain(s[..|s| - 1], n, k, sum, at)
  {
    var p := s[..|s| - 1];
    forall m | 0 <= m < |at| ensures PartHere(p, n, sum, at, m) {
      assert PartHere(s, n, sum, at, m);
    }
    forall j | 0 <= j < |p| ensures OnlyParts(p, at, j) && (k == 0 ==> NotUsed(p, at, j)) {
      assert OnlyParts(s, at, j) && (k == 0 ==> NotUsed(s, at, j));
    }
  }

  lemma {:induction false} ChainEnds(s: seq<Entry>, n: nat, k: nat, sum: byte, at: seq<nat>)
    requires Chain(s, n, k, sum, at)
    ensures s != []
    ensures Long(s[|s| - 1]) ==> at[|at| - 1] == |s| - 1 && IsPart(s[|s| - 1], k + 1, sum, |at| == 1)
    ensures !Long(s[|s| - 1]) && k == 0 ==> !Short(s[|s| - 1])
  {
    assert PartHere(s, n, sum, at, |at| - 1);
    if |at| > 1 { PlacesIncrease(s, n, sum, at, 0, |at| - 1); }
    var j := |s| - 1;
    assert OnlyParts(s, at, j) && (k == 0 ==> NotUsed(s, at, j));
    if Long(s[j]) {
      var m :| 0 <= m < |at| && at[m] == j;
      if m < |at| - 1 { PlacesIncrease(s, n, sum, at, m, |at| - 1); }
    }
  }

  /** An assembly under way is a chain of parts as a directory should have it. */
  lemma {:induction false} RunIsChain(s: seq<Entry>, n: nat, k: nat, sum: byte, at: seq<nat>)
    requires After(s) == Run(n, k, sum, at)
    ensures Chain(s, n, k, sum, at)
  {
    var p, e := s[..|s| - 1], s[|s| - 1];
    var t := After(p);
    assert s == p + [e];
    if !Long(e) {
      RunIsChain(p, n, k, sum, at);
      ChainStays(p, e, n, k, sum, at);
    } else if !Starts(e) {
      RunIsChain(p, t.n, t.k, t.sum, t.at);
      ChainGrows(p, e, t.n, t.k, t.sum, t.at);
    } else {
      ChainStarts(p, e, n, sum);
    }
  }

  lemma {:induction false} PartIsTaken(t: Track, e: Entry, j: nat, n: nat, k: nat, sum: byte, at: seq<nat>)
    ensures IsPart(e, k + 1, sum, true) ==> Next(t, e, j) == Run(k + 1, k, sum, [j])
    ensures IsPart(e, k + 1, sum, false) && t == Run(n, k + 1, sum, at) ==> Next(t, e, j) == Run(n, k, sum, at + [j])
  {
  }

  /** And every such chain is followed. */
  lemma {:induction false} ChainIsRun(s: seq<Entry>, n: nat, k: nat, sum: byte, at: seq<nat>)
    requires Chain(s, n, k, sum, at)
    ensures After(s) == Run(n, k, sum, at)
  {
    ChainEnds(s, n, k, sum, at);
    var p, e := s[..|s| - 1], s[|s| - 1];
    PartIsTaken(After(p), e, |p|, n, k, sum, at[..|at| - 1]);
    if !Long(e) {
      ChainBefore(s, n, k, sum, at);
      ChainIsRun(p, n, k, sum, at);
    } else if |at| > 1 {
      ChainShrinks(s, n, k, sum, at);
      ChainIsRun(p, n, k + 1, sum, at[..|at| - 1]);
      assert at == at[..|at| - 1] + [|s| - 1];
    } else {
      assert at == [|s| - 1];
    }
  }

  /** A deleted part begins with 0xE5, which has the start bit set: it begins an assembly of 37
      parts, whatever was under way. */
  lemma {:induction false} DeletedPartBegins(t: Track, e: Entry, j: nat)
    requires Long(e) && e[0] == 0xE5
    ensures Next(t, e, j) == Run(37, 36, Sum(e), [j])
  {
  }

  // ---------- the name an entry goes by ----------

  function Lower(c: byte): byte {
    if 65 <= c <= 90 then c + 32 else c
  }

  predicate Space(c: byte) { c == 32 || c == 9 || c == 13 || c == 10 }

  /** The characters of a blank-padded field, in lower case. */
  function Word(s: seq<byte>): (w: seq<byte>)
    ensures |w| <= |s| && 0 !in w
    ensures forall i :: 0 <= i < |w| ==> w[i] == Lower(s[i]) && s[i] != 0 && !Space(s[i])
    ensures |w| < |s| ==> s[|w|] == 0 || Space(s[|w|])
  {
    if s == [] || s[0] == 0 || Space(s[0]) then [] else [Lower(s[0])] + Word(s[1..])
  }

  /** The 8.3 name of an entry. */
  function ShortName(e: Entry): (w: seq<byte>)
    ensures |w| <= 12 && 0 !in w
  {
    var extension := Word(e[8..11]);
    Word(e[..8]) + (if extension == [] then [] else [46] + extension)
  }

  /** The long name that belongs to entry `e`, the next one after `s`. */
  function LongNameOf(s: seq<Entry>, e: Entry): (w: seq<seq<byte>>)
  {
    var t := After(s);
    if t.Run? && t.k == 0 && t.sum == NameSum(e, 11) && (forall m :: 0 <= m < |t.at| ==> t.at[m] < |s|)
    then [CString(LongText(s, t.at))] else []
  }

  /** The places are those of the entries right before the next one. */
  ghost predicate Adjacent(s: seq<Entry>, at: seq<nat>) {
    |at| <= |s| && forall m :: 0 <= m < |at| ==> at[m] == |s| - |at| + m
  }

  /** These are the parts of the long name of entry `e`, as the FAT format has it: all of them,
      in order, right before the entry, with the checksum of its short name. */
  ghost predicate IsLongName(s: seq<Entry>, e: Entry, at: seq<nat>) {
    at != [] && Adjacent(s, at) && forall m :: 0 <= m < |at| ==> PartHere(s, |at|, NameSum(e, 11), at, m)
  }

  lemma {:induction false} NameIsRun(s: seq<Entry>, e: Entry, at: seq<nat>)
    requires IsLongName(s, e, at)
    ensures After(s) == Run(|at|, 0, NameSum(e, 11), at)
  {
    forall j | 0 <= j < |s| ensures OnlyParts(s, at, j) && NotUsed(s, at, j) {
      if at[0] <= j { assert at[j - at[0]] == j; }
    }
    ChainIsRun(s, |at|, 0, NameSum(e, 11), at);
  }

  /** A long name as the format has it is always taken. */
  lemma {:induction false} LongNamesAreTaken(s: seq<Entry>, e: Entry, at: seq<nat>)
    requires IsLongName(s, e, at)
    ensures forall m :: 0 <= m < |at| ==> at[m] < |s|
    ensures LongNameOf(s, e) == [CString(LongText(s, at))]
  {
    forall m | 0 <= m < |at| ensures at[m] < |s| {
      assert PartHere(s, |at|, NameSum(e, 11), at, m);
    }
    NameIsRun(s, e, at);
  }

  /** How many parts a long name has according to the last of these entries that begins one. */
  function PartsNamed(s: seq<Entry>): nat {
    if s == [] then 0
    else if Long(s[|s| - 1]) && Starts(s[|s| - 1]) then Number(s[|s| - 1])
    else PartsNamed(s[..|s| - 1])
  }

  /** As many entries as that are parts, and nothing stands between them and the next entry. */
  ghost predicate EndsInParts(s: seq<Entry>) {
    PartsNamed(s) <= |s| && forall j :: |s| - PartsNamed(s) <= j < |s| ==> Long(s[j])
  }

  lemma {:induction false} RunIsNamed(s: seq<Entry>, n: nat, k: nat, sum: byte, at: seq<nat>)
    requires After(s) == Run(n, k, sum, at)
    ensures PartsNamed(s) == n
  {
    var p, e := s[..|s| - 1], s[|s| - 1];
    if !(Long(e) && Starts(e)) {
      var t := After(p);
      RunIsNamed(p, t.n, t.k, t.sum, t.at);
    }
  }

  /** If the last entries are all parts, the last `i` parts of the chain are the last `i` of them. */
  lemma {:induction false} LastParts(s: seq<Entry>, n: nat, sum: byte, at: seq<nat>, i: nat)
    requires Chain(s, n, 0, sum, at) && n <= |s| && i <= n
    requires forall j :: |s| - n <= j < |s| ==> Long(s[j])
    ensures forall m :: n - i <= m < n ==> at[m] == |s| - n + m
  {
    if i > 0 {
      LastParts(s, n, sum, at, i - 1);
      var here := n - i;
      AtMost(s, n, sum, at, 0);
      assert OnlyParts(s, at, |s| - i) && Long(s[|s| - i]);
      var m :| 0 <= m < n && at[m] == |s| - i;
      AtMost(s, n, sum, at, here);
      if m < here { PlacesIncrease(s, n, sum, at, m, here); }
    }
  }

  /** Part `m` stands no later than the number of parts behind it allows. */
  lemma {:induction false} AtMost(s: seq<Entry>, n: nat, sum: byte, at: seq<nat>, m: nat)
    requires (forall m :: 0 <= m < |at| ==> PartHere(s, n, sum, at, m)) && m < |at| == n
    ensures at[m] <= |s| - n + m
    decreases n - m
  {
    assert PartHere(s, n, sum, at, m);
    if m + 1 < n {
      PlacesIncrease(s, n, sum, at, m, m + 1);
      AtMost(s, n, sum, at, m + 1);
    }
  }

  /** What is taken is such a name exactly if as many entries as its first part says stand right
      before the entry and are all parts. */
  lemma {:induction false} TakenIsLongName(s: seq<Entry>, e: Entry)
    requires LongNameOf(s, e) != []
    ensures (exists at: seq<nat> :: IsLongName(s, e, at)) <==> EndsInParts(s)
  {
    var t := After(s);
    RunIsChain(s, t.n, t.k, t.sum, t.at);
    RunIsNamed(s, t.n, t.k, t.sum, t.at);
    if EndsInParts(s) {
      LastParts(s, t.n, t.sum, t.at, t.n);
      assert IsLongName(s, e, t.at);
    }
    if at: seq<nat> :| IsLongName(s, e, at) {
      NameEndsInParts(s, e, at);
    }
  }

  lemma {:induction false} NameEndsInParts(s: seq<Entry>, e: Entry, at: seq<nat>)
    requires IsLongName(s, e, at)
    ensures EndsInParts(s)
  {
    NameIsRun(s, e, at);
    RunIsNamed(s, |at|, 0, NameSum(e, 11), at);
    forall j | |s| - |at| <= j < |s| ensures Long(s[j]) {
      assert PartHere(s, |at|, NameSum(e, 11), at, j - (|s| - |at|));
    }
  }

  lemma {:induction false} AfterThree(a: Entry, b: Entry, c: Entry)
    ensures After([a, b, c]) == Next(Next(Next(Idle, a, 0), b, 1), c, 2)
  {
    assert [a, b, c][..2] == [a, b] && [a, b][..1] == [a] && [a][..0] == [];
    assert After([a]) == Next(Idle, a, 0);
    assert After([a, b]) == Next(After([a]), b, 1);
  }

  lemma {:induction false} AfterTwoParts(a: Entry, b: Entry, sum: byte)
    requires IsPart(a, 2, sum, true) && IsPart(b, 1, sum, false)
    ensures After([a, b]) == Run(2, 0, sum, [0, 1])
  {
    assert [a, b][..1] == [a] && [a][..0] == [];
    assert After([a]) == Next(Idle, a, 0) == Run(2, 1, sum, [0]);
  }

  lemma {:induction false} AfterDeleted(a: Entry, d: Entry, b: Entry, sum: byte)
    requires IsPart(a, 2, sum, true) && IsPart(b, 1, sum, false) && Long(d) && d[0] == 0xE5
    ensures After([a, d, b]) == Idle
  {
    AfterThree(a, d, b);
    DeletedPartBegins(Next(Idle, a, 0), d, 1);
  }

  /** A long name of two parts is lost if there is a deleted part between them. */
  lemma {:induction false} LostToDeleted(a: Entry, d: Entry, b: Entry, e: Entry)
    requires IsPart(a, 2, NameSum(e, 11), true) && IsPart(b, 1, NameSum(e, 11), false)
    requires Long(d) && d[0] == 0xE5
    ensures LongNameOf([a, b], e) != [] && LongNameOf([a, d, b], e) == []
  {
    AfterTwoParts(a, b, NameSum(e, 11));
    AfterDeleted(a, d, b, NameSum(e, 11));
  }

  /** With another file between its parts, a long name is taken all the same, although the format
      has no such name. */
  lemma {:induction false} TakenAcrossFile(a: Entry, f: Entry, b: Entry, e: Entry)
    requires IsPart(a, 2, NameSum(e, 11), true) && IsPart(b, 1, NameSum(e, 11), false) && Short(f)
    ensures LongNameOf([a, f, b], e) != []
    ensures forall at :: !IsLongName([a, f, b], e, at)
  {
    var s := [a, f, b];
    AfterThree(a, f, b);
    assert After(s) == Run(2, 0, NameSum(e, 11), [0, 2]);
    forall at ensures !IsLongName(s, e, at) {
      if at != [] && Adjacent(s, at) {
        assert at[|at| - 1] == 2 && (|at| >= 2 ==> at[|at| - 2] == 1);
        assert !PartHere(s, |at|, NameSum(e, 11), at, 0) || !PartHere(s, |at|, NameSum(e, 11), at, |at| - 2);
      }
    }
  }

  /** There are such entries for every file: letters A but for what makes them parts. */
  function Letters(first: byte, attributes: byte, sum: byte): Entry {
    seq(32, i => if i == 0 then first else if i == 11 then attributes else if i == 13 then sum else 65)
  }

  lemma {:induction false} LettersAreParts(sum: byte)
    ensures IsPart(Letters(0x42, 0x0f, sum), 2, sum, true) && IsPart(Letters(1, 0x0f, sum), 1, sum, false)
    ensures Long(Letters(0xE5, 0x0f, sum)) && Letters(0xE5, 0x0f, sum)[0] == 0xE5
    ensures Short(Letters(65, 0x20, sum))
  {
  }

  /** The last of these entries goes by `name`. */
  predicate Named(s: seq<Entry>, name: seq<byte>) {
    s != [] && var p, e := s[..|s| - 1], s[|s| - 1];
    Short(e) && (name in LongNameOf(p, e) || name == ShortName(e))
  }

  /** The entries `before` and the first `n` of `entries`. */
  function Upto(before: seq<Entry>, entries: seq<Entry>, n: nat): seq<Entry>
    requires n <= |entries|
  {
    if n == 0 then before else Upto(before, entries, n - 1) + [entries[n - 1]]
  }

  lemma {:induction false} UptoIs(before: seq<Entry>, entries: seq<Entry>, n: nat)
    requires n <= |entries|
    ensures Upto(before, entries, n) == before + entries[..n]
  {
    if n > 0 { UptoIs(before, entries, n - 1); }
  }

  /** After the entries `before`, entry `i` neither ends the directory nor goes by `name`. */
  predicate PassedBy(before: seq<Entry>, entries: seq<Entry>, i: nat, name: seq<byte>)
    requires i < |entries|
  {
    entries[i][0] != 0 && !Named(Upto(before, entries, i + 1), name)
  }

  /** So it is for the first `n` of the entries. */
  predicate AllPassed(before: seq<Entry>, entries: seq<Entry>, n: nat, name: seq<byte>)
    requires n <= |entries|
  {
    n == 0 || (AllPassed(before, entries, n - 1, name) && PassedBy(before, entries, n - 1, name))
  }

  lemma {:induction false} EachPassed(before: seq<Entry>, entries: seq<Entry>, n: nat, name: seq<byte>, i: nat)
    requires i < n <= |entries| && AllPassed(before, entries, n, name)
    ensures PassedBy(before, entries, i, name)
  {
    if i < n - 1 { EachPassed(before, entries, n - 1, name, i); }
  }

  lemma {:induction false} NamedIs(s: seq<Entry>, e: Entry, name: seq<byte>)
    ensures Named(s + [e], name) <==> Short(e) && (name in LongNameOf(s, e) || name == ShortName(e))
    ensures After(s + [e]) == Next(After(s), e, |s|)
  {
    assert (s + [e])[..|s|] == s;
  }

  lemma {:induction false} CStringUpTo(s: seq<byte>, m: nat)
    requires m < |s| && s[m] == 0
    ensures CString(s) == CString(s[..m])
    ensures |CString(s)| <= m
  {
    if m > 0 && s[0] != 0 {
      CStringUpTo(s[1..], m - 1);
      assert s[1..][..m - 1] == s[..m][1..];
    }
  }

  lemma {:induction false} CStringIs(s: seq<byte>, w: seq<byte>)
    requires |w| < |s| && s[..|w|] == w && 0 !in w && s[|w|] == 0
    ensures CString(s) == w
  {
    if w != [] {
      assert s[0] == w[0] && w[0] in w;
      assert s[1..][..|w| - 1] == w[1..];
      CStringIs(s[1..], w[1..]);
    }
  }

  lemma {:induction false} CStringAt(s: seq<byte>, i: nat)
    requires i <= |CString(s)|
    ensures |CString(s)| <= |s|
    ensures i < |CString(s)| ==> s[i] == CString(s)[i] && s[i] != 0
    ensures i == |CString(s)| < |s| ==> s[i] == 0
  {
    if s != [] && s[0] != 0 {
      CStringAt(s[1..], if i > 0 then i - 1 else 0);
    }
  }

  // ---------- the search ----------

  class DirSearch {
    const filename: array<byte>       // NAME_BUF
    var slot: int
    var alias: int                    // alias_checksum, -1 for none
    ghost var seen: seq<Entry>        // the entries read since the search began

    constructor ()
      ensures Valid() && seen == [] && fresh(filename)
    {
      filename := new byte[833];
      slot, alias, seen := -2, -1, [];
    }

    /** The text of a part is in its place. */
    ghost predicate PartAt(number: int, e: Entry)
      requires filename.Length == 833 && 1 <= number <= 63
      reads filename
    {
      filename[13 * (number - 1)..13 * number] == Text(e)
    }

    /** An assembly that stands at slot `k` has its text from there on in the buffer. */
    ghost predicate Holds(t: Track, s: seq<Entry>)
      requires filename.Length == 833
      reads this`slot, this`alias, filename
    {
      t.Run? ==>
        && slot == t.k && alias == t.sum && t.k + |t.at| == t.n <= 63 && filename[13 * t.n] == 0
        && forall m :: 0 <= m < |t.at| ==> t.at[m] < |s| && PartAt(t.n - m, s[t.at[m]])
    }

    ghost predicate Valid()
      reads this, filename
    {
      && filename.Length == 833 && -2 <= slot <= 63 && -1 <= alias < 256
      && (After(seen).Idle? ==> alias == -1 || slot < 0)
      && Holds(After(seen), seen)
    }

    method CopyText(e: Entry)
      requires filename.Length == 833 && 0 <= slot < 63
      modifies filename
      ensures PartAt(slot + 1, e)
      ensures forall k :: 0 <= k < 833 && !(13 * slot <= k < 13 * slot + 13) ==> filename[k] == old(filename[k])
    {
      var offset := slot * 13;
      for i := 0 to 13
        invariant forall k :: 0 <= k < i ==> filename[offset + k] == e[LONGDIR_POS[k]]
        invariant forall k :: 0 <= k < 833 && !(13 * slot <= k < 13 * slot + 13) ==> filename[k] == old(filename[k])
      {
        filename[offset + i] := e[LONGDIR_POS[i]];
      }
    }

    /** Adds the text of the next part in front of the text there is. */
    method AddPart(e: Entry, ghost t: Track)
      requires filename.Length == 833 && t.Run? && 0 < t.k <= 63 && Holds(t, seen)
      modifies this`slot, filename
      ensures Holds(Run(t.n, t.k - 1, t.sum, t.at + [|seen|]), seen + [e])
    {
      slot := slot - 1;
      CopyText(e);
      ghost var u, s := Run(t.n, t.k - 1, t.sum, t.at + [|seen|]), seen + [e];
      forall m | 0 <= m < |u.at| ensures u.at[m] < |s| && PartAt(u.n - m, s[u.at[m]]) {
        if m < |t.at| {
          assert old(PartAt(t.n - m, seen[t.at[m]]));
          assert filename[13 * (t.n - m - 1)..13 * (t.n - m)] == old(filename[13 * (t.n - m - 1)..13 * (t.n - m)]);
        }
      }
    }

    /** The last part of a name comes first and starts an assembly. */
    method StartName(e: Entry) returns (ghost t: Track)
      requires Valid() && Long(e) && Starts(e)
      modifies this`slot, this`alias, filename
      ensures t == Run(Number(e), Number(e), Sum(e), []) && Holds(t, seen)
    {
      slot := e[0] % 0x40;
      filename[slot * 13] := 0;
      alias := e[13];
      t := Run(Number(e), Number(e), Sum(e), []);
    }

    /** What an assembly is when entry `e` is looked at: begun anew if `e` is the last part of a
        name. */
    ghost function Current(e: Entry): Track
      reads this`seen
    {
      if Starts(e) then Run(Number(e), Number(e), Sum(e), []) else After(seen)
    }

    /** A part that is the next one is added; any other ends the assembly. */
    method Continue(e: Entry, id: nat, ghost t: Track)
      requires filename.Length == 833 && -2 <= slot <= 63 && -1 <= alias < 256
      requires Long(e) && id == Number(e) && t == Current(e)
      requires (t.Idle? ==> alias == -1 || slot < 0) && Holds(t, seen)
      modifies this, filename
      ensures Valid() && seen == old(seen) + [e]
    {
      assert (seen + [e])[..|seen|] == seen;
      if id != slot || slot == 0 || alias != e[13] {
        alias := -1;
        seen := seen + [e];
        return;
      }
      AddPart(e, t);
      seen := seen + [e];
    }

    /** Takes in a part of a long name. */
    method ProcessLong(e: Entry)
      requires Valid() && Long(e) && e[0] != 0
      modifies this, filename
      ensures Valid() && seen == old(seen) + [e]
    {
      var id: nat := e[0];
      ghost var t := After(seen);
      if Starts(e) {
        id := id % 0x40;
        t := StartName(e);
      }
      Continue(e, id, t);
    }

    lemma {:induction false} TextInBuffer(s: seq<Entry>, n: nat, at: seq<nat>)
      requires filename.Length == 833 && |at| <= n <= 63
      requires forall m :: 0 <= m < |at| ==> at[m] < |s| && PartAt(n - m, s[at[m]])
      ensures filename[13 * (n - |at|)..13 * n] == LongText(s, at)
    {
      if at != [] {
        var front := at[..|at| - 1];
        TextInBuffer(s, n, front);
        var a, b := 13 * (n - |at|), 13 * (n - |front|);
        assert PartAt(n - (|at| - 1), s[at[|at| - 1]]);
        assert filename[a..13 * n] == filename[a..b] + filename[b..13 * n];
      }
    }

    /** A finished assembly leaves the long name in the buffer as a C string. */
    lemma {:induction false} FinishedName(t: Track, s: seq<Entry>)
      requires filename.Length == 833 && t.Run? && t.k == 0 && Holds(t, s)
      ensures forall m :: 0 <= m < |t.at| ==> t.at[m] < |s|
      ensures CString(filename[..]) == CString(LongText(s, t.at)) && 0 in filename[..]
    {
      TextInBuffer(s, t.n, t.at);
      assert filename[..13 * t.n] == filename[0..13 * t.n];
      assert filename[..][13 * t.n] == 0;
      CStringUpTo(filename[..], 13 * t.n);
      assert filename[..][..13 * t.n] == filename[..13 * t.n];
    }

    /** `substring`: compares a name with the C string in the buffer. */
    method Substring(name: seq<byte>) returns (r: int)
      requires 0 !in name && 0 in filename[..]
      ensures r == 0 <==> name == CString(filename[..])
      ensures r == -1 <==> name < CString(filename[..])
      ensures r == 0 || r == -1 || r == 1
    {
      ghost var c := CString(filename[..]);
      var i := 0;
      while true
        invariant i <= |name| && i <= |c| && name[..i] == c[..i]
        decreases |name| - i
      {
        CStringAt(filename[..], i);
        if i == |c| { ZeroEnds(filename[..]); }
        var c1 := if i < |name| then name[i] else 0;
        var c2 := filename[i];
        if c1 != c2 { break; }
        if c1 == 0 { return 0; }
        i := i + 1;
      }
      r := if i == |name| then -1 else 1;
    }

    /** Writes the 8.3 name of an entry into the buffer. */
    method WriteShort(e: Entry)
      requires filename.Length == 833
      modifies filename
      ensures CString(filename[..]) == ShortName(e) && 0 in filename[..]
      ensures forall k :: 13 <= k < 833 ==> filename[k] == old(filename[k])
    {
      var i := CopyBase(e);
      i := CopyExtension(e, i);
      Terminate(i);
    }

    /** The extension behind base and dot, which are `i` bytes, or nothing instead of the dot. */
    method CopyExtension(e: Entry, i: nat) returns (end: nat)
      requires filename.Length == 833 && i == |Word(e[..8])| + 1 && filename[..i] == Word(e[..8]) + [46]
      modifies filename
      ensures end == |ShortName(e)| && filename[..end] == ShortName(e)
      ensures forall k :: 13 <= k < 833 ==> filename[k] == old(filename[k])
    {
      ghost var front := filename[..i];
      var j := CopyWord(e[8..11], i);
      assert filename[..i] == front;
      ghost var base, extension := Word(e[..8]), Word(e[8..11]);
      if j == 0 {
        assert filename[..i - 1] == front[..i - 1] == base;
        return i - 1;
      }
      assert filename[..i + j] == front + extension == base + ([46] + extension);
      return i + j;
    }

    /** The base of the name, and a dot. */
    method CopyBase(e: Entry) returns (i: nat)
      requires filename.Length == 833
      modifies filename
      ensures i == |Word(e[..8])| + 1 && filename[..i] == Word(e[..8]) + [46]
      ensures forall k :: 13 <= k < 833 ==> filename[k] == old(filename[k])
    {
      i := CopyWord(e[..8], 0);
      filename[i] := 46;
      i := i + 1;
    }

    method Terminate(i: nat)
      requires filename.Length == 833 && i < 13 && 0 !in filename[..i]
      modifies filename
      ensures CString(filename[..]) == old(filename[..i]) && 0 in filename[..]
      ensures forall k :: 13 <= k < 833 ==> filename[k] == old(filename[k])
    {
      ghost var w := filename[..i];
      filename[i] := 0;
      assert filename[..][..i] == w && filename[..][i] == 0;
      CStringIs(filename[..], w);
    }

    /** Copies a blank-padded field in lower case; the character that ends it is copied too. */
    method CopyWord(field: seq<byte>, at: nat) returns (i: nat)
      requires at + |field| <= 12 && filename.Length == 833
      modifies filename
      ensures i == |Word(field)| && filename[at..at + i] == Word(field)
      ensures forall k :: 0 <= k < 833 && !(at <= k < 12) ==> filename[k] == old(filename[k])
    {
      ghost var w := Word(field);
      i := 0;
      while i < |field|
        invariant i <= |w| && filename[at..at + i] == w[..i]
        invariant forall k :: 0 <= k < 833 && !(at <= k < 12) ==> filename[k] == old(filename[k])
      {
        filename[at + i] := Lower(field[i]);
        if filename[at + i] == 0 || Space(filename[at + i]) { break; }
        i := i + 1;
      }
      assert filename[at..at + i] == w[..i];
    }

    /** The 8.3 name takes less than 13 bytes, so that it leaves an assembly that has not come to
        its first part alone. */
    method PutShort(e: Entry, ghost t: Track)
      requires filename.Length == 833
      requires t.Run? && t.k > 0 ==> Holds(t, seen)
      modifies filename
      ensures CString(filename[..]) == ShortName(e) && 0 in filename[..]
      ensures t.Run? && t.k > 0 ==> Holds(t, seen)
    {
      WriteShort(e);
      if t.Run? && t.k > 0 {
        forall m | 0 <= m < |t.at| ensures PartAt(t.n - m, seen[t.at[m]]) {
          assert old(PartAt(t.n - m, seen[t.at[m]]));
          assert filename[13 * (t.n - m - 1)..13 * (t.n - m)] == old(filename[13 * (t.n - m - 1)..13 * (t.n - m)]);
        }
      }
    }

    /** Compares the long name with the one looked for, if there is one for this entry. */
    method TryLong(e: Entry, name: seq<byte>) returns (found: bool)
      requires Valid() && Short(e) && 0 !in name
      modifies this`slot
      ensures found <==> name in LongNameOf(seen, e)
      ensures filename.Length == 833 && -2 <= slot <= 63 && -1 <= alias < 256
      ensures After(seen).Idle? || After(seen).k == 0 ==> alias == -1 || slot < 0
      ensures After(seen).Run? && After(seen).k > 0 ==> Holds(After(seen), seen)
    {
      if alias == -1 || slot != 0 { return false; }
      FinishedName(After(seen), seen);
      slot := -2;
      var sum: byte, i := 0, 0;
      while i < 11
        invariant i <= 11 && sum == NameSum(e, i)
      {
        sum := (sum / 2 + 0x80 * (sum % 2) + e[i]) % 0x100;
        i := i + 1;
      }
      if sum != alias { return false; }
      var r := Substring(name);
      found := r == 0;
    }

    /** Takes in a file or directory; the search may end with it. */
    method ProcessShort(e: Entry, name: seq<byte>) returns (found: bool)
      requires Valid() && Short(e) && 0 !in name
      modifies this, filename
      ensures Valid() && seen == old(seen) + [e]
      ensures found <==> Named(seen, name)
    {
      ghost var t := After(seen);
      NamedIs(seen, e, name);
      found := TryLong(e, name);
      if !found {
        PutShort(e, t);
        var r := Substring(name);
        found := r == 0;
      }
      seen := seen + [e];
    }

    /** The entry loop of `fat_dir` for one component of a path, over what is left of a
        directory. It stops with the first entry that goes by the name, its long name only if
        the parts of that came whole and in order, or where the directory ends. */
    method LookUp(entries: seq<Entry>, name: seq<byte>) returns (found: bool, at: nat)
      requires Valid() && 0 !in name
      modifies this, filename
      ensures Valid() && at <= |entries|
      ensures found ==> at < |entries| && entries[at][0] != 0 && Named(Upto(old(seen), entries, at + 1), name)
      ensures !found ==> at == |entries| || entries[at][0] == 0
      ensures AllPassed(old(seen), entries, at, name)
      ensures seen == Upto(old(seen), entries, if found then at + 1 else at)
    {
      at := 0;
      ghost var before := seen;
      while at < |entries|
        invariant at <= |entries| && Valid() && seen == Upto(before, entries, at)
        invariant AllPassed(before, entries, at, name)
      {
        var e := entries[at];
        if e[0] == 0 { return false, at; }
        found := ReadEntry(e, name);
        if found { return; }
        at := at + 1;
      }
      found := false;
    }

    method ReadEntry(e: Entry, name: seq<byte>) returns (found: bool)
      requires Valid() && e[0] != 0 && 0 !in name
      modifies this, filename
      ensures Valid() && seen == old(seen) + [e]
      ensures found <==> Named(seen, name)
    {
      NamedIs(seen, e, name);
      found := false;
      if e[11] == 0x0f {
        ProcessLong(e);
      } else if Short(e) {
        found := ProcessShort(e, name);
      } else {
        seen := seen + [e];
      }
    }
  }

  lemma {:induction false} ZeroEnds(s: seq<byte>)
    requires 0 in s
    ensures |CString(s)| < |s|
  {
    if s[0] != 0 { ZeroEnds(s[1..]); }
  }
}
