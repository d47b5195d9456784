/** How numbers and tables lie on a disk or in a packet: little-endian words, and records one after
    another.  The formats of the other modules are put together from these. */
module Encoding {
  import opened Disk

  function Le16(w: int): (s: seq<byte>)
    requires 0 <= w < 0x1_0000
    ensures |s| == 2
  {
    [w % 0x100, w / 0x100]
  }

  function Le32(w: int): (s: seq<byte>)
    requires 0 <= w < 0x1_0000_0000
    ensures |s| == 4
  {
    [w % 0x100, w / 0x100 % 0x100, w / 0x1_0000 % 0x100, w / 0x100_0000]
  }

  /** The bytes `t` stand at place `i` of `s`. */
  ghost predicate Stands(s: seq<byte>, i: nat, t: seq<byte>) {
    i + |t| <= |s| && s[i..i + |t|] == t
  }

  lemma {:induction false} Le16IsRead(s: seq<byte>, i: nat, w: int)
    requires 0 <= w < 0x1_0000 && Stands(s, i, Le16(w))
    ensures U16(s, i) == w
  {
    var t := s[i..i + 2];
    assert s[i] == t[0] && s[i + 1] == t[1];
  }

  lemma {:induction false} Le32IsRead(s: seq<byte>, i: nat, w: int)
    requires 0 <= w < 0x1_0000_0000 && Stands(s, i, Le32(w))
    ensures U32(s, i) == w
  {
    var t := s[i..i + 4];
    assert s[i] == t[0] && s[i + 1] == t[1] && s[i + 2] == t[2] && s[i + 3] == t[3];
  }

  lemma {:induction false} StandsWithin(s: seq<byte>, i: nat, t: seq<byte>, j: nat, u: seq<byte>)
    requires Stands(s, i, t) && Stands(t, j, u)
    ensures Stands(s, i + j, u)
  {
    forall k | 0 <= k < |u| ensures s[i + j + k] == u[k] {
      assert s[i..i + |t|][j + k] == t[j..j + |u|][k];
    }
    assert s[i + j..i + j + |u|] == u;
  }

  lemma {:induction false} StandsBetween(a: seq<byte>, t: seq<byte>, b: seq<byte>)
    ensures Stands(a + t + b, |a|, t)
  {
  }

  // ---------- filling ----------

  function Zeros(n: nat): (s: seq<byte>)
    ensures |s| == n
  {
    seq<byte>(n, _ => 0)
  }

  function Full(b: byte, size: nat := SECTOR_SIZE): (s: seq<byte>)
    ensures |s| == size
  {
    seq<byte>(size, _ => b)
  }

  /** `s`, and zeros up to the end of a block. */
  function Padded(s: seq<byte>, size: nat := SECTOR_SIZE): (block: seq<byte>)
    ensures |s| <= size ==> |block| == size
  {
    s + Zeros(if |s| <= size then size - |s| else 0)
  }

  // ---------- tables ----------

  /** Records of `size` bytes one after another. */
  function Table(records: seq<seq<byte>>): (s: seq<byte>) {
    if records == [] then [] else Table(records[..|records| - 1]) + records[|records| - 1]
  }

  predicate AllOf(records: seq<seq<byte>>, size: nat) {
    forall i :: 0 <= i < |records| ==> |records[i]| == size
  }

  lemma {:induction false} LengthOfTable(records: seq<seq<byte>>, size: nat)
    requires AllOf(records, size)
    ensures |Table(records)| == |records| * size
  {
    if records != [] {
      LengthOfTable(records[..|records| - 1], size);
      assert |records| * size == (|records| - 1) * size + size;
    }
  }

  /** Record `i` stands at its place. */
  lemma {:induction false} RecordAt(records: seq<seq<byte>>, size: nat, i: nat)
    requires AllOf(records, size) && i < |records|
    ensures Stands(Table(records), i * size, records[i])
    decreases |records|
  {
    var n := |records| - 1;
    var front := records[..n];
    LengthOfTable(front, size);
    LengthOfTable(records, size);
    if i == n {
      StandsBetween(Table(front), records[i], []);
      assert Table(front) + records[i] + [] == Table(records);
    } else {
      RecordAt(front, size, i);
      StandsBetween([], Table(front), records[n]);
      assert [] + Table(front) + records[n] == Table(records);
      StandsWithin(Table(records), 0, Table(front), i * size, records[i]);
    }
  }

  predicate AreWords(ws: seq<int>) {
    forall i :: 0 <= i < |ws| ==> 0 <= ws[i] < 0x1_0000_0000
  }

  /** 32-bit words one after another. */
  function Words(ws: seq<int>): (s: seq<byte>)
    requires AreWords(ws)
  {
    if ws == [] then [] else Words(ws[..|ws| - 1]) + Le32(ws[|ws| - 1])
  }

  lemma {:induction false} WordsSize(ws: seq<int>)
    requires AreWords(ws)
    ensures |Words(ws)| == 4 * |ws|
  {
    if ws != [] { WordsSize(ws[..|ws| - 1]); }
  }

  lemma {:induction false} WordAt(ws: seq<int>, i: nat)
    requires AreWords(ws) && i < |ws|
    ensures Stands(Words(ws), 4 * i, Le32(ws[i]))
    decreases |ws|
  {
    var n := |ws| - 1;
    var front := ws[..n];
    WordsSize(front);
    if i == n {
      StandsBetween(Words(front), Le32(ws[i]), []);
      assert Words(front) + Le32(ws[i]) + [] == Words(ws);
    } else {
      WordAt(front, i);
      StandsBetween([], Words(front), Le32(ws[n]));
      assert [] + Words(front) + Le32(ws[n]) == Words(ws);
      StandsWithin(Words(ws), 0, Words(front), 4 * i, Le32(ws[i]));
    }
  }

  /** A table of words is read word by word. */
  lemma {:induction false} WordsAreRead(s: seq<byte>, at: nat, ws: seq<int>, i: nat)
    requires AreWords(ws) && i < |ws| && Stands(s, at, Words(ws))
    ensures at + 4 * i + 4 <= |s| && U32(s, at + 4 * i) == ws[i]
  {
    WordsSize(ws);
    WordAt(ws, i);
    StandsWithin(s, at, Words(ws), 4 * i, Le32(ws[i]));
    Le32IsRead(s, at + 4 * i, ws[i]);
  }

  predicate AreHalves(hs: seq<int>) {
    forall i :: 0 <= i < |hs| ==> 0 <= hs[i] < 0x1_0000
  }

  /** 16-bit words one after another. */
  function Halves(hs: seq<int>): (s: seq<byte>)
    requires AreHalves(hs)
  {
    if hs == [] then [] else Halves(hs[..|hs| - 1]) + Le16(hs[|hs| - 1])
  }

  lemma {:induction false} HalvesSize(hs: seq<int>)
    requires AreHalves(hs)
    ensures |Halves(hs)| == 2 * |hs|
  {
    if hs != [] { HalvesSize(hs[..|hs| - 1]); }
  }

  lemma {:induction false} HalfAt(hs: seq<int>, i: nat)
    requires AreHalves(hs) && i < |hs|
    ensures Stands(Halves(hs), 2 * i, Le16(hs[i]))
    decreases |hs|
  {
    var n := |hs| - 1;
    var front := hs[..n];
    HalvesSize(front);
    if i == n {
      StandsBetween(Halves(front), Le16(hs[i]), []);
      assert Halves(front) + Le16(hs[i]) + [] == Halves(hs);
    } else {
      HalfAt(front, i);
      StandsBetween([], Halves(front), Le16(hs[n]));
      assert [] + Halves(front) + Le16(hs[n]) == Halves(hs);
      StandsWithin(Halves(hs), 0, Halves(front), 2 * i, Le16(hs[i]));
    }
  }

  lemma {:induction false} HalvesAreRead(s: seq<byte>, at: nat, hs: seq<int>, i: nat)
    requires AreHalves(hs) && i < |hs| && Stands(s, at, Halves(hs))
    ensures at + 2 * i + 2 <= |s| && U16(s, at + 2 * i) == hs[i]
  {
    HalvesSize(hs);
    HalfAt(hs, i);
    StandsWithin(s, at, Halves(hs), 2 * i, Le16(hs[i]));
    Le16IsRead(s, at + 2 * i, hs[i]);
  }

  /** Four pieces in a row, each in its place, and at `at` of `s` all of them. */
  lemma {:induction false} FourPieces(s: seq<byte>, at: nat, a: seq<byte>, b: seq<byte>, c: seq<byte>, d: seq<byte>)
    requires Stands(s, at, a + b + c + d)
    ensures Stands(s, at, a) && Stands(s, at + |a|, b) && Stands(s, at + |a| + |b|, c) && Stands(s, at + |a| + |b| + |c|, d)
  {
    var t := a + b + c + d;
    assert t[..|a|] == a && t[|a|..|a| + |b|] == b && t[|a| + |b|..|a| + |b| + |c|] == c;
    StandsWithin(s, at, t, 0, a);
    StandsWithin(s, at, t, |a|, b);
    StandsWithin(s, at, t, |a| + |b|, c);
    StandsWithin(s, at, t, |a| + |b| + |c|, d);
  }
}
