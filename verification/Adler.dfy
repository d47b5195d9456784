/** The Adler-32 checksum of include/zutil.h, which reduces its sums only once in 5552 bytes. */
module Adler {
  import opened Disk

  const BASE: nat := 65521
  const NMAX: nat := 5552
  const HALF: nat := 0xffff
  const ULONG: nat := 0x1_0000_0000

  /** The two sums of a checksum. */
  datatype Sums = Sums(s1: nat, s2: nat)

  /** Section 2.2 of RFC 1950: every byte is added to the first sum, and the first sum to the
      second, modulo BASE each time. */
  function Update(x: Sums, s: seq<byte>): Sums {
    if s == [] then x
    else
      var y := Update(x, s[..|s| - 1]);
      var s1 := (y.s1 + s[|s| - 1]) % BASE;
      Sums(s1, (y.s2 + s1) % BASE)
  }

  function Pack(x: Sums): nat { x.s2 * 0x1_0000 + x.s1 }

  function Unpack(adler: nat): Sums { Sums(adler % 0x1_0000, adler / 0x1_0000 % 0x1_0000) }

  predicate Reduced(x: Sums) { x.s1 < BASE && x.s2 < BASE }

  /** The checksum that every incoming value of `zlib_adler32` should be. */
  predicate ValidAdler(adler: nat) { adler < ULONG && Reduced(Unpack(adler)) }

  lemma {:induction false} UnpackPack(x: Sums)
    requires Reduced(x)
    ensures Unpack(Pack(x)) == x && Pack(x) < ULONG
  {
  }

  lemma {:induction false} PackUnpack(adler: nat)
    requires adler < ULONG
    ensures Pack(Unpack(adler)) == adler
    ensures Unpack(adler).s1 <= HALF && Unpack(adler).s2 <= HALF
  {
  }

  lemma {:induction false} UpdateIsReduced(x: Sums, s: seq<byte>)
    requires Reduced(x) || s != []
    ensures Reduced(Update(x, s))
  {
  }

  lemma {:induction false} UpdateMore(x: Sums, s: seq<byte>, t: seq<byte>)
    ensures Update(Update(x, s), t) == Update(x, s + t)
  {
    if t == [] {
      assert s + t == s;
    } else {
      UpdateMore(x, s, t[..|t| - 1]);
      assert (s + t)[..|s + t| - 1] == s + t[..|t| - 1];
    }
  }

  /** The checksum of a buffer, starting from `adler`. */
  function Adler32(adler: nat, s: seq<byte>): nat {
    Pack(Update(Unpack(adler), s))
  }

  /** Checksums compose: continuing from the checksum of one buffer gives that of both. */
  lemma {:induction false} AdlerIsIncremental(adler: nat, s: seq<byte>, t: seq<byte>)
    requires adler < ULONG
    ensures Adler32(adler, s) < ULONG && (s != [] ==> ValidAdler(Adler32(adler, s)))
    ensures Adler32(Adler32(adler, s), t) == Adler32(adler, s + t)
  {
    var x := Unpack(adler);
    var y := Update(x, s);
    UpdateMore(x, s, t);
    if s == [] {
      PackUnpack(adler);
    } else {
      UpdateIsReduced(x, s);
      UnpackPack(y);
    }
    assert Unpack(Pack(y)) == y;
  }

  // ---------- the sums without reduction ----------

  /** The largest value of the second sum after `n` bytes without reduction, when both sums were
      no more than `top` before them. */
  function Most2(top: nat, n: nat): nat {
    if n == 0 then top else Most2(top, n - 1) + top + 255 * n
  }

  lemma {:induction false} Most2Is(top: nat, n: nat)
    ensures 2 * Most2(top, n) == 2 * (n + 1) * top + 255 * (n * (n + 1))
  {
    if n > 0 {
      Most2Is(top, n - 1);
      assert 2 * (n + 1) * top == 2 * n * top + 2 * top;
      assert n * (n + 1) == (n - 1) * n + 2 * n;
    }
  }

  lemma {:induction false} Most2Grows(top: nat, m: nat, n: nat)
    requires m <= n
    ensures Most2(top, m) <= Most2(top, n)
  {
    if m < n { Most2Grows(top, m, n - 1); }
  }

  /** NMAX is the largest number of bytes after which the sums still fit 32 bits, for sums that
      have been reduced and for any that come in as 16-bit halves. */
  lemma {:induction false} NmaxIsLargest(top: nat)
    requires BASE - 1 <= top <= HALF
    ensures Most2(top, NMAX) < ULONG <= Most2(top, NMAX + 1)
  {
    Most2Is(top, NMAX);
    Most2Is(top, NMAX + 1);
  }

  lemma {:induction false} ModAdd(x: nat, v: nat)
    ensures (x % BASE + v) % BASE == (x + v) % BASE
  {
    var q := x / BASE;
    assert x + v == x % BASE + v + BASE * q;
    ModShift(x % BASE + v, q);
  }

  lemma {:induction false} ModShift(x: nat, q: nat)
    ensures (x + BASE * q) % BASE == x % BASE
  {
    if q > 0 {
      ModShift(x, q - 1);
      assert x + BASE * q == x + BASE * (q - 1) + BASE;
    }
  }

  /** The state of the loops after the bytes `s`, of which `n` are of the current chunk: the sums
      may have grown, but within bounds, and are those of the bytes read so far modulo BASE.
      Before the first byte they are what came in. */
  predicate Deferred(x: Sums, s: seq<byte>, s1: nat, s2: nat, n: nat) {
    && (if s == [] then x == Sums(s1, s2) else Update(x, s) == Sums(s1 % BASE, s2 % BASE))
    && s1 <= HALF + 255 * n && s2 <= Most2(HALF, n)
  }

  lemma {:induction false} OneByte(x: Sums, s: seq<byte>, v: byte, s1: nat, s2: nat, n: nat)
    requires Deferred(x, s, s1, s2, n)
    ensures Deferred(x, s + [v], s1 + v, s2 + s1 + v, n + 1)
  {
    assert (s + [v])[..|s|] == s;
    if s == [] {
      ModAdd(s1 + v, s2);
    } else {
      ModAdd(s1, v);
      ModAdd(s2, (s1 + v) % BASE);
      ModAdd(s1 + v, s2);
    }
  }

  /** The reduction at the end of a chunk. */
  lemma {:induction false} Settle(x: Sums, s: seq<byte>, s1: nat, s2: nat, n: nat)
    requires Deferred(x, s, s1, s2, n) && s != []
    ensures Deferred(x, s, s1 % BASE, s2 % BASE, 0)
  {
    assert s1 % BASE % BASE == s1 % BASE && s2 % BASE % BASE == s2 % BASE;
  }

  /** One `DO1` */
  method Do1(s1: nat, s2: nat, buf: seq<byte>, p: nat, ghost x: Sums, ghost n: nat) returns (t1: nat, t2: nat)
    requires p < |buf| && Deferred(x, buf[..p], s1, s2, n) && n < NMAX
    ensures Deferred(x, buf[..p + 1], t1, t2, n + 1) && t1 < ULONG && t2 < ULONG
  {
    assert buf[..p + 1] == buf[..p] + [buf[p]];
    var v := buf[p];
    OneByte(x, buf[..p], v, s1, s2, n);
    Most2Grows(HALF, n + 1, NMAX);
    NmaxIsLargest(HALF);
    t1 := s1 + v;
    t2 := s2 + t1;
  }

  /** `DO16` */
  method Do16(s1: nat, s2: nat, buf: seq<byte>, p: nat, ghost x: Sums, ghost n: nat) returns (t1: nat, t2: nat)
    requires p + 16 <= |buf| && n + 16 <= NMAX && Deferred(x, buf[..p], s1, s2, n) && s1 < ULONG && s2 < ULONG
    ensures Deferred(x, buf[..p + 16], t1, t2, n + 16) && t1 < ULONG && t2 < ULONG
  {
    t1, t2 := s1, s2;
    for i := 0 to 16
      invariant Deferred(x, buf[..p + i], t1, t2, n + i) && t1 < ULONG && t2 < ULONG
    {
      t1, t2 := Do1(t1, t2, buf, p + i, x, n + i);
    }
  }

  /** The bytes of one chunk, in groups of sixteen and then one by one. */
  method Chunk(s1: nat, s2: nat, buf: seq<byte>, at: nat, k0: nat, ghost x: Sums) returns (t1: nat, t2: nat)
    requires at + k0 <= |buf| && k0 <= NMAX
    requires Deferred(x, buf[..at], s1, s2, 0)
    ensures Deferred(x, buf[..at + k0], t1, t2, k0) && t1 < ULONG && t2 < ULONG
  {
    var k, p := k0, at;
    t1, t2 := s1, s2;
    while k >= 16
      invariant 0 <= k && p + k == at + k0 && at <= p
      invariant Deferred(x, buf[..p], t1, t2, p - at) && t1 < ULONG && t2 < ULONG
    {
      t1, t2 := Do16(t1, t2, buf, p, x, p - at);
      p, k := p + 16, k - 16;
    }
    while k != 0
      invariant 0 <= k && p + k == at + k0 && at <= p
      invariant Deferred(x, buf[..p], t1, t2, p - at) && t1 < ULONG && t2 < ULONG
    {
      t1, t2 := Do1(t1, t2, buf, p, x, p - at);
      p, k := p + 1, k - 1;
    }
  }

  lemma {:induction false} Packed(x: Sums, buf: seq<byte>, y: Sums)
    requires if buf == [] then y == x else Reduced(y) && Update(x, buf) == y
    ensures Pack(y) == Pack(Update(x, buf)) && (buf != [] ==> ValidAdler(Pack(y)))
  {
    if buf != [] { UnpackPack(y); }
  }

  /** `zlib_adler32`; no buffer at all asks for the initial value. */
  method ZlibAdler32(adler: nat, isNull: bool, buf: seq<byte>) returns (r: nat)
    requires adler < ULONG
    ensures isNull ==> r == 1
    ensures !isNull ==> r == Adler32(adler, buf)
    ensures isNull || buf != [] || ValidAdler(adler) ==> ValidAdler(r)
  {
    var s1: nat, s2: nat := adler % 0x1_0000, adler / 0x1_0000 % 0x1_0000;
    if isNull { return 1; }
    ghost var x := Unpack(adler);
    PackUnpack(adler);
    var len, at := |buf|, 0;
    while len > 0
      invariant 0 <= len && at + len == |buf|
      invariant Deferred(x, buf[..at], s1, s2, 0) && (at > 0 ==> s1 < BASE && s2 < BASE)
    {
      var k := if len < NMAX then len else NMAX;
      len := len - k;
      s1, s2 := Chunk(s1, s2, buf, at, k, x);
      at := at + k;
      Settle(x, buf[..at], s1, s2, k);
      s1 := s1 % BASE;
      s2 := s2 % BASE;
    }
    assert buf[..at] == buf;
    if buf != [] { assert Sums(s1, s2) == Sums(s1 % BASE, s2 % BASE); }
    r := s2 * 0x1_0000 + s1;
    Packed(x, buf, Sums(s1, s2));
  }

  lemma {:induction false} UpdateOne(x: Sums, s: seq<byte>, b: byte, s1: nat, s2: nat, t1: nat, t2: nat)
    requires Update(x, s) == Sums(s1, s2) && t1 == (s1 + b) % BASE && t2 == (s2 + t1) % BASE
    ensures Update(x, s + [b]) == Sums(t1, t2)
  {
    assert (s + [b])[..|s|] == s;
  }

  /** The checksum of "abc". */
  lemma {:induction false} AdlerOfAbc()
    ensures Adler32(1, [97, 98, 99]) == 0x024d_0127
  {
    var x := Sums(1, 0);
    assert Unpack(1) == x;
    UpdateOne(x, [], 97, 1, 0, 98, 98);
    UpdateOne(x, [97], 98, 98, 98, 196, 294);
    UpdateOne(x, [97, 98], 99, 196, 294, 295, 589);
    assert [] + [97] == [97] && [97] + [98] == [97, 98] && [97, 98] + [99] == [97, 98, 99];
  }

  /** A byte that takes the first sum to the modulus. */
  lemma {:induction false} AdlerAtModulus()
    ensures Adler32(0xfff0_fff0, [1]) == 0xfff0_0000
  {
    var x := Sums(0xfff0, 0xfff0);
    assert Unpack(0xfff0_fff0) == x;
    UpdateOne(x, [], 1, 0xfff0, 0xfff0, 0, 0xfff0);
    assert [] + [1] == [1];
  }
}
