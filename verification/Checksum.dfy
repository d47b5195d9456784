/** The Internet checksum of etherboot/core/xbox_misc.c (RFC 1071), and the image checksum
    of etherboot/core/elf_loader.c that is folded together from it. */
module Checksum {
  import opened Disk

  const ONES: nat := 0xFFFF

  /** The ones' complement representative of `n`: its residue modulo 65535, where only zero
      itself is represented by zero. */
  function Canon(n: nat): (c: nat)
    ensures c <= ONES && (c == 0 <==> n == 0)
  {
    if n <= ONES then n else Canon(n - ONES)
  }

  /** What byte `k` of a buffer adds to the sum: odd bytes are the high halves of the words. */
  function Value(b: byte, k: nat): nat {
    if k % 2 == 1 then 0x100 * (b as nat) else b as nat
  }

  /** The sum of the first `n` bytes of `s`, when byte 0 stands at offset `off` of the whole. */
  function Sum(s: seq<byte>, n: nat, off: nat): nat
    requires n <= |s|
  {
    if n == 0 then 0 else Sum(s, n - 1, off) + Value(s[n - 1], off + n - 1)
  }

  /** The checksum of RFC 1071: the complement of the ones' complement sum of the words. */
  function Spec(s: seq<byte>): (c: nat)
    ensures c <= ONES
  {
    ONES - Canon(Sum(s, |s|, 0))
  }

  lemma {:induction false} CanonOfCanon(x: nat, y: nat)
    ensures Canon(Canon(x) + y) == Canon(x + y)
  {
    if x > ONES { CanonOfCanon(x - ONES, y); }
  }

  lemma {:induction false} CanonSkips(x: nat, k: nat)
    requires x > 0
    ensures Canon(x + ONES * k) == Canon(x)
  {
    if k > 0 { CanonSkips(x, k - 1); }
  }

  lemma {:induction false} CanonOfMultiple(x: nat, f: nat)
    requires f > 0
    ensures Canon(f * Canon(x)) == Canon(f * x)
    decreases x
  {
    if x > ONES {
      CanonOfMultiple(x - ONES, f);
      PositiveProduct(f, x - ONES);
      CanonSkips(f * (x - ONES), f);
      assert f * (x - ONES) + ONES * f == f * x;
    }
  }

  lemma {:induction false} PositiveProduct(f: nat, x: nat)
    requires f > 0 && x > 0
    ensures f * x > 0
  {
  }

  /** `ipchksum`. */
  method IpChksum(data: seq<byte>) returns (r: nat)
    ensures r == Spec(data)
  {
    var sum, i := 0, 0;
    while i < |data|
      invariant i <= |data| && sum == Canon(Sum(data, i, 0))
    {
      var value: nat := data[i] as nat;
      if i % 2 == 1 { value := value * 0x100; }
      CanonOfCanon(Sum(data, i, 0), value);
      sum := sum + value;
      if sum > 0xFFFF { sum := (sum + sum / 0x1_0000) % 0x1_0000; }
      i := i + 1;
    }
    r := 0xFFFF - sum;
  }

  function Bswap16(x: nat): (r: nat)
    requires x <= ONES
    ensures r <= ONES
  {
    x % 0x100 * 0x100 + x / 0x100
  }

  /** `add_ipchksums`: the checksum of two adjoining pieces, the second starting at `offset`. */
  function AddIpChksums(offset: nat, sum: nat, new': nat): (r: nat)
    requires sum <= ONES && new' <= ONES
    ensures r <= ONES
  {
    var s, n := ONES - sum, ONES - new';
    var m := if offset % 2 == 1 then Bswap16(n) else n;
    var c := s + m;
    ONES - (if c > ONES then c - ONES else c)
  }

  lemma {:induction false} SumOfConcat(a: seq<byte>, b: seq<byte>, n: nat)
    requires n <= |b|
    ensures Sum(a + b, |a| + n, 0) == Sum(a, |a|, 0) + Sum(b, n, |a|)
  {
    if n == 0 {
      SumOfFront(a, b, |a|);
    } else {
      SumOfConcat(a, b, n - 1);
    }
  }

  lemma {:induction false} SumOfFront(a: seq<byte>, b: seq<byte>, n: nat)
    requires n <= |a|
    ensures Sum(a + b, n, 0) == Sum(a, n, 0)
  {
    if n > 0 { SumOfFront(a, b, n - 1); }
  }

  /** An even offset does not change the sum of a piece. */
  lemma {:induction false} SumAtEven(b: seq<byte>, n: nat, off: nat)
    requires n <= |b| && off % 2 == 0
    ensures Sum(b, n, off) == Sum(b, n, 0)
  {
    if n > 0 { SumAtEven(b, n - 1, off); }
  }

  lemma {:induction false} OddByte(v: byte, i: nat, off: nat, y: nat)
    requires off % 2 == 1
    ensures Canon(y + Value(v, off + i)) == Canon(y + 0x100 * Value(v, i))
  {
    if i % 2 == 1 {
      assert Value(v, off + i) == v && Value(v, i) == 0x100 * v;
      if v > 0 { CanonSkips(y + v, v); }
    } else {
      assert Value(v, off + i) == 0x100 * Value(v, i);
    }
  }

  /** One more byte at an odd offset, against 256 times one more byte at an even one. */
  lemma {:induction false} OddStep(b: seq<byte>, n: nat, off: nat, y: nat) returns (w: nat, z: nat)
    requires 0 < n <= |b| && off % 2 == 1
    ensures Sum(b, n, off) == Sum(b, n - 1, off) + w
    ensures 0x100 * Sum(b, n, 0) == 0x100 * Sum(b, n - 1, 0) + z
    ensures Canon(y + w) == Canon(y + z)
  {
    OddByte(b[n - 1], n - 1, off, y);
    w, z := Value(b[n - 1], off + (n - 1)), 0x100 * Value(b[n - 1], n - 1);
  }

  lemma {:induction false} CanonChain(x: nat, y: nat, w: nat, z: nat, s: nat, t: nat)
    requires s == x + w && t == y + z && Canon(x) == Canon(y) && Canon(y + w) == Canon(y + z)
    ensures Canon(s) == Canon(t)
  {
    CanonOfCanon(x, w);
    CanonOfCanon(y, w);
  }

  /** An odd offset swaps the halves of all words, which multiplies the sum by 256. */
  lemma {:induction false} SumAtOdd(b: seq<byte>, n: nat, off: nat)
    requires n <= |b| && off % 2 == 1
    ensures Canon(Sum(b, n, off)) == Canon(0x100 * Sum(b, n, 0))
  {
    if n > 0 {
      SumAtOdd(b, n - 1, off);
      var x, y := Sum(b, n - 1, off), 0x100 * Sum(b, n - 1, 0);
      var w, z := OddStep(b, n, off, y);
      CanonChain(x, y, w, z, Sum(b, n, off), 0x100 * Sum(b, n, 0));
    }
  }

  lemma {:induction false} SwapIsTimes256(x: nat)
    requires x <= ONES
    ensures Bswap16(x) == Canon(0x100 * x)
  {
    var hi, lo := x / 0x100, x % 0x100;
    if x > 0 {
      assert 0x100 * x == Bswap16(x) + ONES * hi;
      CanonSkips(Bswap16(x), hi);
    }
  }

  lemma {:induction false} CanonAdds(x: nat, y: nat)
    ensures Canon(x + y) == if Canon(x) + Canon(y) > ONES then Canon(x) + Canon(y) - ONES else Canon(x) + Canon(y)
  {
    CanonOfCanon(x, y);
    CanonOfCanon(y, Canon(x));
  }

  /** The law `add_ipchksums` is for: from the checksums of two pieces it makes the checksum
      of the whole, whatever the pieces are and wherever they meet. */
  lemma {:induction false} AddIsConcat(a: seq<byte>, b: seq<byte>)
    ensures AddIpChksums(|a|, Spec(a), Spec(b)) == Spec(a + b)
  {
    var x, y := Sum(a, |a|, 0), Sum(b, |b|, 0);
    SumOfConcat(a, b, |b|);
    CanonAdds(x, Sum(b, |b|, |a|));
    if |a| % 2 == 1 {
      SumAtOdd(b, |b|, |a|);
      CanonOfMultiple(y, 0x100);
      SwapIsTimes256(Canon(y));
    } else {
      SumAtEven(b, |b|, |a|);
    }
  }

  function Concat(parts: seq<seq<byte>>): seq<byte> {
    if parts == [] then [] else Concat(parts[..|parts| - 1]) + parts[|parts| - 1]
  }

  /** The fold of `elf32_download` over the ELF header, the program headers and the loaded
      segments: `bytes` counts what has been summed up. */
  method ImageChecksum(header: seq<byte>, phdrs: seq<byte>, segments: seq<seq<byte>>) returns (sum: nat)
    ensures sum == Spec(header + phdrs + Concat(segments))
  {
    sum := IpChksum(header);
    var bytes := |header|;
    var newSum := IpChksum(phdrs);
    sum := AddIpChksums(bytes, sum, newSum);
    AddIsConcat(header, phdrs);
    bytes := bytes + |phdrs|;
    ghost var done := header + phdrs;
    var i := 0;
    assert segments[..0] == [] && done == header + phdrs + Concat(segments[..0]);
    while i < |segments|
      invariant i <= |segments| && done == header + phdrs + Concat(segments[..i])
      invariant sum == Spec(done) && bytes == |done|
    {
      newSum := IpChksum(segments[i]);
      sum := AddIpChksums(bytes, sum, newSum);
      AddIsConcat(done, segments[i]);
      assert segments[..i + 1][..i] == segments[..i];
      assert done + segments[i] == header + phdrs + (Concat(segments[..i]) + segments[i]);
      done := done + segments[i];
      bytes := bytes + |segments[i]|;
      i := i + 1;
    }
    assert segments[..|segments|] == segments;
  }
}
