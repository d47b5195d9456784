/** Shifts and masks by the logarithm of a block size, as repeated subtraction: definitions that
    the solver unfolds one step at a time. */
module Division {
  /** How many whole clusters lie before byte `pos` of a file. */
  function Quot(pos: nat, size: nat): nat
    requires size > 0
  {
    if pos < size then 0 else 1 + Quot(pos - size, size)
  }

  /** Where byte `pos` of a file lies in its cluster. */
  function Rem(pos: nat, size: nat): (r: nat)
    requires size > 0
    ensures r < size
  {
    if pos < size then pos else Rem(pos - size, size)
  }

  lemma {:induction false} QuotIsDivision(pos: nat, size: nat)
    requires size > 0
    ensures pos == Quot(pos, size) * size + Rem(pos, size)
  {
    if pos >= size {
      QuotIsDivision(pos - size, size);
      assert (1 + Quot(pos - size, size)) * size == size + Quot(pos - size, size) * size;
    }
  }

  /** Moving on by `n` bytes within a cluster, or just to its end. */
  lemma {:induction false} MoveOn(pos: nat, n: nat, size: nat)
    requires size > 0 && Rem(pos, size) + n <= size
    ensures Rem(pos, size) + n < size ==> Quot(pos + n, size) == Quot(pos, size) && Rem(pos + n, size) == Rem(pos, size) + n
    ensures Rem(pos, size) + n == size ==> Quot(pos + n, size) == Quot(pos, size) + 1 && Rem(pos + n, size) == 0
  {
    if pos >= size { MoveOn(pos - size, n, size); }
  }

  lemma {:induction false} QuotIsSmall(pos: nat, size: nat)
    requires size > 0
    ensures Quot(pos, size) <= pos
  {
    if pos >= size { QuotIsSmall(pos - size, size); }
  }

  /** A product by repeated addition, which the solver unfolds sparingly. */
  function Product(m: nat, n: nat): nat {
    if m == 0 then 0 else Product(m - 1, n) + n
  }

  lemma {:induction false} ProductIsTimes(m: nat, n: nat)
    ensures Product(m, n) == m * n
  {
    if m > 0 { ProductIsTimes(m - 1, n); }
  }

  lemma {:induction false} QuotBelow(n: nat, m: nat, a: nat)
    requires a > 0 && n < Product(m, a)
    ensures Quot(n, a) < m
  {
    if n >= a { QuotBelow(n - a, m - 1, a); }
  }

  lemma {:induction false} ProductOfSum(k: nat, m: nat, n: nat)
    ensures Product(k + m, n) == Product(k, n) + Product(m, n)
  {
    if k > 0 { ProductOfSum(k - 1, m, n); }
  }

  lemma {:induction false} ProductAtLeast(m: nat, n: nat)
    requires n > 0
    ensures Product(m, n) >= m
  {
    if m > 0 { ProductAtLeast(m - 1, n); }
  }

  lemma {:induction false} QuotBound(pos: nat, size: nat, d: nat)
    requires 0 < d <= size
    ensures Quot(pos, size) * d <= pos
  {
    if pos >= size {
      QuotBound(pos - size, size, d);
      assert (1 + Quot(pos - size, size)) * d == d + Quot(pos - size, size) * d;
    }
  }

  /** `i` in a row of length `n` behind `m` whole rows. */
  lemma {:induction false} Mixed(m: nat, i: nat, n: nat)
    requires i < n
    ensures Quot(Product(m, n) + i, n) == m && Rem(Product(m, n) + i, n) == i
  {
    if m > 0 { Mixed(m - 1, i, n); }
  }
}
