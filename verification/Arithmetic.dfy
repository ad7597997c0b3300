/** Facts about multiplication and division that several kernels share. */
module Arithmetic {

  lemma ProductMonotonic(m: nat, x: nat, y: nat)
    requires x <= y
    ensures m * x <= m * y
  {
    assert m * y == m * x + m * (y - x);
  }

  // Quotient and remainder are unique.
  lemma DivModUnique(n: nat, m: nat, q: nat, r: nat)
    requires r < m && n == m * q + r
    ensures n / m == q && n % m == r
  {
    var k := n / m;
    if k < q {
      ProductMonotonic(m, k + 1, q);
    } else if q < k {
      ProductMonotonic(m, q + 1, k);
    }
  }

  lemma NatOfByte(x: bv8)
    ensures (x as nat) as bv8 == x
  {
  }

  lemma NextByte(x: bv8)
    requires x as nat != 255
    ensures (x + 1) as nat == x as nat + 1
  {
  }

  // A number below 256 survives as a byte.
  lemma {:induction false} ByteOfNat(low: nat)
    requires low < 256
    ensures (low as bv8) as nat == low
  {
    if low > 0 {
      ByteOfNat(low - 1);
      var x := (low - 1) as bv8;
      NextByte(x);
      NatOfByte(x + 1);
    }
  }

  // Reducing modulo 256 * m acts on the quotient and keeps the low byte.
  lemma SplitModulo(n: nat, m: nat)
    requires m > 0
    ensures n % (256 * m) == 256 * (n / 256 % m) + n % 256
  {
    var q, r := n / 256, n % 256;
    var a, c := q / m, q % m;
    assert n == (256 * m) * a + (256 * c + r);
    DivModUnique(n, 256 * m, a, 256 * c + r);
  }
}
