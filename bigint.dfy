/** Natural-number arithmetic playing the part of Go's math/big in the
    Pedersen commitment code: exponentiation, the three-argument Exp of
    big.Int, and the modular facts the commitment proofs rest on. */
module BigInt {

  /** b raised to the power e, with Pow(b, 0) == 1 (also for b == 0). */
  function Pow(b: nat, e: nat): (r: nat)
  {
    if e == 0 then 1 else b * Pow(b, e - 1)
  }

  /** big.Int.Exp(x, y, m) for a non-negative exponent: x^y when the modulus
      is nil (written m == 0 here), x^y reduced modulo m otherwise. */
  function Exp(x: nat, y: nat, m: nat): (z: nat)
    ensures m > 0 ==> z < m
    ensures m == 0 || Pow(x, y) < m ==> z == Pow(x, y)
  {
    if m == 0 then Pow(x, y) else Pow(x, y) % m
  }

  lemma PowSquare(b: nat)
    ensures Pow(b, 2) == b * b
  {
    assert Pow(b, 1) == b * Pow(b, 0) == b;
  }

  lemma MulAtLeast(d: int, m: int)
    requires d >= 1 && m > 0
    ensures d * m >= m
  {
  }

  lemma MulSubDistr(a: int, b: int, m: int)
    ensures (a - b) * m == a * m - b * m
  {
  }

  /** A decomposition n == a * m + r with 0 <= r < m is the Euclidean one. */
  lemma ModUnique(n: int, a: int, r: int, m: int)
    requires m > 0 && 0 <= r < m && n == a * m + r
    ensures n % m == r
  {
    var b, s := n / m, n % m;
    assert n == b * m + s;
    MulSubDistr(a, b, m);
    MulSubDistr(b, a, m);
    if a > b {
      MulAtLeast(a - b, m);
    } else if a < b {
      MulAtLeast(b - a, m);
    }
  }

  /** Adding a multiple of m does not change the residue. */
  lemma ModAddMultiple(k: nat, y: nat, m: nat)
    requires m > 0
    ensures (k * m + y) % m == y % m
  {
    assert y == (y / m) * m + y % m;
    assert k * m + y == (k + y / m) * m + y % m;
    ModUnique(k * m + y, k + y / m, y % m, m);
  }

  lemma ProductExpand(qa: nat, ra: nat, qb: nat, rb: nat, m: nat)
    ensures (qa * m + ra) * (qb * m + rb) == (qa * qb * m + qa * rb + ra * qb) * m + ra * rb
  {
  }

  /** The residue of a product is the residue of the product of residues. */
  lemma ModOfProduct(a: nat, b: nat, m: nat)
    requires m > 0
    ensures (a % m) * (b % m) % m == (a * b) % m
  {
    var qa, ra := a / m, a % m;
    var qb, rb := b / m, b % m;
    ProductExpand(qa, ra, qb, rb, m);
    assert a * b == (qa * qb * m + qa * rb + ra * qb) * m + ra * rb;
    ModAddMultiple(qa * qb * m + qa * rb + ra * qb, ra * rb, m);
  }

  /** Reducing the base first does not change a modular power. */
  lemma {:induction false} PowMod(b: nat, e: nat, m: nat)
    requires m > 0
    ensures Pow(b % m, e) % m == Pow(b, e) % m
    decreases e
  {
    if e > 0 {
      var x, px, pb := b % m, Pow(b % m, e - 1), Pow(b, e - 1);
      PowMod(b, e - 1, m);
      assert px % m == pb % m;
      ModUnique(x, 0, x, m);
      ModOfProduct(x, px, m);
      ModOfProduct(b, pb, m);
      assert (x * px) % m == (b * pb) % m;
    }
  }

  /** Squaring is monotone on the naturals. */
  lemma SquareBounds(x: nat, lo: nat, hi: nat)
    requires lo <= x <= hi
    ensures lo * lo <= x * x <= hi * hi
  {
  }
}
