// Modular exponentiation, the arithmetic under both Diffie-Hellman ends.
module ModArith {

  function Pow(b: nat, e: nat): nat {
    if e == 0 then 1 else b * Pow(b, e - 1)
  }

  // The documented result of BigInteger.ModPow and mpz_powm on natural arguments.
  function ModPow(b: nat, e: nat, p: nat): nat
    requires p > 0
  {
    Pow(b, e) % p
  }

  lemma MulModLeft(x: nat, y: nat, p: nat)
    requires p > 0
    ensures ((x % p) * y) % p == (x * y) % p
  {
    var q := x / p;
    assert x == q * p + x % p;
    assert x * y == (q * y) * p + (x % p) * y by {
      assert (q * p + x % p) * y == (q * y) * p + (x % p) * y;
    }
    AddMultiple((x % p) * y, q * y, p);
  }

  lemma AtLeastOneMultiple(k: int, p: int)
    requires k >= 1 && p > 0
    ensures k * p >= p
  {
  }

  // Division with remainder is unique.
  lemma RemainderUnique(q: int, r: int, q': int, r': int, p: nat)
    requires 0 <= r < p && 0 <= r' < p
    requires q * p + r == q' * p + r'
    ensures q == q' && r == r'
  {
    var d := q - q';
    assert d * p == r' - r by { assert d * p == q * p - q' * p; }
    if d >= 1 {
      AtLeastOneMultiple(d, p);
    } else if d <= -1 {
      AtLeastOneMultiple(-d, p);
    }
  }

  lemma AddMultiple(r: nat, k: nat, p: nat)
    requires p > 0
    ensures (k * p + r) % p == r % p
  {
    var n := k * p + r;
    assert n == (n / p) * p + n % p;
    assert r == (r / p) * p + r % p;
    assert n == (k + r / p) * p + r % p by { assert (k + r / p) * p == k * p + (r / p) * p; }
    RemainderUnique(n / p, n % p, k + r / p, r % p, p);
  }

  lemma {:induction false} PowOfMod(b: nat, e: nat, p: nat)
    requires p > 0
    ensures Pow(b % p, e) % p == Pow(b, e) % p
  {
    if e > 0 {
      var m := b % p;
      PowOfMod(b, e - 1, p);
      RemainderOfRemainder(b, p);
      MulModBoth(m, b, Pow(m, e - 1), Pow(b, e - 1), p);
    }
  }

  lemma RemainderOfRemainder(b: nat, p: nat)
    requires p > 0
    ensures (b % p) % p == b % p
  {
  }

  lemma MulModBoth(x: nat, x': nat, y: nat, y': nat, p: nat)
    requires p > 0 && x % p == x' % p && y % p == y' % p
    ensures (x * y) % p == (x' * y') % p
  {
    MulModLeft(x, y, p);
    MulModLeft(x', y, p);
    MulModLeft(y, x', p);
    MulModLeft(y', x', p);
  }

  lemma {:induction false} PowAdd(b: nat, x: nat, y: nat)
    ensures Pow(b, x + y) == Pow(b, x) * Pow(b, y)
  {
    if x > 0 {
      PowAdd(b, x - 1, y);
      assert Pow(b, x + y) == b * Pow(b, (x - 1) + y);
    }
  }

  lemma {:induction false} PowMul(b: nat, x: nat, y: nat)
    ensures Pow(Pow(b, x), y) == Pow(b, x * y)
  {
    if y > 0 {
      PowMul(b, x, y - 1);
      PowAdd(b, x, x * (y - 1));
      assert x * y == x + x * (y - 1);
    } else {
      assert x * y == 0;
    }
  }

  // Both ends of an exchange compute the same number, whatever the two exponents are.
  lemma SharedSecret(b: nat, x: nat, y: nat, p: nat)
    requires p > 0
    ensures ModPow(ModPow(b, x, p), y, p) == ModPow(ModPow(b, y, p), x, p)
  {
    PowOfMod(Pow(b, x), y, p);
    PowOfMod(Pow(b, y), x, p);
    PowMul(b, x, y);
    PowMul(b, y, x);
    assert x * y == y * x;
  }

  // An odd divisor of an even number divides its half.
  lemma HalfOfMultiple(h: nat, k: nat, p: nat)
    requires p % 2 == 1 && 2 * h == k * p
    ensures exists i: nat :: h == i * p
  {
    var j := p / 2;
    assert k * p == 2 * (k * j) + k by {
      assert p == 2 * j + 1;
      assert k * (2 * j + 1) == k * (2 * j) + k;
      assert k * (2 * j) == 2 * (k * j);
    }
    var i := h - k * j;
    assert k == 2 * i;
    assert k * p == 2 * (i * p);
    assert h == i * p;
  }

  // A power of two is never a multiple of an odd modulus, so a public number is never zero.
  lemma {:induction false} PowerOfTwoNotMultiple(e: nat, p: nat)
    requires p > 1 && p % 2 == 1
    ensures ModPow(2, e, p) > 0
  {
    if e > 0 && ModPow(2, e, p) == 0 {
      var h := Pow(2, e - 1);
      HalfOfMultiple(h, (2 * h) / p, p);
      var i: nat :| h == i * p;
      AddMultiple(0, i, p);
      PowerOfTwoNotMultiple(e - 1, p);
    }
  }
}
