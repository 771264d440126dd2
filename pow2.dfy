/** Powers of two: every chunk size and every aligned request is one. */
module PowersOfTwo {

  predicate IsPow2(n: nat)
    decreases n
  {
    n == 1 || (n >= 2 && n % 2 == 0 && IsPow2(n / 2))
  }

  lemma EightIsPow2()
    ensures IsPow2(8)
  {
    assert IsPow2(1);
    assert IsPow2(2);
    assert IsPow2(4);
  }

  lemma DoubleIsPow2(p: nat)
    requires IsPow2(p)
    ensures IsPow2(2 * p)
  {
    assert (2 * p) / 2 == p;
  }

  /** Two distinct powers of two are at least a factor two apart. */
  lemma {:induction false} Pow2Gap(p: nat, q: nat)
    requires IsPow2(p) && IsPow2(q) && p < q
    ensures 2 * p <= q
  {
    if p >= 2 {
      assert q >= 2 && q % 2 == 0;
      Pow2Gap(p / 2, q / 2);
    }
  }

  /** The only power of two in [p, 2p) is p itself. */
  lemma Pow2Between(p: nat, q: nat)
    requires IsPow2(p) && IsPow2(q) && p <= q < 2 * p
    ensures q == p
  {
    if p < q {
      Pow2Gap(p, q);
    }
  }

  lemma {:induction false} ProductIsPow2(a: nat, b: nat)
    requires IsPow2(a) && IsPow2(b)
    ensures IsPow2(a * b)
    decreases b
  {
    if b >= 2 {
      ProductIsPow2(a, b / 2);
      assert a * b == 2 * (a * (b / 2));
      DoubleIsPow2(a * (b / 2));
    }
  }

  /** 2^30, the largest power of two whose double still fits a 32-bit int. */
  lemma TwoToThirtyIsPow2()
    ensures IsPow2(0x4000_0000)
  {
    assert IsPow2(2) && IsPow2(4) && IsPow2(8) && IsPow2(16) && IsPow2(32);
    assert IsPow2(64) && IsPow2(128) && IsPow2(256) && IsPow2(512) && IsPow2(1024);
    ProductIsPow2(1024, 1024);
    ProductIsPow2(1024 * 1024, 1024);
  }

  lemma DoubleProduct(a: nat, b: nat)
    ensures a * (b * 2) == 2 * (a * b)
  {
  }
}
