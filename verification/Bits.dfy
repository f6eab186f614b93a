/** Machine words bit by bit: the operations | and & of C on n-bit unsigned numbers. */
module Bits {
  import WordMath

  function Pow2(n: nat): (p: nat)
    ensures p > 0
  {
    if n == 0 then 1 else 2 * Pow2(n - 1)
  }

  /** The lowest n bits of a | b. */
  function OrBits(a: nat, b: nat, n: nat): (r: nat)
    ensures r < Pow2(n)
    decreases n
  {
    if n == 0 then 0 else (if a % 2 == 1 || b % 2 == 1 then 1 else 0) + 2 * OrBits(a / 2, b / 2, n - 1)
  }

  /** The lowest n bits of a & b. */
  function AndBits(a: nat, b: nat, n: nat): (r: nat)
    ensures r < Pow2(n)
    decreases n
  {
    if n == 0 then 0 else (if a % 2 == 1 && b % 2 == 1 then 1 else 0) + 2 * AndBits(a / 2, b / 2, n - 1)
  }

  lemma {:induction false} PowAdds(m: nat, n: nat)
    ensures Pow2(m + n) == Pow2(m) * Pow2(n)
    decreases m
  {
    hide Pow2;
    PowStep(m);
    PowStep(m + n);
    if m > 0 {
      PowAdds(m - 1, n);
      Twice(Pow2(m - 1), Pow2(n));
    }
  }

  lemma PowStep(n: nat)
    ensures Pow2(n) == if n == 0 then 1 else 2 * Pow2(n - 1)
  {
  }

  lemma Twice(x: nat, y: nat)
    ensures 2 * (x * y) == 2 * x * y
  {
  }

  lemma Square(n: nat, p: nat)
    requires n == 1 || Pow2(n) == p
    ensures Pow2(1) == 2
    ensures n == 1 && p == 2 ==> Pow2(2) == 4
    ensures n > 1 ==> Pow2(2 * n) == p * p
  {
    hide Pow2;
    PowStep(0);
    PowStep(1);
    PowStep(2);
    if n > 1 {
      PowAdds(n, n);
      assert 2 * n == n + n;
    }
  }

  lemma WordBound()
    ensures Pow2(64) == 0x1_0000_0000_0000_0000
  {
    hide Pow2;
    Square(1, 2);
    Square(2, 4);
    Square(4, 0x10);
    Square(8, 0x100);
    Square(16, 0x1_0000);
    Square(32, 0x1_0000_0000);
  }

  /** Bit k of v is set. */
  predicate IsSet(v: nat, k: nat) {
    v / Pow2(k) % 2 == 1
  }

  lemma HalfTwice(v: nat, p: nat)
    requires p > 0
    ensures v / 2 / p == v / (2 * p)
  {
    var q, r := v / (2 * p), v % (2 * p);
    assert v == 2 * p * q + r;
    assert 2 * p * q == 2 * (p * q);
    assert v / 2 == p * q + r / 2;
    WordMath.RemainderIs(p, q, r / 2);
  }

  /** The bits of v are its lowest bit and those of its half. */
  lemma BitsOfHalf(v: nat, k: nat)
    ensures IsSet(v, 0) <==> v % 2 == 1
    ensures IsSet(v, k + 1) <==> IsSet(v / 2, k)
  {
    assert Pow2(0) == 1 && v / 1 == v;
    HalfTwice(v, Pow2(k));
  }

  lemma {:induction false} OrSets(a: nat, b: nat, n: nat, k: nat)
    requires k < n
    ensures IsSet(OrBits(a, b, n), k) <==> IsSet(a, k) || IsSet(b, k)
    decreases k
  {
    hide IsSet;
    var r := OrBits(a, b, n);
    assert r / 2 == OrBits(a / 2, b / 2, n - 1);
    BitsOfHalf(r, if k == 0 then 0 else k - 1);
    BitsOfHalf(a, if k == 0 then 0 else k - 1);
    BitsOfHalf(b, if k == 0 then 0 else k - 1);
    if k > 0 {
      OrSets(a / 2, b / 2, n - 1, k - 1);
    }
  }

  lemma {:induction false} AndSets(a: nat, b: nat, n: nat, k: nat)
    requires k < n
    ensures IsSet(AndBits(a, b, n), k) <==> IsSet(a, k) && IsSet(b, k)
    decreases k
  {
    hide IsSet;
    var r := AndBits(a, b, n);
    assert r / 2 == AndBits(a / 2, b / 2, n - 1);
    BitsOfHalf(r, if k == 0 then 0 else k - 1);
    BitsOfHalf(a, if k == 0 then 0 else k - 1);
    BitsOfHalf(b, if k == 0 then 0 else k - 1);
    if k > 0 {
      AndSets(a / 2, b / 2, n - 1, k - 1);
    }
  }

  /** A number of n bits is its bits. */
  lemma {:induction false} BitsDecide(a: nat, b: nat, n: nat)
    requires a < Pow2(n) && b < Pow2(n) && forall k | 0 <= k < n :: IsSet(a, k) <==> IsSet(b, k)
    ensures a == b
    decreases n
  {
    hide IsSet;
    if n > 0 {
      BitsOfHalf(a, 0);
      BitsOfHalf(b, 0);
      forall k | 0 <= k < n - 1 ensures IsSet(a / 2, k) <==> IsSet(b / 2, k) {
        BitsOfHalf(a, k);
        BitsOfHalf(b, k);
        assert IsSet(a, k + 1) <==> IsSet(b, k + 1);
      }
      BitsDecide(a / 2, b / 2, n - 1);
    }
  }
}
