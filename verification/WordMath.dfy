/** Facts about the remainders that fixed-width words leave. */
module WordMath {
  lemma MultipleIsFar(w: int, k: int)
    requires w > 0 && k != 0
    ensures w * k >= w || w * k <= -w
  {
    if k >= 1 {
      assert w * k >= w;
    } else {
      assert w * k <= -w;
    }
  }

  lemma NoMultipleBetween(w: int, k: int)
    requires w > 0 && -w < w * k < w
    ensures k == 0
  {
    if k != 0 {
      MultipleIsFar(w, k);
    }
  }

  lemma RemainderIs(w: int, q: int, r: int)
    requires 0 <= r < w
    ensures (w * q + r) % w == r && (w * q + r) / w == q
  {
    var x := w * q + r;
    assert x == w * (x / w) + x % w;
    assert w * (q - x / w) == x % w - r by {
      Distribute(w, q, x / w);
    }
    NoMultipleBetween(w, q - x / w);
  }

  lemma Distribute(w: int, p: int, q: int)
    ensures w * (p - q) == w * p - w * q
  {
  }

  /** Two numbers less than w apart that leave the same remainder are equal. */
  lemma SameWordInWindow(w: int, m: int, n: int)
    requires w > 0 && m <= n < m + w && m % w == n % w
    ensures m == n
  {
    Distribute(w, n / w, m / w);
    assert m == w * (m / w) + m % w && n == w * (n / w) + n % w;
    NoMultipleBetween(w, n / w - m / w);
  }

  lemma NextWord(w: int, n: int)
    requires w > 0
    ensures (n % w + 1) % w == (n + 1) % w
  {
    assert n == w * (n / w) + n % w;
    if n % w + 1 < w {
      RemainderIs(w, n / w, n % w + 1);
      RemainderIs(w, 0, n % w + 1);
    } else {
      assert n + 1 == w * (n / w + 1) + 0;
      RemainderIs(w, n / w + 1, 0);
      RemainderIs(w, 1, 0);
    }
  }

  lemma AddModulo(w: int, m: int, d: int)
    requires w > 0
    ensures (m % w + d) % w == (m + d) % w
  {
    var q, r := (m % w + d) / w, (m % w + d) % w;
    assert m == w * (m / w) + m % w;
    assert m + d == w * (m / w + q) + r;
    RemainderIs(w, m / w + q, r);
  }
}
