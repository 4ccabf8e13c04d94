/** Powers of two and single-bit arithmetic on unbounded naturals: the
    integer view of the shifts and masks the decoder performs. */
module BitMath {

  function Pow2(k: nat): (r: nat)
    ensures r >= 1
  {
    if k == 0 then 1 else 2 * Pow2(k - 1)
  }

  /** Bit `q` of `x`, counted from the least-significant end (in two's
      complement when `x` is negative). */
  function BitOf(x: int, q: nat): (b: nat)
    ensures b <= 1
  {
    (x / Pow2(q)) % 2
  }

  lemma {:induction false} Pow2Add(a: nat, b: nat)
    ensures Pow2(a + b) == Pow2(a) * Pow2(b)
  {
    if b > 0 {
      Pow2Add(a, b - 1);
      assert Pow2(a + b) == 2 * Pow2(a + b - 1);
    }
  }

  lemma Pow2Byte()
    ensures Pow2(8) == 256
  {
    assert Pow2(4) == 16;
  }

  lemma {:induction false} MulAtLeast(a: int, d: int)
    requires a >= 1 && d >= 0
    ensures a * d >= d
  {
    if a > 1 {
      MulAtLeast(a - 1, d);
      assert a * d == (a - 1) * d + d;
    }
  }

  lemma DivMod(x: int, d: int)
    requires x >= 0 && d > 0
    ensures x / d >= 0 && 0 <= x % d < d && x == (x / d) * d + x % d
  {
  }

  /** Euclidean division is determined by quotient and remainder. */
  lemma DivUnique(x: int, d: int, q: int, r: int)
    requires d > 0 && 0 <= r < d && x == q * d + r
    ensures x / d == q && x % d == r
  {
    var q', r' := x / d, x % d;
    assert x == q' * d + r';
    assert (q' - q) * d == r - r';
    if q' > q {
      MulAtLeast(q' - q, d);
    } else if q' < q {
      MulAtLeast(q - q', d);
    }
  }

  lemma Regroup(q: int, b: int, r: int, a: int, s: int)
    ensures (q * b + r) * a + s == q * (a * b) + (r * a + s)
  {
  }

  lemma RemainderBound(r: int, a: int, b: int, s: int)
    requires 0 <= r < b && 0 <= s < a
    ensures r * a + s < a * b
  {
    MulAtLeast(b - r, a);
    assert (b - r) * a == a * b - r * a;
  }

  lemma DivDivGeneral(x: int, a: int, b: int)
    requires a > 0 && b > 0
    ensures x / a / b == x / (a * b)
  {
    var q1, r1 := x / a, x % a;
    var q2, r2 := q1 / b, q1 % b;
    Regroup(q2, b, r2, a, r1);
    RemainderBound(r2, a, b, r1);
    MulAtLeast(b, a);
    DivUnique(x, a * b, q2, r2 * a + r1);
  }

  /** Dividing by 2^a and then by 2^b is dividing by 2^(a+b). */
  lemma DivDiv(x: nat, a: nat, b: nat)
    ensures x / Pow2(a) / Pow2(b) == x / Pow2(a + b)
  {
    Pow2Add(a, b);
    DivDivGeneral(x, Pow2(a), Pow2(b));
  }

  /** Adding an even multiple of `d` does not change the parity of the quotient by `d`. */
  lemma ParityAboveLow(h: int, d: int, lo: int)
    requires d > 0 && h >= 0 && lo >= 0
    ensures ((2 * h) * d + lo) / d % 2 == lo / d % 2
  {
    var m, s := lo / d, lo % d;
    Regroup(2 * h, d, 0, 1, 0);
    assert (2 * h) * d + lo == (2 * h + m) * d + s;
    DivUnique((2 * h) * d + lo, d, 2 * h + m, s);
  }

  lemma Reassociate(h: int, r: int, q: int)
    ensures h * ((2 * r) * q) == (2 * (h * r)) * q
  {
  }

  lemma SplitBitLow(hi: nat, lo: nat, k: nat, q: nat)
    requires lo < Pow2(k) && q < k
    ensures BitOf(hi * Pow2(k) + lo, q) == BitOf(lo, q)
  {
    var Q, R := Pow2(q), Pow2(k - q - 1);
    Pow2Add(q, k - q);
    assert Pow2(k - q) == 2 * R;
    assert Pow2(k) == (2 * R) * Q;
    Reassociate(hi, R, Q);
    var h := hi * R;
    var x := hi * Pow2(k) + lo;
    assert x == (2 * h) * Q + lo;
    ParityAboveLow(h, Q, lo);
    assert BitOf(x, q) == x / Q % 2;
  }

  lemma SplitBitHigh(hi: nat, lo: nat, k: nat, q: nat)
    requires lo < Pow2(k) && k <= q
    ensures BitOf(hi * Pow2(k) + lo, q) == BitOf(hi, q - k)
  {
    var x := hi * Pow2(k) + lo;
    DivUnique(x, Pow2(k), hi, lo);
    DivDiv(x, k, q - k);
  }

  /** The bits of `hi * 2^k + lo` are those of `lo` below `k` and those of `hi` from `k` on. */
  lemma SplitBit(hi: nat, lo: nat, k: nat, q: nat)
    requires lo < Pow2(k)
    ensures BitOf(hi * Pow2(k) + lo, q) == if q < k then BitOf(lo, q) else BitOf(hi, q - k)
  {
    if q < k {
      SplitBitLow(hi, lo, k, q);
    } else {
      SplitBitHigh(hi, lo, k, q);
    }
  }

  /** Appending bit `b` below `h`: bit 0 of `2h + b` is `b`, and the others are those of `h` moved up by one. */
  lemma BitOfAppend(h: nat, b: nat, j: nat)
    requires b <= 1
    ensures BitOf(2 * h + b, j) == if j == 0 then b else BitOf(h, j - 1)
  {
    var x := 2 * h + b;
    DivUnique(x, 2, h, b);
    if j == 0 {
      assert Pow2(0) == 1;
    } else {
      var p := Pow2(j - 1);
      assert Pow2(j) == 2 * p;
      DivDivGeneral(x, 2, p);
    }
  }

  lemma BitOfBelow(x: nat, q: nat)
    requires x < Pow2(q)
    ensures BitOf(x, q) == 0
  {
    DivUnique(x, Pow2(q), 0, x);
  }

  lemma BitOfShift(x: nat, a: nat, j: nat)
    ensures BitOf(x / Pow2(a), j) == BitOf(x, a + j)
  {
    DivDiv(x, a, j);
  }

  lemma BitOfMask(x: nat, n: nat, j: nat)
    requires j < n
    ensures BitOf(x % Pow2(n), j) == BitOf(x, j)
  {
    var p := Pow2(n);
    DivMod(x, p);
    SplitBitLow(x / p, x % p, n, j);
  }

  /** Two numbers below 2^n with the same n low bits are equal. */
  lemma {:induction false} BitsDetermine(x: nat, y: nat, n: nat)
    requires x < Pow2(n) && y < Pow2(n)
    requires forall j :: 0 <= j < n ==> BitOf(x, j) == BitOf(y, j)
    ensures x == y
  {
    if n == 0 {
    } else {
      assert Pow2(1) == 2;
      forall j | 0 <= j < n - 1
        ensures BitOf(x / 2, j) == BitOf(y / 2, j)
      {
        BitOfShift(x, 1, j);
        BitOfShift(y, 1, j);
        assert BitOf(x, 1 + j) == BitOf(y, 1 + j);
      }
      DivUnique(x, 2, x / 2, x % 2);
      assert x / 2 < Pow2(n - 1);
      assert y / 2 < Pow2(n - 1);
      BitsDetermine(x / 2, y / 2, n - 1);
      assert BitOf(x, 0) == BitOf(y, 0);
    }
  }

  /** A number below 2^n is zero exactly when none of its n low bits is set. */
  lemma ZeroIffNoBits(x: nat, n: nat)
    requires x < Pow2(n)
    ensures x == 0 <==> forall k :: 0 <= k < n ==> BitOf(x, k) == 0
  {
    if forall k :: 0 <= k < n ==> BitOf(x, k) == 0 {
      forall k | 0 <= k < n
        ensures BitOf(x, k) == BitOf(0, k)
      {
        assert 0 / Pow2(k) == 0;
      }
      BitsDetermine(x, 0, n);
    }
  }
}
