/** Powers of two and the bits of a number, by halving. */
module BitMath {

  function Pow2(k: nat): (p: nat)
    ensures p > 0
  {
    if k == 0 then 1 else 2 * Pow2(k - 1)
  }

  lemma {:induction false} Pow2Positive(k: nat)
    ensures Pow2(k) > k
  {
    if k > 0 {
      Pow2Positive(k - 1);
    }
  }

  lemma {:induction false} Pow2Grows(i: nat, j: nat)
    requires i < j
    ensures 2 * Pow2(i) <= Pow2(j)
    decreases j
  {
    if i < j - 1 {
      Pow2Grows(i, j - 1);
    }
  }

  lemma {:induction false} Pow2Sum(a: nat, b: nat)
    ensures Pow2(a + b) == Pow2(a) * Pow2(b)
  {
    if a > 0 {
      Pow2Sum(a - 1, b);
    }
  }

  lemma WordSize()
    ensures Pow2(32) == 0x1_0000_0000
  {
    assert Pow2(2) == 4 && Pow2(4) == 16;
    Pow2Sum(4, 4);
    Pow2Sum(8, 8);
    Pow2Sum(16, 16);
  }

  /** Bit `b` of a number. */
  function Bit(v: nat, b: nat): (x: nat)
    ensures x <= 1
  {
    if b == 0 then v % 2 else Bit(v / 2, b - 1)
  }

  /** Bitwise or. */
  function Or(a: nat, b: nat): nat {
    if a == 0 then b
    else 2 * Or(a / 2, b / 2) + if a % 2 == 1 || b % 2 == 1 then 1 else 0
  }

  /** The low `n` bits of the two's complement of `v`: a mask of n ones. */
  function Low(v: int, n: nat): nat
    decreases n
  {
    if n == 0 then 0 else 2 * Low(v / 2, n - 1) + v % 2
  }

  function ShiftLeft(v: nat, s: nat): nat {
    if s == 0 then v else 2 * ShiftLeft(v, s - 1)
  }

  function ShiftRight(v: nat, s: nat): nat {
    if s == 0 then v else ShiftRight(v / 2, s - 1)
  }

  lemma {:induction false} OrBits(a: nat, b: nat, i: nat)
    ensures Bit(Or(a, b), i) == if Bit(a, i) == 1 || Bit(b, i) == 1 then 1 else 0
  {
    if a == 0 {
      ZeroBits(i);
    } else if i > 0 {
      OrBits(a / 2, b / 2, i - 1);
    }
  }

  lemma {:induction false} ZeroBits(i: nat)
    ensures Bit(0, i) == 0
  {
    if i > 0 {
      ZeroBits(i - 1);
    }
  }

  lemma {:induction false} LowBits(v: nat, n: nat, i: nat)
    ensures Bit(Low(v, n), i) == if i < n then Bit(v, i) else 0
  {
    if n == 0 {
      ZeroBits(i);
    } else if i > 0 {
      assert Low(v, n) / 2 == Low(v / 2, n - 1);
      LowBits(v / 2, n - 1, i - 1);
    }
  }

  lemma {:induction false} LowIsSmall(v: int, n: nat)
    ensures Low(v, n) < Pow2(n)
    decreases n
  {
    if n > 0 {
      LowIsSmall(v / 2, n - 1);
    }
  }

  lemma {:induction false} ShiftLeftBits(v: nat, s: nat, i: nat)
    ensures Bit(ShiftLeft(v, s), i) == if i < s then 0 else Bit(v, i - s)
  {
    if s > 0 && i > 0 {
      ShiftLeftBits(v, s - 1, i - 1);
    }
  }

  lemma {:induction false} ShiftRightBits(v: nat, s: nat, i: nat)
    ensures Bit(ShiftRight(v, s), i) == Bit(v, i + s)
  {
    if s > 0 {
      ShiftRightBits(v / 2, s - 1, i);
    }
  }

  /** Numbers with the same bits are equal. */
  lemma {:induction false} SameBits(a: nat, b: nat)
    requires forall i: nat :: Bit(a, i) == Bit(b, i)
    ensures a == b
  {
    assert Bit(a, 0) == Bit(b, 0);
    if a > 0 || b > 0 {
      forall i: nat
        ensures Bit(a / 2, i) == Bit(b / 2, i)
      {
        assert Bit(a, i + 1) == Bit(b, i + 1);
      }
      SameBits(a / 2, b / 2);
    }
  }

  /** What the low bits of a number in range stand for. */
  lemma {:induction false} LowOfSmall(v: int, n: nat)
    requires 0 <= v + Pow2(n) && v < Pow2(n)
    ensures Low(v, n) == if v < 0 then v + Pow2(n) else v
    decreases n
  {
    if n > 0 {
      LowOfSmall(v / 2, n - 1);
    }
  }

  // ----- in plain arithmetic -----

  lemma {:induction false} LowIsMod(v: int, n: nat)
    ensures Low(v, n) == v % Pow2(n)
    decreases n
  {
    if n > 0 {
      LowIsMod(v / 2, n - 1);
      HalfMod(v, Pow2(n - 1));
    }
  }

  lemma HalfMod(v: int, p: nat)
    requires p > 0
    ensures 2 * (v / 2 % p) + v % 2 == v % (2 * p)
  {
    var q, r := v / 2 / p, v / 2 % p;
    assert v / 2 == q * p + r;
    assert v == q * (2 * p) + (2 * r + v % 2);
    Remainder(v, 2 * p, q, 2 * r + v % 2);
  }

  lemma Remainder(v: int, m: nat, q: int, r: nat)
    requires m > 0 && v == q * m + r && r < m
    ensures v / m == q && v % m == r
  {
    var k := v / m - q;
    assert k * m == r - v % m;
    AtLeastOnce(k, m);
  }

  lemma AtLeastOnce(k: int, m: int)
    requires m > 0
    ensures k >= 1 ==> k * m >= m
    ensures k <= -1 ==> k * m <= -m
  {
  }

  lemma {:induction false} ShiftLeftIs(v: nat, s: nat)
    ensures ShiftLeft(v, s) == v * Pow2(s)
  {
    if s > 0 {
      ShiftLeftIs(v, s - 1);
      assert 2 * (v * Pow2(s - 1)) == v * (2 * Pow2(s - 1));
    }
  }

  lemma {:induction false} ShiftRightIs(v: nat, s: nat)
    ensures ShiftRight(v, s) == v / Pow2(s)
  {
    if s > 0 {
      ShiftRightIs(v / 2, s - 1);
      HalfQuotient(v, Pow2(s - 1));
    }
  }

  lemma HalfQuotient(v: nat, p: nat)
    requires p > 0
    ensures v / 2 / p == v / (2 * p)
  {
    var q, r := v / 2 / p, v / 2 % p;
    assert v / 2 == q * p + r;
    assert v == q * (2 * p) + (2 * r + v % 2);
    Remainder(v, 2 * p, q, 2 * r + v % 2);
  }

  lemma {:induction false} OrZero(a: nat)
    ensures Or(a, 0) == a
  {
    if a > 0 {
      OrZero(a / 2);
    }
  }

  /** Bits put into a gap of `b` zeros add up. */
  lemma {:induction false} OrBelow(h: nat, v: nat, b: nat)
    requires v < Pow2(b)
    ensures Or(h * Pow2(b), v) == h * Pow2(b) + v
    decreases b
  {
    if b == 0 {
      OrZero(h);
    } else {
      TwiceTimes(h, Pow2(b - 1));
      OrBelow(h, v / 2, b - 1);
      hide Pow2;
    }
  }

  lemma {:induction false} OrShifted(a: nat, v: nat, n: nat)
    ensures Or(a * Pow2(n), v * Pow2(n)) == Or(a, v) * Pow2(n)
    decreases n
  {
    hide Or;
    if n > 0 {
      OrShifted(a, v, n - 1);
      OrTimes(a, v, Pow2(n - 1), Or(a, v));
    }
  }

  lemma OrTimes(a: nat, v: nat, p: nat, r: nat)
    requires Or(a * p, v * p) == r * p
    ensures Or(a * (2 * p), v * (2 * p)) == r * (2 * p)
  {
    hide Or;
    OrDoubled(a * p, v * p);
    TwiceTimes(a, p);
    TwiceTimes(v, p);
    TwiceTimes(r, p);
  }

  lemma TwiceTimes(a: int, p: int)
    ensures a * (2 * p) == 2 * (a * p)
  {
  }

  lemma OrDoubled(x: nat, y: nat)
    ensures Or(2 * x, 2 * y) == 2 * Or(x, y)
  {
  }
}
