/** Powers, bitwise operations on naturals, and the few facts about products and division that the other
    modules share. */
module Powers {

  function Pow2(e: nat): (p: nat)
    ensures p >= 1
  {
    if e == 0 then 1 else 2 * Pow2(e - 1)
  }

  lemma {:induction false} Pow2Add(a: nat, b: nat)
    ensures Pow2(a + b) == Pow2(a) * Pow2(b)
  {
    if a == 0 {
    } else {
      Pow2Add(a - 1, b);
      assert Pow2(a + b) == 2 * Pow2((a - 1) + b);
      assert 2 * (Pow2(a - 1) * Pow2(b)) == (2 * Pow2(a - 1)) * Pow2(b);
    }
  }

  lemma {:induction false} Pow2Monotone(a: nat, b: nat)
    requires a <= b
    ensures Pow2(a) <= Pow2(b)
    decreases b
  {
    if a < b {
      Pow2Monotone(a, b - 1);
    }
  }

  lemma Pow2Of32()
    ensures Pow2(32) == 0x1_0000_0000
    ensures Pow2(8) == 256 && Pow2(16) == 0x1_0000 && Pow2(24) == 0x100_0000
    ensures Pow2(23) == 0x80_0000
  {
    assert Pow2(4) == 16;
    Pow2Add(4, 4);
    Pow2Add(8, 8);
    Pow2Add(16, 8);
    Pow2Add(16, 16);
    assert Pow2(24) == 2 * Pow2(23);
  }

  /** Quotient and remainder are determined by the division equation. */
  lemma DivModUnique(n: int, d: int, q: int, r: int)
    requires 0 <= r < d
    requires n == q * d + r
    ensures n / d == q && n % d == r
  {
    DivModEquation(n, d);
    QuotientUnique(d, q, r, n / d, n % d);
  }

  lemma DivModEquation(n: int, d: int)
    requires 0 < d
    ensures n == (n / d) * d + n % d && 0 <= n % d < d
  {
  }

  lemma QuotientUnique(d: int, q1: int, r1: int, q2: int, r2: int)
    requires 0 <= r1 < d && 0 <= r2 < d
    requires q1 * d + r1 == q2 * d + r2
    ensures q1 == q2 && r1 == r2
  {
    assert (q1 - q2) * d == r2 - r1 && (q2 - q1) * d == r1 - r2;
    if q1 > q2 {
      MulMonotone(1, q1 - q2, d);
      assert false;
    } else if q1 < q2 {
      MulMonotone(1, q2 - q1, d);
      assert false;
    }
  }

  lemma MulMonotone(a: int, b: int, c: int)
    requires a <= b && 0 <= c
    ensures a * c <= b * c
  {
  }

  lemma MulStrictlyMonotone(a: int, b: int, c: int)
    requires a < b && 0 < c
    ensures a * c < b * c
  {
  }

  lemma QuotientIsNat(n: nat, d: nat)
    requires d > 0
    ensures n / d >= 0
  {
    DivModEquation(n, d);
    if n / d < 0 {
      MulMonotone(n / d, -1, d);
    }
  }

  lemma Associate(a: int, b: int, c: int)
    ensures a * (b * c) == (a * b) * c
  {
  }

  function Pow(b: nat, e: nat): nat
  {
    if e == 0 then 1 else b * Pow(b, e - 1)
  }

  lemma {:induction false} PowPositive(b: nat, e: nat)
    requires 0 < b
    ensures 0 < Pow(b, e)
  {
    if e > 0 {
      PowPositive(b, e - 1);
    }
  }

  lemma {:induction false} PowAdd(b: nat, m: nat, n: nat)
    ensures Pow(b, m + n) == Pow(b, m) * Pow(b, n)
  {
    if m > 0 {
      PowAdd(b, m - 1, n);
      Associate(b, Pow(b, m - 1), Pow(b, n));
    }
  }

  lemma {:induction false} PowPow(b: nat, m: nat, n: nat)
    ensures 0 <= m * n && Pow(b, m * n) == Pow(Pow(b, m), n)
    decreases n
  {
    if n == 0 {
      assert m * n == 0;
    } else {
      PowPow(b, m, n - 1);
      assert m * n == m + m * (n - 1);
      PowAdd(b, m, m * (n - 1));
    }
  }

  lemma {:induction false} PowGrows(b: nat, m: nat, n: nat)
    requires 0 < b && m <= n
    ensures Pow(b, m) <= Pow(b, n)
    decreases n
  {
    if m < n {
      PowGrows(b, m, n - 1);
      PowPositive(b, n - 1);
      MulMonotone(1, b, Pow(b, n - 1));
    }
  }

  lemma {:induction false} PowBaseGrows(a: nat, b: nat, e: nat)
    requires a <= b
    ensures Pow(a, e) <= Pow(b, e)
  {
    if e > 0 {
      PowBaseGrows(a, b, e - 1);
      MulMonotone(a, b, Pow(a, e - 1));
      MulMonotone(Pow(a, e - 1), Pow(b, e - 1), b);
    }
  }

  /** Bitwise or of two naturals, least significant bit first. */
  function BitOr(a: nat, b: nat): nat
  {
    if a == 0 then b
    else if b == 0 then a
    else 2 * BitOr(a / 2, b / 2) + (if a % 2 == 1 || b % 2 == 1 then 1 else 0)
  }

  /** Bitwise and of two naturals. */
  function BitAnd(a: nat, b: nat): (r: nat)
    ensures r <= a && r <= b
  {
    if a == 0 || b == 0 then 0
    else 2 * BitAnd(a / 2, b / 2) + (if a % 2 == 1 && b % 2 == 1 then 1 else 0)
  }

  /** Or-ing a number below 2^s into a multiple of 2^s adds it: no bit is shared. */
  lemma {:induction false} OrIsAddWhenDisjoint(a: nat, b: nat, s: nat)
    requires a % Pow2(s) == 0
    requires b < Pow2(s)
    ensures BitOr(a, b) == a + b
    decreases s
  {
    if a != 0 && b != 0 {
      var m := Pow2(s - 1);
      var q := a / Pow2(s);
      assert a == q * (2 * m);
      assert a == 2 * (q * m);
      assert a / 2 == q * m && a % 2 == 0;
      DivModUnique(a / 2, m, q, 0);
      OrIsAddWhenDisjoint(a / 2, b / 2, s - 1);
    }
  }

  lemma {:induction false} OrCommutes(a: nat, b: nat)
    ensures BitOr(a, b) == BitOr(b, a)
    decreases a
  {
    if a != 0 && b != 0 {
      OrCommutes(a / 2, b / 2);
    }
  }

  lemma OrZero(a: nat)
    ensures BitOr(a, 0) == a
  {
  }

  /** Bitwise or works on the digits below and above 2^s separately. */
  lemma {:induction false} OrSplits(h: nat, l: nat, h': nat, l': nat, s: nat)
    requires l < Pow2(s) && l' < Pow2(s)
    ensures h * Pow2(s) >= 0 && h' * Pow2(s) >= 0
    ensures BitOr(h * Pow2(s) + l, h' * Pow2(s) + l') == BitOr(h, h') * Pow2(s) + BitOr(l, l')
    decreases s
  {
    hide BitOr;
    MulMonotone(0, h, Pow2(s));
    MulMonotone(0, h', Pow2(s));
    if s == 0 {
      OrZero(0);
    } else {
      var p := Pow2(s - 1);
      assert Pow2(s) == 2 * p;
      hide Pow2;
      HalfOf(h, l, p);
      HalfOf(h', l', p);
      OrSplits(h, l / 2, h', l' / 2, s - 1);
      OrHalves(h * (2 * p) + l, h' * (2 * p) + l');
      OrHalves(l, l');
      DoubleProduct(BitOr(h, h'), p);
    }
  }

  lemma DoubleProduct(a: int, p: int)
    ensures a * (2 * p) == 2 * (a * p)
  {
  }

  lemma HalfOf(h: nat, l: nat, p: nat)
    requires l < 2 * p
    ensures (h * (2 * p) + l) / 2 == h * p + l / 2
    ensures (h * (2 * p) + l) % 2 == l % 2
  {
    DoubleProduct(h, p);
  }

  lemma OrHalves(a: nat, b: nat)
    ensures BitOr(a, b) == 2 * BitOr(a / 2, b / 2) + (if a % 2 == 1 || b % 2 == 1 then 1 else 0)
  {
    OrZero(a / 2);
    OrZero(b / 2);
  }
}
