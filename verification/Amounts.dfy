/** Compressed amounts. */
module Amounts {

  import opened Powers

  const TWO64 := 0x1_0000_0000_0000_0000
  const MAX_MONEY := 21_000_000 * 100_000_000

  /** The code of n times a power of ten of which e factors have been counted already. */
  function CodeFrom(n: nat, e: nat): (x: nat)
    requires 0 < n && e <= 9
    ensures 0 < x
    decreases 9 - e
  {
    if n % 10 == 0 && e < 9 then CodeFrom(n / 10, e + 1)
    else if e < 9 then 1 + (n / 10 * 9 + n % 10 - 1) * 10 + e
    else 1 + (n - 1) * 10 + 9
  }

  function Code(n: nat): nat
  {
    if n == 0 then 0 else CodeFrom(n, 0)
  }

  /** The amount without its counted zeros, of a code less one. */
  function Digits(y: nat): nat
  {
    if y % 10 < 9 then y / 10 / 9 * 10 + y / 10 % 9 + 1 else y / 10 + 1
  }

  function Value(x: nat): nat
  {
    if x == 0 then 0 else Digits(x - 1) * Pow(10, (x - 1) % 10)
  }

  // ---------- the code is a bijection on the natural numbers ----------

  lemma {:induction false} ValueOfCode(n: nat, e: nat)
    requires 0 < n && e <= 9
    ensures Value(CodeFrom(n, e)) == n * Pow(10, e)
    decreases 9 - e
  {
    hide Value;
    if n % 10 == 0 && e < 9 {
      var m := n / 10;
      ValueOfCode(m, e + 1);
      Regroup(m, Pow(10, e));
      assert m * 10 == n;
    } else if e < 9 {
      DigitsOf(n / 10, n % 10, e);
      ValueIs((n / 10 * 9 + n % 10 - 1) * 10 + e, e);
    } else {
      ValueIs((n - 1) * 10 + 9, 9);
    }
  }

  lemma ValueIs(y: nat, e: nat)
    requires y % 10 == e
    ensures Value(1 + y) == Digits(y) * Pow(10, e)
  {
  }

  lemma Regroup(m: nat, p: nat)
    ensures m * (10 * p) == (m * 10) * p == (m * p) * 10
  {
  }

  lemma DigitsOf(m: nat, d: nat, e: nat)
    requires 1 <= d <= 9 && e < 9
    ensures var y := (m * 9 + d - 1) * 10 + e;
            y % 10 == e && Digits(y) == m * 10 + d
  {
    var q := m * 9 + d - 1;
    assert q / 9 == m && q % 9 == d - 1;
  }

  lemma {:induction false} CodeOfPower(m: nat, k: nat, e: nat)
    requires 0 < m && e + k <= 9
    ensures m * Pow(10, k) > 0 && CodeFrom(m * Pow(10, k), e) == CodeFrom(m, e + k)
    decreases k
  {
    if k > 0 {
      CodeOfPower(m, k - 1, e + 1);
      Regroup(m, Pow(10, k - 1));
      CodeOfTenfold(m * Pow(10, k - 1), e);
    }
  }

  lemma CodeOfTenfold(n: nat, e: nat)
    requires 0 < n && e < 9
    ensures CodeFrom(n * 10, e) == CodeFrom(n, e + 1)
  {
    assert n * 10 % 10 == 0 && n * 10 / 10 == n;
  }

  lemma CodeOfValue(x: nat)
    ensures Code(Value(x)) == x
  {
    hide CodeFrom, Digits, Pow;
    if x > 0 {
      var y := x - 1;
      CodeOfDigits(y);
      CodeOfPower(Digits(y), y % 10, 0);
    }
  }

  lemma CodeOfDigits(y: nat)
    ensures Digits(y) > 0 && CodeFrom(Digits(y), y % 10) == y + 1
  {
    if y % 10 < 9 {
      var q := y / 10;
      assert Digits(y) == q / 9 * 10 + (q % 9 + 1);
      assert Digits(y) / 10 == q / 9 && Digits(y) % 10 == q % 9 + 1;
    }
  }

  lemma ValueOfZero()
    ensures Value(0) == 0
  {
  }

  lemma CodeIsBijection(n: nat, x: nat)
    ensures Value(Code(n)) == n && Code(Value(x)) == x
  {
    hide Value, CodeFrom;
    CodeOfValue(x);
    if n > 0 {
      ValueOfCode(n, 0);
      assert Pow(10, 0) == 1;
    } else {
      ValueOfZero();
    }
  }

  /** The code in terms of the amount: of its last digits, up to nine zeros are counted as e.  If fewer than nine are
      there, the digit d before them is not zero and the code is 1 + 10 * (9 * m + d - 1) + e, where m is what is before
      that digit; otherwise it is 1 + 10 * (m - 1) + 9, where m is what is before the nine zeros. */
  lemma CodeMeans(m: nat, d: nat, e: nat)
    ensures 1 <= d <= 9 && e < 9 ==>
      (10 * m + d) * Pow(10, e) >= 0 && Code((10 * m + d) * Pow(10, e)) == 1 + 10 * (9 * m + d - 1) + e
    ensures m > 0 ==> m * Pow(10, 9) >= 0 && Code(m * Pow(10, 9)) == 1 + 10 * (m - 1) + 9
  {
    hide Pow, CodeFrom;
    if 1 <= d <= 9 && e < 9 {
      CodeOfPower(10 * m + d, e, 0);
      LastCounted(m, d, e);
    }
    if m > 0 {
      CodeOfPower(m, 9, 0);
      AllCounted(m);
    }
  }

  lemma LastCounted(m: nat, d: nat, e: nat)
    requires 1 <= d <= 9 && e < 9
    ensures CodeFrom(10 * m + d, e) == 1 + 10 * (9 * m + d - 1) + e
  {
    var n := 10 * m + d;
    if d < 9 || d == 9 {
      assert n / 10 == m && n % 10 == d;
    }
  }

  lemma AllCounted(m: nat)
    requires 0 < m
    ensures CodeFrom(m, 9) == 1 + 10 * (m - 1) + 9
  {
  }

  /** A code is at most ten times the amount. */
  lemma {:induction false} CodeIsSmall(n: nat, e: nat)
    requires 0 < n && e <= 9
    ensures CodeFrom(n, e) <= 10 * n + e
    decreases 9 - e
  {
    if n % 10 == 0 && e < 9 {
      CodeIsSmall(n / 10, e + 1);
    }
  }

  // ---------- the 64-bit routines ----------

  /** What is left of a number in 64 bits. */
  function Wrap(n: nat): (r: nat)
    ensures r < TWO64
  {
    n % TWO64
  }

  lemma WrapFits(n: nat)
    requires n < TWO64
    ensures Wrap(n) == n
  {
  }

  lemma WrapTimesTen(n: nat)
    ensures Wrap(Wrap(n) * 10) == Wrap(n * 10)
  {
    hide Wrap;
    WrapAdds(Wrap(n) * 10, n / TWO64 * 10) by {
      assert n / TWO64 * 10 >= 0;
    }
    assert Wrap(n) == n % TWO64 by {
      WrapIs(n);
    }
    assert n * 10 == Wrap(n) * 10 + n / TWO64 * 10 * TWO64;
  }

  lemma WrapIs(n: nat)
    ensures Wrap(n) == n % TWO64
  {
  }

  lemma WrapAdds(r: nat, q: nat)
    ensures Wrap(r + q * TWO64) == Wrap(r)
  {
  }

  /** Compresses an amount; arithmetic wraps at 64 bits. */
  method CompressAmount(amount: nat) returns (x: nat)
    requires amount < TWO64
    ensures x == Wrap(Code(amount))
    ensures Survives(amount) ==> x == Code(amount)
  {
    hide Wrap;
    if amount == 0 {
      WrapFits(0);
      return 0;
    }
    SurvivesFits(amount);
    if Survives(amount) {
      WrapFits(Code(amount));
    }
    var n, e := amount, 0;
    while n % 10 == 0 && e < 9
      invariant 0 < n <= amount && 0 <= e <= 9 && CodeFrom(n, e) == CodeFrom(amount, 0)
      decreases 9 - e
    {
      n := n / 10;
      e := e + 1;
    }
    if e < 9 {
      var d := n % 10;
      assert 1 <= d <= 9;
      n := n / 10;
      x := Wrap(1 + (n * 9 + d - 1) * 10 + e);
    } else {
      x := Wrap(1 + (n - 1) * 10 + 9);
    }
  }

  /** Decompresses an amount; arithmetic wraps at 64 bits. */
  method DecompressAmount(code: nat) returns (n: nat)
    requires code < TWO64
    ensures n == Wrap(Value(code))
  {
    if code == 0 {
      return 0;
    }
    var x := code - 1;
    var e := x % 10;
    x := x / 10;
    n := 0;
    if e < 9 {
      var d := x % 9 + 1;
      x := x / 9;
      n := x * 10 + d;
    } else {
      n := x + 1;
    }
    ghost var exact := n;
    assert exact == Digits(code - 1);
    WrapFits(exact);
    hide Wrap;
    ghost var done: nat := 0;
    while e > 0
      invariant 0 <= e && e + done == (code - 1) % 10
      invariant exact == Digits(code - 1) * Pow(10, done) && n == Wrap(exact)
    {
      hide Digits;
      WrapTimesTen(exact);
      Regroup(Digits(code - 1), Pow(10, done));
      exact := exact * 10;
      n := Wrap(n * 10);
      e := e - 1;
      done := done + 1;
    }
  }

  // ---------- which amounts and codes survive ----------

  /** The code of an amount fits into 64 bits: the amount ends in a zero, or the branch for other last digits
      does not overflow. */
  predicate Survives(n: nat)
  {
    n % 10 == 0 || 90 * (n / 10) + 10 * (n % 10) - 9 < TWO64
  }

  lemma CodeWithoutZeros(n: nat)
    requires n % 10 != 0
    ensures Code(n) == 90 * (n / 10) + 10 * (n % 10) - 9
  {
  }

  lemma SurvivesFits(n: nat)
    requires n < TWO64
    ensures Survives(n) <==> Code(n) < TWO64
  {
    if n % 10 != 0 {
      CodeWithoutZeros(n);
    } else if n > 0 {
      assert Code(n) == CodeFrom(n / 10, 1);
      CodeIsSmall(n / 10, 1);
    }
  }

  /** Taking k off the number q that spells the digits takes a fixed amount off the digits, or one more. */
  lemma DigitsShift(q: nat, k: nat, e: nat, n: nat)
    requires k <= q && e < 9 && n == q / 9 * 10 + q % 9 + 1
    ensures var off := k / 9 * 10 + k % 9; var d := Digits(10 * (q - k) + e);
      d == n - off || d == n - off - 1
  {
    var y := 10 * (q - k) + e;
    assert y / 10 == q - k && y % 10 == e;
  }

  /** A linear congruence modulo 2^64 with an odd coefficient has one solution. */
  lemma OnlySolution(n: nat, z: int, off: nat, p: nat, i: nat, j: nat)
    requires n < TWO64 && p > 0
    requires (n - off) * p == n + z * TWO64
    requires i * (p - 1) == 1 + j * TWO64
    ensures n == i * (off * p) % TWO64
  {
    var w := i * z - j * n;
    calc {
      i * (off * p);
      == { assert (n - off) * p == n * p - off * p && n * (p - 1) == n * p - n; }
      i * (n * (p - 1) - z * TWO64);
      == { SolutionSum(n, z, p, i, TWO64); }
      n * (i * (p - 1)) - i * z * TWO64;
      == { SolutionParts(n, z, i, j); }
      n - w * TWO64;
    }
    SolutionIs(n, w, i * (off * p));
  }

  lemma SolutionSum(n: nat, z: int, p: nat, i: nat, t: nat)
    ensures i * (n * (p - 1) - z * t) == n * (i * (p - 1)) - i * z * t
  {
    assert i * (n * (p - 1)) == n * (i * (p - 1));
    assert i * (z * t) == i * z * t;
  }

  lemma SolutionParts(n: nat, z: int, i: nat, j: nat)
    ensures n * (1 + j * TWO64) - i * z * TWO64 == n - (i * z - j * n) * TWO64
  {
    assert n * (1 + j * TWO64) == n + n * j * TWO64;
  }

  lemma SolutionIs(n: nat, w: int, x: nat)
    requires n < TWO64 && x == n - w * TWO64
    ensures n == x % TWO64
  {
  }

  /** When the code has wrapped k times, the amount read back is short of n by c or c + 1, times a power of ten. */
  lemma ReadBack(n: nat, k: nat, q: nat, e: nat, k10: nat, c: nat) returns (off: nat)
    requires n == q / 9 * 10 + q % 9 + 1
    requires e < 9 && k * TWO64 + e == 10 * k10 && k10 <= q && c == k10 / 9 * 10 + k10 % 9
    ensures (off == c || off == c + 1) && off <= n
    ensures 10 * q >= k * TWO64 && Value(10 * q - k * TWO64 + 1) == (n - off) * Pow(10, e)
  {
    hide Digits, Pow, Value;
    var y := 10 * (q - k10) + e;
    DigitsShift(q, k10, e, n);
    off := n - Digits(y);
    ValueIs(y, e);
  }

  lemma TensAre()
    ensures Pow(10, 2) == 100 && Pow(10, 4) == 10_000 && Pow(10, 6) == 1_000_000 && Pow(10, 8) == 100_000_000
  {
    assert Pow(10, 1) == 10;
    assert Pow(10, 2) == 10 * Pow(10, 1);
    assert Pow(10, 3) == 10 * Pow(10, 2);
    assert Pow(10, 4) == 10 * Pow(10, 3);
    assert Pow(10, 5) == 10 * Pow(10, 4);
    assert Pow(10, 6) == 10 * Pow(10, 5);
    assert Pow(10, 7) == 10 * Pow(10, 6);
    assert Pow(10, 8) == 10 * Pow(10, 7);
  }

  lemma OnlyCandidate(n: nat, off: nat, p: nat, i: nat, j: nat)
    requires n < TWO64 && off <= n && p > 0 && (n - off) * p >= 0
    requires Wrap((n - off) * p) == n && i * (p - 1) == 1 + j * TWO64
    ensures n == i * (off * p) % TWO64
  {
    var x: nat := (n - off) * p;
    var z := x / TWO64;
    assert x == n + z * TWO64;
    OnlySolution(n, z, off, p, i, j);
  }

  /** If an amount came back although its code wrapped k times, it would be one of two numbers. */
  lemma Candidates(n: nat, k: nat, q: nat, e: nat, p: nat, i: nat, j: nat, k10: nat, c: nat)
    requires n < TWO64 && n == q / 9 * 10 + q % 9 + 1
    requires 0 < e < 9 && k * TWO64 + e == 10 * k10 && k10 <= q && c == k10 / 9 * 10 + k10 % 9
    requires p == Pow(10, e) && i * (p - 1) == 1 + j * TWO64
    ensures 10 * q >= k * TWO64
    ensures Wrap(Value(10 * q - k * TWO64 + 1)) == n ==> n == i * (c * p) % TWO64 || n == i * ((c + 1) * p) % TWO64
  {
    hide Value, Pow, Wrap;
    PowPositive(10, e);
    var off := ReadBack(n, k, q, e, k10, c);
    if Wrap(Value(10 * q - k * TWO64 + 1)) == n {
      OnlyCandidate(n, off, p, i, j);
    }
  }

  // Neither candidate ends in another digit than zero and has a code that wraps as often as that.

  lemma LostAfter1(n: nat, q: nat)
    requires n < TWO64 && n % 10 != 0 && n == q / 9 * 10 + q % 9 + 1 && 1 * TWO64 <= 10 * q < 2 * TWO64
    ensures Wrap(Value(10 * q - 1 * TWO64 + 1)) != n
  {
    hide Value, Wrap, Pow;
    TensAre();
    assert 13458245626333751279 * (2049638230412172402 * 10000) % TWO64 == 15288550632769423584;
    assert 13458245626333751279 * (2049638230412172403 * 10000) % TWO64 == 10300052185393623248;
    Candidates(n, 1, q, 4, 10000, 13458245626333751279, 7295, 1844674407370955162, 2049638230412172402);
  }

  lemma LostAfter2(n: nat, q: nat)
    requires n < TWO64 && n % 10 != 0 && n == q / 9 * 10 + q % 9 + 1 && 2 * TWO64 <= 10 * q < 3 * TWO64
    ensures Wrap(Value(10 * q - 2 * TWO64 + 1)) != n
  {
    hide Value, Wrap, Pow;
    TensAre();
    assert 300153063250403071 * (4099276460824344804 * 100000000) % TWO64 == 14480868974329830400;
    assert 300153063250403071 * (4099276460824344805 * 100000000) % TWO64 == 14781022037580233472;
    Candidates(n, 2, q, 8, 100000000, 300153063250403071, 1627133, 3689348814741910324, 4099276460824344804);
  }

  lemma LostAfter3(n: nat, q: nat)
    requires n < TWO64 && n % 10 != 0 && n == q / 9 * 10 + q % 9 + 1 && 3 * TWO64 <= 10 * q < 4 * TWO64
    ensures Wrap(Value(10 * q - 3 * TWO64 + 1)) != n
  {
    hide Value, Wrap, Pow;
    TensAre();
    assert 12670490878911611211 * (6148914691236517205 * 100) % TWO64 == 1925417731599313468;
    assert 12670490878911611211 * (6148914691236517206 * 100) % TWO64 == 14595908610510924680;
    Candidates(n, 3, q, 2, 100, 12670490878911611211, 68, 5534023222112865485, 6148914691236517205);
  }

  lemma LostAfter4(n: nat, q: nat)
    requires n < TWO64 && n % 10 != 0 && n == q / 9 * 10 + q % 9 + 1 && 4 * TWO64 <= 10 * q < 5 * TWO64
    ensures Wrap(Value(10 * q - 4 * TWO64 + 1)) != n
  {
    hide Value, Wrap, Pow;
    TensAre();
    assert 1672254362768354751 * (8198552921648689607 * 1000000) % TWO64 == 14161661572577611840;
    assert 1672254362768354751 * (8198552921648689608 * 1000000) % TWO64 == 15833915935345966592;
    Candidates(n, 4, q, 6, 1000000, 1672254362768354751, 90653, 7378697629483820647, 8198552921648689607);
  }

  lemma LostAfter6(n: nat, q: nat)
    requires n < TWO64 && n % 10 != 0 && n == q / 9 * 10 + q % 9 + 1 && 6 * TWO64 <= 10 * q < 7 * TWO64
    ensures Wrap(Value(10 * q - 6 * TWO64 + 1)) != n
  {
    hide Value, Wrap, Pow;
    TensAre();
    assert 13458245626333751279 * (12297829382473034411 * 10000) % TWO64 == 4486081875444583760;
    assert 13458245626333751279 * (12297829382473034412 * 10000) % TWO64 == 17944327501778335040;
    Candidates(n, 6, q, 4, 10000, 13458245626333751279, 7295, 11068046444225730970, 12297829382473034411);
  }

  lemma LostAfter7(n: nat, q: nat)
    requires n < TWO64 && n % 10 != 0 && n == q / 9 * 10 + q % 9 + 1 && 7 * TWO64 <= 10 * q < 8 * TWO64
    ensures Wrap(Value(10 * q - 7 * TWO64 + 1)) != n
  {
    hide Value, Wrap, Pow;
    TensAre();
    assert 300153063250403071 * (14347467612885206813 * 100000000) % TWO64 == 4266028162630124288;
    assert 300153063250403071 * (14347467612885206814 * 100000000) % TWO64 == 4566181225880527360;
    Candidates(n, 7, q, 8, 100000000, 300153063250403071, 1627133, 12912720851596686132, 14347467612885206813);
  }

  lemma LostAfter8(n: nat, q: nat)
    requires n < TWO64 && n % 10 != 0 && n == q / 9 * 10 + q % 9 + 1 && 8 * TWO64 <= 10 * q < 9 * TWO64
    ensures Wrap(Value(10 * q - 8 * TWO64 + 1)) != n
  {
    hide Value, Wrap, Pow;
    TensAre();
    assert 12670490878911611211 * (16397105843297379214 * 100) % TWO64 == 7432526512302726184;
    assert 12670490878911611211 * (16397105843297379215 * 100) % TWO64 == 1656273317504785780;
    Candidates(n, 8, q, 2, 100, 12670490878911611211, 68, 14757395258967641293, 16397105843297379214);
  }

  /** After five wraps the number read back is a smaller amount, with a smaller code. */
  lemma LostAfter5(n: nat, q: nat)
    requires n < TWO64 && n % 10 != 0 && n == q / 9 * 10 + q % 9 + 1 && 5 * TWO64 <= 10 * q < 6 * TWO64
    ensures Wrap(Value(10 * q - 5 * TWO64 + 1)) != n
  {
    var y := 10 * q - 5 * TWO64;
    assert y == 10 * (q - TWO64 / 2) && Pow(10, 0) == 1;
    assert Value(y + 1) == Digits(y) < n;
  }

  lemma CodeAsDigits(n: nat) returns (q: nat)
    requires n % 10 != 0
    ensures Code(n) == 10 * q + 1 && n == q / 9 * 10 + q % 9 + 1
  {
    CodeWithoutZeros(n);
    q := 9 * (n / 10) + n % 10 - 1;
  }

  /** An amount whose code does not fit is never read back. */
  lemma WrappedIsLost(n: nat)
    requires n < TWO64 && Code(n) >= TWO64
    ensures Wrap(Value(Wrap(Code(n)))) != n
  {
    hide Value, Wrap, Code;
    SurvivesFits(n);
    var q := CodeAsDigits(n);
    var k := 10 * q / TWO64;
    WrapIs(Code(n));
    assert Wrap(Code(n)) == 10 * q - k * TWO64 + 1;
    match k {
      case 1 => LostAfter1(n, q);
      case 2 => LostAfter2(n, q);
      case 3 => LostAfter3(n, q);
      case 4 => LostAfter4(n, q);
      case 5 => LostAfter5(n, q);
      case 6 => LostAfter6(n, q);
      case 7 => LostAfter7(n, q);
      case 8 => LostAfter8(n, q);
      case _ =>
    }
  }

  /** Exactly when a 64-bit amount survives the round trip. */
  lemma SurvivesExactly(n: nat)
    requires n < TWO64
    ensures Wrap(Value(Wrap(Code(n)))) == n <==> Survives(n)
  {
    hide Value, Code, Wrap, Survives;
    SurvivesFits(n);
    if Code(n) < TWO64 {
      CodeIsBijection(n, 0);
      WrapFits(Code(n));
      WrapFits(n);
    } else {
      WrappedIsLost(n);
    }
  }

  /** Exactly when a 64-bit code survives: when its amount fits in 64 bits. */
  lemma CodeSurvivesExactly(x: nat)
    requires x < TWO64
    ensures Wrap(Code(Wrap(Value(x)))) == x <==> Value(x) < TWO64
  {
    hide Value, Code, Wrap, Survives;
    CodeIsBijection(0, x);
    if Value(x) < TWO64 {
      WrapFits(Value(x));
      WrapFits(x);
    } else {
      var v := Wrap(Value(x));
      WrapFits(v);
      SurvivesExactly(v);
      SurvivesFits(v);
      CodeIsBijection(v, x);
      if Code(v) < TWO64 {
        WrapFits(Code(v));
      }
    }
  }

  /** All money survives. */
  lemma MoneySurvives(n: nat)
    requires n <= MAX_MONEY
    ensures Survives(n)
  {
  }

  /** Compressing and decompressing, both ways round: an amount survives exactly if its code fits, so all money
      does, and a code survives exactly if its amount fits. */
  method RoundTrips(amount: nat, code: nat) returns (a: nat, c: nat)
    requires amount < TWO64 && code < TWO64
    ensures a == amount <==> Survives(amount)
    ensures amount <= MAX_MONEY ==> a == amount
    ensures c == code <==> Value(code) < TWO64
  {
    hide Value, Code, Wrap, Survives;
    SurvivesExactly(amount);
    if amount <= MAX_MONEY {
      MoneySurvives(amount);
    }
    CodeSurvivesExactly(code);
    c := CompressAmount(amount);
    a := DecompressAmount(c);
    var v := DecompressAmount(code);
    c := CompressAmount(v);
  }

  /** The largest 64-bit number does not survive. */
  lemma LargestIsLost()
    ensures Wrap(Value(Wrap(Code(TWO64 - 1)))) != TWO64 - 1
  {
    SurvivesExactly(TWO64 - 1);
  }
}
