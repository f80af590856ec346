/** Little-endian base-2^32 numbers: the value of a limb sequence and how it splits, compares,
    carries and shifts.  These are the facts behind the loops of base_uint. */
module Limbs {
  import opened Powers

  const BASE: nat := 0x1_0000_0000

  type Limb = x: int | 0 <= x < BASE witness 0

  /** BASE to the power k. */
  function Weight(k: nat): (w: nat)
    ensures w >= 1
  {
    if k == 0 then 1 else BASE * Weight(k - 1)
  }

  lemma WeightStep(k: nat)
    ensures Weight(k + 1) == BASE * Weight(k)
  {
  }

  /** The number a limb sequence stands for, least significant limb first. */
  function Value(s: seq<Limb>): nat
  {
    if |s| == 0 then 0 else Value(s[..|s| - 1]) + s[|s| - 1] * Weight(|s| - 1)
  }

  lemma ValueOfNone()
    ensures Value([]) == 0 && Weight(0) == 1
  {
  }

  lemma ValuePush(s: seq<Limb>, x: Limb)
    ensures Value(s + [x]) == Value(s) + x * Weight(|s|)
  {
    assert (s + [x])[..|s|] == s;
  }

  lemma {:induction false} ValueBound(s: seq<Limb>)
    ensures Value(s) < Weight(|s|)
  {
    if |s| > 0 {
      var k := |s| - 1;
      ValueBound(s[..k]);
      MulMonotone(s[k], BASE - 1, Weight(k));
      assert (BASE - 1) * Weight(k) + Weight(k) == BASE * Weight(k);
    }
  }

  lemma {:induction false} WeightAdd(a: nat, b: nat)
    ensures Weight(a + b) == Weight(a) * Weight(b)
  {
    if a == 0 {
    } else {
      WeightAdd(a - 1, b);
      assert Weight(a + b) == BASE * Weight((a - 1) + b);
      assert BASE * (Weight(a - 1) * Weight(b)) == (BASE * Weight(a - 1)) * Weight(b);
    }
  }

  lemma {:induction false} WeightIsPow2(k: nat)
    ensures Weight(k) == Pow2(32 * k)
  {
    if k > 0 {
      WeightIsPow2(k - 1);
      Pow2Of32();
      Pow2Add(32, 32 * (k - 1));
    }
  }

  /** A number is its low k limbs plus the rest shifted up by k limbs. */
  lemma {:induction false} ValueSplit(s: seq<Limb>, k: nat)
    requires k <= |s|
    ensures Value(s) == Value(s[..k]) + Weight(k) * Value(s[k..])
    decreases |s|
  {
    if k == |s| {
      assert s[..k] == s;
    } else {
      var n := |s| - 1;
      var t := s[..n];
      ValueSplit(t, k);
      assert t[..k] == s[..k];
      assert s[k..] == t[k..] + [s[n]];
      ValuePush(t[k..], s[n]);
      WeightAdd(k, n - k);
      SplitAlgebra(Weight(k), Value(t[k..]), s[n], Weight(n - k));
    }
  }

  lemma SplitAlgebra(w: int, v: int, x: int, u: int)
    ensures w * (v + x * u) == w * v + x * (w * u)
  {
    assert x * (w * u) == w * (x * u);
  }

  lemma {:induction false} ValueOfZeros(s: seq<Limb>)
    requires forall i :: 0 <= i < |s| ==> s[i] == 0
    ensures Value(s) == 0
  {
    if |s| > 0 {
      ValueOfZeros(s[..|s| - 1]);
    }
  }

  /** Limb sequences of one length are equal exactly when their values are. */
  lemma {:induction false} ValueInjective(s: seq<Limb>, t: seq<Limb>)
    requires |s| == |t|
    requires Value(s) == Value(t)
    ensures s == t
  {
    if |s| > 0 {
      var k := |s| - 1;
      ValueBound(s[..k]);
      ValueBound(t[..k]);
      QuotientUnique(Weight(k), s[k], Value(s[..k]), t[k], Value(t[..k]));
      ValueInjective(s[..k], t[..k]);
      assert s == s[..k] + [s[k]] && t == t[..k] + [t[k]];
    }
  }

  /** The first differing limb from the top decides the order. */
  lemma ValueLess(s: seq<Limb>, t: seq<Limb>, k: nat)
    requires |s| == |t| && k < |s|
    requires s[k] < t[k]
    requires s[k + 1..] == t[k + 1..]
    ensures Value(s) < Value(t)
  {
    hide Value, Weight;
    ValueSplit(s, k + 1);
    ValueSplit(t, k + 1);
    assert s[..k + 1] == s[..k] + [s[k]] && t[..k + 1] == t[..k] + [t[k]];
    ValuePush(s[..k], s[k]);
    ValuePush(t[..k], t[k]);
    ValueBound(s[..k]);
    TopLimbDecides(Value(s[..k]), s[k], Value(t[..k]), t[k], Weight(k));
  }

  lemma TopLimbDecides(lo: nat, x: int, lo': nat, y: int, w: nat)
    requires lo < w && x < y
    ensures lo + x * w < lo' + y * w
  {
    MulMonotone(x + 1, y, w);
  }

  /** One column of a carry loop: replacing limb and carry by n % BASE and n / BASE keeps the sum. */
  lemma CarryStep(n: nat, w: nat)
    ensures n % BASE < BASE
    ensures (n % BASE) * w + (n / BASE) * (BASE * w) == n * w
  {
    var q, r := n / BASE, n % BASE;
    assert n == BASE * q + r;
    assert q * (BASE * w) == (BASE * q) * w;
  }

  /** A full-width result with a carry out is the sum reduced modulo the full weight. */
  lemma WrapAround(s: seq<Limb>, carry: nat, total: nat)
    requires Value(s) + carry * Weight(|s|) == total
    ensures Value(s) == total % Weight(|s|)
  {
    ValueBound(s);
    DivModUnique(total, Weight(|s|), carry, Value(s));
  }

  /** The complement of every limb is the distance to the largest number. */
  lemma {:induction false} ValueOfComplement(s: seq<Limb>, t: seq<Limb>)
    requires |s| == |t|
    requires forall i :: 0 <= i < |s| ==> t[i] == BASE - 1 - s[i]
    ensures Value(t) == Weight(|s|) - 1 - Value(s)
  {
    if |s| > 0 {
      var k := |s| - 1;
      ValueOfComplement(s[..k], t[..k]);
      assert t[k] * Weight(k) == BASE * Weight(k) - Weight(k) - s[k] * Weight(k);
    }
  }

  // ---- Shifts, limb by limb ----

  /** The bits of x that leave a limb on a left shift by r < 32 bits. */
  function HighPart(x: Limb, r: nat): (h: nat)
    requires r < 32
  {
    (x * Pow2(r)) / BASE
  }

  /** The bits of x that stay in a limb on a left shift by r < 32 bits. */
  function LowPart(x: Limb, r: nat): (l: Limb)
    requires r < 32
  {
    (x * Pow2(r)) % BASE
  }

  /** Limb j of a << (32 k + r): low part of limb j-k joined with high part of the limb below. */
  function ShlLimb(a: seq<Limb>, k: nat, r: nat, j: nat): int
    requires r < 32 && j < |a|
  {
    (if j >= k then LowPart(a[j - k], r) else 0) + (if j >= k + 1 then HighPart(a[j - k - 1], r) else 0)
  }

  lemma ScaleQuotient(x: int, p: int, c: int, q: int, m: int)
    requires x == q * c + m
    ensures x * p == q * (p * c) + m * p
  {
    assert (q * c + m) * p == q * (c * p) + m * p;
  }

  lemma QuotientBelow(x: int, p: int, c: int, q: int, m: nat)
    requires x == q * c + m && x < p * c && 0 < c
    ensures q < p
  {
    if p <= q {
      MulMonotone(p, q, c);
      assert false;
    }
  }

  lemma ProductRoom(m: int, p: nat, c: int)
    requires m < c
    ensures m * p + p <= p * c
  {
    MulMonotone(m + 1, c, p);
    assert (m + 1) * p == m * p + p;
  }

  /** Splitting x at 2^(32-r): what a shift by r pushes out, and what it keeps. */
  lemma SplitForShift(x: Limb, p: nat, c: nat)
    requires 0 < p && 0 < c && p * c == BASE
    ensures (x * p) / BASE == x / c
    ensures (x * p) % BASE == (x % c) * p
    ensures x / c < p
    ensures ((x % c) * p) % p == 0 && (x % c) * p + p <= BASE
  {
    var q, m := x / c, x % c;
    DivModEquation(x, c);
    ScaleQuotient(x, p, c, q, m);
    QuotientBelow(x, p, c, q, m);
    ProductRoom(m, p, c);
    var mp := m * p;
    DivModUnique(x * p, BASE, q, mp);
    DivModUnique(mp, p, m, 0);
  }

  /** x >> (32 - r) is the high part, it is below 2^r, and the low part is a multiple of 2^r. */
  lemma PartsOfShift(x: Limb, r: nat)
    requires r < 32
    ensures x / Pow2(32 - r) == HighPart(x, r)
    ensures HighPart(x, r) < Pow2(r)
    ensures LowPart(x, r) % Pow2(r) == 0
    ensures LowPart(x, r) + Pow2(r) <= BASE
    ensures LowPart(x, r) + HighPart(x, r) * BASE == x * Pow2(r)
    ensures LowPart(x, r) == (x % Pow2(32 - r)) * Pow2(r)
  {
    Pow2Of32();
    Pow2Add(r, 32 - r);
    SplitForShift(x, Pow2(r), Pow2(32 - r));
    DivModEquation(x * Pow2(r), BASE);
  }

  lemma ShlColumn(v: int, va: int, x: int, lo: int, hi: int, h: int, w: int, p: int)
    requires v + h * w == va * p
    requires lo + hi * BASE == x * p
    ensures v + (lo + h) * w + hi * (BASE * w) == (va + x * w) * p
  {
    assert (lo + h) * w + hi * (BASE * w) == (lo + hi * BASE) * w + h * w;
    assert (x * p) * w == (x * w) * p;
    assert (va + x * w) * p == va * p + (x * w) * p;
  }

  lemma {:induction false} ValueOfShlPrefix(a: seq<Limb>, s: seq<Limb>, r: nat)
    requires r < 32 && |a| == |s|
    requires forall j :: 0 <= j < |s| ==> s[j] == ShlLimb(a, 0, r, j)
    ensures Value(s) + (if |a| > 0 then HighPart(a[|a| - 1], r) else 0) * Weight(|a|) == Value(a) * Pow2(r)
  {
    hide HighPart, LowPart, Pow2;
    if |a| > 0 {
      var k := |a| - 1;
      forall j | 0 <= j < k ensures s[..k][j] == ShlLimb(a[..k], 0, r, j) {
      }
      ValueOfShlPrefix(a[..k], s[..k], r);
      PartsOfShift(a[k], r);
      var h := if k > 0 then HighPart(a[k - 1], r) else 0;
      ShlColumn(Value(s[..k]), Value(a[..k]), a[k], LowPart(a[k], r), HighPart(a[k], r), h, Weight(k), Pow2(r));
    }
  }

  lemma ShlAllOut(v: int, wn: int, wr: int, p: int)
    ensures v * ((wn * wr) * p) == (v * (wr * p)) * wn
  {
    assert (wn * wr) * p == (wr * p) * wn;
  }

  lemma ShlWholeAndOverflow(lo: int, hi: int, v: int, c: int, wk: int, wr: int, p: int)
    requires v + c * wr == lo * p
    ensures wk * v + (c + hi * p) * (wk * wr) == (lo + wr * hi) * (wk * p)
  {
    assert wk * v + wk * (c * wr) == wk * (lo * p);
    assert (c + hi * p) * (wk * wr) == wk * (c * wr) + (wr * hi) * (wk * p);
    assert (lo + wr * hi) * (wk * p) == wk * (lo * p) + (wr * hi) * (wk * p);
  }

  lemma ValueOfShlBeyond(a: seq<Limb>, s: seq<Limb>, k: nat, r: nat)
    requires r < 32 && |a| == |s| <= k
    requires forall j :: 0 <= j < |s| ==> s[j] == ShlLimb(a, k, r, j)
    ensures Value(s) == Value(a) * (Weight(k) * Pow2(r)) % Weight(|a|)
  {
    var n := |a|;
    ValueOfZeros(s);
    WeightAdd(n, k - n);
    ShlAllOut(Value(a), Weight(n), Weight(k - n), Pow2(r));
    DivModUnique(Value(a) * (Weight(k) * Pow2(r)), Weight(n), Value(a) * (Weight(k - n) * Pow2(r)), 0);
  }

  lemma ShlMiddle(a: seq<Limb>, s: seq<Limb>, k: nat, r: nat)
    requires r < 32 && k < |a| == |s|
    requires forall j :: 0 <= j < |s| ==> s[j] == ShlLimb(a, k, r, j)
    ensures Value(s[k..]) + HighPart(a[|a| - k - 1], r) * Weight(|a| - k) == Value(a[..|a| - k]) * Pow2(r)
    ensures Value(s) == Weight(k) * Value(s[k..])
  {
    var lo := a[..|a| - k];
    forall j | 0 <= j < |a| - k ensures s[k..][j] == ShlLimb(lo, 0, r, j) {
    }
    ValueOfShlPrefix(lo, s[k..], r);
    ValueOfZeros(s[..k]);
    ValueSplit(s, k);
  }

  lemma ShlAssemble(a: seq<Limb>, s: seq<Limb>, k: nat, v: nat, c: nat, p: nat)
    requires k < |a| == |s|
    requires v + c * Weight(|a| - k) == Value(a[..|a| - k]) * p
    requires Value(s) == Weight(k) * v
    ensures Value(s) == Value(a) * (Weight(k) * p) % Weight(|a|)
  {
    var n := |a|;
    ValueSplit(a, n - k);
    WeightAdd(k, n - k);
    ShlWrap(s, Value(a), Value(a[..n - k]), Value(a[n - k..]), v, c, Weight(k), Weight(n - k), p);
  }

  lemma ShlWrap(s: seq<Limb>, va: nat, lo: nat, hi: nat, v: nat, c: nat, wk: nat, wr: nat, p: nat)
    requires Weight(|s|) == wk * wr
    requires Value(s) == wk * v && va == lo + wr * hi
    requires v + c * wr == lo * p
    ensures Value(s) == va * (wk * p) % Weight(|s|)
  {
    ShlWholeAndOverflow(lo, hi, v, c, wk, wr, p);
    WrapAround(s, c + hi * p, va * (wk * p));
  }

  /** Shifting limb by limb multiplies by 2^(32 k + r) and drops what leaves the top. */
  lemma ValueOfShl(a: seq<Limb>, s: seq<Limb>, k: nat, r: nat)
    requires r < 32 && |a| == |s|
    requires forall j :: 0 <= j < |s| ==> s[j] == ShlLimb(a, k, r, j)
    ensures Value(s) == Value(a) * Pow2(32 * k + r) % Weight(|a|)
  {
    hide Value, Weight, Pow2, HighPart, LowPart;
    Pow2Add(32 * k, r);
    WeightIsPow2(k);
    if k >= |a| {
      ValueOfShlBeyond(a, s, k, r);
    } else {
      ShlMiddle(a, s, k, r);
      ShlAssemble(a, s, k, Value(s[k..]), HighPart(a[|a| - k - 1], r), Pow2(r));
    }
  }

  /** The bits of x that stay in a limb on a right shift by r < 32 bits. */
  function KeptPart(x: Limb, r: nat): (l: int)
    requires r < 32
  {
    x / Pow2(r)
  }

  /** Limb j of a >> (32 k + r). */
  function ShrLimb(a: seq<Limb>, k: nat, r: nat, j: nat): int
    requires r < 32 && j < |a|
  {
    (if j + k < |a| then KeptPart(a[j + k], r) else 0)
    + (if j + k + 1 < |a| && r > 0 then LowPart(a[j + k + 1], 32 - r) else 0)
  }

  lemma ShrColumn(a0: int, q0: int, m0: int, va: int, v: int, m: int, s0: int, p: int, c: int)
    requires a0 == q0 * p + m0
    requires va == v * p + m
    requires s0 == q0 + m * c
    requires c * p == BASE
    ensures a0 + BASE * va == (s0 + BASE * v) * p + m0
  {
    assert (m * c) * p == m * BASE;
    assert (q0 + m * c + BASE * v) * p == q0 * p + (m * c) * p + BASE * (v * p);
  }

  lemma {:induction false} ValueOfShrSuffix(a: seq<Limb>, s: seq<Limb>, r: nat)
    requires r < 32 && |a| == |s| && |a| > 0
    requires forall j :: 0 <= j < |s| ==> s[j] == ShrLimb(a, 0, r, j)
    ensures Value(a) == Value(s) * Pow2(r) + a[0] % Pow2(r)
    decreases |a|
  {
    hide Value, Weight, LowPart, KeptPart, Pow2;
    ValueOfHead(a);
    ValueOfHead(s);
    if |a| == 1 {
      ValueOfNone();
      assert a[1..] == [] && s[1..] == [];
      ShrSingle(a[0], r);
    } else {
      forall j | 0 <= j < |a| - 1 ensures s[1..][j] == ShrLimb(a[1..], 0, r, j) {
      }
      ValueOfShrSuffix(a[1..], s[1..], r);
      ShrLowColumn(a[0], a[1], s[0], Value(a[1..]), Value(s[1..]), r);
    }
  }

  lemma ValueOfHead(s: seq<Limb>)
    requires |s| > 0
    ensures Value(s) == s[0] + BASE * Value(s[1..])
  {
    ValueSplit(s, 1);
    assert s[..1] == [s[0]];
  }

  lemma ShrSingle(x: Limb, r: nat)
    requires r < 32
    ensures x == KeptPart(x, r) * Pow2(r) + x % Pow2(r)
  {
    DivModEquation(x, Pow2(r));
  }

  lemma ShrLowColumn(a0: Limb, a1: Limb, s0: int, va: int, v: int, r: nat)
    requires r < 32
    requires s0 == KeptPart(a0, r) + (if r > 0 then LowPart(a1, 32 - r) else 0)
    requires va == v * Pow2(r) + a1 % Pow2(r)
    ensures a0 + BASE * va == (s0 + BASE * v) * Pow2(r) + a0 % Pow2(r)
  {
    var p := Pow2(r);
    DivModEquation(a0, p);
    if r == 0 {
      assert a0 / p == a0 && a1 % p == 0;
    } else {
      PartsOfShift(a1, 32 - r);
      Pow2Of32();
      Pow2Add(32 - r, r);
      ShrColumn(a0, a0 / p, a0 % p, va, v, a1 % p, s0, p, Pow2(32 - r));
    }
  }

  lemma ShrBelow(lo: nat, wk: nat, vhi: nat, v: nat, m: nat, p: nat)
    requires lo < wk && m < p && vhi == v * p + m
    ensures (lo + wk * vhi) / (wk * p) == v
  {
    var wm := wk * m;
    assert wk * (v * p + m) == v * (wk * p) + wm;
    MulMonotone(m + 1, p, wk);
    assert (m + 1) * wk == wm + wk;
    DivModUnique(lo + wk * vhi, wk * p, v, wm + lo);
  }

  lemma ShrAllOut(v: nat, wn: nat, wr: nat, p: nat)
    requires v < wn && 1 <= wr && 1 <= p
    ensures v / ((wn * wr) * p) == 0
  {
    MulMonotone(1, wr, wn);
    MulMonotone(1, p, wn * wr);
    DivModUnique(v, (wn * wr) * p, 0, v);
  }

  /** Shifting right limb by limb divides by 2^(32 k + r), rounding down. */
  lemma ValueOfShr(a: seq<Limb>, s: seq<Limb>, k: nat, r: nat)
    requires r < 32 && |a| == |s|
    requires forall j :: 0 <= j < |s| ==> s[j] == ShrLimb(a, k, r, j)
    ensures Value(s) == Value(a) / Pow2(32 * k + r)
  {
    hide Value, Weight, Pow2, KeptPart, LowPart;
    var n := |a|;
    Pow2Add(32 * k, r);
    WeightIsPow2(k);
    if k >= n {
      ValueOfZeros(s);
      ValueBound(a);
      WeightAdd(n, k - n);
      ShrAllOut(Value(a), Weight(n), Weight(k - n), Pow2(r));
    } else {
      var hi := a[k..];
      forall j | 0 <= j < n - k ensures s[..n - k][j] == ShrLimb(hi, 0, r, j) {
      }
      ValueOfShrSuffix(hi, s[..n - k], r);
      ValueOfZeros(s[n - k..]);
      ValueSplit(s, n - k);
      ValueSplit(a, k);
      ValueBound(a[..k]);
      ShrBelow(Value(a[..k]), Weight(k), Value(hi), Value(s), hi[0] % Pow2(r), Pow2(r));
    }
  }
}
