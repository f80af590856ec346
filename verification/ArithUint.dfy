/** base_uint<BITS>: fixed-width unsigned integers held as little-endian 32-bit limbs and updated in
    place.  Every operator is proved against the integer its limbs stand for. */
module ArithUint {
  import opened Powers
  import opened Limbs

  class BaseUint {
    const pn: array<Limb>

    /** The integer this object stands for. */
    ghost function Num(): (v: nat)
      reads pn
    {
      Value(pn[..])
    }

    /** Arithmetic is modulo 2^(32 * WIDTH). */
    ghost function Modulus(): nat
    {
      Weight(pn.Length)
    }

    /** Two operands are the same object or share no limb. */
    ghost predicate SameOrApart(b: BaseUint)
    {
      b == this || b.pn != pn
    }

    constructor (width: nat)
      ensures fresh(pn) && pn.Length == width
      ensures Num() == 0
    {
      pn := new Limb[width](_ => 0);
      new;
      ValueOfZeros(pn[..]);
    }

    constructor Copy(b: BaseUint)
      ensures fresh(pn) && pn.Length == b.pn.Length
      ensures pn[..] == b.pn[..] && Num() == b.Num()
    {
      var limbs := new Limb[b.pn.Length];
      for i := 0 to b.pn.Length
        invariant limbs[..i] == b.pn[..i]
      {
        limbs[i] := b.pn[i];
      }
      assert limbs[..] == b.pn[..];
      pn := limbs;
    }

    /** Assigns a 64-bit value. */
    method Assign64(b: nat)
      requires b < BASE * BASE && pn.Length >= 2
      modifies pn
      ensures Num() == b
    {
      pn[0] := b % BASE;
      pn[1] := b / BASE;
      for i := 2 to pn.Length
        invariant pn[0] == b % BASE && pn[1] == b / BASE
        invariant forall j :: 2 <= j < i ==> pn[j] == 0
      {
        pn[i] := 0;
      }
      ValueOf64(pn[..], b);
    }

    /** Sets every limb to zero. */
    method Clear()
      modifies pn
      ensures forall j :: 0 <= j < pn.Length ==> pn[j] == 0
      ensures Num() == 0
    {
      for i := 0 to pn.Length
        invariant forall j :: 0 <= j < i ==> pn[j] == 0
      {
        pn[i] := 0;
      }
      ValueOfZeros(pn[..]);
    }

    method AddAssign(b: BaseUint)
      requires SameOrApart(b) && b.pn.Length == pn.Length
      modifies pn
      ensures Num() == (old(Num()) + old(b.Num())) % Modulus()
    {
      hide Value, Weight;
      ValueOfNone();
      var carry := 0;
      ghost var x, y := pn[..], b.pn[..];
      for i := 0 to pn.Length
        invariant 0 <= carry <= 1
        invariant pn[i..] == x[i..] && b.pn[i..] == y[i..]
        invariant Value(pn[..i]) + carry * Weight(i) == Value(x[..i]) + Value(y[..i])
      {
        assert pn[i] == x[i] && b.pn[i] == y[i];
        var n := carry + pn[i] + b.pn[i];
        ghost var before := pn[..i];
        pn[i] := n % BASE;
        assert pn[..i + 1] == before + [n % BASE];
        assert pn[i + 1..] == x[i + 1..];
        assert x[..i + 1] == x[..i] + [x[i]] && y[..i + 1] == y[..i] + [y[i]];
        AddColumn(before, x[..i], y[..i], x[i], y[i], carry, n % BASE, n / BASE);
        carry := n / BASE;
      }
      assert pn[..pn.Length] == pn[..] && x[..pn.Length] == x && y[..pn.Length] == y;
      WrapAround(pn[..], carry, Value(x) + Value(y));
    }

    /** Unary minus: complement every limb and add one. */
    method Negate() returns (ret: BaseUint)
      requires pn.Length > 0
      ensures fresh(ret) && fresh(ret.pn) && ret.pn.Length == pn.Length
      ensures ret.Num() == (Modulus() - Num()) % Modulus()
    {
      ret := new BaseUint(pn.Length);
      for i := 0 to pn.Length
        invariant forall j :: 0 <= j < i ==> ret.pn[j] == BASE - 1 - pn[j]
      {
        ret.pn[i] := BASE - 1 - pn[i];
      }
      ValueOfComplement(pn[..], ret.pn[..]);
      ret.Increment();
    }

    /** Prefix ++: the carry runs through the limbs that wrap to zero. */
    method Increment()
      requires pn.Length > 0
      modifies pn
      ensures Num() == (old(Num()) + 1) % Modulus()
    {
      hide Value, Weight;
      ghost var x := pn[..];
      var i := 0;
      pn[i] := (pn[i] + 1) % BASE;
      ValueOfNone();
      IncrementColumn([], [], x[0], pn[0]);
      assert x[..1] == [] + [x[0]] && pn[..1] == [] + [pn[0]];
      while pn[i] == 0 && i < pn.Length - 1
        invariant 0 <= i < pn.Length
        invariant pn[i + 1..] == x[i + 1..]
        invariant Value(pn[..i + 1]) + CarryOut(pn[i]) * Weight(i + 1) == Value(x[..i + 1]) + 1
      {
        ghost var before := pn[..i + 1];
        i := i + 1;
        assert pn[i] == x[i];
        pn[i] := (pn[i] + 1) % BASE;
        assert pn[..i + 1] == before + [pn[i]];
        assert x[..i + 1] == x[..i] + [x[i]];
        IncrementColumn(before, x[..i], x[i], pn[i]);
      }
      IncrementDone(x, pn[..], i);
    }

    method SubAssign(b: BaseUint)
      requires b.pn.Length == pn.Length > 0
      modifies pn
      ensures Num() == (old(Num()) - old(b.Num())) % Modulus()
    {
      var minus := b.Negate();
      ValueBound(b.pn[..]);
      ghost var x, y, m := Num(), b.Num(), Modulus();
      AddAssign(minus);
      AddOfNegative(x, y, m);
    }

    /** -1, 0 or 1 as this is below, equal to or above b; limbs are compared from the top. */
    method CompareTo(b: BaseUint) returns (r: int)
      requires b.pn.Length == pn.Length
      ensures r == if Num() < b.Num() then -1 else if Num() > b.Num() then 1 else 0
    {
      var i := pn.Length;
      while i > 0
        invariant 0 <= i <= pn.Length
        invariant pn[i..] == b.pn[i..]
      {
        i := i - 1;
        if pn[i] < b.pn[i] {
          ValueLess(pn[..], b.pn[..], i);
          return -1;
        }
        if pn[i] > b.pn[i] {
          ValueLess(b.pn[..], pn[..], i);
          return 1;
        }
      }
      assert pn[..] == pn[0..] && b.pn[..] == b.pn[0..];
      return 0;
    }

    /** The position of the highest set bit plus one, or zero for zero. */
    method Bits() returns (r: nat)
      ensures r <= 32 * pn.Length
      ensures Num() < Pow2(r)
      ensures Num() > 0 ==> r > 0 && Pow2(r - 1) <= Num()
      ensures Num() == 0 ==> r == 0
    {
      var pos := pn.Length;
      while pos > 0
        invariant 0 <= pos <= pn.Length
        invariant forall j :: pos <= j < pn.Length ==> pn[j] == 0
      {
        pos := pos - 1;
        if pn[pos] != 0 {
          var bits := 31;
          Pow2Of32();
          while bits > 0
            invariant 0 <= bits <= 31
            invariant pn[pos] < Pow2(bits + 1)
          {
            TopBitTest(pn[pos], bits);
            if (pn[pos] / Pow2(bits)) % 2 == 1 {
              BitsOfTopLimb(pn[..], pos, bits);
              return 32 * pos + bits + 1;
            }
            bits := bits - 1;
          }
          BitsOfTopLimb(pn[..], pos, 0);
          return 32 * pos + 1;
        }
      }
      ValueOfZeros(pn[..]);
      return 0;
    }

    /** Limb i of a shift: its high bits go one limb further than its low bits. */
    method ShlOne(a: seq<Limb>, k: nat, r: nat, i: nat)
      requires i < |a| == pn.Length && r < 32
      requires r == 0 ==> forall j :: 0 <= j < |a| ==> HighPart(a[j], r) == 0
      requires forall j :: 0 <= j < pn.Length ==> pn[j] == ShlSoFar(a, k, r, j, i)
      modifies pn
      ensures forall j :: 0 <= j < pn.Length ==> pn[j] == ShlSoFar(a, k, r, j, i + 1)
    {
      hide HighPart, LowPart, Pow2, BitOr;
      if i + k + 1 < pn.Length && r != 0 {
        ShlHighBits(a[i], r);
        pn[i + k + 1] := BitOr(pn[i + k + 1], a[i] / Pow2(32 - r));
      }
      if i + k < pn.Length {
        ShlJoin(if i > 0 then a[i - 1] else 0, a[i], r);
        pn[i + k] := BitOr(pn[i + k], LowPart(a[i], r));
      }
    }

    method ShlAssign(shift: nat)
      modifies pn
      ensures Num() == old(Num()) * Pow2(shift) % Modulus()
    {
      hide HighPart, LowPart, Pow2, BitOr, Value, Weight;
      var a := pn[..];
      Clear();
      var k, r := shift / 32, shift % 32;
      ShlNoHighBits(a, r);
      for i := 0 to pn.Length
        invariant forall j :: 0 <= j < pn.Length ==> pn[j] == ShlSoFar(a, k, r, j, i)
      {
        ShlOne(a, k, r, i);
      }
      forall j | 0 <= j < pn.Length ensures pn[..][j] == ShlLimb(a, k, r, j) {
      }
      ValueOfShl(a, pn[..], k, r);
    }

    method ShrAssign(shift: nat)
      modifies pn
      ensures Num() == old(Num()) / Pow2(shift)
    {
      hide KeptPart, LowPart, Pow2, BitOr;
      var a := pn[..];
      Clear();
      var k, r := shift / 32, shift % 32;
      for i := 0 to pn.Length
        invariant forall j :: 0 <= j < pn.Length ==> pn[j] == ShrSoFar(a, k, r, j, i)
      {
        if i - k - 1 >= 0 && r != 0 {
          ShrJoin(a[i - 1], a[i], r);
          pn[i - k - 1] := BitOr(pn[i - k - 1], LowPart(a[i], 32 - r));
        }
        if i - k >= 0 {
          ShrBound(a[i], r);
          pn[i - k] := BitOr(pn[i - k], KeptPart(a[i], r));
        }
      }
      forall j | 0 <= j < pn.Length ensures pn[..][j] == ShrLimb(a, k, r, j) {
      }
      ValueOfShr(a, pn[..], k, r);
    }

    /** Multiplication by a 32-bit factor. */
    method MulAssign32(b32: Limb)
      modifies pn
      ensures Num() == old(Num()) * b32 % Modulus()
    {
      hide Value, Weight;
      var carry := 0;
      ghost var x := pn[..];
      ValueOfNone();
      for i := 0 to pn.Length
        invariant 0 <= carry < BASE
        invariant pn[i..] == x[i..]
        invariant Value(pn[..i]) + carry * Weight(i) == Value(x[..i]) * b32
      {
        assert pn[i] == x[i];
        LimbProductFits(carry, 0, b32, pn[i]);
        var n := carry + b32 * pn[i];
        ghost var before := pn[..i];
        pn[i] := n % BASE;
        assert pn[..i + 1] == before + [n % BASE];
        assert pn[i + 1..] == x[i + 1..];
        assert x[..i + 1] == x[..i] + [x[i]];
        ScaleColumn(before, x[..i], x[i], b32, carry, n % BASE, n / BASE);
        carry := n / BASE;
      }
      assert pn[..pn.Length] == pn[..] && x[..pn.Length] == x;
      WrapAround(pn[..], carry, Value(x) * b32);
    }

    /** Schoolbook multiplication into a cleared object.  When the operand is the object itself, clearing
        also clears the operand, and the outcome is zero instead of the square. */
    method MulAssign(b: BaseUint)
      requires SameOrApart(b) && b.pn.Length == pn.Length
      modifies pn
      ensures b != this ==> Num() == old(Num()) * b.Num() % Modulus()
      ensures b == this ==> Num() == 0
    {
      hide Value, Weight, RowsDone;
      var a := pn[..];
      Clear();
      ghost var over: nat := 0;
      ghost var y := b.pn[..];
      ValueOfNone();
      NoRows(Num(), over, Modulus(), Value(a[..0]), Value(y));
      for j := 0 to pn.Length
        invariant b.pn[..] == y
        invariant b == this ==> forall i :: 0 <= i < pn.Length ==> pn[i] == 0
        invariant b != this ==> RowsDone(Num(), over, Modulus(), Value(a[..j]), Value(y))
      {
        ghost var before := Num();
        ghost var rowOver: nat;
        rowOver := MulRow(a[j], j, b);
        if b != this {
          assert a[..j + 1] == a[..j] + [a[j]];
          ValuePush(a[..j], a[j]);
          RowsAddUp(before, over, Num(), rowOver, Modulus(), Value(a[..j]), a[j], Weight(j), Value(y));
          over := over + rowOver;
        }
      }
      assert a[..pn.Length] == a;
      if b != this {
        AllRows(Num(), over, Modulus(), Value(a), Value(y));
        WrapAround(pn[..], over, Value(a) * Value(y));
      } else {
        ValueOfZeros(pn[..]);
      }
    }

    /** The inner loop of the multiplication: adds aj times b, shifted up by j limbs. */
    method MulRow(aj: Limb, j: nat, b: BaseUint) returns (ghost over: nat)
      requires SameOrApart(b) && b.pn.Length == pn.Length && j < pn.Length
      requires b == this ==> forall i :: 0 <= i < pn.Length ==> pn[i] == 0
      modifies pn
      ensures b == this ==> forall i :: 0 <= i < pn.Length ==> pn[i] == 0
      ensures b != this ==> Num() + over * Modulus() == old(Num()) + (aj * Weight(j)) * b.Num()
    {
      hide Value, Weight, RowDone;
      var carry := 0;
      ghost var p, y, len := pn[..], b.pn[..], pn.Length;
      RowStart(p[..j], aj, j);
      assert y[..0] == [];
      var i := 0;
      while i + j < pn.Length
        invariant 0 <= i && i + j <= len
        invariant 0 <= carry < BASE
        invariant b.pn[..] == y
        invariant b == this ==> carry == 0 && pn[..] == p
        invariant pn[i + j..] == p[i + j..]
        invariant b != this ==> RowDone(pn[..i + j], p[..i + j], y[..i], aj, j, carry)
      {
        assert pn[i + j] == p[i + j] && b.pn[i] == y[i];
        LimbProductFits(carry, pn[i + j], aj, b.pn[i]);
        var n := carry + pn[i + j] + aj * b.pn[i];
        ghost var before := pn[..i + j];
        pn[i + j] := n % BASE;
        assert pn[i + j + 1..] == p[i + j + 1..];
        if b != this {
          assert pn[..i + j + 1] == before + [n % BASE];
          assert p[..i + j + 1] == p[..i + j] + [p[i + j]] && y[..i + 1] == y[..i] + [y[i]];
          RowColumn(before, p[..i + j], p[i + j], y[..i], y[i], aj, j, carry, n % BASE, n / BASE);
        }
        carry := n / BASE;
        i := i + 1;
      }
      assert pn[..len] == pn[..] && p[..len] == p;
      over := 0;
      if b != this {
        over := RowOverflow(p, pn[..], y, aj, j, carry);
      }
    }

    /** Long division.  The object becomes the quotient and num holds the remainder.  A zero divisor is
        reported only after the object has been cleared. */
    method DivAssign(b: BaseUint) returns (ok: bool, num: BaseUint)
      requires SameOrApart(b) && b.pn.Length == pn.Length > 0
      modifies pn
      ensures fresh(num)
      ensures old(b.Num()) == 0 ==> !ok && Num() == 0
      ensures old(b.Num()) > 0 ==> ok && Num() == old(Num()) / old(b.Num()) && num.Num() == old(Num()) % old(b.Num())
    {
      hide Value, Weight, Pow2, BitOr, Aligned, DivInvariant;
      ghost var N, B, M := Num(), b.Num(), Modulus();
      var div := new BaseUint.Copy(b);
      num := new BaseUint.Copy(this);
      Clear();
      var numBits := num.Bits();
      var divBits := div.Bits();
      if divBits == 0 {
        return false, num;
      }
      if divBits > numBits {
        DivBelow(N, B, numBits, divBits);
        return true, num;
      }
      var shift: int := numBits - divBits;
      DivStart(N, B, numBits, divBits, pn.Length);
      div.ShlAssign(shift);
      while shift >= 0
        invariant -1 <= shift < 32 * pn.Length
        invariant fresh(div) && fresh(div.pn) && fresh(num) && fresh(num.pn)
        invariant div.pn != num.pn && div.pn != pn && num.pn != pn
        invariant div.pn.Length == pn.Length == num.pn.Length
        invariant shift >= 0 ==> div.Num() == Aligned(B, shift)
        invariant DivInvariant(N, B, Num(), num.Num(), shift + 1)
        decreases shift
      {
        ghost var q, rem := Num(), num.Num();
        var c := num.CompareTo(div);
        if c >= 0 {
          ValueBound(num.pn[..]);
          num.SubAssign(div);
          DivNoBorrow(num.pn[..], rem, Aligned(B, shift));
          SetQuotientBit(pn[..], shift, N, B, rem);
          pn[shift / 32] := BitOr(pn[shift / 32], Pow2(shift % 32));
        }
        DivStep(N, B, q, rem, shift);
        div.ShrAssign(1);
        shift := shift - 1;
      }
      DivFinish(N, B, Num(), num.Num());
      return true, num;
    }

    /** Comparison with a 64-bit value. */
    method EqualTo(b: nat) returns (r: bool)
      requires b < BASE * BASE && pn.Length >= 2
      ensures r <==> Num() == b
    {
      var i := pn.Length;
      ghost var s := pn[..];
      while i > 2
        invariant 2 <= i <= pn.Length
        invariant forall j :: i <= j < pn.Length ==> pn[j] == 0
      {
        i := i - 1;
        if pn[i] != 0 {
          HighLimbSet(s, i);
          return false;
        }
      }
      LowTwoLimbs(s);
      ValueOfZeros(s[2..]);
      if pn[1] != b / BASE {
        return false;
      }
      if pn[0] != b % BASE {
        return false;
      }
      return true;
    }

    /** The low 64 bits. */
    method GetLow64() returns (r: nat)
      requires pn.Length >= 2
      ensures r == Num() % (BASE * BASE)
    {
      LowTwoLimbs(pn[..]);
      r := pn[0] + pn[1] * BASE;
      DivModUnique(Num(), BASE * BASE, Value(pn[..][2..]), r);
    }
  }

  /** The copying product of two operands: the object multiplied is a fresh copy, so the operands may coincide. */
  method Product(a: BaseUint, b: BaseUint) returns (r: BaseUint)
    requires a.pn.Length == b.pn.Length
    ensures fresh(r) && r.pn.Length == a.pn.Length
    ensures r.Num() == a.Num() * b.Num() % a.Modulus()
  {
    r := new BaseUint.Copy(a);
    r.MulAssign(b);
  }

  /** Limb j after the first i limbs of a have been shifted into place. */
  ghost function ShlSoFar(a: seq<Limb>, k: nat, r: nat, j: nat, i: nat): int
    requires r < 32 && j < |a|
  {
    (if k <= j < k + i then LowPart(a[j - k], r) else 0)
      + (if k + 1 <= j < k + 1 + i then HighPart(a[j - k - 1], r) else 0)
  }

  lemma ValueOf64(s: seq<Limb>, b: nat)
    requires |s| >= 2 && b < BASE * BASE
    requires s[0] == b % BASE && s[1] == b / BASE
    requires forall j :: 2 <= j < |s| ==> s[j] == 0
    ensures Value(s) == b
  {
    ValueSplit(s, 2);
    ValueOfZeros(s[2..]);
    assert s[..2] == ([] + [s[0]]) + [s[1]];
    ValuePush([], s[0]);
    ValuePush([s[0]], s[1]);
    assert Weight(1) == BASE;
  }

  lemma AddColumn(z: seq<Limb>, x: seq<Limb>, y: seq<Limb>, xi: Limb, yi: Limb, carry: nat, r: Limb, q: nat)
    requires |z| == |x| == |y|
    requires carry + xi + yi == q * BASE + r
    requires Value(z) + carry * Weight(|z|) == Value(x) + Value(y)
    ensures Value(z + [r]) + q * Weight(|z| + 1) == Value(x + [xi]) + Value(y + [yi])
  {
    hide Value, Weight;
    ValuePush(z, r);
    ValuePush(x, xi);
    ValuePush(y, yi);
    WeightStep(|z|);
    AddColumnSum(Weight(|z|), carry, xi, yi, r, q);
  }

  lemma AddColumnSum(w: nat, c: nat, x: nat, y: nat, r: nat, q: nat)
    requires c + x + y == q * BASE + r
    ensures r * w + q * (BASE * w) == c * w + x * w + y * w
  {
    SumColumn(w, c, x, y);
    assert (q * BASE + r) * w == r * w + q * (BASE * w);
  }

  lemma SumColumn(w: int, c: int, x: int, y: int)
    ensures (c + x + y) * w == c * w + x * w + y * w
  {
  }

  /** Whether an incremented limb wrapped. */
  function CarryOut(limb: Limb): nat
  {
    if limb == 0 then 1 else 0
  }

  lemma IncrementColumn(z: seq<Limb>, x: seq<Limb>, xi: Limb, zi: Limb)
    requires |z| == |x|
    requires zi == (xi + 1) % BASE
    requires Value(z) + Weight(|z|) == Value(x) + 1
    ensures Value(z + [zi]) + CarryOut(zi) * Weight(|z| + 1) == Value(x + [xi]) + 1
  {
    hide Value, Weight;
    ValuePush(z, zi);
    ValuePush(x, xi);
    WeightStep(|z|);
    SumColumn(Weight(|z|), 0, xi, 1);
    if zi == 0 {
      assert xi + 1 == BASE;
    } else {
      assert zi == xi + 1;
    }
  }

  lemma IncrementDone(x: seq<Limb>, z: seq<Limb>, i: nat)
    requires i < |x| == |z|
    requires z[i] != 0 || i == |z| - 1
    requires z[i + 1..] == x[i + 1..]
    requires Value(z[..i + 1]) + CarryOut(z[i]) * Weight(i + 1) == Value(x[..i + 1]) + 1
    ensures Value(z) == (Value(x) + 1) % Weight(|z|)
  {
    hide Value, Weight;
    if z[i] == 0 {
      assert z[..i + 1] == z && x[..i + 1] == x;
      WrapAround(z, 1, Value(x) + 1);
    } else {
      ValueSplit(z, i + 1);
      ValueSplit(x, i + 1);
      WrapAround(z, 0, Value(x) + 1);
    }
  }

  lemma AddOfNegative(x: nat, y: nat, m: nat)
    requires y < m
    ensures (x + (m - y) % m) % m == (x - y) % m
  {
    if y == 0 {
      DivModUnique(m, m, 1, 0);
    } else {
      DivModUnique(m - y, m, 0, m - y);
      DivModEquation(x - y, m);
      DivModUnique(x + (m - y), m, (x - y) / m + 1, (x - y) % m);
    }
  }

  /** For a number below 2^(bits+1), bit number bits is set exactly when it is at least 2^bits. */
  lemma TopBitTest(x: nat, bits: nat)
    requires x < Pow2(bits + 1)
    ensures (x / Pow2(bits)) % 2 == 1 <==> x >= Pow2(bits)
  {
    var p := Pow2(bits);
    if x >= p {
      DivModUnique(x, p, 1, x - p);
    } else {
      DivModUnique(x, p, 0, x);
    }
  }

  lemma BitsOfTopLimb(s: seq<Limb>, pos: nat, bits: nat)
    requires pos < |s| && bits < 32
    requires forall j :: pos < j < |s| ==> s[j] == 0
    requires Pow2(bits) <= s[pos] < Pow2(bits + 1)
    ensures Pow2(32 * pos + bits) <= Value(s) < Pow2(32 * pos + bits + 1)
  {
    TopLimbValue(s, pos);
    ValueBound(s[..pos]);
    WeightIsPow2(pos);
    Pow2Add(32 * pos, bits);
    Pow2Add(32 * pos, bits + 1);
    TopLimbBits(Value(s[..pos]), s[pos], Weight(pos), Pow2(bits), Pow2(bits + 1));
  }

  lemma TopLimbValue(s: seq<Limb>, pos: nat)
    requires pos < |s|
    requires forall j :: pos < j < |s| ==> s[j] == 0
    ensures Value(s) == Value(s[..pos]) + s[pos] * Weight(pos)
  {
    hide Value, Weight;
    ValueSplit(s, pos + 1);
    ValueOfZeros(s[pos + 1..]);
    assert s[..pos + 1] == s[..pos] + [s[pos]];
    ValuePush(s[..pos], s[pos]);
  }

  lemma TopLimbBits(lo: nat, x: nat, w: nat, p: nat, p': nat)
    requires lo < w && p <= x < p'
    ensures w * p <= lo + x * w < w * p'
  {
    MulMonotone(p, x, w);
    TopLimbDecides(lo, x, 0, p', w);
  }

  /** Limb j after the first i limbs of a have been shifted right into place. */
  ghost function ShrSoFar(a: seq<Limb>, k: nat, r: nat, j: nat, i: nat): int
    requires r < 32 && j < |a| && i <= |a|
  {
    (if j + k < i then KeptPart(a[j + k], r) else 0)
      + (if j + k + 1 < i && r > 0 then LowPart(a[j + k + 1], 32 - r) else 0)
  }

  lemma ShlHighBits(x: Limb, r: nat)
    requires 0 < r < 32
    ensures 0 <= x / Pow2(32 - r) == HighPart(x, r) < BASE
    ensures BitOr(0, HighPart(x, r)) == HighPart(x, r)
  {
    PartsOfShift(x, r);
  }

  /** A shift by a whole number of limbs moves no bits between limbs. */
  lemma ShlNoHighBits(a: seq<Limb>, r: nat)
    requires r < 32
    ensures r == 0 ==> forall j :: 0 <= j < |a| ==> HighPart(a[j], r) == 0
  {
  }

  /** The bits pushed up from one limb and the bits kept of the next share no position. */
  lemma ShlJoin(x: Limb, y: Limb, r: nat)
    requires r < 32
    ensures BitOr(HighPart(x, r), LowPart(y, r)) == HighPart(x, r) + LowPart(y, r) < BASE
    ensures BitOr(0, LowPart(y, r)) == LowPart(y, r)
    ensures HighPart(0, r) == 0
    ensures r == 0 ==> HighPart(x, r) == 0
  {
    PartsOfShift(x, r);
    PartsOfShift(y, r);
    OrIsAddWhenDisjoint(LowPart(y, r), HighPart(x, r), r);
    OrCommutes(LowPart(y, r), HighPart(x, r));
  }

  lemma ShrBound(x: Limb, r: nat)
    requires r < 32
    ensures 0 <= KeptPart(x, r) < BASE
    ensures BitOr(0, KeptPart(x, r)) == KeptPart(x, r)
  {
    if r == 0 {
      assert Pow2(0) == 1;
    } else {
      PartsOfShift(x, 32 - r);
      Pow2Of32();
      Pow2Monotone(32 - r, 32);
    }
  }

  /** The part kept of one limb and the part moved down from the next share no bit. */
  lemma ShrJoin(x: Limb, y: Limb, r: nat)
    requires 0 < r < 32
    ensures 0 <= KeptPart(x, r)
    ensures BitOr(KeptPart(x, r), LowPart(y, 32 - r)) == KeptPart(x, r) + LowPart(y, 32 - r) < BASE
  {
    PartsOfShift(x, 32 - r);
    PartsOfShift(y, 32 - r);
    OrIsAddWhenDisjoint(LowPart(y, 32 - r), x / Pow2(r), 32 - r);
    OrCommutes(LowPart(y, 32 - r), x / Pow2(r));
  }

  /** A column of the product fits 64 bits, and its carry fits 32. */
  lemma LimbProductFits(carry: Limb, p: Limb, a: Limb, b: Limb)
    ensures 0 <= carry + p + a * b < BASE * BASE
    ensures (carry + p + a * b) / BASE < BASE
  {
    MulMonotone(a, BASE - 1, b);
    MulMonotone(b, BASE - 1, BASE - 1);
  }

  lemma ScaleColumn(z: seq<Limb>, x: seq<Limb>, xi: Limb, b: Limb, c: nat, r: Limb, q: nat)
    requires |z| == |x|
    requires c + b * xi == q * BASE + r
    requires Value(z) + c * Weight(|z|) == Value(x) * b
    ensures Value(z + [r]) + q * Weight(|z| + 1) == Value(x + [xi]) * b
  {
    hide Value, Weight;
    ValuePush(z, r);
    ValuePush(x, xi);
    WeightStep(|z|);
    var w := Weight(|z|);
    ScaleColumnSum(w, Value(z), Value(x), xi, b, c, r, q);
    assert Value(z + [r]) == Value(z) + r * w && Value(x + [xi]) == Value(x) + xi * w;
  }

  lemma ScaleColumnSum(w: nat, vz: nat, vx: nat, xi: nat, b: nat, c: nat, r: nat, q: nat)
    requires c + b * xi == q * BASE + r
    requires vz + c * w == vx * b
    ensures vz + r * w + q * (BASE * w) == (vx + xi * w) * b
  {
    assert (q * BASE + r) * w == r * w + q * (BASE * w);
    assert (c + b * xi) * w == c * w + (xi * w) * b;
    assert (vx + xi * w) * b == vx * b + (xi * w) * b;
  }

  /** One row so far: the limbs of z and the carry are p plus a times y, shifted up by j limbs. */
  ghost predicate RowDone(z: seq<Limb>, p: seq<Limb>, y: seq<Limb>, a: Limb, j: nat, c: nat)
  {
    |z| == |p| == |y| + j && Value(z) + c * Weight(|z|) == Value(p) + (a * Weight(j)) * Value(y)
  }

  lemma RowStart(p: seq<Limb>, a: Limb, j: nat)
    requires |p| == j
    ensures RowDone(p, p, [], a, j, 0)
  {
    hide Value, Weight;
    ValueOfNone();
  }

  lemma RowColumn(z: seq<Limb>, p: seq<Limb>, pi: Limb, y: seq<Limb>, yi: Limb, a: Limb, j: nat, c: nat, r: Limb,
      q: nat)
    requires RowDone(z, p, y, a, j, c)
    requires c + pi + a * yi == q * BASE + r
    ensures RowDone(z + [r], p + [pi], y + [yi], a, j, q)
  {
    hide Value, Weight;
    ValuePush(z, r);
    ValuePush(p, pi);
    ValuePush(y, yi);
    WeightStep(|z|);
    WeightAdd(j, |y|);
    RowColumnSum(Weight(j), Weight(|y|), Weight(|z|), Value(z), Value(p), pi, Value(y), yi, a, c, r, q);
  }

  lemma RowColumnSum(wj: nat, wi: nat, w: nat, vz: nat, vp: nat, p: nat, vy: nat, yi: nat, a: nat, c: nat, r: nat,
      q: nat)
    requires w == wj * wi
    requires c + p + a * yi == q * BASE + r
    requires vz + c * w == vp + (a * wj) * vy
    ensures vz + r * w + q * (BASE * w) == vp + p * w + (a * wj) * (vy + yi * wi)
  {
    assert (q * BASE + r) * w == r * w + q * (BASE * w);
    assert (c + p + a * yi) * w == c * w + p * w + (a * yi) * w;
    assert (a * yi) * (wj * wi) == (a * wj) * (yi * wi);
    assert (a * wj) * (vy + yi * wi) == (a * wj) * vy + (a * wj) * (yi * wi);
  }

  /** The part of b that leaves the top of the row is a multiple of the modulus. */
  lemma RowOverflow(p: seq<Limb>, z: seq<Limb>, y: seq<Limb>, a: Limb, j: nat, c: nat) returns (over: nat)
    requires j < |z| == |y| && RowDone(z, p, y[..|z| - j], a, j, c)
    ensures Value(z) + over * Weight(|z|) == Value(p) + (a * Weight(j)) * Value(y)
  {
    hide Value, Weight;
    var k := |z| - j;
    over := c + a * Value(y[k..]);
    ValueSplit(y, k);
    WeightAdd(j, k);
    RowOverflowSum(Value(z), c, a, Weight(j), Weight(k), Value(y[..k]), Value(y[k..]), Value(p));
  }

  lemma RowOverflowSum(vz: nat, c: nat, a: nat, wj: nat, wk: nat, lo: nat, hi: nat, vp: nat)
    requires vz + c * (wj * wk) == vp + (a * wj) * lo
    ensures vz + (c + a * hi) * (wj * wk) == vp + (a * wj) * (lo + wk * hi)
  {
    assert (c + a * hi) * (wj * wk) == c * (wj * wk) + (a * wj) * (wk * hi);
    assert (a * wj) * (lo + wk * hi) == (a * wj) * lo + (a * wj) * (wk * hi);
  }

  /** The rows so far add up to the product of the limbs so far, but for a multiple of the modulus. */
  ghost predicate RowsDone(num: nat, over: nat, m: nat, va: nat, vy: nat)
  {
    num + over * m == va * vy
  }

  lemma NoRows(num: nat, over: nat, m: nat, va: nat, vy: nat)
    ensures num == over == va == 0 ==> RowsDone(num, over, m, va, vy)
  {
  }

  lemma AllRows(num: nat, over: nat, m: nat, va: nat, vy: nat)
    requires RowsDone(num, over, m, va, vy)
    ensures num + over * m == va * vy
  {
  }

  lemma RowsAddUp(before: nat, over: nat, after: nat, rowOver: nat, m: nat, va: nat, a: nat, w: nat, vy: nat)
    requires RowsDone(before, over, m, va, vy)
    requires after + rowOver * m == before + (a * w) * vy
    ensures RowsDone(after, over + rowOver, m, va + a * w, vy)
  {
    assert (over + rowOver) * m == over * m + rowOver * m;
    assert (va + a * w) * vy == va * vy + (a * w) * vy;
  }

  // ---- Division ----

  lemma DivBelow(n: nat, b: nat, nb: nat, db: nat)
    requires n < Pow2(nb) && nb < db && Pow2(db - 1) <= b
    ensures n < b && n / b == 0 && n % b == n
  {
    Pow2Monotone(nb, db - 1);
    DivModUnique(n, b, 0, n);
  }

  /** The divisor moved up by shift bits. */
  ghost function Aligned(b: nat, shift: nat): nat
  {
    b * Pow2(shift)
  }

  /** The loop invariant of long division: num plus quotient times b is the dividend, num is below
      b * 2^up, and the quotient has no bit below 2^up yet. */
  ghost predicate DivInvariant(n: nat, b: nat, q: nat, rem: nat, up: nat)
  {
    rem + q * b == n && rem < b * Pow2(up) && q % Pow2(up) == 0
  }

  /** After aligning the divisor with the dividend nothing has been lost, and one more doubling exceeds it. */
  lemma DivStart(n: nat, b: nat, nb: nat, db: nat, width: nat)
    requires 0 < db <= nb <= 32 * width
    requires n < Pow2(nb) && Pow2(db - 1) <= b < Pow2(db)
    ensures b * Pow2(nb - db) % Weight(width) == Aligned(b, nb - db)
    ensures DivInvariant(n, b, 0, n, nb - db + 1)
  {
    hide Weight;
    var s := nb - db;
    Pow2Add(db, s);
    Pow2Add(db - 1, s + 1);
    WeightIsPow2(width);
    Pow2Monotone(nb, 32 * width);
    MulStrictlyMonotone(b, Pow2(db), Pow2(s));
    MulMonotone(Pow2(db - 1), b, Pow2(s + 1));
    DivModUnique(b * Pow2(s), Weight(width), 0, b * Pow2(s));
    DivModUnique(0, Pow2(s + 1), 0, 0);
  }

  lemma DivNoBorrow(s: seq<Limb>, x: nat, y: nat)
    requires y <= x < Weight(|s|)
    requires Value(s) == (x - y) % Weight(|s|)
    ensures Value(s) == x - y
  {
    DivModUnique(x - y, Weight(|s|), 0, x - y);
  }

  /** Setting bit number shift of a multiple of 2^(shift+1) adds 2^shift. */
  lemma SetQuotientBit(s: seq<Limb>, shift: nat, n: nat, b: nat, rem: nat)
    requires shift < 32 * |s|
    requires DivInvariant(n, b, Value(s), rem, shift + 1)
    ensures BitOr(s[shift / 32], Pow2(shift % 32)) < BASE
    ensures Value(s[shift / 32 := BitOr(s[shift / 32], Pow2(shift % 32))]) == Value(s) + Pow2(shift)
  {
    hide Value, Weight;
    var k, r := shift / 32, shift % 32;
    LimbOfMultiple(s, k, r + 1);
    OrIsAddWhenDisjoint(s[k], Pow2(r), r + 1);
    var x := s[k] + Pow2(r);
    MultipleBelow(s[k], r);
    ValueUpdate(s, k, x);
    WeightIsPow2(k);
    Pow2Add(32 * k, r);
    assert (x - s[k]) * Weight(k) == Pow2(r) * Weight(k);
  }

  lemma MultipleBelow(x: Limb, r: nat)
    requires r < 32 && x % Pow2(r + 1) == 0
    ensures x + Pow2(r) < BASE
  {
    Pow2Of32();
    Pow2Add(r + 1, 31 - r);
    RoomAboveMultiple(x, Pow2(r + 1), Pow2(31 - r));
  }

  lemma RoomAboveMultiple(x: nat, p: nat, c: nat)
    requires p > 0 && x % p == 0 && x < p * c
    ensures x + p <= p * c
  {
    DivModEquation(x, p);
    var q := x / p;
    QuotientBelow(x, c, p, q, 0);
    ProductRoom(q, p, c);
  }

  lemma ValueUpdate(s: seq<Limb>, k: nat, x: Limb)
    requires k < |s|
    ensures Value(s[k := x]) == Value(s) + (x - s[k]) * Weight(k)
  {
    hide Value, Weight;
    var t := s[k := x];
    ValueSplit(s, k + 1);
    ValueSplit(t, k + 1);
    assert s[..k + 1] == s[..k] + [s[k]] && t[..k + 1] == s[..k] + [x];
    assert s[k + 1..] == t[k + 1..];
    ValuePush(s[..k], s[k]);
    ValuePush(s[..k], x);
    assert (x - s[k]) * Weight(k) == x * Weight(k) - s[k] * Weight(k);
  }

  /** In a multiple of 2^(32 k + r), r <= 32, limb k is a multiple of 2^r. */
  lemma LimbOfMultiple(s: seq<Limb>, k: nat, r: nat)
    requires k < |s| && r <= 32
    requires Value(s) % Pow2(32 * k + r) == 0
    ensures s[k] % Pow2(r) == 0
  {
    hide Value, Weight, Pow2;
    ValueSplit(s, k);
    ValueOfHead(s[k..]);
    ValueBound(s[..k]);
    WeightIsPow2(k);
    Pow2Add(32 * k, r);
    Pow2Of32();
    Pow2Add(r, 32 - r);
    MultipleParts(Value(s[..k]), s[k], Value(s[k..][1..]), Weight(k), Pow2(r), Pow2(32 - r));
  }

  lemma MultipleParts(lo: nat, x: nat, hi: nat, w: nat, p: nat, c: nat)
    requires 0 < w && 0 < p && lo < w && p * c == BASE
    requires (lo + w * (x + BASE * hi)) % (w * p) == 0
    ensures x % p == 0
  {
    var v := lo + w * (x + BASE * hi);
    var q := v / (w * p);
    DivModEquation(v, w * p);
    assert q * (w * p) == (q * p) * w;
    QuotientUnique(w, x + BASE * hi, lo, q * p, 0);
    assert BASE * hi == (c * hi) * p;
    assert x == (q - c * hi) * p by {
      assert (q - c * hi) * p == q * p - (c * hi) * p;
    }
    DivModUnique(x, p, q - c * hi, 0);
  }

  /** One round of the division loop keeps num + quotient * b and halves the bound on num. */
  lemma DivStep(n: nat, b: nat, q: nat, rem: nat, shift: nat)
    requires DivInvariant(n, b, q, rem, shift + 1)
    ensures rem >= Aligned(b, shift) ==> DivInvariant(n, b, q + Pow2(shift), rem - Aligned(b, shift), shift)
    ensures rem < Aligned(b, shift) ==> DivInvariant(n, b, q, rem, shift)
    ensures shift > 0 ==> Aligned(b, shift) / Pow2(1) == Aligned(b, shift - 1)
  {
    QuotientMultiple(q, Pow2(shift));
    DivStepSum(b, q, Pow2(shift));
    if shift > 0 {
      HalveDivisor(b, Pow2(shift - 1));
    }
  }

  lemma DivFinish(n: nat, b: nat, q: nat, rem: nat)
    requires DivInvariant(n, b, q, rem, 0)
    ensures b > 0 ==> q == n / b && rem == n % b
  {
    if b > 0 {
      DivModUnique(n, b, q, rem);
    }
  }

  lemma DivStepSum(b: nat, q: nat, p: nat)
    ensures (q + p) * b == q * b + b * p
    ensures b * (2 * p) == b * p + b * p
  {
  }

  lemma QuotientMultiple(q: nat, p: nat)
    requires p > 0 && q % (2 * p) == 0
    ensures q % p == 0 && (q + p) % p == 0
  {
    var k := q / (2 * p);
    DivModEquation(q, 2 * p);
    assert k * (2 * p) == (2 * k) * p;
    DivModUnique(q, p, 2 * k, 0);
    DivModUnique(q + p, p, 2 * k + 1, 0);
  }

  lemma HalveDivisor(b: nat, p: nat)
    ensures b * (2 * p) / Pow2(1) == b * p
  {
    assert Pow2(1) == 2;
    assert b * (2 * p) == 2 * (b * p);
  }

  lemma LowTwoLimbs(s: seq<Limb>)
    requires |s| >= 2
    ensures Value(s) == s[0] + s[1] * BASE + (BASE * BASE) * Value(s[2..])
  {
    ValueOfHead(s);
    ValueOfHead(s[1..]);
    assert s[1..][1..] == s[2..];
  }

  lemma HighLimbSet(s: seq<Limb>, i: nat)
    requires 2 <= i < |s| && s[i] != 0
    ensures Value(s) >= BASE * BASE
  {
    hide Value, Weight;
    LowTwoLimbs(s);
    ValueSplit(s[2..], i - 2);
    ValueOfHead(s[2..][i - 2..]);
    MulMonotone(1, Value(s[2..][i - 2..]), Weight(i - 2));
  }
}
