/** The 32-bit compact form of 256-bit targets: an exponent byte that counts base-256 digits, a sign
    bit and a 23-bit mantissa. */
module Compact {
  import opened Powers
  import opened Limbs
  import opened ArithUint

  const WIDTH: nat := 8
  const SIGN_BIT: nat := 0x80_0000
  const EXPONENT_UNIT: nat := 0x100_0000

  /** 256 to the power k. */
  function Bytes(k: nat): (p: nat)
    ensures p >= 1
  {
    if k == 0 then 1 else 256 * Bytes(k - 1)
  }

  /** The number of base-256 digits of n. */
  function ByteLength(n: nat): nat
  {
    if n == 0 then 0 else 1 + ByteLength(n / 256)
  }

  /** A compact code, taken apart. */
  datatype Code = Code(size: nat, negative: bool, mantissa: nat)

  /** What decoding yields besides the number. */
  datatype Decoded = Decoded(value: nat, negative: bool, overflow: bool)

  function Pack(c: Code): nat
  {
    c.size * EXPONENT_UNIT + (if c.negative then SIGN_BIT else 0) + c.mantissa
  }

  /** The three leading base-256 digits of n, filled with zeros on the right when n is shorter. */
  function Leading(n: nat): nat
  {
    var k := ByteLength(n);
    if k <= 3 then Scale(n, Bytes(3 - k)) else Floor(n, Bytes(k - 3))
  }

  function Floor(n: nat, d: nat): (q: nat)
    requires d > 0
  {
    QuotientIsNat(n, d);
    n / d
  }

  function Scale(n: nat, d: nat): (r: nat)
  {
    MulMonotone(0, n, d);
    n * d
  }

  /** The code of n: when the leading digits would set the sign bit, one digit fewer is kept. */
  function Encode(n: nat, negative: bool): Code
  {
    var k, m := ByteLength(n), Leading(n);
    if m >= SIGN_BIT
    then Code(k + 1, negative && m / 256 != 0, m / 256)
    else Code(k, negative && m != 0, m)
  }

  /** The number a code word stands for, and the two flags. */
  function Decode(c: nat): Decoded
  {
    var size, word := c / EXPONENT_UNIT, c % SIGN_BIT;
    var w := if size <= 3 then Floor(word, Bytes(3 - size)) else word;
    var v := if size <= 3 then w else Scale(w, Bytes(size - 3)) % Weight(WIDTH);
    Decoded(v,
      w != 0 && (c / SIGN_BIT) % 2 == 1,
      w != 0 && (size > 34 || (w > 0xff && size > 33) || (w > 0xffff && size > 32)))
  }

  // ---- Facts about base-256 lengths ----

  lemma {:induction false} BytesAdd(a: nat, b: nat)
    ensures Bytes(a + b) == Bytes(a) * Bytes(b)
  {
    if a > 0 {
      BytesAdd(a - 1, b);
      assert 256 * (Bytes(a - 1) * Bytes(b)) == (256 * Bytes(a - 1)) * Bytes(b);
    }
  }

  lemma {:induction false} BytesMonotone(a: nat, b: nat)
    requires a <= b
    ensures Bytes(a) <= Bytes(b)
    decreases b
  {
    if a < b {
      BytesMonotone(a, b - 1);
    }
  }

  /** The flags: a code is negative if its sign bit is set and digits are left, and it overflows exactly if the number
      that it stands for has more than 256 bits.  Without overflow the number is the mantissa at its place. */
  lemma FlagsMean(c: nat)
    ensures var size, word, d := c / 0x100_0000, c % 0x80_0000, Decode(c);
      && (size <= 3 ==> !d.overflow && d.value == Floor(word, Bytes(3 - size)))
      && (size <= 3 ==> (d.negative <==> d.value != 0 && c / 0x80_0000 % 2 == 1))
      && (size > 3 ==> (d.overflow <==> Scale(word, Bytes(size - 3)) >= Pow2(256)))
      && (size > 3 && !d.overflow ==> d.value == Scale(word, Bytes(size - 3)))
      && (size > 3 ==> (d.negative <==> word != 0 && c / 0x80_0000 % 2 == 1))
  {
    hide Floor, Scale, Bytes, Weight, Pow2;
    var size, word := c / 0x100_0000, c % 0x80_0000;
    WeightIsPow2(WIDTH);
    if size > 3 {
      BytesIsPow2(32);
      TooWide(size, word);
      var n := Scale(word, Bytes(size - 3));
      if n < Weight(WIDTH) {
        SmallModulo(n, Weight(WIDTH));
      }
    }
  }

  lemma SmallModulo(n: nat, m: nat)
    requires n < m
    ensures n % m == n
  {
  }

  /** When a mantissa below 2^23 in front of size - 3 more digits needs more than 32 of them. */
  lemma TooWide(size: nat, word: nat)
    requires size > 3 && word < 0x80_0000
    ensures Scale(word, Bytes(size - 3)) >= Bytes(32) <==>
      word != 0 && (size > 34 || (word > 0xff && size > 33) || (word > 0xffff && size > 32))
  {
    var b := Bytes(size - 3);
    if size > 34 {
      BytesMonotone(32, size - 3);
      if word > 0 {
        MulMonotone(1, word, b);
      }
    } else {
      var d := 35 - size;
      BytesAdd(size - 3, d);
      Thresholds(d);
      hide Bytes;
      if word < Bytes(d) {
        MulStrictlyMonotone(word, Bytes(d), b);
        Swapped(b, Bytes(d));
      } else {
        MulMonotone(Bytes(d), word, b);
        Swapped(b, Bytes(d));
      }
    }
  }

  lemma Swapped(a: nat, b: nat)
    ensures a * b == b * a
  {
  }

  lemma {:induction false} Thresholds(d: nat)
    requires 1 <= d
    ensures Bytes(1) == 256 && Bytes(2) == 0x1_0000 && Bytes(d) >= 256
    ensures d >= 2 ==> Bytes(d) >= 0x1_0000
    ensures d >= 3 ==> Bytes(d) >= 0x100_0000
  {
    BytesMonotone(1, d);
    if d >= 2 {
      BytesMonotone(2, d);
    }
    if d >= 3 {
      BytesMonotone(3, d);
    }
    assert Bytes(2) == 256 * Bytes(1) && Bytes(3) == 256 * Bytes(2);
  }

  lemma {:induction false} BytesIsPow2(k: nat)
    ensures Bytes(k) == Pow2(8 * k)
  {
    if k > 0 {
      BytesIsPow2(k - 1);
      Pow2Of32();
      Pow2Add(8, 8 * (k - 1));
    }
  }

  lemma {:induction false} ByteLengthBounds(n: nat)
    ensures n < Bytes(ByteLength(n))
    ensures n == 0 ==> ByteLength(n) == 0
    ensures n > 0 ==> ByteLength(n) > 0 && Bytes(ByteLength(n) - 1) <= n
  {
    if n > 0 {
      ByteLengthBounds(n / 256);
    }
  }

  /** The byte length is the only k with 256^(k-1) <= n < 256^k. */
  lemma ByteLengthUnique(n: nat, k: nat)
    requires n < Bytes(k)
    requires k > 0 ==> Bytes(k - 1) <= n
    ensures ByteLength(n) == k
  {
    ByteLengthBounds(n);
    var l := ByteLength(n);
    if l < k {
      BytesMonotone(l, k - 1);
    } else if k < l {
      BytesMonotone(k, l - 1);
    }
  }

  /** Rounding the bit length up to whole bytes gives the byte length. */
  lemma ByteLengthOfBits(n: nat, bits: nat)
    requires n < Pow2(bits)
    requires n > 0 ==> bits > 0 && Pow2(bits - 1) <= n
    requires n == 0 ==> bits == 0
    ensures ByteLength(n) == (bits + 7) / 8
  {
    var k := (bits + 7) / 8;
    BytesIsPow2(k);
    Pow2Monotone(bits, 8 * k);
    if k > 0 {
      BytesIsPow2(k - 1);
      Pow2Monotone(8 * (k - 1), bits - 1);
    }
    ByteLengthUnique(n, k);
  }

  /** The leading three digits fit 24 bits. */
  lemma LeadingBound(n: nat)
    ensures Leading(n) < EXPONENT_UNIT
  {
    var k := ByteLength(n);
    ByteLengthBounds(n);
    assert Bytes(3) == EXPONENT_UNIT by { assert Bytes(1) == 256; }
    if k <= 3 {
      BytesAdd(k, 3 - k);
      MulStrictlyMonotone(n, Bytes(k), Bytes(3 - k));
    } else {
      BytesAdd(3, k - 3);
      DivModEquation(n, Bytes(k - 3));
      QuotientBelow(n, Bytes(3), Bytes(k - 3), n / Bytes(k - 3), n % Bytes(k - 3));
    }
  }

  /** The code is well formed: the mantissa leaves the sign bit alone and the exponent fits its byte. */
  lemma EncodeWellFormed(n: nat, negative: bool)
    requires n < Weight(WIDTH)
    ensures Encode(n, negative).mantissa < SIGN_BIT
    ensures Encode(n, negative).size <= 33
    ensures Encode(n, negative).size == 33 ==> Encode(n, negative).mantissa <= 0xffff
    ensures ByteLength(n) <= 32
  {
    hide ByteLength, Bytes, Weight, Pow2, Leading;
    LeadingBound(n);
    ByteLengthBounds(n);
    WeightIsPow2(WIDTH);
    BytesIsPow2(32);
    if ByteLength(n) > 32 {
      BytesMonotone(32, ByteLength(n) - 1);
      assert false;
    }
  }

  /** Keeping the leading digits of n: the number divided by D and multiplied back. */
  function RoundDown(n: nat, d: nat): (r: nat)
    requires d > 0
    ensures r <= n && n - r < d
  {
    DivModEquation(n, d);
    (n / d) * d
  }

  /** The precision lost by a code of this size: 256^(size-3), or nothing. */
  function Unit(size: nat): (u: nat)
    ensures u >= 1
  {
    if size <= 3 then 1 else Bytes(size - 3)
  }

  /** The magnitude a size and mantissa stand for, before reduction modulo 2^256. */
  function Magnitude(size: nat, mantissa: nat): nat
  {
    if size <= 3 then Floor(mantissa, Bytes(3 - size)) else Scale(mantissa, Bytes(size - 3))
  }

  lemma ScaleDown(n: nat, d: nat)
    requires d > 0
    ensures Scale(n, d) / d == n
  {
    DivModUnique(n * d, d, n, 0);
  }

  lemma DivTwice(n: nat, d: nat, e: nat)
    requires d > 0 && e > 0
    ensures n / d / e == n / (d * e)
  {
    var q, r := n / d, n % d;
    var q', r' := q / e, q % e;
    DivModEquation(n, d);
    DivModEquation(q, e);
    assert (q' * e + r') * d == q' * (d * e) + r' * d;
    ProductRoom(r', d, e);
    DivModUnique(n, d * e, q', r' * d + r);
  }

  /** Decoding the code of n yields n rounded down to a multiple of its unit. */
  lemma EncodeRoundsDown(n: nat)
    ensures var c := Encode(n, false); Magnitude(c.size, c.mantissa) == RoundDown(n, Unit(c.size))
  {
    hide Scale, Bytes, ByteLength;
    var k, m := ByteLength(n), Leading(n);
    BytesStep();
    if k <= 3 {
      if m < SIGN_BIT {
        ScaleDown(n, Bytes(3 - k));
        RoundByOne(n);
      } else if k < 3 {
        BytesAdd(1, 2 - k);
        ScaleByByte(n, Bytes(2 - k));
        ScaleDown(n, Bytes(2 - k));
        RoundByOne(n);
      } else {
        ScaleByOne(n);
        RoundIsScale(n, Bytes(1));
      }
    } else if m < SIGN_BIT {
      RoundIsScale(n, Bytes(k - 3));
    } else {
      BytesAdd(k - 3, 1);
      DivTwice(n, Bytes(k - 3), 256);
      RoundIsScale(n, Bytes(k - 2));
    }
  }

  lemma BytesStep()
    ensures Bytes(0) == 1 && Bytes(1) == 256
  {
    assert Bytes(1) == 256 * Bytes(0);
  }

  lemma RoundByOne(n: nat)
    ensures RoundDown(n, 1) == n
  {
  }

  lemma ScaleByOne(n: nat)
    ensures Scale(n, 1) == n
  {
  }

  lemma RoundIsScale(n: nat, d: nat)
    requires d > 0
    ensures RoundDown(n, d) == Scale(n / d, d)
  {
  }

  lemma ScaleByByte(n: nat, d: nat)
    ensures Scale(n, 256 * d) / 256 == Scale(n, d)
  {
    assert n * (256 * d) == 256 * (n * d);
  }

  /** Rounding down to a multiple of 256^j keeps the byte length of a number longer than j bytes. */
  lemma RoundKeepsLength(n: nat, j: nat)
    requires n > 0 && j < ByteLength(n)
    ensures ByteLength(RoundDown(n, Bytes(j))) == ByteLength(n)
    ensures RoundDown(n, Bytes(j)) > 0
  {
    hide ByteLength;
    var k, d := ByteLength(n), Bytes(j);
    ByteLengthBounds(n);
    BytesAdd(k - 1 - j, j);
    RoundAbove(n, Bytes(k - 1 - j), d);
    ByteLengthUnique(RoundDown(n, d), k);
  }

  lemma RoundAbove(n: nat, q: nat, d: nat)
    requires d > 0 && q * d <= n
    ensures q * d <= RoundDown(n, d)
  {
    DivModEquation(n, d);
    if q > n / d {
      ProductRoom(n / d, d, q);
    } else {
      MulMonotone(q, n / d, d);
    }
  }

  lemma RoundDivides(n: nat, d: nat)
    requires d > 0
    ensures RoundDown(n, d) / d == n / d
  {
    DivModUnique((n / d) * d, d, n / d, 0);
  }

  /** Rounding to a multiple of 256 d and dividing by d clears the lowest byte of the quotient. */
  lemma RoundDividesByte(n: nat, d: nat)
    requires d > 0
    ensures RoundDown(n, d * 256) / d == (n / d) / 256 * 256
  {
    DivTwice(n, d, 256);
    var q := n / (d * 256);
    assert q * (d * 256) == (q * 256) * d;
    DivModUnique(q * (d * 256), d, q * 256, 0);
  }

  /** A number that has been rounded once is encoded with the same code. */
  lemma EncodeStable(n: nat)
    ensures var c := Encode(n, false); Encode(RoundDown(n, Unit(c.size)), false) == c
  {
    hide Encode, Scale, Bytes, ByteLength, RoundDown, Leading;
    if n == 0 {
      EncodeOfZero();
    } else if Leading(n) < SIGN_BIT {
      StableInThree(n);
    } else {
      StableInTwo(n);
    }
  }

  lemma StableInThree(n: nat)
    requires n > 0 && Leading(n) < SIGN_BIT
    ensures var c := Encode(n, false); Encode(RoundDown(n, Unit(c.size)), false) == c
  {
    hide Scale, Bytes, ByteLength, RoundDown;
    var k := ByteLength(n);
    BytesStep();
    ByteLengthBounds(n);
    if k <= 3 {
      RoundByOne(n);
    } else {
      RoundKeepsLength(n, k - 3);
      RoundDivides(n, Bytes(k - 3));
    }
  }

  lemma StableInTwo(n: nat)
    requires n > 0 && Leading(n) >= SIGN_BIT
    ensures var c := Encode(n, false); Encode(RoundDown(n, Unit(c.size)), false) == c
  {
    hide Scale, Bytes, ByteLength, RoundDown;
    var k := ByteLength(n);
    BytesStep();
    if k < 3 {
      RoundByOne(n);
    } else if k == 3 {
      StableByte(n);
    } else {
      StableBytes(n, k);
    }
  }

  lemma StableByte(n: nat)
    requires n > 0 && ByteLength(n) == 3 && Leading(n) >= SIGN_BIT
    ensures Encode(RoundDown(n, Bytes(1)), false) == Encode(n, false)
  {
    hide Scale, Bytes, ByteLength, RoundDown;
    BytesStep();
    RoundKeepsLength(n, 1);
    RoundDividesByte(n, Bytes(0));
    ScaleByOne(n);
    ScaleByOne(RoundDown(n, 256));
  }

  lemma StableBytes(n: nat, k: nat)
    requires n > 0 && ByteLength(n) == k > 3 && Leading(n) >= SIGN_BIT
    ensures Encode(RoundDown(n, Bytes(k - 2)), false) == Encode(n, false)
  {
    hide Scale, Bytes, ByteLength, RoundDown;
    BytesStep();
    BytesAdd(k - 3, 1);
    RoundKeepsLength(n, k - 2);
    RoundDividesByte(n, Bytes(k - 3));
  }

  lemma EncodeOfZero()
    ensures Encode(0, false) == Code(0, false, 0)
    ensures RoundDown(0, 1) == 0
  {
    assert Leading(0) == 0;
  }

  lemma Unpack(c: Code)
    requires c.mantissa < SIGN_BIT
    ensures Pack(c) / EXPONENT_UNIT == c.size
    ensures Pack(c) % SIGN_BIT == c.mantissa
    ensures (Pack(c) / SIGN_BIT) % 2 == 1 <==> c.negative
  {
    var low := (if c.negative then SIGN_BIT else 0) + c.mantissa;
    DivModUnique(Pack(c), EXPONENT_UNIT, c.size, low);
    DivModUnique(Pack(c), SIGN_BIT, 2 * c.size + (if c.negative then 1 else 0), c.mantissa);
  }

  /** Every 256-bit number survives encoding and decoding up to the digits its code cannot hold: no flag
      is raised, the result is the number rounded down to its unit, and encoding again changes nothing. */
  lemma CompactRoundTrip(n: nat)
    requires n < Weight(WIDTH)
    ensures var c := Encode(n, false); var d := Decode(Pack(c));
      && !d.negative && !d.overflow
      && d.value <= n && n - d.value < Unit(c.size)
      && Encode(d.value, false) == c
  {
    hide Bytes, ByteLength, Leading, RoundDown, Scale;
    var c := Encode(n, false);
    EncodeWellFormed(n, false);
    Unpack(c);
    EncodeRoundsDown(n);
    EncodeStable(n);
    var r := RoundDown(n, Unit(c.size));
    DecodeMagnitude(c, n, r);
  }

  /** The sign survives as well: the code of a negative number decodes to the same magnitude, and it is marked negative
      unless it is zero. */
  lemma SignSurvives(n: nat)
    requires n < Weight(WIDTH)
    ensures Decode(Pack(Encode(n, true))) == Decode(Pack(Encode(n, false))).(negative := n != 0)
  {
    hide Decode, Pack, Bytes, RoundDown, Magnitude;
    var c, d := Encode(n, true), Encode(n, false);
    EncodeWellFormed(n, true);
    EncodeWellFormed(n, false);
    DecodePacked(c);
    DecodePacked(d);
    if n == 0 {
      EncodeOfZero();
    } else {
      MantissaNotZero(n);
      hide Encode;
      EncodeRoundsDown(n);
      NotRoundedAway(n, c.size, c.mantissa);
    }
  }

  /** Whether any digits are left of a mantissa below the point. */
  predicate DigitsLeft(size: nat, mantissa: nat)
  {
    if size <= 3 then Magnitude(size, mantissa) != 0 else mantissa != 0
  }

  lemma DecodePacked(c: Code)
    requires c.mantissa < SIGN_BIT
    ensures var d := Decode(Pack(c));
      && d.value == Decode(Pack(c.(negative := false))).value
      && d.overflow == Decode(Pack(c.(negative := false))).overflow
      && (d.negative <==> c.negative && DigitsLeft(c.size, c.mantissa))
  {
    hide Bytes, Floor, Scale, Pack, Weight;
    Unpack(c);
    Unpack(c.(negative := false));
  }

  lemma NotRoundedAway(n: nat, size: nat, mantissa: nat)
    requires n > 0 && mantissa > 0 && Magnitude(size, mantissa) == RoundDown(n, Unit(size))
    ensures DigitsLeft(size, mantissa)
  {
    hide Magnitude, RoundDown;
    if size <= 3 {
      RoundByOne(n);
    }
  }

  lemma MantissaNotZero(n: nat)
    requires n > 0
    ensures Encode(n, true) == Encode(n, false).(negative := true) && Encode(n, false).mantissa > 0
  {
    var k := ByteLength(n);
    ByteLengthBounds(n);
    hide Bytes, ByteLength;
    if k <= 3 {
      MulMonotone(1, n, Bytes(3 - k));
    } else {
      BytesMonotone(k - 3, k - 1);
      QuotientPositive(n, Bytes(k - 3));
    }
  }

  lemma QuotientPositive(n: nat, d: nat)
    requires 0 < d <= n
    ensures n / d > 0
  {
    DivModEquation(n, d);
    QuotientIsNat(n, d);
  }

  lemma DecodeMagnitude(c: Code, n: nat, r: nat)
    requires c.mantissa < SIGN_BIT && !c.negative
    requires c.size <= 33 && (c.size == 33 ==> c.mantissa <= 0xffff)
    requires Magnitude(c.size, c.mantissa) == r <= n < Weight(WIDTH)
    ensures Decode(Pack(c)) == Decoded(r, false, false)
  {
    hide Bytes;
    Unpack(c);
    if c.size > 3 {
      DivModUnique(r, Weight(WIDTH), 0, r);
    }
  }

  // ---- The methods of arith_uint256 ----

  method SetCompact(self: BaseUint, nCompact: nat) returns (negative: bool, overflow: bool)
    requires self.pn.Length == WIDTH && nCompact < BASE
    modifies self.pn
    ensures Decoded(self.Num(), negative, overflow) == Decode(nCompact)
  {
    hide Value, Weight, Pow2;
    var nSize := nCompact / EXPONENT_UNIT;
    var nWord := nCompact % SIGN_BIT;
    if nSize <= 3 {
      BytesIsPow2(3 - nSize);
      QuotientIsNat(nWord, Bytes(3 - nSize));
      DivModEquation(nWord, Bytes(3 - nSize));
      ShiftedWordBound(nWord, Bytes(3 - nSize));
      nWord := nWord / Pow2(8 * (3 - nSize));
      self.Assign64(nWord);
    } else {
      self.Assign64(nWord);
      BytesIsPow2(nSize - 3);
      self.ShlAssign(8 * (nSize - 3));
    }
    negative := nWord != 0 && (nCompact / SIGN_BIT) % 2 == 1;
    overflow := nWord != 0 && (nSize > 34 || (nWord > 0xff && nSize > 33) || (nWord > 0xffff && nSize > 32));
  }

  lemma ShiftedWordBound(w: nat, d: nat)
    requires d > 0
    ensures w / d <= w
  {
    QuotientIsNat(w, d);
    DivModEquation(w, d);
    MulMonotone(1, d, w / d);
  }

  /** The first half of GetCompact: the leading three bytes, by a left or a right shift. */
  method LeadingDigits(self: BaseUint, nSize: nat) returns (nCompact: nat)
    requires self.pn.Length == WIDTH && nSize == ByteLength(self.Num())
    ensures nCompact == Leading(self.Num())
  {
    hide Value, Weight, Pow2, Bytes, ByteLength, Scale, Floor;
    ghost var n := self.Num();
    LeadingBound(n);
    var low: nat;
    if nSize <= 3 {
      low := self.GetLow64();
      BytesIsPow2(3 - nSize);
      ShortNumber(n, low, 3 - nSize);
      nCompact := (low * Pow2(8 * (3 - nSize))) % (BASE * BASE) % BASE;
    } else {
      var bn := new BaseUint.Copy(self);
      bn.ShrAssign(8 * (nSize - 3));
      BytesIsPow2(nSize - 3);
      low := bn.GetLow64();
      FloorIsQuotient(n, Bytes(nSize - 3));
      SmallIsLow(Leading(n), low);
      nCompact := low % BASE;
    }
  }

  method GetCompact(self: BaseUint, fNegative: bool) returns (nCompact: nat)
    requires self.pn.Length == WIDTH
    ensures nCompact == Pack(Encode(self.Num(), fNegative))
  {
    hide Value, Weight, Pow2, Leading, ByteLength, BitOr;
    var bits := self.Bits();
    ghost var n := self.Num();
    ByteLengthOfBits(n, bits);
    LeadingBound(n);
    ValueBound(self.pn[..]);
    EncodeWellFormed(n, fNegative);
    var nSize := (bits + 7) / 8;
    nCompact := LeadingDigits(self, nSize);
    if (nCompact / SIGN_BIT) % 2 == 1 {
      nCompact := nCompact / 0x100;
      nSize := nSize + 1;
    }
    assert nCompact < SIGN_BIT && nSize < 256;
    OrFields(nSize, nCompact);
    nCompact := BitOr(nCompact, nSize * EXPONENT_UNIT);
    nCompact := BitOr(nCompact, if fNegative && nCompact % SIGN_BIT != 0 then SIGN_BIT else 0);
  }

  lemma FloorIsQuotient(n: nat, d: nat)
    requires d > 0
    ensures Floor(n, d) == n / d
  {
  }

  /** Shifting a short number left within 24 bits loses nothing to the 64-bit and 32-bit truncations. */
  lemma ShortNumber(n: nat, low: nat, j: nat)
    requires low == n % (BASE * BASE)
    requires Scale(n, Bytes(j)) < EXPONENT_UNIT
    ensures (low * Bytes(j)) % (BASE * BASE) % BASE == Scale(n, Bytes(j))
    ensures low * Bytes(j) >= 0
  {
    MulMonotone(1, Bytes(j), n);
    assert low == n;
  }

  lemma SmallIsLow(m: nat, low: nat)
    requires m < EXPONENT_UNIT && low == m % (BASE * BASE)
    ensures low % BASE == m
  {
  }

  lemma OrFields(size: nat, m: nat)
    requires m < SIGN_BIT
    ensures BitOr(m, size * EXPONENT_UNIT) == size * EXPONENT_UNIT + m
    ensures BitOr(size * EXPONENT_UNIT + m, SIGN_BIT) == size * EXPONENT_UNIT + SIGN_BIT + m
    ensures BitOr(size * EXPONENT_UNIT + m, 0) == size * EXPONENT_UNIT + m
  {
    hide Pow2, BitOr;
    Pow2Of32();
    OrSplits(0, m, size, 0, 24);
    OrZero(m);
    OrCommutes(0, size);
    OrZero(size);
    OrSplits(size, m, 0, SIGN_BIT, 24);
    assert SIGN_BIT % Pow2(23) == 0;
    OrIsAddWhenDisjoint(SIGN_BIT, m, 23);
    OrCommutes(SIGN_BIT, m);
    OrZero(size * EXPONENT_UNIT + m);
  }
}
