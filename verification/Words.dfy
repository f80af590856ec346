/** 64-bit words as numbers, their single bits, and the bitwise operators. */
module Words {

  import opened Powers

  const WIDTH := 64

  function BitsOf(p: bool): nat
  {
    if p then 1 else 0
  }

  predicate Bit(w: nat, b: nat)
  {
    if b == 0 then w % 2 == 1 else Bit(w / 2, b - 1)
  }

  function Xor(x: nat, y: nat): nat
    decreases x
  {
    if x == 0 then y else BitsOf((x % 2 == 1) != (y % 2 == 1)) + 2 * Xor(x / 2, y / 2)
  }

  /** The complement in a word of the given width. */
  function Not(x: nat, width: nat): nat
  {
    if width == 0 then 0 else BitsOf(x % 2 == 0) + 2 * Not(x / 2, width - 1)
  }

  function Shl(x: nat, n: nat): nat
  {
    if n == 0 then x else 2 * Shl(x, n - 1)
  }

  /** The last bit of a number, and what is above it. */
  lemma Halves(p: bool, q: nat)
    ensures (BitsOf(p) + 2 * q) / 2 == q && ((BitsOf(p) + 2 * q) % 2 == 1 <==> p)
  {
  }

  lemma {:induction false} BitOfZero(b: nat)
    ensures !Bit(0, b)
  {
    if b > 0 {
      BitOfZero(b - 1);
    }
  }

  lemma {:induction false} BitOfAnd(x: nat, y: nat, b: nat)
    ensures Bit(BitAnd(x, y), b) == (Bit(x, b) && Bit(y, b))
  {
    if x == 0 || y == 0 {
      BitOfZero(b);
    } else {
      Halves(x % 2 == 1 && y % 2 == 1, BitAnd(x / 2, y / 2));
      if b > 0 {
        BitOfAnd(x / 2, y / 2, b - 1);
      }
    }
  }

  lemma {:induction false} BitOfOr(x: nat, y: nat, b: nat)
    ensures Bit(BitOr(x, y), b) == (Bit(x, b) || Bit(y, b))
  {
    if x == 0 || y == 0 {
      BitOfZero(b);
    } else {
      Halves(x % 2 == 1 || y % 2 == 1, BitOr(x / 2, y / 2));
      if b > 0 {
        BitOfOr(x / 2, y / 2, b - 1);
      }
    }
  }

  lemma {:induction false} BitOfXor(x: nat, y: nat, b: nat)
    ensures Bit(Xor(x, y), b) == (Bit(x, b) != Bit(y, b))
  {
    if x == 0 {
      BitOfZero(b);
    } else {
      Halves((x % 2 == 1) != (y % 2 == 1), Xor(x / 2, y / 2));
      if b > 0 {
        BitOfXor(x / 2, y / 2, b - 1);
      }
    }
  }

  lemma {:induction false} BitOfNot(x: nat, width: nat, b: nat)
    requires b < width
    ensures Bit(Not(x, width), b) == !Bit(x, b)
  {
    Halves(x % 2 == 0, Not(x / 2, width - 1));
    if b > 0 {
      BitOfNot(x / 2, width - 1, b - 1);
    }
  }

  lemma {:induction false} BitOfShl(v: nat, n: nat, b: nat)
    requires v < 2
    ensures Bit(Shl(v, n), b) == (b == n && v == 1)
  {
    if n == 0 {
      if b > 0 {
        BitOfZero(b - 1);
      }
    } else if b > 0 {
      BitOfShl(v, n - 1, b - 1);
    }
  }

  /** The word with one bit cleared and then set to v. */
  function WithBit(w: nat, bit: nat, v: nat): nat
  {
    BitOr(BitAnd(w, Not(Shl(1, bit), WIDTH)), Shl(v, bit))
  }

  lemma BitOfWithBit(w: nat, bit: nat, v: nat, b: nat)
    requires v < 2 && b < WIDTH
    ensures Bit(WithBit(w, bit, v), b) == if b == bit then v == 1 else Bit(w, b)
  {
    BitOfShl(1, bit, b);
    BitOfNot(Shl(1, bit), WIDTH, b);
    BitOfAnd(w, Not(Shl(1, bit), WIDTH), b);
    BitOfShl(v, bit, b);
    BitOfOr(BitAnd(w, Not(Shl(1, bit), WIDTH)), Shl(v, bit), b);
  }

  /** 0 - v in a word: all zeros or all ones. */
  function Mask(v: nat): nat
  {
    if v == 0 then 0 else Not(0, WIDTH)
  }

  lemma BitOfMask(v: nat, b: nat)
    requires v < 2 && b < WIDTH
    ensures Bit(Mask(v), b) == (v == 1)
  {
    BitOfZero(b);
    BitOfNot(0, WIDTH, b);
  }

  // ---------- mapping a hash to a range ----------

  const TWO32 := 0x1_0000_0000

  type Word32 = n: nat | n < TWO32

  /** Multiplying by n and dropping 32 bits takes the place of the remainder by n; the product is exact in
      64 bits. */
  function FastMod(x: Word32, n: nat): (r: nat)
    requires 0 < n <= TWO32
    ensures r < n && r * TWO32 <= x * n < (r + 1) * TWO32 && x * n < TWO32 * TWO32
  {
    FastModFits(x, n);
    x * n / TWO32
  }

  lemma FastModFits(x: Word32, n: nat)
    requires 0 < n <= TWO32
    ensures 0 <= x * n < TWO32 * n && x * n / TWO32 < n && x * n < TWO32 * TWO32
  {
    ProductLess(x, TWO32, n);
    ProductLess(x, TWO32, TWO32);
    ProductAtMost(x, n, TWO32);
  }

  lemma ProductLess(x: nat, y: nat, n: nat)
    requires x < y && 0 < n
    ensures x * n < y * n
  {
  }

  lemma ProductAtMost(x: nat, m: nat, n: nat)
    requires m <= n
    ensures x * m <= x * n
  {
  }
}
