/** Base58: byte strings and strings over a 58-letter alphabet, through big numbers in fixed buffers. */
module Base58 {

  import opened Options
  import opened Powers

  /** The alphabet in order: the digits without 0, the upper-case letters without I and O, the lower-case
      letters without l. */
  function LetterAt(d: nat): char
    requires d < 58
  {
    if d < 9 then (d + '1' as nat) as char
    else if d < 17 then (d - 9 + 'A' as nat) as char
    else if d < 22 then (d - 17 + 'J' as nat) as char
    else if d < 33 then (d - 22 + 'P' as nat) as char
    else if d < 44 then (d - 33 + 'a' as nat) as char
    else (d - 44 + 'm' as nat) as char
  }

  /** The index of a letter in the alphabet, as strchr finds it. */
  function IndexOf(c: char): (r: Option<nat>)
    ensures r.Some? ==> r.value < 58 && LetterAt(r.value) == c
    ensures r.None? ==> forall d: nat :: d < 58 ==> LetterAt(d) != c
  {
    if '1' <= c <= '9' then Some(c as nat - '1' as nat)
    else if 'A' <= c <= 'H' then Some(c as nat - 'A' as nat + 9)
    else if 'J' <= c <= 'N' then Some(c as nat - 'J' as nat + 17)
    else if 'P' <= c <= 'Z' then Some(c as nat - 'P' as nat + 22)
    else if 'a' <= c <= 'k' then Some(c as nat - 'a' as nat + 33)
    else if 'm' <= c <= 'z' then Some(c as nat - 'm' as nat + 44)
    else None
  }

  lemma IndexOfLetter(d: nat)
    requires d < 58
    ensures IndexOf(LetterAt(d)) == Some(d)
  {
  }

  const ALPHABET := "123456789" + "ABCDEFGH" + "JKLMN" + "PQRSTUVWXYZ" + "abcdefghijk" + "mnopqrstuvwxyz"

  /** The alphabet, letter by letter. */
  lemma AlphabetIs(d: nat)
    requires d < 58
    ensures |ALPHABET| == 58 && LetterAt(d) == ALPHABET[d]
  {
    if d < 9 {
      assert ALPHABET[d] == "123456789"[d];
    } else if d < 17 {
      assert ALPHABET[d] == "ABCDEFGH"[d - 9];
    } else if d < 22 {
      assert ALPHABET[d] == "JKLMN"[d - 17];
    } else if d < 33 {
      assert ALPHABET[d] == "PQRSTUVWXYZ"[d - 22];
    } else if d < 44 {
      assert ALPHABET[d] == "abcdefghijk"[d - 33];
    } else {
      assert ALPHABET[d] == "mnopqrstuvwxyz"[d - 44];
    }
  }

  /** If p digits in base b can hold q digits in base a, then l digits hold n whenever l / n exceeds p / q. */
  lemma Fits(a: nat, b: nat, q: nat, p: nat, n: nat, l: nat)
    requires 1 < a && 1 < b && 0 < q && Pow(a, q) <= Pow(b, p) && p * n < q * l
    ensures Pow(a, n) < Pow(b, l)
  {
    if Pow(a, n) >= Pow(b, l) {
      PowBaseGrows(Pow(b, l), Pow(a, n), q);
      PowPow(b, l, q);
      PowPow(a, n, q);
      PowPow(a, q, n);
      PowBaseGrows(Pow(a, q), Pow(b, p), n);
      PowPow(b, p, n);
      Swap(n, q);
      Swap(l, q);
      PowGrows(b, p * n + 1, q * l);
      PowPositive(b, p * n);
      MulMonotone(2, b, Pow(b, p * n));
      assert false;
    }
  }

  lemma Swap(m: nat, n: nat)
    ensures m * n == n * m
  {
  }

  lemma EightBytes()
    ensures Pow(256, 8) <= Pow(58, 11)
  {
    assert Pow(256, 4) == 4294967296;
    PowAdd(256, 4, 4);
    assert Pow(58, 4) == 11316496;
    PowAdd(58, 4, 4);
    assert Pow(58, 3) == 195112;
    PowAdd(58, 8, 3);
  }

  lemma SeventyOneDigits()
    ensures Pow(58, 71) <= Pow(256, 52)
  {
    assert Pow(58, 4) == 11316496;
    PowAdd(58, 4, 4);
    assert Pow(58, 8) == 128063081718016;
    PowAdd(58, 8, 8);
    assert Pow(58, 16) == 16400152899115243850138976256;
    PowAdd(58, 16, 16);
    assert Pow(58, 32) == 268965015114358137726910587140455987105619365599731777536;
    PowAdd(58, 32, 32);
    assert Pow(58, 3) == 195112;
    PowAdd(58, 4, 3);
    PowAdd(58, 64, 7);
    assert Pow(58, 7) == 2207984167552;
    assert Pow(256, 4) == 4294967296;
    PowAdd(256, 4, 4);
    assert Pow(256, 8) == 18446744073709551616;
    PowAdd(256, 8, 8);
    assert Pow(256, 16) == 340282366920938463463374607431768211456;
    PowAdd(256, 16, 16);
    assert Pow(256, 32) == 115792089237316195423570985008687907853269984665640564039457584007913129639936;
    PowAdd(256, 16, 4);
    PowAdd(256, 32, 20);
    assert Pow(256, 20) == 1461501637330902918203684832716283019655932542976;
    assert 268965015114358137726910587140455987105619365599731777536
           * 268965015114358137726910587140455987105619365599731777536 * 2207984167552
        <= 115792089237316195423570985008687907853269984665640564039457584007913129639936
           * 1461501637330902918203684832716283019655932542976;
  }

  // ---------- digit strings, most significant first ----------

  predicate Digits(s: seq<nat>, base: nat)
  {
    forall i :: 0 <= i < |s| ==> s[i] < base
  }

  function Num(s: seq<nat>, base: nat): nat
  {
    if s == [] then 0 else Num(s[..|s| - 1], base) * base + s[|s| - 1]
  }

  /** The digits of a number without leading zeros. */
  function Minimal(n: nat, base: nat): (s: seq<nat>)
    requires 1 < base
    ensures Digits(s, base) && (n > 0 ==> s != [] && s[0] != 0) && (n == 0 ==> s == [])
    decreases n
  {
    if n == 0 then [] else Smaller(n, base); Minimal(n / base, base) + [n % base]
  }

  lemma Smaller(n: nat, base: nat)
    requires 1 < base && 0 < n
    ensures 0 <= n / base < n
  {
    DivModEquation(n, base);
    QuotientIsNat(n, base);
    MulMonotone(2, base, n / base);
    Swap(base, n / base);
  }

  lemma NumSnoc(s: seq<nat>, d: nat, base: nat)
    ensures Num(s + [d], base) == Num(s, base) * base + d
  {
    assert (s + [d])[..|s|] == s;
  }

  lemma {:induction false} NumOfMinimal(n: nat, base: nat)
    requires 1 < base
    ensures Num(Minimal(n, base), base) == n
  {
    if n > 0 {
      Smaller(n, base);
      NumOfMinimal(n / base, base);
      NumSnoc(Minimal(n / base, base), n % base, base);
      DivModEquation(n, base);
    QuotientIsNat(n, base);
    }
  }

  function Zeros(n: nat): (s: seq<nat>)
    ensures |s| == n && forall i :: 0 <= i < n ==> s[i] == 0
  {
    seq(n, i => 0)
  }

  function LeadingZeros(s: seq<nat>): (n: nat)
    ensures n <= |s| && (forall i :: 0 <= i < n ==> s[i] == 0) && (n < |s| ==> s[n] != 0)
  {
    if s != [] && s[0] == 0 then 1 + LeadingZeros(s[1..]) else 0
  }

  lemma {:induction false} NumOfZeros(s: seq<nat>, base: nat)
    requires forall i :: 0 <= i < |s| ==> s[i] == 0
    ensures Num(s, base) == 0
  {
    if s != [] {
      NumOfZeros(s[..|s| - 1], base);
    }
  }

  lemma {:induction false} NumAppend(a: seq<nat>, b: seq<nat>, base: nat)
    ensures Num(a + b, base) == Num(a, base) * Pow(base, |b|) + Num(b, base)
  {
    if b == [] {
      assert a + b == a;
    } else {
      var c := b[..|b| - 1];
      NumAppend(a, c, base);
      assert (a + b)[..|a + b| - 1] == a + c;
      Distribute(Num(a, base), Pow(base, |c|), Num(c, base), base);
    }
  }

  lemma Distribute(n: int, p: int, m: int, b: int)
    ensures (n * p + m) * b == n * (b * p) + m * b
  {
  }

  lemma {:induction false} NumBound(s: seq<nat>, base: nat)
    requires Digits(s, base)
    ensures Num(s, base) < Pow(base, |s|)
  {
    if s != [] {
      var front, d := s[..|s| - 1], s[|s| - 1];
      NumBound(front, base);
      OneDigitMore(Num(front, base), Pow(base, |front|), base, d);
    }
  }

  lemma OneDigitMore(n: nat, p: nat, base: nat, d: nat)
    requires n < p && d < base
    ensures n * base + d < base * p
  {
    MulMonotone(n + 1, p, base);
    Swap(p, base);
    assert (n + 1) * base == n * base + base;
  }

  lemma MinimalOfSnoc(s: seq<nat>, d: nat, base: nat)
    requires 1 < base && d < base
    ensures Minimal(Num(s + [d], base), base)
         == if Num(s, base) == 0 && d == 0 then [] else Minimal(Num(s, base), base) + [d]
    ensures Num(s, base) > 0 || d > 0 ==> Num(s + [d], base) > 0
  {
    hide Num, Minimal;
    NumSnoc(s, d, base);
    MinimalSnoc(Num(s, base), d, base);
  }

  lemma MinimalSnoc(q: nat, d: nat, base: nat)
    requires 1 < base && d < base
    ensures 0 <= q * base && Minimal(q * base + d, base) == if q == 0 && d == 0 then [] else Minimal(q, base) + [d]
    ensures q > 0 ==> q * base + d > 0
  {
    DivisionOf(q, d, base);
    if q > 0 {
      MulMonotone(1, q, base);
    }
  }

  /** The value of a digit string does not depend on the zeros in front. */
  lemma NumWithoutZeros(s: seq<nat>, z: nat, base: nat)
    requires z <= LeadingZeros(s)
    ensures Num(s[z..], base) == Num(s, base)
  {
    hide Num, Pow;
    NumAppend(s[..z], s[z..], base);
    NumOfZeros(s[..z], base);
    assert s == s[..z] + s[z..];
    assert 0 * Pow(base, |s[z..]|) == 0;
  }

  lemma {:induction false} MinimalOfItself(s: seq<nat>, base: nat)
    requires 1 < base && Digits(s, base) && (s == [] || s[0] != 0)
    ensures Minimal(Num(s, base), base) == s
    ensures s != [] ==> Num(s, base) > 0
  {
    if s != [] {
      var front, d := s[..|s| - 1], s[|s| - 1];
      assert s == front + [d];
      MinimalOfItself(front, base);
      MinimalOfSnoc(front, d, base);
    }
  }

  /** Dropping the leading zeros of a digit string leaves the minimal digits of its number. */
  lemma MinimalOfNum(s: seq<nat>, base: nat)
    requires 1 < base && Digits(s, base)
    ensures Minimal(Num(s, base), base) == s[LeadingZeros(s)..]
  {
    NumWithoutZeros(s, LeadingZeros(s), base);
    MinimalOfItself(s[LeadingZeros(s)..], base);
  }

  lemma DivisionOf(q: nat, r: nat, d: nat)
    requires r < d
    ensures 0 <= q * d && (q * d + r) / d == q && (q * d + r) % d == r
  {
    MulMonotone(0, q, d);
    DivModUnique(q * d + r, d, q, r);
  }

  /** Rewriting a digit string from one base to another: the zeros in front stay, as many of them. */
  function Recode(s: seq<nat>, from: nat, to: nat): (r: seq<nat>)
    requires 1 < to
    ensures Digits(r, to)
  {
    Zeros(LeadingZeros(s)) + Minimal(Num(s, from), to)
  }

  lemma {:induction false} LeadingOfZeros(n: nat, s: seq<nat>)
    requires s == [] || s[0] != 0
    ensures LeadingZeros(Zeros(n) + s) == n
  {
    if n > 0 {
      LeadingOfZeros(n - 1, s);
      assert (Zeros(n) + s)[1..] == Zeros(n - 1) + s;
    }
  }

  /** Recoding there and back again gives the same digit string. */
  lemma RecodeInverts(s: seq<nat>, a: nat, b: nat)
    requires 1 < a && 1 < b && Digits(s, a)
    ensures Recode(Recode(s, a, b), b, a) == s
  {
    hide Num, Pow, Minimal, LeadingZeros;
    var z, n := LeadingZeros(s), Num(s, a);
    var t := Recode(s, a, b);
    LeadingOfZeros(z, Minimal(n, b));
    NumAppend(Zeros(z), Minimal(n, b), b);
    NumOfZeros(Zeros(z), b);
    NumOfMinimal(n, b);
    assert 0 * Pow(b, |Minimal(n, b)|) == 0;
    assert Num(t, b) == n;
    MinimalOfNum(s, a);
    assert Zeros(z) == s[..z];
  }

  /** Both digit strings stand for the same number and have as many zeros in front. */
  lemma RecodeMeans(s: seq<nat>, a: nat, b: nat)
    requires 1 < a && 1 < b
    ensures var t := Recode(s, a, b);
      Digits(t, b) && Num(t, b) == Num(s, a) && LeadingZeros(t) == LeadingZeros(s)
  {
    hide Num, Pow, Minimal, LeadingZeros;
    var z, n := LeadingZeros(s), Num(s, a);
    LeadingOfZeros(z, Minimal(n, b));
    NumAppend(Zeros(z), Minimal(n, b), b);
    NumOfZeros(Zeros(z), b);
    NumOfMinimal(n, b);
    assert 0 * Pow(b, |Minimal(n, b)|) == 0;
  }

  // ---------- the buffer ----------

  /** What a carry in front of some digits stands for. */
  function Held(carry: nat, s: seq<nat>, base: nat): int
  {
    carry * Pow(base, |s|) + Num(s, base)
  }

  function Scaled(mult: nat, s: seq<nat>, base: nat, ch: nat): int
  {
    mult * Num(s, base) + ch
  }

  /** One pass over the buffer: it becomes the old number times mult plus ch, as far as it has room; what is
      left over is the carry. */
  method AddDigit(buffer: array<nat>, base: nat, mult: nat, ch: nat) returns (carry: nat)
    requires 1 < base && ch < mult && Digits(buffer[..], base)
    modifies buffer
    ensures Digits(buffer[..], base) && carry < mult
    ensures Held(carry, buffer[..], base) == Scaled(mult, old(buffer[..]), base, ch)
  {
    hide Held, Scaled;
    ghost var was := buffer[..];
    carry := ch;
    HeldEmpty(mult, base, ch);
    var i := buffer.Length;
    assert buffer[i..] == [] && was[i..] == [];
    while i > 0
      invariant 0 <= i <= buffer.Length && carry < mult && Digits(buffer[..], base)
      invariant buffer[..i] == was[..i]
      invariant Held(carry, buffer[i..], base) == Scaled(mult, was[i..], base, ch)
    {
      i := i - 1;
      ghost var rest := buffer[i + 1..];
      var total := carry + mult * buffer[i];
      CarryBound(carry, mult, buffer[i], base);
      CarryStep(carry, mult, was[i], base, rest, was[i + 1..], ch);
      buffer[i] := total % base;
      carry := total / base;
      assert buffer[i..] == [total % base] + rest && was[i..] == [was[i]] + was[i + 1..];
    }
    assert buffer[0..] == buffer[..] && was[0..] == was;
  }

  lemma HeldEmpty(mult: nat, base: nat, ch: nat)
    ensures Held(ch, [], base) == Scaled(mult, [], base, ch)
  {
    assert Num([], base) == 0;
  }

  lemma CarryStep(carry: nat, mult: nat, digit: nat, base: nat, rest: seq<nat>, wasRest: seq<nat>, ch: nat)
    requires 0 < base && |rest| == |wasRest| && 0 <= mult * digit
    requires Held(carry, rest, base) == Scaled(mult, wasRest, base, ch)
    ensures var total := carry + mult * digit;
            Held(total / base, [total % base] + rest, base) == Scaled(mult, [digit] + wasRest, base, ch)
  {
    hide Num, Pow;
    var total := carry + mult * digit;
    var p := Pow(base, |rest|);
    NumCons(total % base, rest, base);
    NumCons(digit, wasRest, base);
    PowNext(base, |rest|);
    CarryMoves(carry, mult, digit, base, p, Num(rest, base), Num(wasRest, base), ch);
  }

  lemma PowNext(base: nat, e: nat)
    ensures Pow(base, e + 1) == base * Pow(base, e)
  {
  }

  lemma NumCons(d: nat, s: seq<nat>, base: nat)
    ensures Num([d] + s, base) == d * Pow(base, |s|) + Num(s, base)
  {
    NumAppend([d], s, base);
    assert [d][..0] == [];
  }

  lemma CarryBound(carry: nat, mult: nat, digit: nat, base: nat)
    requires carry < mult && digit < base
    ensures (carry + mult * digit) / base < mult
  {
    var total := carry + mult * digit;
    Swap(mult, digit);
    MulMonotone(digit + 1, base, mult);
    Swap(base, mult);
    assert total < mult * base;
    if total / base >= mult {
      MulMonotone(mult, total / base, base);
    }
  }

  lemma CarryMoves(carry: nat, mult: nat, digit: nat, base: nat, p: nat, num: nat, was: nat, ch: nat)
    requires 0 < base && carry * p + num == mult * was + ch
    ensures var total := carry + mult * digit;
            total / base * (base * p) + ((total % base) * p + num) == mult * (digit * p + was) + ch
  {
    var total := carry + mult * digit;
    var q, r := total / base, total % base;
    assert total == q * base + r;
    Associate(q, base, p);
    calc {
      q * (base * p) + (r * p + num);
      (q * base) * p + r * p + num;
      (q * base + r) * p + num;
      (carry + mult * digit) * p + num;
      carry * p + (mult * digit) * p + num;
      { Associate(mult, digit, p); }
      mult * (digit * p) + (carry * p + num);
      mult * (digit * p) + mult * was + ch;
      mult * (digit * p + was) + ch;
    }
  }

  // ---------- the two routines ----------

  /** Every letter is in the alphabet. */
  predicate Spelled(s: string)
  {
    forall i :: 0 <= i < |s| ==> IndexOf(s[i]).Some?
  }

  function Values(s: string): (v: seq<nat>)
    requires Spelled(s)
    ensures |v| == |s| && Digits(v, 58) && forall i :: 0 <= i < |s| ==> IndexOf(s[i]) == Some(v[i])
  {
    seq(|s|, i requires 0 <= i < |s| => IndexOf(s[i]).value)
  }

  function Spell(v: seq<nat>): (s: string)
    requires Digits(v, 58)
    ensures |s| == |v| && forall i :: 0 <= i < |v| ==> s[i] == LetterAt(v[i])
  {
    seq(|v|, i requires 0 <= i < |v| => LetterAt(v[i]))
  }

  lemma SpellInverts(v: seq<nat>, s: string)
    requires Digits(v, 58)
    ensures Spelled(Spell(v)) && Values(Spell(v)) == v
    ensures Spelled(s) ==> Spell(Values(s)) == s
  {
    forall i | 0 <= i < |v|
      ensures IndexOf(Spell(v)[i]) == Some(v[i])
    {
      IndexOfLetter(v[i]);
    }
  }

  /** There is room: nothing is carried out of a buffer that is long enough. */
  lemma NoCarry(carry: nat, buffer: seq<nat>, base: nat, was: seq<nat>, mult: nat, ch: nat, digits: seq<nat>, room: nat)
    requires 1 < base && 1 < mult && ch < mult && Digits(digits, mult)
    requires Held(carry, buffer, base) == Scaled(mult, was, base, ch) && Num(was, base) == Num(digits, mult)
    requires |digits| < room && Pow(mult, room) < Pow(base, |buffer|)
    ensures carry == 0 && Num(buffer, base) == Num(digits + [ch], mult)
  {
    hide Num, Pow;
    NumSnoc(digits, ch, mult);
    NumBound(digits + [ch], mult);
    PowGrows(mult, |digits| + 1, room);
    Swap(mult, Num(was, base));
    CarryIsZero(carry, Pow(base, |buffer|), Num(buffer, base), Num(digits + [ch], mult));
  }

  lemma CarryIsZero(carry: nat, p: nat, n: nat, total: nat)
    requires carry * p + n == total < p
    ensures carry == 0 && n == total
  {
    if carry > 0 {
      MulMonotone(1, carry, p);
    }
  }

  /** Reads digits of base mult from a position on into a buffer of digits of another base. */
  method Accumulate(buffer: array<nat>, base: nat, mult: nat, digits: seq<nat>)
    requires 1 < base && 1 < mult && Digits(digits, mult)
    requires forall i :: 0 <= i < buffer.Length ==> buffer[i] == 0
    requires Pow(mult, |digits|) < Pow(base, buffer.Length)
    modifies buffer
    ensures Digits(buffer[..], base) && Num(buffer[..], base) == Num(digits, mult)
  {
    hide Num, Held, Scaled;
    NumOfZeros(buffer[..], base);
    NumOfZeros(digits[..0], mult);
    for pos := 0 to |digits|
      invariant Digits(buffer[..], base) && Num(buffer[..], base) == Num(digits[..pos], mult)
    {
      ghost var was := buffer[..];
      var carry := AddDigit(buffer, base, mult, digits[pos]);
      NoCarry(carry, buffer[..], base, was, mult, digits[pos], digits[..pos], |digits|);
      assert carry == 0;
      assert digits[..pos + 1] == digits[..pos] + [digits[pos]];
    }
    assert digits[..|digits|] == digits;
  }

  /** Counts the zeros in front. */
  method SkipZeros(s: seq<nat>) returns (n: nat)
    ensures n == LeadingZeros(s)
  {
    n := 0;
    while n < |s| && s[n] == 0
      invariant n <= |s| && forall i :: 0 <= i < n ==> s[i] == 0
    {
      n := n + 1;
    }
  }

  /** The common part of both routines: the zeros in front are kept, the rest goes through a buffer of the
      given length. */
  method Convert(digits: seq<nat>, zeroes: nat, from: nat, to: nat, length: nat) returns (out: seq<nat>)
    requires 1 < from && 1 < to && Digits(digits, from) && zeroes == LeadingZeros(digits)
    requires Pow(from, |digits| - zeroes) < Pow(to, length)
    ensures out == Recode(digits, from, to)
  {
    var rest := digits[zeroes..];
    var buffer := new nat[length](i => 0);
    Accumulate(buffer, to, from, rest);
    NumWithoutZeros(digits, zeroes, from);
    MinimalOfNum(buffer[..], to);
    var it := SkipZeros(buffer[..]);
    out := Zeros(zeroes) + buffer[it..];
  }

  /** 138 / 100 is more than the logarithm of 256 to the base 58. */
  lemma RoomForBytes(n: nat)
    ensures Pow(256, n) < Pow(58, n * 138 / 100 + 1)
  {
    EightBytes();
    Fits(256, 58, 8, 11, n, n * 138 / 100 + 1);
  }

  /** 733 / 1000 is more than the logarithm of 58 to the base 256. */
  lemma RoomForDigits(n: nat)
    ensures Pow(58, n) < Pow(256, n * 733 / 1000 + 1)
  {
    SeventyOneDigits();
    Fits(58, 256, 71, 52, n, n * 733 / 1000 + 1);
  }

  function Encoded(bytes: seq<nat>): string
  {
    Spell(Recode(bytes, 256, 58))
  }

  method EncodeBase58(bytes: seq<nat>) returns (str: string)
    requires Digits(bytes, 256)
    ensures str == Encoded(bytes)
    ensures Spelled(str) && Num(Values(str), 58) == Num(bytes, 256)
    ensures LeadingZeros(Values(str)) == LeadingZeros(bytes)
  {
    hide Num, LeadingZeros, Minimal;
    RecodeMeans(bytes, 256, 58);
    SpellInverts(Recode(bytes, 256, 58), "");
    var zeroes := SkipZeros(bytes);
    var size := (|bytes| - zeroes) * 138 / 100 + 1;
    RoomForBytes(|bytes| - zeroes);
    var digits := Convert(bytes, zeroes, 256, 58, size);
    str := "";
    for i := 0 to |digits|
      invariant |str| == i && forall j :: 0 <= j < i ==> str[j] == LetterAt(digits[j])
    {
      str := str + [LetterAt(digits[i])];
    }
  }

  predicate IsSpace(c: char)
  {
    c == ' ' || 9 <= c as nat <= 13
  }

  /** The first position from i on that is not a space. */
  function SpacesEnd(s: string, i: nat): (r: nat)
    requires i <= |s|
    ensures i <= r <= |s| && (r < |s| ==> !IsSpace(s[r])) && forall j :: i <= j < r ==> IsSpace(s[j])
    decreases |s| - i
  {
    if i < |s| && IsSpace(s[i]) then SpacesEnd(s, i + 1) else i
  }

  /** The first space from i on. */
  function WordEnd(s: string, i: nat): (r: nat)
    requires i <= |s|
    ensures i <= r <= |s| && (r < |s| ==> IsSpace(s[r])) && forall j :: i <= j < r ==> !IsSpace(s[j])
    decreases |s| - i
  {
    if i < |s| && !IsSpace(s[i]) then WordEnd(s, i + 1) else i
  }

  /** What a string decodes to: it must be one word of the alphabet, with spaces around it if need be. */
  function Decoded(s: string): Option<seq<nat>>
  {
    var a := SpacesEnd(s, 0);
    var b := WordEnd(s, a);
    if Spelled(s[a..b]) && SpacesEnd(s, b) == |s| then Some(Recode(Values(s[a..b]), 58, 256)) else None
  }

  method SkipSpaces(s: string, start: nat) returns (pos: nat)
    requires start <= |s|
    ensures pos == SpacesEnd(s, start)
  {
    pos := start;
    while pos < |s| && IsSpace(s[pos])
      invariant start <= pos <= |s| && SpacesEnd(s, pos) == SpacesEnd(s, start)
    {
      pos := pos + 1;
    }
  }

  lemma ValuesSnoc(s: string, c: char)
    requires Spelled(s) && IndexOf(c).Some?
    ensures Spelled(s + [c]) && Values(s + [c]) == Values(s) + [IndexOf(c).value]
  {
  }

  /** Reads letters into the buffer up to a space or the end. */
  method ReadWord(s: string, first: nat, buffer: array<nat>) returns (pos: nat, ok: bool)
    requires first <= |s| && Pow(58, |s| - first) < Pow(256, buffer.Length)
    requires forall i :: 0 <= i < buffer.Length ==> buffer[i] == 0
    modifies buffer
    ensures ok ==> pos == WordEnd(s, first) && Spelled(s[first..pos])
    ensures ok ==> Digits(buffer[..], 256) && Num(buffer[..], 256) == Num(Values(s[first..pos]), 58)
    ensures !ok ==> pos < WordEnd(s, first) && first <= pos && IndexOf(s[pos]).None?
  {
    hide Num, Held, Scaled, Pow;
    NumOfZeros(buffer[..], 256);
    NumOfZeros([], 58);
    ghost var end := WordEnd(s, first);
    ghost var v: seq<nat> := [];
    pos := first;
    assert s[first..first] == [];
    while pos < |s| && !IsSpace(s[pos])
      invariant first <= pos <= |s| && WordEnd(s, pos) == end
      invariant Spelled(s[first..pos]) && v == Values(s[first..pos])
      invariant Digits(buffer[..], 256) && Num(buffer[..], 256) == Num(v, 58)
    {
      var ch := IndexOf(s[pos]);
      if ch.None? {
        return pos, false;
      }
      ghost var was := buffer[..];
      var carry := AddDigit(buffer, 256, 58, ch.value);
      NoCarry(carry, buffer[..], 256, was, 58, ch.value, v, |s| - first);
      assert carry == 0;
      ValuesSnoc(s[first..pos], s[pos]);
      assert s[first..pos + 1] == s[first..pos] + [s[pos]];
      v := v + [ch.value];
      pos := pos + 1;
    }
    return pos, true;
  }

  /** The ones in front of a word are its leading zeros. */
  lemma OnesAreZeros(s: string, start: nat, first: nat, pos: nat)
    requires start <= first <= pos <= |s| && Spelled(s[first..pos])
    requires forall i :: start <= i < first ==> s[i] == '1'
    requires first < pos ==> s[first] != '1'
    ensures Spelled(s[start..pos])
    ensures Recode(Values(s[start..pos]), 58, 256) ==
      Zeros(first - start) + Minimal(Num(Values(s[first..pos]), 58), 256)
  {
    hide Num, Minimal, LeadingZeros, Recode, IndexOf, LetterAt;
    var word, rest := s[start..pos], s[first..pos];
    var k := first - start;
    OneIsZero();
    assert word == s[start..first] + rest;
    forall i | 0 <= i < |word|
      ensures IndexOf(word[i]).Some? && (i < k ==> IndexOf(word[i]) == Some(0))
    {
      if i >= k {
        assert word[i] == rest[i - k];
      }
    }
    var v := Values(word);
    assert v == Zeros(k) + Values(rest);
    if first < pos {
      assert rest[0] == s[first];
      OnlyOneIsZero(rest[0]);
    }
    RecodeOfZeros(k, Values(rest));
  }

  lemma OneIsZero()
    ensures IndexOf('1') == Some(0)
  {
  }

  lemma OnlyOneIsZero(c: char)
    requires c != '1'
    ensures IndexOf(c) != Some(0)
  {
  }

  lemma RecodeOfZeros(k: nat, v: seq<nat>)
    requires v == [] || v[0] != 0
    ensures Recode(Zeros(k) + v, 58, 256) == Zeros(k) + Minimal(Num(v, 58), 256)
  {
    hide Num, Minimal, LeadingZeros;
    LeadingOfZeros(k, v);
    NumWithoutZeros(Zeros(k) + v, k, 58);
    assert (Zeros(k) + v)[k..] == v;
  }

  /** Decodes a string (a C string: there is no zero character in it). */
  method DecodeBase58(s: string) returns (r: Option<seq<nat>>)
    ensures r == Decoded(s)
  {
    hide Num, Pow, Minimal, LeadingZeros, Recode, Spelled, Values, SpacesEnd;
    var start := SkipSpaces(s, 0);
    var first := start;
    while first < |s| && s[first] == '1'
      invariant start <= first <= |s| && forall i :: start <= i < first ==> s[i] == '1'
      invariant WordEnd(s, first) == WordEnd(s, start)
    {
      first := first + 1;
    }
    var zeroes := first - start;
    var b256 := new nat[(|s| - first) * 733 / 1000 + 1](i => 0);
    RoomForDigits(|s| - first);
    var pos, ok := ReadWord(s, first, b256);
    if !ok {
      assert s[start..WordEnd(s, start)][pos - start] == s[pos];
      return None;
    }
    OnesAreZeros(s, start, first, pos);
    var end := SkipSpaces(s, pos);
    if end != |s| {
      return None;
    }
    MinimalOfNum(b256[..], 256);
    var it := SkipZeros(b256[..]);
    return Some(Zeros(zeroes) + b256[it..]);
  }

  // ---------- round trips ----------

  lemma LettersAreNoSpaces(s: string)
    requires Spelled(s)
    ensures forall i :: 0 <= i < |s| ==> !IsSpace(s[i])
  {
  }

  /** A string of letters decodes to its digits. */
  lemma DecodedWord(s: string)
    requires forall i :: 0 <= i < |s| ==> !IsSpace(s[i])
    ensures Decoded(s) == if Spelled(s) then Some(Recode(Values(s), 58, 256)) else None
  {
    assert SpacesEnd(s, 0) == 0 && WordEnd(s, 0) == |s| && SpacesEnd(s, |s|) == |s|;
    assert s[0..|s|] == s;
  }

  /** Spaces around a word make no difference. */
  lemma SpacesAround(front: string, word: string, back: string)
    requires forall i :: 0 <= i < |front| ==> IsSpace(front[i])
    requires forall i :: 0 <= i < |back| ==> IsSpace(back[i])
    requires word != "" && forall i :: 0 <= i < |word| ==> !IsSpace(word[i])
    ensures Decoded(front + word + back) == Decoded(word)
  {
    hide Recode, Spelled, Values, IsSpace;
    var s, a, b := front + word + back, |front|, |front| + |word|;
    assert forall i :: 0 <= i < a ==> s[i] == front[i];
    assert forall i :: 0 <= i < |word| ==> s[a + i] == word[i];
    assert s[a] == word[0];
    assert forall i :: b <= i < |s| ==> s[i] == back[i - b];
    assert forall i :: a <= i < b ==> s[i] == word[i - a];
    if back != "" {
      assert s[b] == back[0];
    }
    assert SpacesEnd(s, 0) == a;
    assert WordEnd(s, a) == b;
    assert SpacesEnd(s, b) == |s|;
    assert s[a..b] == word;
    DecodedWord(word);
  }

  /** Whatever is accepted is one word of the alphabet between spaces. */
  lemma AcceptedIsOneWord(s: string) returns (a: nat, b: nat)
    requires Decoded(s).Some?
    ensures a <= b <= |s| && Spelled(s[a..b])
    ensures forall i :: 0 <= i < |s| ==> (IsSpace(s[i]) <==> i < a || b <= i)
    ensures Decoded(s) == Some(Recode(Values(s[a..b]), 58, 256))
  {
    a := SpacesEnd(s, 0);
    b := WordEnd(s, a);
  }

  /** Encoding and decoding give every byte string back. */
  lemma DecodeEncode(bytes: seq<nat>)
    requires Digits(bytes, 256)
    ensures Decoded(Encoded(bytes)) == Some(bytes)
  {
    var digits := Recode(bytes, 256, 58);
    SpellInverts(digits, "");
    LettersAreNoSpaces(Spell(digits));
    DecodedWord(Spell(digits));
    RecodeInverts(bytes, 256, 58);
  }

  /** Decoding and encoding give every accepted string back that has no spaces around it. */
  lemma EncodeDecode(s: string)
    requires Decoded(s).Some? && forall i :: 0 <= i < |s| ==> !IsSpace(s[i])
    ensures Digits(Decoded(s).value, 256) && Encoded(Decoded(s).value) == s
  {
    DecodedWord(s);
    SpellInverts([], s);
    RecodeInverts(Values(s), 58, 256);
  }
}
