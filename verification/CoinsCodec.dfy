/** How the unspent outputs of a transaction are stored: a header code, a bit mask of non-zero bytes, and the
    unspent outputs. */
module CoinsCodec {

  import opened Coins
  import opened Powers
  import opened Words
  import opened Options

  type Bytes = seq<nat>

  // ---------- variable-length integers ----------

  /** The leading bytes of a number, all with the continuation flag. */
  function Leading(m: nat): Bytes
  {
    if m <= 127 then [128 + m] else Leading(m / 128 - 1) + [128 + m % 128]
  }

  /** The stored form; of a negative number only the seven lowest bits are stored. */
  function VarInt(n: int): Bytes
  {
    if n <= 127 then [n % 128] else Leading(n / 128 - 1) + [n % 128]
  }

  /** What is left of a number when it is stored. */
  function Kept(n: int): nat
  {
    if n < 0 then n % 128 else n
  }

  function ReadFrom(n: nat, s: Bytes): Option<(nat, Bytes)>
    decreases |s|
  {
    if s == [] then None
    else if s[0] >= 128 then ReadFrom(n * 128 + s[0] % 128 + 1, s[1..])
    else Some((n * 128 + s[0], s[1..]))
  }

  /** The bytes still to be written for m; last says that there are none behind them yet. */
  function Front(m: int, last: bool): Bytes
    requires last || m >= 0
  {
    if last then VarInt(m) else Leading(m)
  }

  lemma OneDigit(m: int, last: bool, out: Bytes)
    requires last || m >= 0
    ensures m > 127 ==> m / 128 - 1 >= 0
    ensures var digit := m % 128 + if last then 0 else 128;
      Front(m, last) + out == if m > 127 then Front(m / 128 - 1, false) + ([digit] + out) else [digit] + out
  {
    if m > 127 {
      var digit := m % 128 + if last then 0 else 128;
      assert Leading(m / 128 - 1) + [digit] + out == Leading(m / 128 - 1) + ([digit] + out);
    }
  }

  method WriteVarInt(n: int) returns (out: Bytes)
    ensures out == VarInt(n)
  {
    var m := n;
    var last := true;
    out := [];
    assert Front(n, true) + [] == VarInt(n);
    hide Front, VarInt;
    while m > 127
      invariant (last || m >= 0) && (last <==> out == [])
      invariant Front(m, last) + out == VarInt(n)
    {
      OneDigit(m, last, out);
      out := [m % 128 + if last then 0 else 128] + out;
      m := m / 128 - 1;
      last := false;
    }
    OneDigit(m, last, out);
    out := [m % 128 + if last then 0 else 128] + out;
  }

  method ReadVarInt(s: Bytes) returns (r: Option<(nat, Bytes)>)
    ensures r == ReadFrom(0, s)
  {
    var n, rest := 0, s;
    while true
      invariant ReadFrom(n, rest) == ReadFrom(0, s)
      decreases |rest|
    {
      if rest == [] {
        return None;
      }
      var chData := rest[0];
      rest := rest[1..];
      n := n * 128 + chData % 128;
      if chData >= 128 {
        n := n + 1;
      } else {
        return Some((n, rest));
      }
    }
  }

  lemma {:induction false} ReadLeading(m: nat, rest: Bytes)
    ensures ReadFrom(0, Leading(m) + rest) == ReadFrom(m + 1, rest)
  {
    if m <= 127 {
      ReadFlagged(0, m, rest);
    } else {
      var high, low := m / 128 - 1, m % 128;
      assert (high + 1) * 128 + low == m;
      assert Leading(m) + rest == Leading(high) + ([128 + low] + rest);
      hide Leading, ReadFrom;
      ReadLeading(high, [128 + low] + rest);
      ReadFlagged(high + 1, low, rest);
    }
  }

  lemma ReadFlagged(n: nat, low: nat, rest: Bytes)
    requires low < 128
    ensures ReadFrom(n, [128 + low] + rest) == ReadFrom(n * 128 + low + 1, rest)
  {
    assert ([128 + low] + rest)[1..] == rest && (128 + low) % 128 == low;
  }

  /** A number that is not negative is read back, and nothing after it is touched. */
  lemma VarIntInverts(n: int, rest: Bytes)
    ensures ReadFrom(0, VarInt(n) + rest) == Some((Kept(n), rest))
  {
    if n <= 127 {
      assert ([n % 128] + rest)[1..] == rest;
    } else {
      var next := [n % 128] + rest;
      assert VarInt(n) + rest == Leading(n / 128 - 1) + next;
      ReadLeading(n / 128 - 1, next);
      assert next[1..] == rest;
    }
  }

  /** All bytes but the last have the continuation flag. */
  predicate IsForm(a: Bytes)
  {
    a != [] && a[|a| - 1] < 128 && forall i :: 0 <= i < |a| - 1 ==> 128 <= a[i] < 256
  }

  /** The number that a form stands for: its last byte, and one more than each earlier byte, without the flag, times
      128 to the power of its distance from the end. */
  function Sum(a: Bytes, n: nat): nat
    requires n < |a|
  {
    if n == 0 then a[|a| - 1] % 128 else Sum(a, n - 1) + (a[|a| - 1 - n] % 128 + 1) * Pow(128, n)
  }

  lemma {:induction false} SumSnoc(a: Bytes, y: nat, n: nat)
    requires n < |a|
    ensures Sum(a + [y], n + 1) == y % 128 + 128 * (Sum(a, n) + 1)
  {
    if n == 0 {
      assert Pow(128, 1) == 128 * Pow(128, 0);
    } else {
      SumSnoc(a, y, n - 1);
      Scaled(a[|a| - 1 - n] % 128 + 1, Pow(128, n));
    }
  }

  lemma Scaled(x: nat, p: nat)
    ensures x * (128 * p) == 128 * (x * p)
  {
  }

  /** A last byte: the low digit of the value, whether it has the flag or not. */
  lemma SumLast(front: Bytes, x: nat)
    requires front != [] && x < 256
    ensures Sum(front + [x], |front|)
         == (if x < 128 then x else x - 128) + 128 * (Sum(front, |front| - 1) + 1)
  {
    hide Sum;
    SumSnoc(front, x, |front| - 1);
  }

  lemma LeadingSnoc(m: nat, low: nat, n: nat)
    requires low < 128 && n == low + 128 * (m + 1)
    ensures Leading(n) == Leading(m) + [128 + low]
  {
    assert n / 128 - 1 == m && n % 128 == low;
  }

  lemma VarIntSnoc(m: nat, y: nat, n: nat)
    requires y < 128 && n == y + 128 * (m + 1)
    ensures VarInt(n) == Leading(m) + [y]
  {
    hide Leading;
    assert n / 128 - 1 == m && n % 128 == y;
  }

  lemma {:induction false} LeadingOf(a: Bytes)
    requires a != [] && forall i :: 0 <= i < |a| ==> 128 <= a[i] < 256
    ensures Leading(Sum(a, |a| - 1)) == a
  {
    hide Sum, Leading;
    if |a| == 1 {
      OneFlagged(a[0]);
      assert a == [a[0]];
    } else {
      var front, x := a[..|a| - 1], a[|a| - 1];
      LeadingOf(front);
      SumLast(front, x);
      assert front + [x] == a;
      LeadingSnoc(Sum(front, |front| - 1), x - 128, Sum(front + [x], |front|));
    }
  }

  lemma OneFlagged(x: nat)
    requires 128 <= x < 256
    ensures Leading(Sum([x], 0)) == [x]
  {
  }

  lemma OneByte(y: nat)
    requires y < 128
    ensures VarInt(Sum([y], 0)) == [y]
  {
  }

  lemma OneFormOf(front: Bytes, y: nat)
    requires front != [] && y < 128 && forall i :: 0 <= i < |front| ==> 128 <= front[i] < 256
    ensures VarInt(Sum(front + [y], |front|)) == front + [y]
  {
    hide Sum, Leading, VarInt;
    LeadingOf(front);
    SumLast(front, y);
    VarIntSnoc(Sum(front, |front| - 1), y, Sum(front + [y], |front|));
  }

  /** No number has two forms. */
  lemma OneForm(a: Bytes)
    requires IsForm(a)
    ensures VarInt(Sum(a, |a| - 1)) == a
  {
    hide Sum, VarInt;
    var front, y := a[..|a| - 1], a[|a| - 1];
    assert front + [y] == a;
    if front == [] {
      OneByte(y);
    } else {
      OneFormOf(front, y);
    }
  }

  lemma {:induction false} LeadingFlagged(m: nat)
    ensures Leading(m) != [] && forall i :: 0 <= i < |Leading(m)| ==> 128 <= Leading(m)[i] < 256
  {
    if m > 127 {
      LeadingFlagged(m / 128 - 1);
    }
  }

  /** What is written is the form that stands for the number. */
  lemma VarIntMeans(n: nat)
    ensures IsForm(VarInt(n)) && Sum(VarInt(n), |VarInt(n)| - 1) == n
  {
    if n > 127 {
      LeadingFlagged(n / 128 - 1);
    }
    var a := VarInt(n);
    OneForm(a);
    VarIntInverts(n, []);
    VarIntInverts(Sum(a, |a| - 1), []);
  }

  /** Some forms.  The comment beside the routines gives [0x80, 0xff, 0x7f] for 16511 and [0x82, 0xfd, 0x7f] for
      65535; by its own formula these stand for 32895 and 65407. */
  lemma SomeForms()
    ensures VarInt(128) == [0x80, 0x00] && VarInt(255) == [0x80, 0x7f] && VarInt(16384) == [0xff, 0x00]
    ensures VarInt(16511) == [0xff, 0x7f] && VarInt(32895) == [0x80, 0xff, 0x7f]
    ensures VarInt(65535) == [0x82, 0xfe, 0x7f] && VarInt(65407) == [0x82, 0xfd, 0x7f]
  {
    assert Leading(0) == [0x80] && Leading(127) == [0xff];
    assert Leading(128) == Leading(0) + [0x80] && Leading(255) == Leading(0) + [0xff];
    assert Leading(510) == [0x82, 0xfe] && Leading(509) == [0x82, 0xfd];
  }

  // ---------- the mask of unspent outputs ----------

  function Flag(p: bool, n: nat): nat
  {
    if p then Shl(1, n) else 0
  }

  /** The mask byte b, of its first n bits: bit i says whether output 2 + 8 * b + i is unspent. */
  function MaskBits(vout: seq<CTxOut>, b: nat, n: nat): nat
  {
    if n == 0 then 0 else BitOr(MaskBits(vout, b, n - 1), Flag(InMask(vout, b, n - 1), n - 1))
  }

  predicate Unspent(vout: seq<CTxOut>, i: nat)
  {
    i < |vout| && !IsNull(vout[i])
  }

  predicate InMask(vout: seq<CTxOut>, b: nat, i: nat)
  {
    Unspent(vout, 2 + b * 8 + i)
  }

  function MaskByte(vout: seq<CTxOut>, b: nat): nat
  {
    MaskBits(vout, b, 8)
  }

  lemma {:induction false} MaskBitsAre(vout: seq<CTxOut>, b: nat, n: nat, p: nat)
    ensures Bit(MaskBits(vout, b, n), p) == (p < n && InMask(vout, b, p))
  {
    if n == 0 {
      BitOfZero(p);
    } else {
      MaskBitsAre(vout, b, n - 1, p);
      BitOfOr(MaskBits(vout, b, n - 1), Flag(InMask(vout, b, n - 1), n - 1), p);
      BitOfShl(1, n - 1, p);
      BitOfZero(p);
    }
  }

  /** A mask byte is zero exactly when all its outputs are spent. */
  lemma MaskByteZero(vout: seq<CTxOut>, b: nat)
    ensures MaskByte(vout, b) == 0 <==> forall i: nat :: i < 8 ==> !InMask(vout, b, i)
  {
    hide Bit;
    forall i: nat | i < 8
      ensures Bit(MaskByte(vout, b), i) == InMask(vout, b, i)
    {
      MaskBitsAre(vout, b, 8, i);
    }
    if MaskByte(vout, b) == 0 {
      forall i: nat | i < 8
        ensures !InMask(vout, b, i)
      {
        BitOfZero(i);
      }
    } else if forall i: nat :: i < 8 ==> !InMask(vout, b, i) {
      NoBits(vout, b, 8);
    }
  }

  lemma {:induction false} NoBits(vout: seq<CTxOut>, b: nat, n: nat)
    requires forall i: nat :: i < n ==> !InMask(vout, b, i)
    ensures MaskBits(vout, b, n) == 0
  {
    if n > 0 {
      NoBits(vout, b, n - 1);
    }
  }

  function Mask(vout: seq<CTxOut>, n: nat): (m: Bytes)
    ensures |m| == n && forall b :: 0 <= b < n ==> m[b] == MaskByte(vout, b)
  {
    seq(n, b requires 0 <= b < n => MaskByte(vout, b))
  }

  /** How many bytes are looked at, how many of the first n have to be stored, and how many are not zero. */
  function AllBytes(vout: seq<CTxOut>): nat
  {
    if |vout| <= 2 then 0 else (|vout| - 2 + 7) / 8
  }

  function Used(vout: seq<CTxOut>, n: nat): (u: nat)
    ensures u <= n && (u > 0 ==> MaskByte(vout, u - 1) != 0)
  {
    if n == 0 then 0 else if MaskByte(vout, n - 1) != 0 then n else Used(vout, n - 1)
  }

  function NonZeros(m: Bytes): nat
  {
    if m == [] then 0 else NonZeros(m[..|m| - 1]) + if m[|m| - 1] != 0 then 1 else 0
  }

  lemma MaskNext(vout: seq<CTxOut>, n: nat)
    ensures NonZeros(Mask(vout, n + 1)) == NonZeros(Mask(vout, n)) + if MaskByte(vout, n) != 0 then 1 else 0
  {
    assert Mask(vout, n + 1)[..n] == Mask(vout, n);
  }

  lemma {:induction false} UsedHoldsAll(vout: seq<CTxOut>, n: nat)
    ensures NonZeros(Mask(vout, Used(vout, n))) == NonZeros(Mask(vout, n))
  {
    hide MaskBits, NonZeros;
    if n > 0 {
      MaskNext(vout, n - 1);
      if MaskByte(vout, n - 1) == 0 {
        UsedHoldsAll(vout, n - 1);
      }
    }
  }

  method CalcMaskSize(vout: seq<CTxOut>) returns (nBytes: nat, nNonzeroBytes: nat)
    ensures nBytes == Used(vout, AllBytes(vout))
    ensures nNonzeroBytes == NonZeros(Mask(vout, AllBytes(vout)))
  {
    hide MaskBits;
    var nLastUsedByte := 0;
    nNonzeroBytes := 0;
    var b := 0;
    while 2 + b * 8 < |vout|
      invariant b <= AllBytes(vout) && (2 + b * 8 < |vout| <==> b < AllBytes(vout))
      invariant nLastUsedByte == Used(vout, b) && nNonzeroBytes == NonZeros(Mask(vout, b))
    {
      var fZero := true;
      var i: nat := 0;
      while i < 8 && 2 + b * 8 + i < |vout|
        invariant 0 <= i <= 8 && fZero == forall j: nat :: j < i ==> !InMask(vout, b, j)
      {
        assert InMask(vout, b, i) == !IsNull(vout[2 + b * 8 + i]);
        if !IsNull(vout[2 + b * 8 + i]) {
          fZero := false;
        }
        i := i + 1;
      }
      assert forall j: nat :: i <= j < 8 ==> !InMask(vout, b, j);
      MaskByteZero(vout, b);
      MaskNext(vout, b);
      if !fZero {
        nLastUsedByte := b + 1;
        nNonzeroBytes := nNonzeroBytes + 1;
      }
      b := b + 1;
    }
    nBytes := nLastUsedByte;
  }

  // ---------- writing ----------

  /** How an unspent output is stored; decoding takes it off the front of a stream. */
  datatype OutCodec = OutCodec(encode: CTxOut -> Bytes, decode: Bytes -> Option<(CTxOut, Bytes)>) {
    ghost predicate Inverts()
    {
      forall out: CTxOut, rest: Bytes :: !IsNull(out) ==> decode(encode(out) + rest) == Some((out, rest))
    }
  }

  function Outs(vout: seq<CTxOut>, codec: OutCodec): Bytes
  {
    if vout == [] then []
    else Outs(vout[..|vout| - 1], codec) + if IsNull(vout[|vout| - 1]) then [] else codec.encode(vout[|vout| - 1])
  }

  /** The unspent outputs are stored one after the other, in their order. */
  lemma {:induction false} OutsInOrder(a: seq<CTxOut>, b: seq<CTxOut>, out: CTxOut, codec: OutCodec)
    ensures Outs(a + b, codec) == Outs(a, codec) + Outs(b, codec)
    ensures Outs([out], codec) == if out.nValue == -1 then [] else codec.encode(out)
    decreases |b|
  {
    assert [out][..0] == [];
    if b == [] {
      assert a + b == a;
    } else {
      var front := b[..|b| - 1];
      OutsInOrder(a, front, out, codec);
      assert (a + b)[..|a + b| - 1] == a + front;
    }
  }

  function Header(c: CCoins): nat
    requires !IsPruned(c)
  {
    var first, second := Unspent(c.vout, 0), Unspent(c.vout, 1);
    var n := NonZeros(Mask(c.vout, AllBytes(c.vout)));
    SomethingUnspent(c);
    8 * (n - if first || second then 0 else 1) + (if c.fCoinBase then 1 else 0) + (if first then 2 else 0)
      + (if second then 4 else 0)
  }

  /** Coins that are not pruned have one of the first two outputs or a mask byte that is not zero. */
  lemma SomethingUnspent(c: CCoins)
    requires !IsPruned(c)
    ensures Unspent(c.vout, 0) || Unspent(c.vout, 1) || NonZeros(Mask(c.vout, AllBytes(c.vout))) > 0
  {
    var i: nat :| i < |c.vout| && !IsNull(c.vout[i]);
    if i >= 2 {
      var b := (i - 2) / 8;
      assert InMask(c.vout, b, (i - 2) % 8);
      MaskByteZero(c.vout, b);
      CountsOne(c.vout, AllBytes(c.vout), b);
    }
  }

  lemma {:induction false} CountsOne(vout: seq<CTxOut>, n: nat, b: nat)
    requires b < n && MaskByte(vout, b) != 0
    ensures NonZeros(Mask(vout, n)) > 0
    decreases n
  {
    hide MaskBits;
    MaskNext(vout, n - 1);
    if b < n - 1 {
      CountsOne(vout, n - 1, b);
    }
  }

  function Serialized(c: CCoins, codec: OutCodec): Bytes
    requires !IsPruned(c)
  {
    VarInt(c.nVersion) + (VarInt(Header(c))
      + (Mask(c.vout, Used(c.vout, AllBytes(c.vout))) + (Outs(c.vout, codec) + VarInt(c.nHeight))))
  }

  /** A stored form starts with the version, then comes a code: its lowest bit says whether it is a coinbase, the next
      two whether the first two outputs are unspent, and the rest how many bytes of the mask are not zero, one fewer if
      neither output is unspent.  The mask, the unspent outputs and the height follow. */
  lemma StoredHeader(c: CCoins, codec: OutCodec) returns (code: nat, after: Bytes, body: Bytes)
    requires !IsPruned(c)
    ensures ReadFrom(0, Serialized(c, codec)) == Some((Kept(c.nVersion), after))
    ensures ReadFrom(0, after) == Some((code, body))
    ensures code % 2 == 1 <==> c.fCoinBase
    ensures code / 2 % 2 == 1 <==> |c.vout| > 0 && c.vout[0].nValue != -1
    ensures code / 4 % 2 == 1 <==> |c.vout| > 1 && c.vout[1].nValue != -1
    ensures code / 8 + (if code / 2 % 2 == 0 && code / 4 % 2 == 0 then 1 else 0)
      == NonZeros(Mask(c.vout, AllBytes(c.vout)))
    ensures body == Mask(c.vout, Used(c.vout, AllBytes(c.vout))) + (Outs(c.vout, codec) + VarInt(c.nHeight))
  {
    hide VarInt, ReadFrom, NonZeros, Outs, MaskBits;
    code := Header(c);
    body := Mask(c.vout, Used(c.vout, AllBytes(c.vout))) + (Outs(c.vout, codec) + VarInt(c.nHeight));
    after := VarInt(code) + body;
    VarIntInverts(c.nVersion, after);
    VarIntInverts(code, body);
    SomethingUnspent(c);
    var first, second := Unspent(c.vout, 0), Unspent(c.vout, 1);
    var n := NonZeros(Mask(c.vout, AllBytes(c.vout)));
    HeaderParts(n - if first || second then 0 else 1, c.fCoinBase, first, second);
  }

  method Serialize(c: CCoins, codec: OutCodec) returns (s: Bytes)
    requires !IsPruned(c)
    ensures s == Serialized(c, codec)
  {
    hide VarInt, MaskBits, Shl;
    var vout := c.vout;
    var nMaskSize, nMaskCode := CalcMaskSize(vout);
    var fFirst := |vout| > 0 && !IsNull(vout[0]);
    var fSecond := |vout| > 1 && !IsNull(vout[1]);
    SomethingUnspent(c);
    assert fFirst || fSecond || nMaskCode > 0;
    var nCode := 8 * (nMaskCode - if fFirst || fSecond then 0 else 1) + (if c.fCoinBase then 1 else 0)
                 + (if fFirst then 2 else 0) + (if fSecond then 4 else 0);
    var version := WriteVarInt(c.nVersion);
    var code := WriteVarInt(nCode);
    var mask: Bytes := WriteMask(vout, nMaskSize);
    var outs := WriteOuts(vout, codec);
    var height := WriteVarInt(c.nHeight);
    s := version + (code + (mask + (outs + height)));
  }

  method WriteMask(vout: seq<CTxOut>, nMaskSize: nat) returns (mask: Bytes)
    ensures mask == Mask(vout, nMaskSize)
  {
    mask := [];
    for b := 0 to nMaskSize
      invariant mask == Mask(vout, b)
    {
      var chAvail := 0;
      for i := 0 to 8
        invariant chAvail == MaskBits(vout, b, i)
      {
        if 2 + b * 8 + i < |vout| && !IsNull(vout[2 + b * 8 + i]) {
          chAvail := BitOr(chAvail, Shl(1, i));
        } else {
          OrZero(chAvail);
        }
      }
      mask := mask + [chAvail];
    }
  }

  method WriteOuts(vout: seq<CTxOut>, codec: OutCodec) returns (outs: Bytes)
    ensures outs == Outs(vout, codec)
  {
    outs := [];
    for i := 0 to |vout|
      invariant outs == Outs(vout[..i], codec)
    {
      if !IsNull(vout[i]) {
        outs := outs + codec.encode(vout[i]);
      }
      assert vout[..i + 1][..i] == vout[..i];
    }
    assert vout[..|vout|] == vout;
  }

  // ---------- reading ----------

  /** Mask bytes are read until the given number of them was not zero. */
  function ReadMask(n: nat, s: Bytes): Option<(Bytes, Bytes)>
    decreases |s|
  {
    if n == 0 then Some(([], s))
    else if s == [] then None
    else After([s[0]], ReadMask(if s[0] != 0 then n - 1 else n, s[1..]))
  }

  /** Which outputs a header and a mask announce. */
  function Announced(first: bool, second: bool, mask: Bytes): (avail: seq<bool>)
    ensures |avail| == 2 + 8 * |mask| && avail[0] == first && avail[1] == second
    ensures forall i: nat :: i < 8 * |mask| ==> avail[2 + i] == Bit(mask[i / 8], i % 8)
  {
    [first, second] + seq(8 * |mask|, i requires 0 <= i < 8 * |mask| => Bit(mask[i / 8], i % 8))
  }

  function ReadOuts(avail: seq<bool>, s: Bytes, codec: OutCodec): Option<(seq<CTxOut>, Bytes)>
  {
    if avail == [] then Some(([], s))
    else if !avail[0] then After([SPENT], ReadOuts(avail[1..], s, codec))
    else
      match codec.decode(s)
      case None => None
      case Some(o) => After([o.0], ReadOuts(avail[1..], o.1, codec))
  }

  function Unserialized(s: Bytes, codec: OutCodec): Option<(CCoins, Bytes)>
  {
    match ReadFrom(0, s)
    case None => None
    case Some(version) =>
      match ReadFrom(0, version.1)
      case None => None
      case Some(code) => ReadBody(version.0, code.0, code.1, codec)
  }

  function ReadBody(nVersion: nat, nCode: nat, s: Bytes, codec: OutCodec): Option<(CCoins, Bytes)>
  {
    var first, second := nCode / 2 % 2 == 1, nCode / 4 % 2 == 1;
    match ReadMask(nCode / 8 + if first || second then 0 else 1, s)
    case None => None
    case Some(mask) =>
      match ReadOuts(Announced(first, second, mask.0), mask.1, codec)
      case None => None
      case Some(outs) =>
        match ReadFrom(0, outs.1)
        case None => None
        case Some(height) => Some((Cleaned(CCoins(nCode % 2 == 1, outs.0, height.0, nVersion)), height.1))
  }

  method Unserialize(s: Bytes, codec: OutCodec) returns (r: Option<(CCoins, Bytes)>)
    ensures r == Unserialized(s, codec)
  {
    hide ReadFrom;
    var version := ReadVarInt(s);
    if version.None? {
      return None;
    }
    var code := ReadVarInt(version.value.1);
    if code.None? {
      return None;
    }
    var nCode := code.value.0;
    var first, second := nCode / 2 % 2 == 1, nCode / 4 % 2 == 1;
    var nMaskCode := nCode / 8 + if first || second then 0 else 1;
    var mask := UnserializeMask(nMaskCode, code.value.1);
    if mask.None? {
      return None;
    }
    var vAvail := Announced(first, second, mask.value.0);
    var outs := UnserializeOuts(vAvail, mask.value.1, codec);
    if outs.None? {
      return None;
    }
    var height := ReadVarInt(outs.value.1);
    if height.None? {
      return None;
    }
    var coins := Cleanup(CCoins(nCode % 2 == 1, outs.value.0, height.value.0, version.value.0));
    return Some((coins, height.value.1));
  }

  /** What has been read already, in front of what is still to be read. */
  function After<T>(front: seq<T>, r: Option<(seq<T>, Bytes)>): Option<(seq<T>, Bytes)>
  {
    match r
    case None => None
    case Some(p) => Some((front + p.0, p.1))
  }

  lemma AfterNothing<T>(r: Option<(seq<T>, Bytes)>)
    ensures After([], r) == r
  {
    if r.Some? {
      assert [] + r.value.0 == r.value.0;
    }
  }

  lemma AfterOne<T>(front: seq<T>, t: T, r: Option<(seq<T>, Bytes)>)
    ensures After(front, After([t], r)) == After(front + [t], r)
  {
    if r.Some? {
      assert front + ([t] + r.value.0) == front + [t] + r.value.0;
    }
  }

  method UnserializeMask(nMaskCode: nat, s: Bytes) returns (r: Option<(Bytes, Bytes)>)
    ensures r == ReadMask(nMaskCode, s)
  {
    var n, rest := nMaskCode, s;
    var mask: Bytes := [];
    AfterNothing(ReadMask(n, s));
    while n > 0
      invariant ReadMask(nMaskCode, s) == After(mask, ReadMask(n, rest))
      decreases |rest|
    {
      if rest == [] {
        return None;
      }
      var chAvail := rest[0];
      rest := rest[1..];
      AfterOne(mask, chAvail, ReadMask(if chAvail != 0 then n - 1 else n, rest));
      mask := mask + [chAvail];
      if chAvail != 0 {
        n := n - 1;
      }
    }
    assert mask + [] == mask;
    return Some((mask, rest));
  }

  method UnserializeOuts(vAvail: seq<bool>, s: Bytes, codec: OutCodec) returns (r: Option<(seq<CTxOut>, Bytes)>)
    ensures r == ReadOuts(vAvail, s, codec)
  {
    var rest := s;
    var vout: seq<CTxOut> := [];
    assert vAvail[0..] == vAvail;
    AfterNothing(ReadOuts(vAvail, s, codec));
    for i := 0 to |vAvail|
      invariant ReadOuts(vAvail, s, codec) == After(vout, ReadOuts(vAvail[i..], rest, codec))
    {
      assert vAvail[i..][1..] == vAvail[i + 1..];
      var out := SPENT;
      if vAvail[i] {
        var next := codec.decode(rest);
        if next.None? {
          return None;
        }
        out, rest := next.value.0, next.value.1;
      }
      AfterOne(vout, out, ReadOuts(vAvail[i + 1..], rest, codec));
      vout := vout + [out];
    }
    assert vout + [] == vout;
    return Some((vout, rest));
  }

  // ---------- the round trip ----------

  /** The reader stops exactly at the end of a mask whose last byte is not zero. */
  lemma {:induction false} MaskReadBack(m: Bytes, rest: Bytes)
    requires m == [] || m[|m| - 1] != 0
    ensures ReadMask(NonZeros(m), m + rest) == Some((m, rest))
  {
    if m == [] {
      assert m + rest == rest;
    } else {
      NonZerosFront(m);
      LastCounts(m);
      assert (m + rest)[1..] == m[1..] + rest;
      MaskReadBack(m[1..], rest);
      assert [m[0]] + m[1..] == m;
    }
  }

  lemma LastCounts(m: Bytes)
    requires m != [] && m[|m| - 1] != 0
    ensures NonZeros(m) > 0
  {
  }

  lemma {:induction false} NonZerosFront(m: Bytes)
    requires m != []
    ensures NonZeros(m) == NonZeros(m[1..]) + if m[0] != 0 then 1 else 0
  {
    if |m| > 1 {
      NonZerosFront(m[..|m| - 1]);
      assert m[..|m| - 1][1..] == m[1..][..|m| - 2];
    }
  }

  /** The flags are those of the outputs, padded with spent ones. */
  ghost predicate Flags(avail: seq<bool>, vout: seq<CTxOut>)
  {
    && |vout| <= |avail|
    && (forall i :: 0 <= i < |vout| ==> avail[i] == !IsNull(vout[i]))
    && (forall i :: |vout| <= i < |avail| ==> !avail[i])
  }

  /** Spent outputs are blank. */
  predicate Canonical(vout: seq<CTxOut>)
  {
    forall i :: 0 <= i < |vout| && IsNull(vout[i]) ==> vout[i] == SPENT
  }

  function Blanks(n: nat): (s: seq<CTxOut>)
    ensures |s| == n && forall i :: 0 <= i < n ==> s[i] == SPENT
  {
    seq(n, i => SPENT)
  }

  lemma {:induction false} OutsFront(vout: seq<CTxOut>, codec: OutCodec)
    requires vout != []
    ensures Outs(vout, codec) == (if IsNull(vout[0]) then [] else codec.encode(vout[0])) + Outs(vout[1..], codec)
  {
    if |vout| > 1 {
      var front := vout[..|vout| - 1];
      OutsFront(front, codec);
      assert front[1..] == vout[1..][..|vout| - 2];
    }
  }

  lemma {:induction false} OutsReadBack(avail: seq<bool>, vout: seq<CTxOut>, rest: Bytes, codec: OutCodec)
    requires codec.Inverts() && Flags(avail, vout) && Canonical(vout)
    ensures ReadOuts(avail, Outs(vout, codec) + rest, codec) == Some((vout + Blanks(|avail| - |vout|), rest))
    decreases |avail|
  {
    var s := Outs(vout, codec) + rest;
    if avail != [] {
      if vout == [] {
        assert s == rest;
        OutsReadBack(avail[1..], [], rest, codec);
        assert [] + rest == rest;
        assert [SPENT] + ([] + Blanks(|avail| - 1)) == [] + Blanks(|avail|);
      } else {
        OutsFront(vout, codec);
        OutsReadBack(avail[1..], vout[1..], rest, codec);
        var more := Outs(vout[1..], codec) + rest;
        if IsNull(vout[0]) {
          assert s == more;
        } else {
          assert s == codec.encode(vout[0]) + more;
        }
        assert [vout[0]] + (vout[1..] + Blanks(|avail| - |vout|)) == vout + Blanks(|avail| - |vout|);
      }
    } else {
      assert s == rest && vout + Blanks(0) == [];
    }
  }

  /** What the mask of trimmed outputs announces is which of them are unspent. */
  lemma AnnouncedRight(vout: seq<CTxOut>)
    requires Trimmed(vout) == vout
    ensures var mask := Mask(vout, Used(vout, AllBytes(vout)));
            Flags(Announced(Unspent(vout, 0), Unspent(vout, 1), mask), vout)
  {
    hide Bit, MaskBits, Used, AllBytes;
    var u := Used(vout, AllBytes(vout));
    var mask := Mask(vout, u);
    var avail := Announced(Unspent(vout, 0), Unspent(vout, 1), mask);
    forall i: nat | i < |avail|
      ensures avail[i] == Unspent(vout, i)
    {
      if i >= 2 {
        var b, p := (i - 2) / 8, (i - 2) % 8;
        MaskBitsAre(vout, b, 8, p);
        assert avail[2 + (i - 2)] == Bit(mask[b], p);
        assert InMask(vout, b, p) == Unspent(vout, i);
      }
    }
    NothingBeyond(vout);
  }

  /** Trimmed outputs end before the last stored mask byte does. */
  lemma NothingBeyond(vout: seq<CTxOut>)
    requires Trimmed(vout) == vout
    ensures |vout| <= 2 + 8 * Used(vout, AllBytes(vout))
  {
    hide MaskByte, Used, AllBytes;
    if |vout| > 2 {
      var b := (|vout| - 3) / 8;
      LastIsUnspent(vout);
      assert InMask(vout, b, (|vout| - 3) % 8);
      MaskByteZero(vout, b);
      UsesLast(vout, b);
    }
  }

  lemma LastIsUnspent(vout: seq<CTxOut>)
    requires vout != [] && Trimmed(vout) == vout
    ensures Unspent(vout, |vout| - 1)
  {
  }

  lemma UsesLast(vout: seq<CTxOut>, b: nat)
    requires |vout| > 2 && b == (|vout| - 3) / 8 && MaskByte(vout, b) != 0
    ensures Used(vout, AllBytes(vout)) == b + 1
  {
    hide MaskByte;
    assert AllBytes(vout) == b + 1;
  }

  lemma HeaderParts(n: nat, c: bool, f: bool, s: bool)
    ensures var code := 8 * n + (if c then 1 else 0) + (if f then 2 else 0) + (if s then 4 else 0);
            code / 8 == n && (code % 2 == 1 <==> c) && (code / 2 % 2 == 1 <==> f) && (code / 4 % 2 == 1 <==> s)
  {
  }

  lemma {:induction false} TrimBlanks(vout: seq<CTxOut>, n: nat)
    ensures Trimmed(vout + Blanks(n)) == Trimmed(vout)
  {
    if n == 0 {
      assert vout + Blanks(0) == vout;
    } else {
      assert (vout + Blanks(n))[..|vout| + n - 1] == vout + Blanks(n - 1);
      TrimBlanks(vout, n - 1);
    }
  }

  // Storing forgets the spent outputs at the end and what other spent outputs still hold.

  function Blanked(vout: seq<CTxOut>): (r: seq<CTxOut>)
    ensures |r| == |vout| && Canonical(r)
    ensures forall i :: 0 <= i < |vout| ==> r[i] == if IsNull(vout[i]) then SPENT else vout[i]
  {
    seq(|vout|, i requires 0 <= i < |vout| => if IsNull(vout[i]) then SPENT else vout[i])
  }

  /** The coins as they come back. */
  function Stored(c: CCoins): CCoins
  {
    CCoins(c.fCoinBase, Blanked(Trimmed(c.vout)), Kept(c.nHeight), Kept(c.nVersion))
  }

  lemma StoredIsClean(c: CCoins)
    ensures Cleaned(Stored(c)) == Stored(c) && Canonical(Stored(c).vout)
    ensures forall i: nat :: Unspent(Stored(c).vout, i) == Unspent(c.vout, i)
    ensures IsPruned(Stored(c)) <==> IsPruned(c)
    ensures Stored(c) == c <==> Cleaned(c) == c && Canonical(c.vout) && 0 <= c.nVersion && 0 <= c.nHeight
  {
    var v := Stored(c).vout;
    assert v == [] || !IsNull(v[|v| - 1]);
    forall i: nat
      ensures Unspent(v, i) == Unspent(c.vout, i)
    {
    }
    if !IsPruned(c) {
      var i: nat :| i < |c.vout| && !IsNull(c.vout[i]);
      assert Unspent(v, i);
    }
    if Cleaned(c) == c && Canonical(c.vout) {
      assert Blanked(c.vout) == c.vout;
    }
    if Stored(c) == c {
      assert |Trimmed(c.vout)| == |c.vout|;
      assert Trimmed(c.vout) == c.vout;
    }
  }

  lemma {:induction false} BitsSame(v: seq<CTxOut>, w: seq<CTxOut>, b: nat, n: nat)
    requires forall i: nat :: Unspent(v, i) == Unspent(w, i)
    ensures MaskBits(v, b, n) == MaskBits(w, b, n)
  {
    if n > 0 {
      BitsSame(v, w, b, n - 1);
      assert InMask(v, b, n - 1) == InMask(w, b, n - 1);
    }
  }

  /** Mask bytes for outputs past the end are zero. */
  lemma PastTheEnd(v: seq<CTxOut>, b: nat)
    requires b >= AllBytes(v)
    ensures MaskByte(v, b) == 0
  {
    MaskByteZero(v, b);
  }

  /** Masks are the same for lists with the same unspent outputs, however long the lists are. */
  lemma {:induction false} MasksSame(v: seq<CTxOut>, w: seq<CTxOut>, n: nat, m: nat)
    requires forall i: nat :: Unspent(v, i) == Unspent(w, i)
    requires AllBytes(w) <= m <= n
    ensures Used(v, n) == Used(w, m) && NonZeros(Mask(v, n)) == NonZeros(Mask(w, m))
    ensures Mask(v, Used(v, n)) == Mask(w, Used(w, m))
    decreases n
  {
    hide MaskByte, AllBytes, NonZeros;
    if n == m {
      MasksEqual(v, w, n);
    } else {
      BitsSame(v, w, n - 1, 8);
      PastTheEnd(w, n - 1);
      ByteIsBits(v, n - 1);
      ByteIsBits(w, n - 1);
      MaskNext(v, n - 1);
      MasksSame(v, w, n - 1, m);
    }
  }

  lemma ByteIsBits(v: seq<CTxOut>, b: nat)
    ensures MaskByte(v, b) == MaskBits(v, b, 8)
  {
  }

  lemma {:induction false} MasksEqual(v: seq<CTxOut>, w: seq<CTxOut>, n: nat)
    requires forall i: nat :: Unspent(v, i) == Unspent(w, i)
    ensures Mask(v, n) == Mask(w, n) && Used(v, n) == Used(w, n)
    ensures Mask(v, Used(v, n)) == Mask(w, Used(w, n))
  {
    hide MaskByte;
    forall b: nat
      ensures MaskByte(v, b) == MaskByte(w, b)
    {
      BitsSame(v, w, b, 8);
      ByteIsBits(v, b);
      ByteIsBits(w, b);
    }
    if n > 0 {
      MasksEqual(v, w, n - 1);
    }
    assert Mask(v, n) == Mask(w, n);
    assert Mask(v, Used(v, n)) == Mask(w, Used(v, n));
  }

  lemma {:induction false} OutsOfTrimmed(v: seq<CTxOut>, codec: OutCodec)
    ensures Outs(Trimmed(v), codec) == Outs(v, codec)
  {
    if v != [] && IsNull(v[|v| - 1]) {
      OutsOfTrimmed(v[..|v| - 1], codec);
    }
  }

  lemma {:induction false} OutsOfBlanked(v: seq<CTxOut>, codec: OutCodec)
    ensures Outs(Blanked(v), codec) == Outs(v, codec)
  {
    if v != [] {
      OutsOfBlanked(v[..|v| - 1], codec);
      assert Blanked(v)[..|v| - 1] == Blanked(v[..|v| - 1]);
    }
  }

  /** Coins and what comes back of them are stored alike. */
  lemma StoredAlike(c: CCoins, codec: OutCodec)
    requires !IsPruned(c)
    ensures !IsPruned(Stored(c)) && Serialized(Stored(c), codec) == Serialized(c, codec)
  {
    hide Trimmed, Blanked, Mask, Used, AllBytes, NonZeros, Outs, Unspent, Canonical, Leading, IsPruned;
    StoredIsClean(c);
    var v := Stored(c).vout;
    FewerBytes(c.vout);
    OutsOfBlanked(Trimmed(c.vout), codec);
    OutsOfTrimmed(c.vout, codec);
    MasksSame(c.vout, v, AllBytes(c.vout), AllBytes(v));
    KeptAlike(c.nVersion);
    KeptAlike(c.nHeight);
  }

  lemma FewerBytes(vout: seq<CTxOut>)
    ensures AllBytes(Blanked(Trimmed(vout))) <= AllBytes(vout)
  {
  }

  lemma KeptAlike(n: int)
    ensures VarInt(Kept(n)) == VarInt(n)
  {
  }

  /** Coins that are not pruned are read back without the spent outputs at the end, with the others blanked,
      and nothing after them is touched. */
  lemma ReadBack(c: CCoins, rest: Bytes, codec: OutCodec)
    requires !IsPruned(c) && codec.Inverts()
    ensures Unserialized(Serialized(c, codec) + rest, codec) == Some((Stored(c), rest))
  {
    hide Stored, Cleaned, Canonical, OutCodec.Inverts, Serialized, Unserialized;
    StoredIsClean(c);
    StoredFits(c);
    StoredAlike(c, codec);
    CleanReadBack(Stored(c), rest, codec);
  }

  lemma StoredFits(c: CCoins)
    ensures 0 <= Stored(c).nVersion && 0 <= Stored(c).nHeight
  {
  }

  /** Exactly when coins are read back as they were: when they are trimmed, their spent outputs are blank, and
      neither version nor height is negative. */
  lemma RoundTrip(c: CCoins, rest: Bytes, codec: OutCodec)
    requires !IsPruned(c) && codec.Inverts()
    ensures Unserialized(Serialized(c, codec) + rest, codec) == Some((c, rest)) <==>
      Cleaned(c) == c && Canonical(c.vout) && 0 <= c.nVersion && 0 <= c.nHeight
  {
    hide Stored, Cleaned, Canonical, OutCodec.Inverts, Serialized, Unserialized;
    ReadBack(c, rest, codec);
    StoredIsClean(c);
  }

  lemma CleanReadBack(c: CCoins, rest: Bytes, codec: OutCodec)
    requires !IsPruned(c) && Cleaned(c) == c && Canonical(c.vout) && 0 <= c.nVersion && 0 <= c.nHeight
    requires codec.Inverts()
    ensures Unserialized(Serialized(c, codec) + rest, codec) == Some((c, rest))
  {
    hide VarInt, ReadFrom, ReadMask, ReadOuts, Announced, Mask;
    hide Used, Outs, NonZeros, Trimmed, OutCodec.Inverts, ReadBody, AllBytes;
    var mask := Mask(c.vout, Used(c.vout, AllBytes(c.vout)));
    var end := VarInt(c.nHeight) + rest;
    var outs := Outs(c.vout, codec) + end;
    var body := mask + outs;
    var code := VarInt(Header(c)) + body;
    assert Serialized(c, codec) + rest == VarInt(c.nVersion) + code;
    VarIntInverts(c.nVersion, code);
    VarIntInverts(Header(c), body);
    VarIntInverts(c.nHeight, rest);
    BodyReadBack(c, mask, end, codec);
    assert ReadBody(c.nVersion, Header(c), body, codec) == Some((c, rest));
  }

  lemma BodyReadBack(c: CCoins, mask: Bytes, end: Bytes, codec: OutCodec)
    requires !IsPruned(c) && Cleaned(c) == c && Canonical(c.vout) && 0 <= c.nVersion && 0 <= c.nHeight
    requires codec.Inverts() && mask == Mask(c.vout, Used(c.vout, AllBytes(c.vout)))
    requires ReadFrom(0, end).Some? && ReadFrom(0, end).value.0 == c.nHeight
    ensures ReadBody(c.nVersion, Header(c), mask + (Outs(c.vout, codec) + end), codec) ==
      Some((c, ReadFrom(0, end).value.1))
  {
    hide ReadFrom, ReadMask, ReadOuts, Announced, Mask, Used;
    hide Outs, NonZeros, Trimmed, OutCodec.Inverts, AllBytes, MaskBits, Canonical;
    var first, second := Unspent(c.vout, 0), Unspent(c.vout, 1);
    var n := NonZeros(Mask(c.vout, AllBytes(c.vout)));
    SomethingUnspent(c);
    HeaderParts(n - if first || second then 0 else 1, c.fCoinBase, first, second);
    UsedHoldsAll(c.vout, AllBytes(c.vout));
    MaskEnds(c.vout);
    MaskReadBack(mask, Outs(c.vout, codec) + end);
    AnnouncedRight(c.vout);
    var avail := Announced(first, second, mask);
    OutsReadBack(avail, c.vout, end, codec);
    TrimBlanks(c.vout, |avail| - |c.vout|);
  }

  lemma MaskEnds(vout: seq<CTxOut>)
    ensures var mask := Mask(vout, Used(vout, AllBytes(vout))); mask == [] || mask[|mask| - 1] != 0
  {
  }
}
