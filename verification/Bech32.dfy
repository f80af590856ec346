/** The Bech32 and Bech32m codes (BIP 173, section "Bech32", and BIP 350, section "Bech32m"). */
module Bech32 {

  import opened Options

  datatype Encoding = BECH32 | BECH32M

  // ---------- one step of the checksum, on 30-bit words ----------

  const LIMIT: bv32 := 0x4000_0000

  function Xor(a: bv32, b: bv32): bv32
  {
    a ^ b
  }

  predicate Has(c0: bv32, mask: bv32)
  {
    c0 & mask != 0
  }

  function Add(c: bv32, p: bool, k: bv32): bv32
  {
    if p then Xor(c, k) else c
  }

  /** Adds the multiples of the generator for the coefficient that was shifted out. */
  function Reduce(c: bv32, c0: bv32): bv32
  {
    Add(Add(Add(Add(Add(c, Has(c0, 1), 0x3b6a57b2), Has(c0, 2), 0x26508e6d), Has(c0, 4), 0x1ea119fa),
            Has(c0, 8), 0x3d4233dd), Has(c0, 16), 0x2a1462b3)
  }

  function Shift(c: bv32, v: bv32): bv32
  {
    ((c & 0x1ffffff) << 5) ^ v
  }

  function Top(c: bv32): bv32
  {
    c >> 25
  }

  function Step(c: bv32, v: bv32): bv32
  {
    Reduce(Shift(c, v), Top(c))
  }

  lemma XorCommutes(a: bv32, b: bv32)
    ensures Xor(a, b) == Xor(b, a)
  {
  }

  lemma XorAssociates(a: bv32, b: bv32, c: bv32)
    ensures Xor(Xor(a, b), c) == Xor(a, Xor(b, c))
  {
  }

  lemma XorSelf(a: bv32)
    ensures Xor(a, a) == 0 && Xor(a, 0) == a && Xor(0, a) == a
  {
  }

  lemma XorCancels(a: bv32, b: bv32)
    ensures Xor(a, Xor(a, b)) == b
  {
    hide Xor;
    XorAssociates(a, a, b);
    XorSelf(a);
    XorSelf(b);
  }

  lemma XorPairs(c: bv32, d: bv32, k: bv32)
    ensures Xor(Xor(c, k), Xor(d, k)) == Xor(c, d)
    ensures Xor(Xor(c, d), k) == Xor(Xor(c, k), d) == Xor(c, Xor(d, k))
  {
    hide Xor;
    XorAssociates(c, k, Xor(d, k));
    XorCommutes(d, k);
    XorCancels(k, d);
    XorAssociates(c, d, k);
    XorAssociates(c, k, d);
  }

  lemma HasLinear(a: bv32, b: bv32, mask: bv32)
    requires mask == 1 || mask == 2 || mask == 4 || mask == 8 || mask == 16
    ensures Has(Xor(a, b), mask) == (Has(a, mask) != Has(b, mask))
  {
  }

  lemma AddLinear(c: bv32, d: bv32, p: bool, q: bool, k: bv32)
    ensures Add(Xor(c, d), p != q, k) == Xor(Add(c, p, k), Add(d, q, k))
  {
    hide Xor;
    XorPairs(c, d, k);
  }

  lemma ReduceLinear(c: bv32, d: bv32, a: bv32, b: bv32)
    ensures Reduce(Xor(c, d), Xor(a, b)) == Xor(Reduce(c, a), Reduce(d, b))
  {
    hide Add, Xor, Has;
    HasLinear(a, b, 1);
    HasLinear(a, b, 2);
    HasLinear(a, b, 4);
    HasLinear(a, b, 8);
    HasLinear(a, b, 16);
    var c1, d1 := Add(c, Has(a, 1), 0x3b6a57b2), Add(d, Has(b, 1), 0x3b6a57b2);
    AddLinear(c, d, Has(a, 1), Has(b, 1), 0x3b6a57b2);
    var c2, d2 := Add(c1, Has(a, 2), 0x26508e6d), Add(d1, Has(b, 2), 0x26508e6d);
    AddLinear(c1, d1, Has(a, 2), Has(b, 2), 0x26508e6d);
    var c3, d3 := Add(c2, Has(a, 4), 0x1ea119fa), Add(d2, Has(b, 4), 0x1ea119fa);
    AddLinear(c2, d2, Has(a, 4), Has(b, 4), 0x1ea119fa);
    var c4, d4 := Add(c3, Has(a, 8), 0x3d4233dd), Add(d3, Has(b, 8), 0x3d4233dd);
    AddLinear(c3, d3, Has(a, 8), Has(b, 8), 0x3d4233dd);
    AddLinear(c4, d4, Has(a, 16), Has(b, 16), 0x2a1462b3);
  }

  lemma ShiftLinear(c: bv32, d: bv32, v: bv32, w: bv32)
    ensures Shift(Xor(c, d), Xor(v, w)) == Xor(Shift(c, v), Shift(d, w)) && Top(Xor(c, d)) == Xor(Top(c), Top(d))
  {
  }

  /** A step is linear over GF(2). */
  lemma StepLinear(c: bv32, d: bv32, v: bv32, w: bv32)
    ensures Step(Xor(c, d), Xor(v, w)) == Xor(Step(c, v), Step(d, w))
  {
    hide Reduce, Shift, Top, Xor;
    ShiftLinear(c, d, v, w);
    ReduceLinear(Shift(c, v), Shift(d, w), Top(c), Top(d));
  }

  lemma AddSmall(c: bv32, p: bool, k: bv32)
    requires c < LIMIT && k < LIMIT
    ensures Add(c, p, k) < LIMIT
  {
    hide Xor;
    XorSmall(c, k);
  }

  lemma ReduceSmall(c: bv32, c0: bv32)
    requires c < LIMIT
    ensures Reduce(c, c0) < LIMIT
  {
    hide Add, Has;
    var c1 := Add(c, Has(c0, 1), 0x3b6a57b2);
    AddSmall(c, Has(c0, 1), 0x3b6a57b2);
    var c2 := Add(c1, Has(c0, 2), 0x26508e6d);
    AddSmall(c1, Has(c0, 2), 0x26508e6d);
    var c3 := Add(c2, Has(c0, 4), 0x1ea119fa);
    AddSmall(c2, Has(c0, 4), 0x1ea119fa);
    var c4 := Add(c3, Has(c0, 8), 0x3d4233dd);
    AddSmall(c3, Has(c0, 8), 0x3d4233dd);
    AddSmall(c4, Has(c0, 16), 0x2a1462b3);
  }

  lemma ShiftSmall(c: bv32, v: bv32)
    requires v < 32
    ensures Shift(c, v) < LIMIT
  {
  }

  lemma StepSmall(c: bv32, v: bv32)
    requires c < LIMIT && v < 32
    ensures Step(c, v) < LIMIT
  {
    hide Reduce, Shift;
    ShiftSmall(c, v);
    ReduceSmall(Shift(c, v), Top(c));
  }

  /** The constant coefficient of the generator is not a zero divisor. */
  lemma LastCoefficient(c: bv32, c0: bv32)
    requires c0 < 32 && c & 31 == 0 && Reduce(c, c0) & 31 == 0
    ensures c0 == 0
  {
  }

  lemma ReduceNone(c: bv32)
    ensures Reduce(c, 0) == c
  {
  }

  lemma StepOnlyZero(c: bv32)
    requires c < LIMIT && Step(c, 0) == 0
    ensures c == 0
  {
    hide Reduce;
    assert Shift(c, 0) & 31 == 0 && Top(c) < 32;
    LastCoefficient(Shift(c, 0), Top(c));
    ReduceNone(Shift(c, 0));
  }

  lemma XorSmall(c: bv32, d: bv32)
    ensures c < LIMIT && d < LIMIT ==> Xor(c, d) < LIMIT
    ensures Xor(c, d) == 0 ==> c == d
  {
  }

  /** Different words stay different. */
  lemma StepInjective(c: bv32, d: bv32, v: bv32)
    requires c < LIMIT && d < LIMIT && Step(c, v) == Step(d, v)
    ensures c == d
  {
    hide Step, Xor;
    StepLinear(c, d, v, v);
    XorSelf(v);
    XorSelf(Step(c, v));
    XorSmall(c, d);
    StepOnlyZero(Xor(c, d));
  }

  lemma StepDistinguishes(c: bv32, v: bv32, w: bv32)
    requires Step(c, v) == Step(c, w)
    ensures v == w
  {
    hide Step, Xor;
    StepLinear(c, c, v, w);
    XorSelf(c);
    XorSelf(Step(c, v));
    StepOfZero(Xor(v, w));
    XorSmall(v, w);
  }

  lemma StepOfZero(v: bv32)
    ensures Step(0, v) == v
  {
  }

  // ---------- the checksum of a list ----------

  type Data = seq<bv32>

  predicate Small(v: Data)
  {
    forall i :: 0 <= i < |v| ==> v[i] < 32
  }

  function Poly(c: bv32, v: Data): bv32
  {
    if v == [] then c else Step(Poly(c, v[..|v| - 1]), v[|v| - 1])
  }

  method PolyMod(v: Data) returns (c: bv32)
    ensures c == Poly(1, v)
  {
    hide Reduce;
    c := 1;
    assert v[..0] == [];
    for i := 0 to |v|
      invariant c == Poly(1, v[..i])
    {
      var c0 := c >> 25;
      c := ((c & 0x1ffffff) << 5) ^ v[i];
      c := Reduce(c, c0);
      assert v[..i + 1][..i] == v[..i];
    }
    assert v[..|v|] == v;
  }

  lemma {:induction false} PolySmall(c: bv32, v: Data)
    requires c < LIMIT && Small(v)
    ensures Poly(c, v) < LIMIT
  {
    hide Step;
    if v != [] {
      PolySmall(c, v[..|v| - 1]);
      StepSmall(Poly(c, v[..|v| - 1]), v[|v| - 1]);
    }
  }

  lemma {:induction false} PolyAppend(c: bv32, a: Data, b: Data)
    ensures Poly(c, a + b) == Poly(Poly(c, a), b)
  {
    hide Step;
    if b == [] {
      assert a + b == a;
    } else {
      PolyAppend(c, a, b[..|b| - 1]);
      assert (a + b)[..|a + b| - 1] == a + b[..|b| - 1];
    }
  }

  ghost predicate IsSum(u: Data, v: Data, w: Data)
  {
    |u| == |v| == |w| && forall i :: 0 <= i < |u| ==> u[i] == Xor(v[i], w[i])
  }

  /** The checksum is linear: that of a sum of lists is the sum of theirs. */
  lemma {:induction false} PolyLinear(c: bv32, d: bv32, u: Data, v: Data, w: Data)
    requires IsSum(u, v, w)
    ensures Poly(Xor(c, d), u) == Xor(Poly(c, v), Poly(d, w))
  {
    hide Step, Xor;
    if u != [] {
      var n := |u| - 1;
      PolyLinear(c, d, u[..n], v[..n], w[..n]);
      StepLinear(Poly(c, v[..n]), Poly(d, w[..n]), v[n], w[n]);
    }
  }

  /** Lists that start from different words never come together again. */
  lemma {:induction false} PolyInjective(c: bv32, d: bv32, v: Data)
    requires c < LIMIT && d < LIMIT && Small(v) && Poly(c, v) == Poly(d, v)
    ensures c == d
  {
    hide Step;
    if v != [] {
      var n := |v| - 1;
      PolySmall(c, v[..n]);
      PolySmall(d, v[..n]);
      StepInjective(Poly(c, v[..n]), Poly(d, v[..n]), v[n]);
      PolyInjective(c, d, v[..n]);
    }
  }

  /** A single wrong value is always noticed, however long the list. */
  lemma OneErrorShows(v: Data, i: nat, x: bv32)
    requires i < |v| && Small(v) && x < 32 && x != v[i]
    ensures Poly(1, v[i := x]) != Poly(1, v)
  {
    hide Step;
    var w := v[i := x];
    assert v == v[..i] + [v[i]] + v[i + 1..] && w == v[..i] + [x] + v[i + 1..];
    var p := Poly(1, v[..i]);
    PolyAppend(1, v[..i], [v[i]]);
    PolyAppend(1, v[..i], [x]);
    PolyAppend(1, v[..i] + [v[i]], v[i + 1..]);
    PolyAppend(1, v[..i] + [x], v[i + 1..]);
    PolyOne(p, v[i]);
    PolyOne(p, x);
    PolySmall(1, v[..i]);
    StepSmall(p, v[i]);
    StepSmall(p, x);
    if Poly(1, w) == Poly(1, v) {
      PolyInjective(Step(p, v[i]), Step(p, x), v[i + 1..]);
      StepDistinguishes(p, v[i], x);
    }
  }

  lemma PolyOne(c: bv32, x: bv32)
    ensures Poly(c, [x]) == Step(c, x)
  {
    assert [x][..0] == [];
  }

  // ---------- making and checking checksums ----------

  const ZEROS: Data := [0, 0, 0, 0, 0, 0]

  /** The 5-bit groups of a 30-bit word. */
  function Groups(m: bv32): (g: Data)
    ensures |g| == 6
  {
    [(m >> 25) & 31, (m >> 20) & 31, (m >> 15) & 31, (m >> 10) & 31, (m >> 5) & 31, m & 31]
  }

  lemma GroupsSmall(m: bv32)
    ensures Small(Groups(m))
  {
  }

  lemma PolyOfSix(c: bv32, g: Data)
    requires |g| == 6
    ensures Poly(c, g) == Step(Step(Step(Step(Step(Step(c, g[0]), g[1]), g[2]), g[3]), g[4]), g[5])
  {
    hide Step, Poly;
    PolyNext(c, g, 0);
    PolyNext(c, g, 1);
    PolyNext(c, g, 2);
    PolyNext(c, g, 3);
    PolyNext(c, g, 4);
    PolyNext(c, g, 5);
    assert g[..0] == [] && g[..6] == g;
    PolyEmpty(c);
  }

  lemma PolyEmpty(c: bv32)
    ensures Poly(c, []) == c
  {
  }

  lemma PolyNext(c: bv32, g: Data, k: nat)
    requires k < |g|
    ensures Poly(c, g[..k + 1]) == Step(Poly(c, g[..k]), g[k])
  {
    assert g[..k + 1][..k] == g[..k];
  }

  /** From zero, six values are just packed together. */
  lemma PackGroups(m: bv32)
    requires m < LIMIT
    ensures Poly(0, Groups(m)) == m
  {
    PolyOfSix(0, Groups(m));
    PackWord(m);
  }

  lemma PackWord(m: bv32)
    requires m < LIMIT
    ensures Step(Step(Step(Step(Step(Step(0, (m >> 25) & 31), (m >> 20) & 31), (m >> 15) & 31), (m >> 10) & 31),
      (m >> 5) & 31), m & 31) == m
  {
  }

  function Join(c: bv32, v: bv32): bv32
  {
    (c << 5) | v
  }

  lemma StepJoins(c: bv32, v: bv32)
    requires c < 0x200_0000 && v < 32
    ensures Step(c, v) == Join(c, v)
  {
  }

  lemma StepGrows(c: bv32, v: bv32)
    requires c < 0x10_0000 && v < 32
    ensures Step(c, v) < 0x200_0000
    ensures c < 0x8000 ==> Step(c, v) < 0x10_0000
    ensures c < 0x400 ==> Step(c, v) < 0x8000
    ensures c < 0x20 ==> Step(c, v) < 0x400
    ensures c == 0 ==> Step(c, v) < 0x20
  {
  }

  lemma Split(c: bv32, v: bv32)
    requires c < 0x200_0000 && v < 32
    ensures Last(Join(c, v)) == v && Down(Join(c, v)) == c
  {
  }

  lemma GroupsShifted(m: bv32)
    ensures Groups(m) == [(((((m >> 5) >> 5) >> 5) >> 5) >> 5) & 31, ((((m >> 5) >> 5) >> 5) >> 5) & 31,
                          (((m >> 5) >> 5) >> 5) & 31, ((m >> 5) >> 5) & 31, (m >> 5) & 31, m & 31]
  {
    assert ((((m >> 5) >> 5) >> 5) >> 5) >> 5 == m >> 25;
    assert (((m >> 5) >> 5) >> 5) >> 5 == m >> 20;
    assert ((m >> 5) >> 5) >> 5 == m >> 15;
    assert (m >> 5) >> 5 == m >> 10;
  }

  function Down(m: bv32): bv32
  {
    m >> 5
  }

  function Last(m: bv32): bv32
  {
    m & 31
  }

  lemma GroupsOf(m: bv32)
    ensures Groups(m) == [Last(Down(Down(Down(Down(Down(m)))))), Last(Down(Down(Down(Down(m))))),
      Last(Down(Down(Down(m)))),
                          Last(Down(Down(m))), Last(Down(m)), Last(m)]
  {
    GroupsShifted(m);
  }

  lemma StepSplits(c: bv32, v: bv32)
    requires c < 0x200_0000 && v < 32
    ensures Down(Step(c, v)) == c && Last(Step(c, v)) == v
  {
    hide Step, Join, Down, Last;
    StepJoins(c, v);
    Split(c, v);
  }

  lemma UnpackWord(a: bv32, b: bv32, c: bv32, d: bv32, e: bv32, f: bv32)
    requires a < 32 && b < 32 && c < 32 && d < 32 && e < 32 && f < 32
    ensures Groups(Step(Step(Step(Step(Step(Step(0, a), b), c), d), e), f)) == [a, b, c, d, e, f]
  {
    hide Step, Down, Last, Groups;
    var m1 := Step(0, a);
    StepSplits(0, a);
    StepGrows(0, a);
    var m2 := Step(m1, b);
    StepSplits(m1, b);
    StepGrows(m1, b);
    var m3 := Step(m2, c);
    StepSplits(m2, c);
    StepGrows(m2, c);
    var m4 := Step(m3, d);
    StepSplits(m3, d);
    StepGrows(m3, d);
    var m5 := Step(m4, e);
    StepSplits(m4, e);
    StepGrows(m4, e);
    StepSplits(m5, f);
    GroupsOf(Step(m5, f));
  }

  /** What six final values contribute. */
  lemma SixValues(p: bv32, g: Data)
    requires |g| == 6
    ensures Poly(p, g) == Xor(Poly(p, ZEROS), Poly(0, g))
  {
    hide Step, Xor;
    XorSelf(p);
    forall i | 0 <= i < 6
      ensures g[i] == Xor(ZEROS[i], g[i])
    {
      XorSelf(g[i]);
    }
    PolyLinear(p, 0, g, ZEROS, g);
  }

  /** Appending the groups of the right word makes the checksum any constant wanted, and nothing else does. */
  lemma ChecksumIsRight(x: Data, g: Data, k: bv32)
    requires Small(x) && Small(g) && |g| == 6 && k < LIMIT
    ensures Poly(1, x + g) == k <==> g == Groups(Xor(Poly(1, x + ZEROS), k))
  {
    hide Step, Xor, Groups;
    var p := Poly(1, x);
    var m := Poly(1, x + ZEROS);
    PolyAppend(1, x, g);
    PolyAppend(1, x, ZEROS);
    SixValues(p, g);
    assert Small(x + ZEROS);
    PolySmall(1, x + ZEROS);
    XorSmall(m, k);
    PackGroups(Xor(m, k));
    XorCancels(m, k);
    if Poly(1, x + g) == k {
      XorCancels(m, Poly(0, g));
      PolyOfSix(0, g);
      UnpackWord(g[0], g[1], g[2], g[3], g[4], g[5]);
      assert g == [g[0], g[1], g[2], g[3], g[4], g[5]];
    }
  }

  // ---------- the character set ----------

  function CharsetAt(c: bv32): char
    requires c < 32
  {
    if c < 8 then First(c) else if c < 16 then Second(c - 8) else if c < 24 then Third(c - 16) else Fourth(c - 24)
  }

  function First(c: bv32): char
  {
    if c == 0 then 'q'
    else if c == 1 then 'p'
    else if c == 2 then 'z'
    else if c == 3 then 'r'
    else if c == 4 then 'y'
    else if c == 5 then '9'
    else if c == 6 then 'x'
    else '8'
  }

  function Second(c: bv32): char
  {
    if c == 0 then 'g'
    else if c == 1 then 'f'
    else if c == 2 then '2'
    else if c == 3 then 't'
    else if c == 4 then 'v'
    else if c == 5 then 'd'
    else if c == 6 then 'w'
    else '0'
  }

  function Third(c: bv32): char
  {
    if c == 0 then 's'
    else if c == 1 then '3'
    else if c == 2 then 'j'
    else if c == 3 then 'n'
    else if c == 4 then '5'
    else if c == 5 then '4'
    else if c == 6 then 'k'
    else 'h'
  }

  function Fourth(c: bv32): char
  {
    if c == 0 then 'c'
    else if c == 1 then 'e'
    else if c == 2 then '6'
    else if c == 3 then 'm'
    else if c == 4 then 'u'
    else if c == 5 then 'a'
    else if c == 6 then '7'
    else 'l'
  }

  function LowerCase(c: char): char
  {
    if 'A' <= c <= 'Z' then (c as nat - 'A' as nat + 'a' as nat) as char else c
  }

  function FirstRev(c: char): Option<bv32>
  {
    match c
    case 'q' => Some(0)
    case 'p' => Some(1)
    case 'z' => Some(2)
    case 'r' => Some(3)
    case 'y' => Some(4)
    case '9' => Some(5)
    case 'x' => Some(6)
    case '8' => Some(7)
    case _ => None
  }

  function SecondRev(c: char): Option<bv32>
  {
    match c
    case 'g' => Some(0)
    case 'f' => Some(1)
    case '2' => Some(2)
    case 't' => Some(3)
    case 'v' => Some(4)
    case 'd' => Some(5)
    case 'w' => Some(6)
    case '0' => Some(7)
    case _ => None
  }

  function ThirdRev(c: char): Option<bv32>
  {
    match c
    case 's' => Some(0)
    case '3' => Some(1)
    case 'j' => Some(2)
    case 'n' => Some(3)
    case '5' => Some(4)
    case '4' => Some(5)
    case 'k' => Some(6)
    case 'h' => Some(7)
    case _ => None
  }

  function FourthRev(c: char): Option<bv32>
  {
    match c
    case 'c' => Some(0)
    case 'e' => Some(1)
    case '6' => Some(2)
    case 'm' => Some(3)
    case 'u' => Some(4)
    case 'a' => Some(5)
    case '7' => Some(6)
    case 'l' => Some(7)
    case _ => None
  }

  /** The reverse table for lower-case letters and digits, eight values at a time; upper-case letters count as
      their lower-case ones. */
  function LowerRev(c: char): Option<bv32>
  {
    if FirstRev(c).Some? then FirstRev(c)
    else if SecondRev(c).Some? then Some(SecondRev(c).value + 8)
    else if ThirdRev(c).Some? then Some(ThirdRev(c).value + 16)
    else if FourthRev(c).Some? then Some(FourthRev(c).value + 24)
    else None
  }

  function CharsetRev(c: char): Option<bv32>
  {
    LowerRev(LowerCase(c))
  }

  predicate IsLower(c: char)
  {
    'a' <= c <= 'z'
  }

  predicate IsUpper(c: char)
  {
    'A' <= c <= 'Z'
  }

  predicate Printable(c: char)
  {
    33 <= c as nat <= 126
  }

  lemma CharsetInverts(c: bv32)
    requires c < 32
    ensures LowerRev(CharsetAt(c)) == Some(c)
    ensures !IsUpper(CharsetAt(c)) && Printable(CharsetAt(c)) && CharsetAt(c) != '1'
  {
    hide First, Second, Third, Fourth, LowerRev;
    if c < 8 {
      FirstInverts(c);
    } else if c < 16 {
      SecondInverts(c - 8);
    } else if c < 24 {
      ThirdInverts(c - 16);
    } else {
      FourthInverts(c - 24);
    }
  }

  lemma FirstInverts(c: bv32)
    requires c < 8
    ensures LowerRev(First(c)) == Some(c)
    ensures !IsUpper(First(c)) && Printable(First(c)) && First(c) != '1'
  {
  }

  lemma SecondInverts(c: bv32)
    requires c < 8
    ensures LowerRev(Second(c)) == Some(c + 8)
    ensures !IsUpper(Second(c)) && Printable(Second(c)) && Second(c) != '1'
  {
  }

  lemma ThirdInverts(c: bv32)
    requires c < 8
    ensures LowerRev(Third(c)) == Some(c + 16)
    ensures !IsUpper(Third(c)) && Printable(Third(c)) && Third(c) != '1'
  {
  }

  lemma FourthInverts(c: bv32)
    requires c < 8
    ensures LowerRev(Fourth(c)) == Some(c + 24)
    ensures !IsUpper(Fourth(c)) && Printable(Fourth(c)) && Fourth(c) != '1'
  {
  }

  lemma RevInverts(c: char)
    ensures LowerRev(c).Some? ==> LowerRev(c).value < 32 && CharsetAt(LowerRev(c).value) == c
  {
    hide First, Second, Third, Fourth, FirstRev, SecondRev, ThirdRev, FourthRev;
    FirstRevInverts(c);
    SecondRevInverts(c);
    ThirdRevInverts(c);
    FourthRevInverts(c);
  }

  lemma FirstRevInverts(c: char)
    ensures FirstRev(c).Some? ==> FirstRev(c).value < 8 && First(FirstRev(c).value) == c
  {
  }

  lemma SecondRevInverts(c: char)
    ensures SecondRev(c).Some? ==> SecondRev(c).value < 8 && Second(SecondRev(c).value) == c
  {
  }

  lemma ThirdRevInverts(c: char)
    ensures ThirdRev(c).Some? ==> ThirdRev(c).value < 8 && Third(ThirdRev(c).value) == c
  {
  }

  lemma FourthRevInverts(c: char)
    ensures FourthRev(c).Some? ==> FourthRev(c).value < 8 && Fourth(FourthRev(c).value) == c
  {
  }

  function Letters(v: Data): (s: string)
    requires Small(v)
    ensures |s| == |v| && forall i :: 0 <= i < |v| ==> s[i] == CharsetAt(v[i])
  {
    seq(|v|, i requires 0 <= i < |v| => CharsetAt(v[i]))
  }

  predicate Readable(s: string)
  {
    forall i :: 0 <= i < |s| ==> CharsetRev(s[i]).Some?
  }

  function Read(s: string): (v: Data)
    requires Readable(s)
    ensures |v| == |s| && forall i :: 0 <= i < |s| ==> CharsetRev(s[i]) == Some(v[i])
  {
    seq(|s|, i requires 0 <= i < |s| => CharsetRev(s[i]).value)
  }

  function Lowered(s: string): (r: string)
    ensures |r| == |s| && forall i :: 0 <= i < |s| ==> r[i] == LowerCase(s[i])
  {
    seq(|s|, i requires 0 <= i < |s| => LowerCase(s[i]))
  }

  lemma ReadLetters(v: Data)
    requires Small(v)
    ensures Readable(Letters(v)) && Read(Letters(v)) == v
    ensures forall i :: 0 <= i < |v| ==> !IsUpper(Letters(v)[i]) && Printable(Letters(v)[i]) && Letters(v)[i] != '1'
  {
    hide CharsetAt, LowerRev;
    forall i | 0 <= i < |v|
      ensures CharsetRev(Letters(v)[i]) == Some(v[i])
      ensures !IsUpper(Letters(v)[i]) && Printable(Letters(v)[i]) && Letters(v)[i] != '1'
    {
      CharsetInverts(v[i]);
    }
  }

  lemma LettersRead(s: string)
    requires Readable(s)
    ensures Small(Read(s)) && Letters(Read(s)) == Lowered(s)
  {
    hide CharsetAt, LowerRev;
    forall i | 0 <= i < |s|
      ensures Read(s)[i] < 32 && CharsetAt(Read(s)[i]) == LowerCase(s[i])
    {
      assert CharsetRev(s[i]) == Some(Read(s)[i]);
      RevInverts(LowerCase(s[i]));
    }
  }

  // ---------- checksums of strings ----------

  function EncodingConstant(e: Encoding): (k: bv32)
  {
    if e == BECH32 then 1 else 0x2bc830a3
  }

  function HighBits(c: char): bv32
  {
    (c as nat % 256 / 32) as bv32
  }

  function LowBits(c: char): bv32
  {
    (c as nat % 32) as bv32
  }

  lemma BitsSmall(c: char)
    ensures HighBits(c) < 32 && LowBits(c) < 32
  {
  }

  lemma BitsAre(c: char)
    ensures HighBits(c) == (c as nat % 256 / 32) as bv32 && LowBits(c) == (c as nat % 32) as bv32
  {
  }

  function Expanded(hrp: string): (v: Data)
    ensures |v| == 2 * |hrp| + 1
  {
    seq(|hrp|, i requires 0 <= i < |hrp| => HighBits(hrp[i])) + [0]
      + seq(|hrp|, i requires 0 <= i < |hrp| => LowBits(hrp[i]))
  }

  lemma ExpandedAt(hrp: string)
    ensures Expanded(hrp)[|hrp|] == 0
    ensures forall i :: 0 <= i < |hrp| ==> Expanded(hrp)[i] == HighBits(hrp[i])
    ensures forall i :: 0 <= i < |hrp| ==> Expanded(hrp)[i + |hrp| + 1] == LowBits(hrp[i])
    ensures Small(Expanded(hrp))
  {
    hide HighBits, LowBits;
    var v := Expanded(hrp);
    forall i | 0 <= i < |v|
      ensures v[i] < 32
    {
      if i < |hrp| {
        BitsSmall(hrp[i]);
      } else if i > |hrp| {
        BitsSmall(hrp[i - |hrp| - 1]);
        assert v[i] == LowBits(hrp[i - |hrp| - 1]);
      }
    }
  }

  method ExpandHRP(hrp: string) returns (v: Data)
    ensures v == Expanded(hrp)
    ensures |v| == 2 * |hrp| + 1 && v[|hrp|] == 0
    ensures forall i :: 0 <= i < |hrp| ==> v[i] == (hrp[i] as nat % 256 / 32) as bv32
    ensures forall i :: 0 <= i < |hrp| ==> v[|hrp| + 1 + i] == (hrp[i] as nat % 32) as bv32
  {
    hide HighBits, LowBits, Expanded;
    var ret := new bv32[2 * |hrp| + 1](i => 0);
    for i := 0 to |hrp|
      invariant forall j :: 0 <= j < i ==> ret[j] == HighBits(hrp[j]) && ret[j + |hrp| + 1] == LowBits(hrp[j])
    {
      ret[i] := HighBits(hrp[i]);
      ret[i + |hrp| + 1] := LowBits(hrp[i]);
    }
    ret[|hrp|] := 0;
    v := ret[..];
    ExpandedAt(hrp);
    forall i | 0 <= i < |hrp|
      ensures v[i] == (hrp[i] as nat % 256 / 32) as bv32 && v[|hrp| + 1 + i] == (hrp[i] as nat % 32) as bv32
    {
      BitsAre(hrp[i]);
      assert v[i + |hrp| + 1] == LowBits(hrp[i]);
    }
    forall i | 0 <= i < |v|
      ensures v[i] == Expanded(hrp)[i]
    {
      if i > |hrp| {
        var j := i - |hrp| - 1;
        assert v[j + |hrp| + 1] == LowBits(hrp[j]) == Expanded(hrp)[j + |hrp| + 1];
      }
    }
  }

  function Verified(hrp: string, values: Data): Option<Encoding>
  {
    var check := Poly(1, Expanded(hrp) + values);
    if check == EncodingConstant(BECH32) then Some(BECH32)
    else if check == EncodingConstant(BECH32M) then Some(BECH32M)
    else None
  }

  /** Bech32 if the remainder is 1, Bech32m if it is 0x2bc830a3, nothing else. */
  method VerifyChecksum(hrp: string, values: Data) returns (r: Option<Encoding>)
    ensures r == Verified(hrp, values)
    ensures r == Some(BECH32) <==> Poly(1, Expanded(hrp) + values) == 1
    ensures r == Some(BECH32M) <==> Poly(1, Expanded(hrp) + values) == 0x2bc830a3
  {
    var expanded := ExpandHRP(hrp);
    var check := PolyMod(expanded + values);
    if check == EncodingConstant(BECH32) {
      return Some(BECH32);
    }
    if check == EncodingConstant(BECH32M) {
      return Some(BECH32M);
    }
    return None;
  }

  function Checksum(e: Encoding, hrp: string, values: Data): Data
  {
    Groups(Xor(Poly(1, Expanded(hrp) + values + ZEROS), EncodingConstant(e)))
  }

  /** Appended to 5-bit values, the result gives the remainder of the encoding. */
  method CreateChecksum(e: Encoding, hrp: string, values: Data) returns (g: Data)
    ensures g == Checksum(e, hrp, values)
    ensures |g| == 6 && Small(g)
    ensures Small(values) ==> Poly(1, Expanded(hrp) + (values + g)) == if e == BECH32 then 1 else 0x2bc830a3
  {
    hide Poly, Expanded, Groups, Xor;
    var expanded := ExpandHRP(hrp);
    var mod := PolyMod(expanded + values + ZEROS);
    mod := Xor(mod, EncodingConstant(e));
    g := Groups(mod);
    GroupsSmall(mod);
    if Small(values) {
      VerifyExactly(e, hrp, values, g);
    }
  }

  /** Six values make a list valid exactly when they are its checksum. */
  lemma VerifyExactly(e: Encoding, hrp: string, values: Data, g: Data)
    requires Small(values) && Small(g) && |g| == 6
    ensures Verified(hrp, values + g) == Some(e) <==> g == Checksum(e, hrp, values)
  {
    hide Poly, Groups, Xor, Expanded;
    ExpandedAt(hrp);
    var x := Expanded(hrp) + values;
    assert x + g == Expanded(hrp) + (values + g);
    ConstantsDiffer();
    ChecksumIsRight(x, g, EncodingConstant(e));
  }

  lemma ConstantsDiffer()
    ensures EncodingConstant(BECH32) != EncodingConstant(BECH32M)
    ensures EncodingConstant(BECH32) < LIMIT && EncodingConstant(BECH32M) < LIMIT
  {
  }

  // ---------- encoding ----------

  predicate NoUpper(s: string)
  {
    forall i :: 0 <= i < |s| ==> !IsUpper(s[i])
  }

  /** The string for a prefix without upper-case letters; empty if a value is not a 5-bit one. */
  function Encoded(e: Encoding, hrp: string, values: Data): string
  {
    GroupsSmall(Xor(Poly(1, Expanded(hrp) + values + ZEROS), EncodingConstant(e)));
    if Small(values) then hrp + "1" + Letters(values + Checksum(e, hrp, values)) else ""
  }

  /** The string is the prefix, a 1 and letters that spell the values and a checksum with the right remainder. */
  lemma EncodedSpells(e: Encoding, hrp: string, values: Data)
    requires Small(values)
    ensures var s, n := Encoded(e, hrp, values), |hrp| + 1;
            && |s| == n + |values| + 6 && s[..n] == hrp + "1"
            && Readable(s[n..]) && Read(s[n..])[..|values|] == values
            && Poly(1, Expanded(hrp) + Read(s[n..])) == if e == BECH32 then 1 else 0x2bc830a3
  {
    hide Groups, Poly, CharsetAt, LowerRev, Xor, Expanded;
    var g := Checksum(e, hrp, values);
    GroupsSmall(Xor(Poly(1, Expanded(hrp) + values + ZEROS), EncodingConstant(e)));
    var s, n := Encoded(e, hrp, values), |hrp| + 1;
    ReadLetters(values + g);
    assert s[..n] == hrp + "1" && s[n..] == Letters(values + g);
    assert (values + g)[..|values|] == values;
    VerifyExactly(e, hrp, values, g);
  }

  method Encode(e: Encoding, hrp: string, values: Data) returns (str: string)
    requires NoUpper(hrp)
    ensures str == Encoded(e, hrp, values)
    ensures str == "" <==> exists i :: 0 <= i < |values| && values[i] >= 32
  {
    hide Groups, Poly, CharsetAt;
    GroupsSmall(Xor(Poly(1, Expanded(hrp) + values + ZEROS), EncodingConstant(e)));
    var checksum := CreateChecksum(e, hrp, values);
    var combined := values + checksum;
    str := hrp + "1";
    for i := 0 to |combined|
      invariant Small(combined[..i]) && str == hrp + "1" + Letters(combined[..i])
    {
      if combined[i] >= 32 {
        assert i < |values|;
        return "";
      }
      str := str + [CharsetAt(combined[i])];
      assert combined[..i + 1] == combined[..i] + [combined[i]];
    }
    assert combined[..|combined|] == combined;
    assert forall i :: 0 <= i < |values| ==> values[i] == combined[i];
  }

  // ---------- decoding ----------

  datatype Decoding = Decoding(encoding: Encoding, hrp: string, values: Data)

  /** The position of the last 1, or -1. */
  function LastOne(s: string): (p: int)
    ensures -1 <= p < |s| && (p >= 0 ==> s[p] == '1') && forall i :: p < i < |s| ==> s[i] != '1'
  {
    if s == [] then -1 else if s[|s| - 1] == '1' then |s| - 1 else LastOne(s[..|s| - 1])
  }

  predicate AllPrintable(s: string)
  {
    forall i :: 0 <= i < |s| ==> Printable(s[i])
  }

  /** Letters of one case only. */
  predicate OneCase(s: string)
  {
    NoUpper(s) || forall i :: 0 <= i < |s| ==> !IsLower(s[i])
  }

  function Decoded(s: string): Option<Decoding>
  {
    var pos := LastOne(s);
    if AllPrintable(s) && OneCase(s) && |s| <= 1023 && 1 <= pos && pos + 7 <= |s| && Readable(s[pos + 1..]) then
      var values := Read(s[pos + 1..]);
      var hrp := Lowered(s[..pos]);
      match Verified(hrp, values)
      case None => None
      case Some(e) => Some(Decoding(e, hrp, values[..|values| - 6]))
    else None
  }

  /** The first loop of Decode: are all characters printable and the letters of one case? */
  method CheckCharacters(str: string) returns (ok: bool)
    ensures ok == (AllPrintable(str) && OneCase(str))
  {
    var lower, upper := false, false;
    for i := 0 to |str|
      invariant AllPrintable(str[..i])
      invariant lower == exists j :: 0 <= j < i && IsLower(str[j])
      invariant upper == exists j :: 0 <= j < i && IsUpper(str[j])
    {
      var c := str[i];
      if IsLower(c) {
        lower := true;
      } else if IsUpper(c) {
        upper := true;
      } else if c as nat < 33 || c as nat > 126 {
        assert !Printable(str[i]);
        return false;
      }
    }
    assert str[..|str|] == str;
    ok := !(lower && upper);
  }

  /** The loop over the data part. */
  method ReadValues(s: string) returns (r: Option<Data>)
    ensures r == if Readable(s) then Some(Read(s)) else None
  {
    hide LowerRev;
    var values: Data := [];
    for i := 0 to |s|
      invariant |values| == i && forall j :: 0 <= j < i ==> CharsetRev(s[j]) == Some(values[j])
    {
      var rev := CharsetRev(s[i]);
      if rev.None? {
        return None;
      }
      values := values + [rev.value];
    }
    assert values == Read(s);
    return Some(values);
  }

  method Decode(str: string) returns (r: Option<Decoding>)
    ensures r == Decoded(str)
    ensures r.Some? ==> var pos := LastOne(str);
      && 1 <= pos && pos + 7 <= |str| <= 1023 && Readable(str[pos + 1..])
      && Poly(1, Expanded(r.value.hrp) + Read(str[pos + 1..]))
         == if r.value.encoding == BECH32 then 1 else 0x2bc830a3
  {
    hide Poly, LowerRev, Verified, AllPrintable, OneCase;
    var ok := CheckCharacters(str);
    if !ok {
      return None;
    }
    var pos := LastOne(str);
    if |str| > 1023 || pos == -1 || pos == 0 || pos + 7 > |str| {
      return None;
    }
    var values := ReadValues(str[pos + 1..]);
    if values.None? {
      return None;
    }
    var hrp := "";
    for i := 0 to pos
      invariant |hrp| == i && forall j :: 0 <= j < i ==> hrp[j] == LowerCase(str[j])
    {
      hrp := hrp + [LowerCase(str[i])];
    }
    assert hrp == Lowered(str[..pos]);
    var result := VerifyChecksum(hrp, values.value);
    if result.None? {
      return None;
    }
    return Some(Decoding(result.value, hrp, values.value[..|values.value| - 6]));
  }

  // ---------- round trips ----------

  lemma LastOneAt(hrp: string, rest: string)
    requires forall i :: 0 <= i < |rest| ==> rest[i] != '1'
    ensures LastOne(hrp + "1" + rest) == |hrp|
  {
    LastOneAppend(hrp + "1", rest);
  }

  lemma LastOneAppend(a: string, rest: string)
    requires a != "" && a[|a| - 1] == '1' && forall i :: 0 <= i < |rest| ==> rest[i] != '1'
    ensures LastOne(a + rest) == |a| - 1
  {
    if rest == "" {
      assert a + rest == a;
    } else {
      var front := rest[..|rest| - 1];
      assert (a + rest)[..|a + rest| - 1] == a + front;
      LastOneAppend(a, front);
    }
  }

  /** What is encoded decodes to itself. */
  lemma DecodeEncode(e: Encoding, hrp: string, values: Data)
    requires hrp != "" && NoUpper(hrp) && AllPrintable(hrp) && Small(values)
    requires |hrp| + 1 + |values| + 6 <= 1023
    ensures Decoded(Encoded(e, hrp, values)) == Some(Decoding(e, hrp, values))
  {
    hide Poly, Groups, CharsetAt, LowerRev, Xor, Verified;
    var g := Checksum(e, hrp, values);
    GroupsSmall(Xor(Poly(1, Expanded(hrp) + values + ZEROS), EncodingConstant(e)));
    var rest := Letters(values + g);
    var s := hrp + "1" + rest;
    ReadLetters(values + g);
    LastOneAt(hrp, rest);
    assert s[..|hrp|] == hrp && s[|hrp| + 1..] == rest;
    forall i | 0 <= i < |s|
      ensures Printable(s[i]) && !IsUpper(s[i])
    {
      assert s[i] == if i < |hrp| then hrp[i] else if i == |hrp| then '1' else rest[i - |hrp| - 1];
    }
    assert Lowered(hrp) == hrp;
    assert (values + g)[..|values|] == values;
    VerifyExactly(e, hrp, values, g);
  }

  lemma LoweredParts(s: string, pos: nat)
    requires pos < |s| && s[pos] == '1'
    ensures Lowered(s) == Lowered(s[..pos]) + "1" + Lowered(s[pos + 1..])
  {
  }

  /** The parts of an accepted string. */
  lemma DecodedParts(s: string) returns (pos: nat)
    requires Decoded(s).Some?
    ensures var d := Decoded(s).value;
      && pos < |s| && s[pos] == '1' && d.hrp == Lowered(s[..pos]) && Readable(s[pos + 1..])
      && |s| >= pos + 7 && d.values == Read(s[pos + 1..])[..|s| - pos - 7]
      && Verified(d.hrp, Read(s[pos + 1..])) == Some(d.encoding)
  {
    hide Verified, Lowered, Readable, Read, AllPrintable, OneCase;
    pos := LastOne(s);
  }

  /** What is accepted encodes to the same string in lower case. */
  lemma EncodeDecode(s: string)
    requires Decoded(s).Some?
    ensures var d := Decoded(s).value; Encoded(d.encoding, d.hrp, d.values) == Lowered(s)
  {
    hide Decoded, Poly, Groups, Xor, Verified, Read, Letters, Lowered, Readable, Checksum, Expanded;
    var d := Decoded(s).value;
    var pos := DecodedParts(s);
    LettersRead(s[pos + 1..]);
    var all := Read(s[pos + 1..]);
    var g := all[|all| - 6..];
    assert d.values + g == all;
    VerifyExactly(d.encoding, d.hrp, d.values, g);
    LoweredParts(s, pos);
  }
}
