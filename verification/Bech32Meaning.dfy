/** What the checksum of Bech32 and Bech32m means: the remainder of a division of polynomials over the field
    of 32 elements by the generator of BIP 173, section "Checksum design". */
module Bech32Meaning {

  import opened Bech32
  import opened Options

  // ---------- the field of 32 elements ----------

  /** The product with the element a, where a^5 + a^3 + 1 is zero. */
  function TimesA(x: bv32): bv32
  {
    if x & 16 == 0 then x << 1 else (x << 1) ^ 41
  }

  function BitMask(i: nat): bv32
  {
    if i == 0 then 1 else if i == 1 then 2 else if i == 2 then 4 else if i == 3 then 8 else 16
  }

  /** The product of two elements, from bit i of the first on, added to what the lower bits gave. */
  function TimesFrom(t: bv32, x: bv32, sum: bv32, i: nat): bv32
    decreases 5 - i
  {
    if i >= 5 then sum else TimesFrom(t, TimesA(x), if t & BitMask(i) != 0 then sum ^ x else sum, i + 1)
  }

  function Times(t: bv32, x: bv32): bv32
  {
    TimesFrom(t, x, 0, 0)
  }

  lemma TimesNext(t: bv32, x: bv32, sum: bv32, i: nat)
    requires i < 5
    ensures TimesFrom(t, x, sum, i) == TimesFrom(t, TimesA(x), Add(sum, Has(t, BitMask(i)), x), i + 1)
  {
    hide TimesA, BitMask;
  }

  lemma TimesIs(t: bv32, x: bv32, x2: bv32, x4: bv32, x8: bv32, x16: bv32)
    requires x2 == TimesA(x) && x4 == TimesA(x2) && x8 == TimesA(x4) && x16 == TimesA(x8)
    ensures Times(t, x) == Add(Add(Add(Add(Add(0, Has(t, 1), x), Has(t, 2), x2), Has(t, 4), x4), Has(t, 8), x8),
                               Has(t, 16), x16)
  {
    hide Add, Has, TimesA, TimesFrom;
    var s1 := Add(0, Has(t, 1), x);
    var s2 := Add(s1, Has(t, 2), x2);
    var s4 := Add(s2, Has(t, 4), x4);
    var s8 := Add(s4, Has(t, 8), x8);
    TimesNext(t, x, 0, 0);
    TimesNext(t, x2, s1, 1);
    TimesNext(t, x4, s2, 2);
    TimesNext(t, x8, s4, 3);
    TimesNext(t, x16, s8, 4);
    TimesEnd(t, TimesA(x16), Add(s8, Has(t, 16), x16));
  }

  lemma TimesEnd(t: bv32, x: bv32, sum: bv32)
    ensures TimesFrom(t, x, sum, 5) == sum
  {
  }

  lemma {:induction false} TimesFromSmall(t: bv32, x: bv32, sum: bv32, i: nat)
    requires x < 32 && sum < 32
    ensures TimesFrom(t, x, sum, i) < 32
    decreases 5 - i
  {
    if i < 5 {
      hide TimesFrom, Has, Add;
      TimesNext(t, x, sum, i);
      TimesASmall(x);
      AddFive(sum, Has(t, BitMask(i)), x);
      TimesFromSmall(t, TimesA(x), Add(sum, Has(t, BitMask(i)), x), i + 1);
    }
  }

  lemma TimesASmall(x: bv32)
    requires x < 32
    ensures TimesA(x) < 32
  {
  }

  lemma AddFive(c: bv32, p: bool, x: bv32)
    requires c < 32 && x < 32
    ensures Add(c, p, x) < 32
  {
  }

  lemma TimesSmall(t: bv32, x: bv32)
    requires x < 32
    ensures Times(t, x) < 32
  {
    hide TimesFrom;
    TimesFromSmall(t, x, 0, 0);
  }

  // ---------- one step: multiplication by x modulo the generator ----------

  /** A multiple of the generator x^6 + {29}x^5 + {22}x^4 + {20}x^3 + {21}x^2 + {29}x + {18}. */
  function Multiple(t: bv32): Data
  {
    [t, Times(t, 29), Times(t, 22), Times(t, 20), Times(t, 21), Times(t, 29), Times(t, 18)]
  }

  /** The six coefficients times x plus a value, less the multiple of the generator that cancels x^6. */
  function Next(g: Data, v: bv32): (r: Data)
    requires |g| == 6
    ensures |r| == 6
  {
    [Xor(g[1], Times(g[0], 29)), Xor(g[2], Times(g[0], 22)), Xor(g[3], Times(g[0], 20)),
     Xor(g[4], Times(g[0], 21)), Xor(g[5], Times(g[0], 29)), Xor(v, Times(g[0], 18))]
  }

  lemma StepMeans(c: bv32, v: bv32)
    requires c < LIMIT && v < 32
    ensures Groups(Step(c, v)) == Next(Groups(c), v)
  {
    hide Reduce, Shift, Top, Xor, Times, Groups;
    var t := Top(c);
    ReduceSplits(Shift(c, v), t);
    GroupsXor(Shift(c, v), Reduce(0, t));
    GroupsShift(c, v);
    GroupsReduce(t);
  }

  lemma ReduceSplits(c: bv32, t: bv32)
    ensures Reduce(c, t) == Xor(c, Reduce(0, t))
  {
    hide Reduce, Xor;
    ReduceLinear(c, 0, 0, t);
    ReduceNone(c);
    XorSelf(c);
    XorSelf(t);
  }

  lemma GroupsXor(a: bv32, b: bv32)
    ensures var g, h := Groups(a), Groups(b);
            Groups(Xor(a, b)) == [Xor(g[0], h[0]), Xor(g[1], h[1]), Xor(g[2], h[2]), Xor(g[3], h[3]),
                                  Xor(g[4], h[4]), Xor(g[5], h[5])]
  {
    hide Xor, Down, Last, Groups;
    GroupsOf(a);
    GroupsOf(b);
    GroupsOf(Xor(a, b));
    var a1, b1 := Down(a), Down(b);
    var a2, b2 := Down(a1), Down(b1);
    var a3, b3 := Down(a2), Down(b2);
    var a4, b4 := Down(a3), Down(b3);
    GroupXor(a, b);
    GroupXor(a1, b1);
    GroupXor(a2, b2);
    GroupXor(a3, b3);
    GroupXor(a4, b4);
    GroupXor(Down(a4), Down(b4));
  }

  lemma GroupXor(a: bv32, b: bv32)
    ensures Down(Xor(a, b)) == Xor(Down(a), Down(b)) && Last(Xor(a, b)) == Xor(Last(a), Last(b))
  {
  }

  lemma GroupsShift(c: bv32, v: bv32)
    requires c < LIMIT && v < 32
    ensures Top(c) == Groups(c)[0] < 32
    ensures var g := Groups(c); Groups(Shift(c, v)) == [g[1], g[2], g[3], g[4], g[5], v]
  {
  }

  lemma GroupsAdd(c: bv32, p: bool, k: bv32)
    ensures var g, h := Groups(c), Groups(k);
            Groups(Add(c, p, k)) == [Add(g[0], p, h[0]), Add(g[1], p, h[1]), Add(g[2], p, h[2]), Add(g[3], p, h[3]),
                                     Add(g[4], p, h[4]), Add(g[5], p, h[5])]
  {
    hide Groups, Xor;
    if p {
      GroupsXor(c, k);
    }
  }

  /** The five constants are the multiples of the lower coefficients by the five bits. */
  lemma ConstantsAre()
    ensures Groups(0x3b6a57b2) == [29, 22, 20, 21, 29, 18] && Groups(0x26508e6d) == [19, 5, 1, 3, 19, 13]
    ensures Groups(0x1ea119fa) == [15, 10, 2, 6, 15, 26] && Groups(0x3d4233dd) == [30, 20, 4, 12, 30, 29]
    ensures Groups(0x2a1462b3) == [21, 1, 8, 24, 21, 19] && Groups(0) == [0, 0, 0, 0, 0, 0]
  {
  }

  lemma MultiplesAre()
    ensures TimesA(29) == 19 && TimesA(19) == 15 && TimesA(15) == 30 && TimesA(30) == 21
    ensures TimesA(22) == 5 && TimesA(5) == 10 && TimesA(10) == 20 && TimesA(20) == 1
    ensures TimesA(1) == 2 && TimesA(2) == 4 && TimesA(4) == 8
    ensures TimesA(21) == 3 && TimesA(3) == 6 && TimesA(6) == 12 && TimesA(12) == 24
    ensures TimesA(18) == 13 && TimesA(13) == 26 && TimesA(26) == 29
  {
  }

  lemma GroupsReduce(t: bv32)
    ensures Groups(Reduce(0, t)) == [Times(t, 29), Times(t, 22), Times(t, 20), Times(t, 21), Times(t, 29), Times(t, 18)]
  {
    hide Add, Has, Groups, Times, TimesA;
    ConstantsAre();
    MultiplesAre();
    var c1 := Add(0, Has(t, 1), 0x3b6a57b2);
    var c2 := Add(c1, Has(t, 2), 0x26508e6d);
    var c4 := Add(c2, Has(t, 4), 0x1ea119fa);
    var c8 := Add(c4, Has(t, 8), 0x3d4233dd);
    GroupsAdd(0, Has(t, 1), 0x3b6a57b2);
    GroupsAdd(c1, Has(t, 2), 0x26508e6d);
    GroupsAdd(c2, Has(t, 4), 0x1ea119fa);
    GroupsAdd(c4, Has(t, 8), 0x3d4233dd);
    GroupsAdd(c8, Has(t, 16), 0x2a1462b3);
    TimesIs(t, 29, 19, 15, 30, 21);
    TimesIs(t, 22, 5, 10, 20, 1);
    TimesIs(t, 20, 1, 2, 4, 8);
    TimesIs(t, 21, 3, 6, 12, 24);
    TimesIs(t, 18, 13, 26, 29, 19);
  }

  // ---------- the checksum as a remainder ----------

  /** The sum of two polynomials, the second of no higher degree: the lists are aligned at the end. */
  function AddAtEnd(d: Data, r: Data): (s: Data)
    requires |r| <= |d|
    ensures |s| == |d|
    ensures forall i :: 0 <= i < |d| - |r| ==> s[i] == d[i]
    ensures forall i :: 0 <= i < |r| ==> s[|d| - |r| + i] == Xor(d[|d| - |r| + i], r[i])
  {
    seq(|d|, i requires 0 <= i < |d| => if i < |d| - |r| then d[i] else Xor(d[i], r[i - (|d| - |r|)]))
  }

  /** The product of a polynomial and the generator: the one but for the last coefficient times x, and the
      last coefficient. */
  function Product(q: Data): (d: Data)
    ensures |d| == |q| + 6
  {
    if q == [] then ZEROS
    else AddAtEnd(Product(q[..|q| - 1]) + [0], Multiple(q[|q| - 1]))
  }

  /** A list with a one in front, as a polynomial, is q times the generator plus r. */
  predicate Division(v: Data, q: Data, r: Data)
  {
    && |q| == |v| && |r| == 6 && Small(q) && Small(r)
    && [0, 0, 0, 0, 0, 1] + v == AddAtEnd(Product(q), r)
  }

  /** One more value: the quotient gets one more coefficient, and the remainder makes one step. */
  lemma DivideOne(v: Data, q: Data, g: Data, w: bv32)
    requires |q| == |v| && |g| == 6
    ensures [0, 0, 0, 0, 0, 1] + (v + [w]) == AddAtEnd(Product(q + [g[0]]), Next(g, w))
       <==> [0, 0, 0, 0, 0, 1] + v == AddAtEnd(Product(q), g)
  {
    hide Times, Xor, AddAtEnd, Next;
    assert (q + [g[0]])[..|q|] == q;
    forall k | 0 <= k < 6
      ensures Next(g, w)[k] == Xor(if k == 5 then w else g[k + 1], Multiple(g[0])[k + 1])
    {
      NextAt(g, Multiple(g[0]), w, k);
    }
    Aligned(Product(q), Multiple(g[0]), g, Next(g, w), w);
    assert [0, 0, 0, 0, 0, 1] + (v + [w]) == ([0, 0, 0, 0, 0, 1] + v) + [w];
    SameLast([0, 0, 0, 0, 0, 1] + v, AddAtEnd(Product(q), g), w);
  }

  lemma NextIs(g: Data, w: bv32)
    requires |g| == 6
    ensures var r, m := Next(g, w), Multiple(g[0]);
            && |m| == 7 && r[0] == Xor(g[1], m[1]) && r[1] == Xor(g[2], m[2]) && r[2] == Xor(g[3], m[3])
            && r[3] == Xor(g[4], m[4]) && r[4] == Xor(g[5], m[5]) && r[5] == Xor(w, m[6])
  {
    hide Times, Xor;
  }

  lemma NextAt(g: Data, m: Data, w: bv32, k: nat)
    requires |g| == 6 && m == Multiple(g[0]) && k < 6
    ensures |m| == 7 && Next(g, w)[k] == Xor(if k == 5 then w else g[k + 1], m[k + 1])
  {
    hide Next, Multiple, Xor;
    NextIs(g, w);
    if k == 0 {
    } else if k == 1 {
    } else if k == 2 {
    } else if k == 3 {
    }
  }

  lemma Aligned(d: Data, m: Data, g: Data, next: Data, w: bv32)
    requires |d| >= 6 && |m| == 7 && |g| == 6 && |next| == 6 && m[0] == g[0]
    requires forall k :: 0 <= k < 6 ==> next[k] == Xor(if k == 5 then w else g[k + 1], m[k + 1])
    ensures AddAtEnd(AddAtEnd(d + [0], m), next) == AddAtEnd(d, g) + [w]
  {
    hide Xor, AddAtEnd;
    var l, r := AddAtEnd(AddAtEnd(d + [0], m), next), AddAtEnd(d, g) + [w];
    forall i | 0 <= i < |l|
      ensures l[i] == r[i]
    {
      AlignedAt(d, m, g, next, w, i);
    }
  }

  lemma AlignedAt(d: Data, m: Data, g: Data, next: Data, w: bv32, i: nat)
    requires |d| >= 6 && |m| == 7 && |g| == 6 && |next| == 6 && m[0] == g[0] && i <= |d|
    requires forall k :: 0 <= k < 6 ==> next[k] == Xor(if k == 5 then w else g[k + 1], m[k + 1])
    ensures AddAtEnd(AddAtEnd(d + [0], m), next)[i] == (AddAtEnd(d, g) + [w])[i]
  {
    hide Xor, AddAtEnd;
    var n := |d| - 6;
    var x := AddAtEnd(d + [0], m);
    if n <= i {
      assert x[n + (i - n)] == Xor((d + [0])[i], m[i - n]);
    }
    if n < i {
      assert AddAtEnd(x, next)[(n + 1) + (i - n - 1)] == Xor(x[i], next[i - n - 1]);
    }
    if n <= i < n + 6 {
      assert AddAtEnd(d, g)[n + (i - n)] == Xor(d[i], g[i - n]);
      XorPairs(d[i], g[i - n], m[i - n]);
    }
    XorPairs(0, w, m[6]);
    XorSelf(w);
  }

  lemma SameLast(a: Data, b: Data, w: bv32)
    ensures a + [w] == b + [w] <==> a == b
  {
    assert (a + [w])[..|a|] == a && (b + [w])[..|b|] == b;
  }

  /** The checksum of a list is the remainder of a division by the generator. */
  lemma {:induction false} IsRemainder(v: Data) returns (q: Data)
    requires Small(v)
    ensures Division(v, q, Groups(Poly(1, v)))
  {
    hide Step, Groups, Next, Division;
    if v == [] {
      q := [];
      RemainderOfOne();
    } else {
      var n := |v| - 1;
      var c := Poly(1, v[..n]);
      var q' := IsRemainder(v[..n]);
      PolySmall(1, v[..n]);
      StepMeans(c, v[n]);
      GroupsSmall(c);
      GroupsSmall(Step(c, v[n]));
      DivisionExtends(v[..n], q', Groups(c), v[n]);
      q := q' + [Groups(c)[0]];
      assert v[..n] + [v[n]] == v;
    }
  }

  lemma DivisionExtends(v: Data, q: Data, g: Data, w: bv32)
    requires Division(v, q, g) && Small(Next(g, w))
    ensures Division(v + [w], q + [g[0]], Next(g, w))
  {
    hide Product, AddAtEnd, Next;
    DivideOne(v, q, g, w);
  }

  lemma RemainderOfOne()
    ensures Division([], [], [0, 0, 0, 0, 0, 1]) && Groups(Poly(1, [])) == [0, 0, 0, 0, 0, 1]
  {
  }

  lemma FirstRemainder(q: Data, r: Data)
    requires Division([], q, r)
    ensures r == [0, 0, 0, 0, 0, 1]
  {
    hide Xor;
    var one: Data := [0, 0, 0, 0, 0, 1];
    assert one + [] == one;
    assert Product(q) == ZEROS;
    forall i | 0 <= i < 6
      ensures r[i] == one[i]
    {
      XorSelf(r[i]);
      assert AddAtEnd(ZEROS, r)[0 + i] == Xor(ZEROS[0 + i], r[i]);
    }
  }

  /** The remainder before the last value. */
  function Previous(t: bv32, r: Data): (g: Data)
    requires |r| == 6
  {
    [t, Xor(r[0], Times(t, 29)), Xor(r[1], Times(t, 22)), Xor(r[2], Times(t, 20)),
     Xor(r[3], Times(t, 21)), Xor(r[4], Times(t, 29))]
  }

  lemma PreviousSmall(t: bv32, r: Data)
    requires |r| == 6 && Small(r) && t < 32
    ensures Small(Previous(t, r))
  {
    hide Times, Xor, Small;
    assert r[0] < 32 && r[1] < 32 && r[2] < 32 && r[3] < 32 && r[4] < 32 by {
      SmallFive(r);
    }
    TimesSmall(t, 29);
    TimesSmall(t, 22);
    TimesSmall(t, 20);
    TimesSmall(t, 21);
    XorFive(r[0], Times(t, 29));
    XorFive(r[1], Times(t, 22));
    XorFive(r[2], Times(t, 20));
    XorFive(r[3], Times(t, 21));
    XorFive(r[4], Times(t, 29));
    SmallSix(Previous(t, r));
  }

  lemma SmallFive(r: Data)
    requires |r| == 6 && Small(r)
    ensures r[0] < 32 && r[1] < 32 && r[2] < 32 && r[3] < 32 && r[4] < 32
  {
  }

  lemma SmallSix(r: Data)
    requires |r| == 6 && r[0] < 32 && r[1] < 32 && r[2] < 32 && r[3] < 32 && r[4] < 32 && r[5] < 32
    ensures Small(r)
  {
  }

  lemma XorFive(a: bv32, b: bv32)
    requires a < 32 && b < 32
    ensures Xor(a, b) < 32
  {
  }

  lemma XorTwice(a: bv32, b: bv32)
    ensures Xor(Xor(a, b), b) == a && Xor(b, Xor(b, a)) == a && Xor(Xor(0, b), a) == Xor(a, b)
  {
    hide Xor;
    XorAssociates(a, b, b);
    XorSelf(b);
    XorSelf(a);
    XorCancels(b, a);
    XorCommutes(a, b);
  }

  lemma PreviousNext(t: bv32, r: Data, w: bv32)
    requires |r| == 6 && w == Xor(Xor(0, Times(t, 18)), r[5])
    ensures Next(Previous(t, r), w) == r
  {
    hide Times, Xor;
    XorTwice(r[0], Times(t, 29));
    XorTwice(r[1], Times(t, 22));
    XorTwice(r[2], Times(t, 20));
    XorTwice(r[3], Times(t, 21));
    XorTwice(r[4], Times(t, 29));
    XorTwice(r[5], Times(t, 18));
  }

  lemma DivisionEnds(v: Data, q: Data, r: Data)
    requires v != [] && Division(v, q, r)
    ensures v[|v| - 1] == Xor(Xor(0, Times(q[|v| - 1], 18)), r[5])
  {
    hide Times, Xor, AddAtEnd, Small;
    var n := |v| - 1;
    var p := Product(q[..n]) + [0];
    assert Product(q)[n + 6] == Xor(p[n + 6], Multiple(q[n])[6]);
    assert AddAtEnd(Product(q), r)[(n + 1) + 5] == Xor(Product(q)[(n + 1) + 5], r[5]);
    assert ([0, 0, 0, 0, 0, 1] + v)[n + 6] == v[n];
  }

  lemma StepBack(v: Data, q: Data, r: Data)
    requires v != [] && Division(v, q, r)
    ensures var n := |v| - 1;
            Division(v[..n], q[..n], Previous(q[n], r)) && Next(Previous(q[n], r), v[n]) == r
  {
    hide Times, Xor, AddAtEnd, Product, Next, Previous;
    var n := |v| - 1;
    var g := Previous(q[n], r);
    DivisionEnds(v, q, r);
    PreviousNext(q[n], r, v[n]);
    PreviousSmall(q[n], r);
    PreviousStarts(q[n], r);
    DivideOne(v[..n], q[..n], g, v[n]);
    assert v[..n] + [v[n]] == v && q[..n] + [q[n]] == q;
  }

  lemma PreviousStarts(t: bv32, r: Data)
    requires |r| == 6
    ensures |Previous(t, r)| == 6 && Previous(t, r)[0] == t
  {
  }

  lemma DivisionSizes(v: Data, q: Data, r: Data)
    requires Division(v, q, r)
    ensures |q| == |v| && |r| == 6
  {
  }

  /** There is no other quotient and remainder. */
  lemma {:induction false} OnlyRemainder(v: Data, q: Data, r: Data)
    requires Small(v) && Division(v, q, r)
    ensures r == Groups(Poly(1, v))
  {
    hide Step, Groups, Product, Next, Previous, Division;
    if v == [] {
      FirstRemainder(q, r);
      RemainderOfOne();
    } else {
      var n := |v| - 1;
      DivisionSizes(v, q, r);
      StepBack(v, q, r);
      OnlyRemainder(v[..n], q[..n], Previous(q[n], r));
      PolySmall(1, v[..n]);
      StepMeans(Poly(1, v[..n]), v[n]);
    }
  }

  /** A string is valid Bech32 exactly if its polynomial has the remainder 1, and valid Bech32m exactly if it has
      the remainder {21}x^5 + {28}x^4 + {16}x^3 + {12}x^2 + {5}x + {3}. */
  lemma ValidIffRemainder(hrp: string, values: Data)
    requires Small(values)
    ensures Verified(hrp, values) == Some(BECH32)
       <==> exists q :: Division(Expanded(hrp) + values, q, [0, 0, 0, 0, 0, 1])
    ensures Verified(hrp, values) == Some(BECH32M)
       <==> exists q :: Division(Expanded(hrp) + values, q, [21, 28, 16, 12, 5, 3])
  {
    hide Poly, Groups, Expanded, Division;
    var v := Expanded(hrp) + values;
    ExpandedAt(hrp);
    var q := IsRemainder(v);
    PolySmall(1, v);
    GroupsTell(Poly(1, v));
    forall q, r | Division(v, q, r)
      ensures r == Groups(Poly(1, v))
    {
      OnlyRemainder(v, q, r);
    }
  }

  lemma GroupsTell(m: bv32)
    requires m < LIMIT
    ensures Groups(m) == [0, 0, 0, 0, 0, 1] <==> m == 1
    ensures Groups(m) == [21, 28, 16, 12, 5, 3] <==> m == 0x2bc830a3
  {
  }

  // ---------- strings with known checksums ----------

  /** The character set in the order of the values. */
  lemma CharsetIs(c: bv32)
    requires c < 32
    ensures CharsetAt(c) == "qpzry9x8gf2tvdw0s3jn54khce6mua7l"[c as nat]
  {
    hide CharsetAt;
    if c < 8 {
      FirstEight(c);
    } else if c < 16 {
      SecondEight(c);
    } else if c < 24 {
      ThirdEight(c);
    } else {
      FourthEight(c);
    }
  }

  lemma FirstEight(c: bv32)
    requires c < 8
    ensures CharsetAt(c) == "qpzry9x8gf2tvdw0s3jn54khce6mua7l"[c as nat]
  {
  }

  lemma SecondEight(c: bv32)
    requires 8 <= c < 16
    ensures CharsetAt(c) == "qpzry9x8gf2tvdw0s3jn54khce6mua7l"[c as nat]
  {
  }

  lemma ThirdEight(c: bv32)
    requires 16 <= c < 24
    ensures CharsetAt(c) == "qpzry9x8gf2tvdw0s3jn54khce6mua7l"[c as nat]
  {
  }

  lemma FourthEight(c: bv32)
    requires 24 <= c < 32
    ensures CharsetAt(c) == "qpzry9x8gf2tvdw0s3jn54khce6mua7l"[c as nat]
  {
  }

  /** The shortest valid strings of BIP 173 and BIP 350, section "Test vectors". */
  lemma ShortestStrings()
    ensures Encoded(BECH32, "a", []) == "a12uel5l"
    ensures Encoded(BECH32M, "a", []) == "a1lqfn3a"
  {
    hide Poly, Groups, Letters, CharsetAt, Xor, Expanded;
    RemainderOfA();
    assert Expanded("a") + [] + ZEROS == [3, 0, 1, 0, 0, 0, 0, 0, 0] by {
      ExpandedA();
    }
    assert Xor(0x15ccfe9e, 1) == 0x15ccfe9f && Xor(0x15ccfe9e, 0x2bc830a3) == 0x3e04ce3d by {
      XorsOfA();
    }
    GroupsOfA();
    LettersOfA();
    assert "a" + "1" + "2uel5l" == "a12uel5l" && "a" + "1" + "lqfn3a" == "a1lqfn3a";
    var none: Data := [];
    assert none + Groups(0x15ccfe9f) == Groups(0x15ccfe9f) && none + Groups(0x3e04ce3d) == Groups(0x3e04ce3d);
  }

  lemma ExpandedA()
    ensures Expanded("a") == [3, 0, 1]
  {
  }

  lemma XorsOfA()
    ensures Xor(0x15ccfe9e, 1) == 0x15ccfe9f && Xor(0x15ccfe9e, 0x2bc830a3) == 0x3e04ce3d
  {
  }

  lemma GroupsOfA()
    ensures Groups(0x15ccfe9f) == [10, 28, 25, 31, 20, 31] && Groups(0x3e04ce3d) == [31, 0, 9, 19, 17, 29]
  {
  }

  lemma LettersOfA()
    ensures Letters([10, 28, 25, 31, 20, 31]) == "2uel5l" && Letters([31, 0, 9, 19, 17, 29]) == "lqfn3a"
  {
  }

  lemma RemainderOfA()
    ensures Poly(1, [3, 0, 1, 0, 0, 0, 0, 0, 0]) == 0x15ccfe9e
  {
    hide Poly, Step;
    var v: Data := [3, 0, 1, 0, 0, 0, 0, 0, 0];
    StepsOfA();
    PolyEmpty(1);
    assert v[..0] == [] && v[..9] == v;
    PolyNext(1, v, 0);
    PolyNext(1, v, 1);
    PolyNext(1, v, 2);
    PolyNext(1, v, 3);
    PolyNext(1, v, 4);
    PolyNext(1, v, 5);
    PolyNext(1, v, 6);
    PolyNext(1, v, 7);
    PolyNext(1, v, 8);
  }

  lemma StepsOfA()
    ensures Step(1, 3) == 0x23 && Step(0x23, 0) == 0x460 && Step(0x460, 1) == 0x8c01
    ensures Step(0x8c01, 0) == 0x118020 && Step(0x118020, 0) == 0x2300400 && Step(0x2300400, 0) == 0x3d6ad7b2
    ensures Step(0x3d6ad7b2, 0) == 0x2fd30b9 && Step(0x2fd30b9, 0) == 0x24cc4092 && Step(0x24cc4092, 0) == 0x15ccfe9e
  {
  }
}
