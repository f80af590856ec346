/** The block index with its skip list, and the active chain. */
module Chain {

  import opened Powers

  /** Turns the lowest 1 bit of a number into a 0. */
  function InvertLowestOne(n: nat): nat
  {
    if n == 0 then 0 else BitAnd(n, n - 1)
  }

  lemma {:induction false} AndSelf(x: nat)
    ensures BitAnd(x, x) == x
  {
    if x != 0 {
      AndSelf(x / 2);
    }
  }

  /** An odd number loses its last bit, an even one the lowest bit of its half. */
  lemma InvertLowestOneIs(n: nat)
    ensures InvertLowestOne(n) == if n % 2 == 1 then n - 1 else 2 * InvertLowestOne(n / 2)
    ensures n > 0 ==> InvertLowestOne(n) < n
  {
    if n > 0 {
      if n % 2 == 1 {
        AndSelf(n / 2);
        assert (n - 1) / 2 == n / 2;
      } else {
        assert (n - 1) / 2 == n / 2 - 1;
      }
    }
  }

  /** It clears the lowest bit that is set. */
  lemma {:induction false} LowestCleared(k: nat, m: nat)
    ensures Pow2(k) * (2 * m + 1) >= 0 && Pow2(k) * (2 * m) >= 0
    ensures InvertLowestOne(Pow2(k) * (2 * m + 1)) == Pow2(k) * (2 * m)
  {
    hide InvertLowestOne;
    if k == 0 {
      InvertLowestOneIs(2 * m + 1);
    } else {
      var p := Pow2(k - 1);
      assert Pow2(k) == 2 * p;
      hide Pow2;
      LowestCleared(k - 1, m);
      LowestOfDouble(p * (2 * m + 1));
      Halved(p, 2 * m + 1);
      Halved(p, 2 * m);
    }
  }

  lemma LowestOfDouble(x: nat)
    ensures InvertLowestOne(2 * x) == 2 * InvertLowestOne(x)
  {
    InvertLowestOneIs(2 * x);
    hide InvertLowestOne;
    assert 2 * x / 2 == x && 2 * x % 2 == 0;
  }

  lemma Halved(p: nat, x: nat)
    ensures 0 <= p * x && (2 * p) * x == 2 * (p * x)
  {
    MulMonotone(0, p, x);
    Associate(2, p, x);
  }

  /** The height to jump back to with the skip pointer. */
  function GetSkipHeight(height: nat): (r: nat)
    ensures height > 0 ==> r < height
  {
    if height < 2 then 0
    else if height % 2 == 1 then
      InvertLowestOneIs(height - 1);
      InvertLowestOneIs(InvertLowestOne(height - 1));
      InvertLowestOne(InvertLowestOne(height - 1)) + 1
    else
      InvertLowestOneIs(height);
      InvertLowestOne(height)
  }

  /** From an even height the jump clears the lowest set bit. */
  lemma SkipFromEven(k: nat, m: nat)
    requires 1 <= k
    ensures Pow2(k) * (2 * m + 1) >= 0 && Pow2(k) * (2 * m) >= 0
    ensures GetSkipHeight(Pow2(k) * (2 * m + 1)) == Pow2(k) * (2 * m)
  {
    hide InvertLowestOne;
    LowestCleared(k, m);
    IsEven(k, 2 * m + 1);
  }

  lemma IsEven(k: nat, x: nat)
    requires 1 <= k && 1 <= x
    ensures 2 <= Pow2(k) * x && Pow2(k) * x % 2 == 0
  {
    var p := Pow2(k - 1);
    assert Pow2(k) == 2 * p;
    Halved(p, x);
    MulMonotone(1, x, p);
    assert p * x == x * p;
  }

  /** From an odd height it keeps the lowest bit and clears the two next ones, or the only one. */
  lemma SkipFromOdd(k: nat, j: nat, m: nat)
    requires 1 <= k
    ensures var next := Pow2(j) * (2 * m + 1);
      && next >= 0 && Pow2(k) * (2 * next + 1) >= 0 && Pow2(k + j + 1) * (2 * m) >= 0
      && GetSkipHeight(1 + Pow2(k) * (2 * next + 1)) == 1 + Pow2(k + j + 1) * (2 * m)
    ensures GetSkipHeight(1 + Pow2(k)) == 1
  {
    hide InvertLowestOne, GetSkipHeight;
    LowestCleared(j, m);
    var next := Pow2(j) * (2 * m + 1);
    LowestCleared(k, next);
    LowestCleared(k, 0);
    LowestCleared(k + j + 1, m);
    IsEven(k, 2 * next + 1);
    IsEven(k, 1);
    Together(k, j, 2 * m + 1);
    Together(k, j, 2 * m);
    SkipOfOdd(Pow2(k) * (2 * next + 1));
    SkipOfOdd(Pow2(k));
    LowestOfZero();
  }

  lemma LowestOfZero()
    ensures InvertLowestOne(0) == 0
  {
  }

  lemma SkipOfOdd(even: nat)
    requires even % 2 == 0 && 2 <= even
    ensures GetSkipHeight(1 + even) == InvertLowestOne(InvertLowestOne(even)) + 1
  {
    hide InvertLowestOne;
  }

  lemma Together(k: nat, j: nat, x: nat)
    ensures Pow2(k) * (2 * (Pow2(j) * x)) == Pow2(k + j + 1) * x
  {
    Pow2Add(k, j + 1);
    assert Pow2(j + 1) == 2 * Pow2(j);
    hide Pow2;
    Associate(2, Pow2(j), x);
    Associate(Pow2(k), 2 * Pow2(j), x);
  }

  class CBlockIndex {
    const pprev: CBlockIndex?
    const nHeight: nat
    var pskip: CBlockIndex?

    /** Adds a block to the index. */
    constructor (prev: CBlockIndex?)
      requires prev != null ==> prev.Linked()
      ensures Linked() && pprev == prev && pskip == null
    {
      pprev, nHeight, pskip := prev, if prev == null then 0 else prev.nHeight + 1, null;
    }

    /** Heights count the blocks back to genesis. */
    ghost predicate Linked()
      decreases nHeight
    {
      if pprev == null then nHeight == 0 else pprev.nHeight + 1 == nHeight && pprev.Linked()
    }

    /** The block that following pprev leads to. */
    ghost function At(height: nat): (b: CBlockIndex)
      requires Linked() && height <= nHeight
      ensures b.Linked() && b.nHeight == height
      decreases nHeight
    {
      if height == nHeight then this else pprev.At(height)
    }

    /** This block and the blocks before it. */
    ghost function Line(): (s: set<CBlockIndex>)
      requires Linked()
      ensures this in s && forall b :: b in s ==> b.Linked() && b.nHeight <= nHeight && At(b.nHeight) == b
      decreases nHeight
    {
      if pprev == null then {this} else {this} + pprev.Line()
    }

    lemma {:induction false} AtInLine(height: nat)
      requires Linked() && height <= nHeight
      ensures At(height) in Line()
      decreases nHeight
    {
      if height < nHeight {
        pprev.AtInLine(height);
      }
    }

    lemma {:induction false} AtAt(high: nat, low: nat)
      requires Linked() && low <= high <= nHeight
      ensures At(high).At(low) == At(low)
      decreases nHeight
    {
      if high < nHeight {
        pprev.AtAt(high, low);
      }
    }

    /** The skip pointer is missing or right. */
    ghost predicate SkipOk()
      requires Linked()
      reads this
    {
      pskip == null || pskip == At(GetSkipHeight(nHeight))
    }

    ghost predicate SkipsOk()
      requires Linked()
      reads Line()
    {
      forall b :: b in Line() ==> b.SkipOk()
    }

    lemma SkipAt(height: nat)
      requires Linked() && SkipsOk() && height <= nHeight
      ensures At(height).SkipOk()
    {
      AtInLine(height);
    }

    lemma {:induction false} LineBelow(height: nat)
      requires Linked() && height <= nHeight
      ensures At(height).Line() <= Line()
      decreases nHeight
    {
      if height < nHeight {
        pprev.LineBelow(height);
      }
    }

    lemma SkipsBelow(height: nat)
      requires Linked() && SkipsOk() && height <= nHeight
      ensures At(height).SkipsOk()
    {
      LineBelow(height);
    }

    /** The ancestor at a height, following skip pointers where that helps. */
    method GetAncestor(height: int) returns (r: CBlockIndex?)
      requires Linked() && SkipsOk()
      ensures r == if 0 <= height <= nHeight then At(height) else null
      ensures SkipsOk()
    {
      if height > nHeight || height < 0 {
        return null;
      }
      var pindexWalk := this;
      var heightWalk := nHeight;
      while heightWalk > height
        invariant height <= heightWalk <= nHeight && pindexWalk == At(heightWalk)
        invariant SkipsOk()
        modifies {}
      {
        var heightSkip := GetSkipHeight(heightWalk);
        var heightSkipPrev := GetSkipHeight(heightWalk - 1);
        SkipAt(heightWalk);
        if pindexWalk.pskip != null
           && (heightSkip == height
               || (heightSkip > height && !(heightSkipPrev < heightSkip - 2 && heightSkipPrev >= height))) {
          AtAt(heightWalk, heightSkip);
          pindexWalk := pindexWalk.pskip;
          heightWalk := heightSkip;
        } else {
          assert pindexWalk.pprev != null;
          AtAt(heightWalk, heightWalk - 1);
          pindexWalk := pindexWalk.pprev;
          heightWalk := heightWalk - 1;
        }
      }
      return pindexWalk;
    }

    /** Sets the skip pointer; the skip pointers of the whole line are then right. */
    method BuildSkip()
      requires Linked() && (pprev != null ==> pprev.SkipsOk()) && (pprev == null ==> pskip == null)
      modifies this
      ensures SkipsOk() && (pprev != null ==> pskip == At(GetSkipHeight(nHeight)))
    {
      if pprev != null {
        assert this !in pprev.Line();
        label Before:
        pskip := pprev.GetAncestor(GetSkipHeight(nHeight));
        assert SkipOk();
        forall b | b in Line()
          ensures b.SkipOk()
        {
          if b != this {
            assert b in pprev.Line() && old@Before(b.SkipOk());
          }
        }
      }
    }
  }

  // ---------- locators ----------

  /** The heights that a locator names, from a height on: steps of one at first, then doubling. */
  function LocatorHeights(height: nat, step: nat, count: nat): (hs: seq<nat>)
    requires 0 < step
    ensures hs != [] && hs[0] == height
    decreases height
  {
    if height == 0 then [0]
    else [height] + LocatorHeights(if height < step then 0 else height - step,
                                   if count + 1 > 10 then 2 * step else step, count + 1)
  }

  lemma NextHeight(done: seq<nat>, height: nat, step: nat, count: nat)
    requires 0 < step
    ensures done + LocatorHeights(height, step, count)
         == if height == 0 then done + [height]
            else (done + [height]) + LocatorHeights(if height < step then 0 else height - step,
                                                    if count + 1 > 10 then 2 * step else step, count + 1)
  {
  }

  lemma {:induction false} LocatorFalls(height: nat, step: nat, count: nat)
    requires 0 < step
    ensures var hs := LocatorHeights(height, step, count);
            hs[|hs| - 1] == 0 && forall i, j :: 0 <= i < j < |hs| ==> hs[j] < hs[i]
    decreases height
  {
    if height > 0 {
      var next := if height < step then 0 else height - step;
      LocatorFalls(next, if count + 1 > 10 then 2 * step else step, count + 1);
    }
  }

  /** The heights of a locator in closed form: eleven blocks in a row, then distances that double each time,
      down to zero and not further. */
  ghost predicate Spaced(hs: seq<nat>, height: nat) {
    && hs != [] && hs[|hs| - 1] == 0
    && (forall i :: 0 <= i < |hs| - 1 ==> 0 < hs[i])
    && (forall i :: 0 <= i <= 10 && i < |hs| ==> hs[i] == height - i)
    && (forall i :: 10 <= i < |hs| ==> hs[i] == if height < 9 + Pow2(i - 10) then 0 else height - 9 - Pow2(i - 10))
  }

  lemma {:induction false} LocatorSpaced(height: nat)
    ensures Spaced(LocatorHeights(height, 1, 0), height)
  {
    var hs := LocatorHeights(height, 1, 0);
    LocatorRow(height, 0);
    forall i | 10 <= i < |hs|
      ensures hs[i] == if height < 9 + Pow2(i - 10) then 0 else height - 9 - Pow2(i - 10)
    {
      LocatorDoubles(hs[10], 1, 10, i - 10);
    }
    LocatorFalls(height, 1, 0);
  }

  /** From the tenth block on each distance is twice the one before, unless it ends at genesis. */
  lemma LocatorDistances(hs: seq<nat>, height: nat, i: nat)
    requires Spaced(hs, height) && i + 1 < |hs|
    ensures i < 10 ==> hs[i] - hs[i + 1] == 1
    ensures 10 <= i ==> hs[i] - hs[i + 1] == Pow2(i - 10) || (hs[i + 1] == 0 && hs[i] < Pow2(i - 10))
  {
    if 10 <= i {
      assert Pow2(i - 10 + 1) == 2 * Pow2(i - 10);
    }
  }

  /** From a count up to ten the heights fall by one each time; what follows is a locator from the tenth on. */
  ghost predicate InARow(hs: seq<nat>, height: nat, count: nat)
    requires count <= 10
  {
    && (forall i :: 0 <= i < |hs| && i <= 10 - count ==> hs[i] == height - i)
    && (10 - count < |hs| ==> hs[10 - count..] == LocatorHeights(hs[10 - count], 1, 10))
  }

  lemma RowLonger(rest: seq<nat>, height: nat, count: nat)
    requires 0 < height && count < 10 && InARow(rest, height - 1, count + 1)
    ensures InARow([height] + rest, height, count)
  {
    hide LocatorHeights;
    var hs, k := [height] + rest, 10 - count;
    if k < |hs| {
      assert hs[k] == rest[k - 1] && hs[k..] == rest[k - 1..];
    }
  }

  lemma RowEnds(height: nat, count: nat)
    requires count == 10 || (count < 10 && height == 0)
    ensures InARow(LocatorHeights(height, 1, count), height, count)
  {
    var hs := LocatorHeights(height, 1, count);
    assert hs[0..] == hs;
  }

  lemma {:induction false} LocatorRow(height: nat, count: nat)
    requires count <= 10
    ensures InARow(LocatorHeights(height, 1, count), height, count)
    decreases height
  {
    hide InARow;
    if count == 10 || height == 0 {
      RowEnds(height, count);
    } else {
      LocatorRow(height - 1, count + 1);
      RowLonger(LocatorHeights(height - 1, 1, count + 1), height, count);
    }
  }

  lemma {:induction false} LocatorDoubles(height: nat, step: nat, count: nat, i: nat)
    requires 0 < step && 10 <= count && i < |LocatorHeights(height, step, count)|
    ensures LocatorHeights(height, step, count)[i]
         == if height < step * (Pow2(i) - 1) then 0 else height - step * (Pow2(i) - 1)
    decreases height
  {
    if height == 0 || i == 0 {
      StepsNotNegative(step, Pow2(i));
    } else {
      LocatorDoubles(if height < step then 0 else height - step, 2 * step, count + 1, i - 1);
      StepsDouble(step, Pow2(i - 1));
    }
  }

  lemma StepsNotNegative(step: nat, p: nat)
    requires 1 <= p
    ensures 0 <= step * (p - 1) && (p == 1 ==> step * (p - 1) == 0)
  {
  }

  lemma StepsDouble(step: nat, p: nat)
    requires 1 <= p
    ensures step * (2 * p - 1) == step + (2 * step) * (p - 1) && 0 <= (2 * step) * (p - 1)
  {
  }

  /** A locator is short: eleven more than the binary logarithm at the most. */
  lemma {:induction false} LocatorIsShort(height: nat, n: nat)
    requires height < Pow2(n)
    ensures |LocatorHeights(height, 1, 0)| <= 11 + n
  {
    LocatorStart(height, 0, n);
  }

  lemma {:induction false} LocatorStart(height: nat, count: nat, n: nat)
    requires count <= 10 && height < Pow2(n)
    ensures |LocatorHeights(height, 1, count)| <= 11 - count + n
    decreases height
  {
    if height > 0 {
      if count < 10 {
        LocatorStart(height - 1, count + 1, n);
      } else {
        LocatorTail(height, 1, count, n);
      }
    }
  }

  lemma {:induction false} LocatorTail(height: nat, step: nat, count: nat, n: nat)
    requires 0 < step && count >= 10 && height + step <= step * Pow2(n)
    ensures |LocatorHeights(height, step, count)| <= 1 + n
    decreases height
  {
    if height > 0 {
      var next := if height < step then 0 else height - step;
      MoreThanOne(step, Pow2(n));
      Doubled(step, Pow2(n - 1));
      ReachesTwice(step, Pow2(n - 1));
      LocatorTail(next, 2 * step, count + 1, n - 1);
    }
  }

  lemma MoreThanOne(step: nat, p: nat)
    requires step < step * p
    ensures p > 1
  {
  }

  lemma Doubled(step: nat, p: nat)
    ensures (2 * step) * p == step * (2 * p)
  {
  }

  lemma ReachesTwice(step: nat, p: nat)
    requires 1 <= p
    ensures 2 * step <= (2 * step) * p
  {
  }

  // ---------- the active chain ----------

  class CChain {
    var vChain: seq<CBlockIndex?>

    /** The entry at each height is the tip's ancestor at that height. */
    ghost predicate Valid()
      reads this
    {
      vChain != [] ==>
        var tip := vChain[|vChain| - 1];
        && tip != null && tip.Linked() && tip.nHeight == |vChain| - 1
        && forall i :: 0 <= i < |vChain| ==> vChain[i] == tip.At(i)
    }

    /** The chain ends in a block. */
    ghost predicate EndsIn(tip: CBlockIndex)
      reads this
    {
      Valid() && vChain != [] && vChain[|vChain| - 1] == tip
    }

    function Height(): int
      reads this
    {
      |vChain| - 1
    }

    function Entry(height: int): CBlockIndex?
      reads this
    {
      if height < 0 || height >= |vChain| then null else vChain[height]
    }

    predicate Contains(b: CBlockIndex)
      reads this
    {
      Entry(b.nHeight) == b
    }

    /** Where an old entry is on the line of the tip, so are all below it. */
    lemma OldPartStays(was: seq<CBlockIndex?>, tip: CBlockIndex, next: nat)
      requires was != [] && was[|was| - 1] != null && tip.Linked() && was[|was| - 1].Linked()
      requires |was| == was[|was| - 1].nHeight + 1
      requires forall i :: 0 <= i < |was| ==> was[i] == was[|was| - 1].At(i)
      requires 0 < next <= |was| && next <= tip.nHeight + 1 && was[next - 1] == tip.At(next - 1)
      ensures forall i :: 0 <= i < next ==> was[i] == tip.At(i)
    {
      var oldTip := was[|was| - 1];
      forall i | 0 <= i < next
        ensures was[i] == tip.At(i)
      {
        oldTip.AtAt(next - 1, i);
        tip.AtAt(next - 1, i);
      }
    }

    /** Sets the chain to a tip.  Replacing entries stops at the first one that is already right. */
    method SetTip(tip: CBlockIndex?)
      requires Valid() && (tip != null ==> tip.Linked())
      modifies this
      ensures tip == null ==> vChain == []
      ensures tip != null ==> EndsIn(tip)
    {
      if tip == null {
        vChain := [];
        return;
      }
      ghost var was := vChain;
      var size := tip.nHeight + 1;
      if |vChain| >= size {
        vChain := vChain[..size];
      } else {
        vChain := vChain + seq(size - |vChain|, i => null);
      }
      ghost var kept := vChain;
      var pindex: CBlockIndex? := tip;
      ghost var next := size;
      while pindex != null && vChain[pindex.nHeight] != pindex
        invariant 0 <= next <= size == |vChain| == |kept|
        invariant if next == 0 then pindex == null else pindex == tip.At(next - 1)
        invariant forall i :: next <= i < size ==> vChain[i] == tip.At(i)
        invariant forall i :: 0 <= i < next ==> vChain[i] == kept[i]
        decreases next
      {
        vChain := vChain[pindex.nHeight := pindex];
        next := next - 1;
        if next > 0 {
          tip.AtAt(next, next - 1);
        }
        pindex := pindex.pprev;
      }
      if next > 0 {
        OldPartStays(was, tip, next);
      }
      assert tip.At(tip.nHeight) == tip;
    }

    /** The last block that a block's line has in common with this chain, null if there is none. */
    method FindFork(b: CBlockIndex) returns (fork: CBlockIndex?)
      requires Valid() && b.Linked() && b.SkipsOk()
      ensures fork == null ==> forall h :: 0 <= h <= b.nHeight ==> !Contains(b.At(h))
      ensures fork != null ==> fork.nHeight <= b.nHeight && fork == b.At(fork.nHeight) && Contains(fork)
      ensures fork != null ==> forall h :: 0 <= h <= b.nHeight ==> (Contains(b.At(h)) <==> h <= fork.nHeight)
    {
      fork := b;
      if b.nHeight > Height() {
        fork := b.GetAncestor(Height());
      }
      ghost var h := if b.nHeight > Height() then Height() else b.nHeight;
      while fork != null && !Contains(fork)
        invariant -1 <= h <= b.nHeight
        invariant if h == -1 then fork == null else fork == b.At(h)
        invariant forall k :: h < k <= b.nHeight ==> !Contains(b.At(k))
        modifies {}
        decreases h
      {
        if h > 0 {
          b.AtAt(h, h - 1);
        }
        fork := fork.pprev;
        h := h - 1;
      }
      if fork != null {
        forall k | 0 <= k <= h
          ensures Contains(b.At(k))
        {
          CommonBelow(b, h, k);
        }
      }
    }

    /** A line that meets the chain stays on it. */
    lemma CommonBelow(b: CBlockIndex, high: nat, low: nat)
      requires Valid() && b.Linked() && low <= high <= b.nHeight && Contains(b.At(high))
      ensures Contains(b.At(low))
    {
      var tip := vChain[|vChain| - 1];
      tip.AtAt(high, low);
      b.AtAt(high, low);
    }

    /** The ancestor at a height: read off the chain if the block is on it, searched for otherwise. */
    method StepBack(pindex: CBlockIndex, nHeight: nat) returns (r: CBlockIndex)
      requires Valid() && pindex.Linked() && pindex.SkipsOk() && nHeight <= pindex.nHeight
      ensures r == pindex.At(nHeight) && pindex.SkipsOk()
    {
      if Contains(pindex) {
        CommonBelow(pindex, pindex.nHeight, nHeight);
        r := Entry(nHeight);
      } else {
        r := pindex.GetAncestor(nHeight);
      }
    }

    /** The blocks of a locator, of the tip by default. */
    method GetLocator(start: CBlockIndex?) returns (have: seq<CBlockIndex>)
      requires Valid() && (start != null ==> start.Linked() && start.SkipsOk())
      requires vChain != [] ==> vChain[|vChain| - 1].SkipsOk()
      ensures start == null && vChain == [] ==> have == []
      ensures start != null ==> Locates(have, start)
      ensures start == null && vChain != [] ==> Locates(have, vChain[|vChain| - 1])
    {
      if start != null {
        have := LocatorFrom(start);
      } else if vChain == [] {
        have := [];
      } else {
        have := LocatorFrom(vChain[|vChain| - 1]);
      }
    }

    /** The loop of GetLocator. */
    method LocatorFrom(start: CBlockIndex) returns (have: seq<CBlockIndex>)
      requires Valid() && start.Linked() && start.SkipsOk()
      ensures Locates(have, start)
    {
      hide Valid, CBlockIndex.SkipsOk, CBlockIndex.Line, Locates, Locating;
      have := [];
      LocatingStarts(start);
      var nStep := 1;
      var pindex := start;
      while true
        invariant pindex.nHeight <= start.nHeight && pindex == start.At(pindex.nHeight) && nStep > 0
        invariant Locating(have, start, pindex.nHeight, nStep)
        invariant Valid() && pindex.SkipsOk()
        modifies {}
        decreases pindex.nHeight
      {
        LocatingOneMore(have, start, pindex, nStep);
        have := have + [pindex];
        if pindex.nHeight == 0 {
          break;
        }
        var nHeight := if pindex.nHeight < nStep then 0 else pindex.nHeight - nStep;
        start.AtAt(pindex.nHeight, nHeight);
        ghost var before := pindex;
        pindex := StepBack(pindex, nHeight);
        before.SkipsBelow(nHeight);
        if |have| > 10 {
          nStep := nStep * 2;
        }
      }
    }
  }

  function Heights(blocks: seq<CBlockIndex>): (hs: seq<nat>)
    ensures |hs| == |blocks| && forall i :: 0 <= i < |hs| ==> hs[i] == blocks[i].nHeight
  {
    if blocks == [] then [] else Heights(blocks[..|blocks| - 1]) + [blocks[|blocks| - 1].nHeight]
  }

  /** The blocks are the block's ancestors at the heights of a locator. */
  ghost predicate Locates(have: seq<CBlockIndex>, start: CBlockIndex)
    requires start.Linked()
  {
    Spaced(Heights(have), start.nHeight) && OnLine(have, start)
  }

  /** Some blocks of a locator have been found, and it goes on from a height with a step. */
  ghost predicate Locating(have: seq<CBlockIndex>, start: CBlockIndex, height: nat, step: nat)
    requires start.Linked() && 0 < step
  {
    OnLine(have, start) && Heights(have) + LocatorHeights(height, step, |have|) == LocatorHeights(start.nHeight, 1, 0)
  }

  lemma LocatingStarts(start: CBlockIndex)
    requires start.Linked()
    ensures Locating([], start, start.nHeight, 1)
  {
    hide LocatorHeights;
    assert Heights([]) == [];
  }

  lemma LocatingOneMore(have: seq<CBlockIndex>, start: CBlockIndex, b: CBlockIndex, step: nat)
    requires start.Linked() && 0 < step && Locating(have, start, b.nHeight, step)
    requires b.nHeight <= start.nHeight && b == start.At(b.nHeight)
    ensures b.nHeight == 0 ==> Locates(have + [b], start)
    ensures b.nHeight > 0 ==>
      Locating(have + [b], start, if b.nHeight < step then 0 else b.nHeight - step,
               if |have + [b]| > 10 then step * 2 else step)
  {
    hide LocatorHeights, Heights, OnLine, Spaced;
    OneMoreOnLine(have, start, b);
    NextHeight(Heights(have), b.nHeight, step, |have|);
    LocatorSpaced(start.nHeight);
  }

  /** The blocks are ancestors of a block. */
  ghost predicate OnLine(have: seq<CBlockIndex>, start: CBlockIndex)
    requires start.Linked()
  {
    forall i :: 0 <= i < |have| ==> have[i].nHeight <= start.nHeight && have[i] == start.At(have[i].nHeight)
  }

  lemma OneMoreOnLine(have: seq<CBlockIndex>, start: CBlockIndex, b: CBlockIndex)
    requires start.Linked() && OnLine(have, start) && b.nHeight <= start.nHeight && b == start.At(b.nHeight)
    ensures OnLine(have + [b], start) && Heights(have + [b]) == Heights(have) + [b.nHeight]
  {
  }
}
