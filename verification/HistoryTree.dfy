/** The Merkle mountain range of chain history: which stored nodes are its peaks, and how the loading loop
    finds them from the number of stored nodes alone. */
module HistoryTree {
  import opened Powers

  // ---- The stored nodes, by altitude ----

  /** The number of ones at the low end of the binary representation of n. */
  function TrailingOnes(n: nat): nat
  {
    if n % 2 == 0 then 0 else 1 + TrailingOnes(n / 2)
  }

  function PopCount(n: nat): nat
  {
    if n == 0 then 0 else PopCount(n / 2) + n % 2
  }

  /** The altitudes 0, 1, ..., t. */
  function Ramp(t: nat): (r: seq<nat>)
    ensures |r| == t + 1
  {
    if t == 0 then [0] else Ramp(t - 1) + [t]
  }

  /** The altitudes of the nodes stored for n leaves.  Appending leaf n+1 stores the leaf and one parent for
      each pair of equal peaks it completes (ZIP 221, "Incremental push and pop"). */
  function Stored(n: nat): seq<nat>
  {
    if n == 0 then [] else Stored(n - 1) + Ramp(TrailingOnes(n - 1))
  }

  /** The altitudes of a perfect binary tree in storage order: left subtree, right subtree, root. */
  function Perfect(a: nat): (p: seq<nat>)
    ensures |p| == Pow2(a + 1) - 1
  {
    if a == 0 then [0] else Perfect(a - 1) + Perfect(a - 1) + [a]
  }

  lemma {:induction false} StoredLength(n: nat)
    ensures |Stored(n)| == 2 * n - PopCount(n)
  {
    if n > 0 {
      StoredLength(n - 1);
      PopCountStep(n - 1);
    }
  }

  lemma {:induction false} PopCountStep(n: nat)
    ensures PopCount(n + 1) + TrailingOnes(n) == PopCount(n) + 1
  {
    if n % 2 == 1 {
      PopCountStep(n / 2);
    } else {
      assert (n + 1) / 2 == n / 2;
    }
  }

  /** Below a power of two, adding that power changes neither the low ones of a number that has a zero
      among its low k bits. */
  lemma {:induction false} TrailingOnesShifted(k: nat, m: nat)
    requires m + 1 < Pow2(k)
    ensures TrailingOnes(Pow2(k) + m) == TrailingOnes(m)
  {
    if m % 2 == 1 {
      assert Pow2(k) == 2 * Pow2(k - 1);
      assert (Pow2(k) + m) / 2 == Pow2(k - 1) + m / 2;
      TrailingOnesShifted(k - 1, m / 2);
    } else {
      assert k > 0 && Pow2(k) == 2 * Pow2(k - 1);
    }
  }

  lemma {:induction false} TrailingOnesOfAllOnes(k: nat)
    ensures TrailingOnes(Pow2(k) - 1) == k
  {
    if k > 0 {
      assert (Pow2(k) - 1) / 2 == Pow2(k - 1) - 1;
      TrailingOnesOfAllOnes(k - 1);
    }
  }

  /** While fewer than 2^k leaves follow a complete block of 2^k, they build a range of their own. */
  lemma {:induction false} StoredAfterBlock(k: nat, m: nat)
    requires m < Pow2(k)
    ensures Stored(Pow2(k) + m) == Stored(Pow2(k)) + Stored(m)
    decreases m
  {
    hide Stored, TrailingOnes, Ramp, Pow2;
    StoredStart();
    if m > 0 {
      StoredAfterBlock(k, m - 1);
      TrailingOnesShifted(k, m - 1);
      StoredStep(Pow2(k) + m - 1);
      StoredStep(m - 1);
    }
  }

  lemma {:induction false} StoredBlock(k: nat)
    ensures Stored(Pow2(k)) == Perfect(k)
  {
    hide Stored, TrailingOnes, Ramp, Perfect;
    StoredStep(Pow2(k) - 1);
    TrailingOnesOfAllOnes(k);
    if k == 0 {
      StoredStart();
    } else {
      var p := Pow2(k - 1);
      StoredBlock(k - 1);
      StoredAfterBlock(k - 1, p - 1);
      StoredStep(p - 1);
      TrailingOnesOfAllOnes(k - 1);
      RampStep(k);
      PerfectStep(k);
      assert Perfect(k - 1) + Stored(p - 1) + (Ramp(k - 1) + [k]) ==
        Perfect(k - 1) + (Stored(p - 1) + Ramp(k - 1)) + [k];
    }
  }

  lemma StoredStep(n: nat)
    ensures Stored(n + 1) == Stored(n) + Ramp(TrailingOnes(n))
  {
  }

  lemma StoredStart()
    ensures Stored(0) == [] && Ramp(0) == Perfect(0)
  {
  }

  lemma RampStep(k: nat)
    requires k > 0
    ensures Ramp(k) == Ramp(k - 1) + [k]
  {
  }

  lemma PerfectStep(k: nat)
    requires k > 0
    ensures Perfect(k) == Perfect(k - 1) + Perfect(k - 1) + [k]
  {
  }

  // ---- Peaks ----

  datatype Place = Place(alt: nat, pos: nat)

  /** The peaks of r < 2^k leaves whose first node has position base: one per set bit, highest first. */
  function Peaks(r: nat, k: nat, base: nat): seq<Place>
    requires r < Pow2(k)
  {
    if k == 0 then []
    else if r >= Pow2(k - 1) then
      [Place(k - 1, base + Pow2(k) - 2)] + Peaks(r - Pow2(k - 1), k - 1, base + Pow2(k) - 1)
    else Peaks(r, k - 1, base)
  }

  /** The subtree stored up to a position is the perfect tree of an altitude. */
  ghost predicate SubtreeAt(s: seq<nat>, p: Place)
  {
    && Pow2(p.alt + 1) - 1 <= p.pos + 1 <= |s|
    && s[p.pos + 1 - (Pow2(p.alt + 1) - 1)..p.pos + 1] == Perfect(p.alt)
  }

  /** Consecutive subtrees that cover the positions from base to limit without gap or overlap, in strictly
      falling altitude below bound. */
  ghost predicate Tile(ps: seq<Place>, base: nat, limit: nat, bound: nat)
    decreases |ps|
  {
    if |ps| == 0 then base == limit
    else
      && ps[0].alt < bound && ps[0].pos + 1 == base + (Pow2(ps[0].alt + 1) - 1)
      && Tile(ps[1..], ps[0].pos + 1, limit, ps[0].alt)
  }

  /** How many nodes r < 2^k leaves store, and how that compares with one more block. */
  lemma {:induction false} StoredSize(r: nat, k: nat)
    requires r < Pow2(k)
    ensures |Stored(r)| <= 2 * r
    ensures r > 0 ==> |Stored(r)| <= 2 * r - 1
    ensures k > 0 && r >= Pow2(k - 1) ==> |Stored(r)| == Pow2(k) - 1 + |Stored(r - Pow2(k - 1))|
    decreases k
  {
    hide Perfect, Stored;
    StoredStart();
    if k > 0 {
      if r >= Pow2(k - 1) {
        StoredAfterBlock(k - 1, r - Pow2(k - 1));
        StoredBlock(k - 1);
        StoredSize(r - Pow2(k - 1), k - 1);
      } else {
        StoredSize(r, k - 1);
      }
    }
  }

  /** The peaks tile the stored nodes, there is one per set bit, and each is the root of a perfect subtree. */
  lemma {:induction false} PeaksTile(r: nat, k: nat, base: nat)
    requires r < Pow2(k)
    ensures Tile(Peaks(r, k, base), base, base + |Stored(r)|, k)
    ensures |Peaks(r, k, base)| == PopCount(r)
    decreases k
  {
    hide Perfect, Stored, PopCount;
    StoredSize(r, k);
    if k == 0 {
      PopCountZero();
    } else if r >= Pow2(k - 1) {
      PeaksTile(r - Pow2(k - 1), k - 1, base + Pow2(k) - 1);
      PopCountBlock(r - Pow2(k - 1), k - 1);
      TileFirst(Peaks(r - Pow2(k - 1), k - 1, base + Pow2(k) - 1), k - 1, base, base + |Stored(r)|);
    } else {
      PeaksTile(r, k - 1, base);
      TileBound(Peaks(r, k - 1, base), base, base + |Stored(r)|, k - 1, k);
    }
  }

  lemma PopCountZero()
    ensures PopCount(0) == 0
  {
  }

  lemma TileFirst(rest: seq<Place>, alt: nat, base: nat, limit: nat)
    requires Tile(rest, base + Pow2(alt + 1) - 1, limit, alt)
    ensures Tile([Place(alt, base + Pow2(alt + 1) - 2)] + rest, base, limit, alt + 1)
  {
    var ps := [Place(alt, base + Pow2(alt + 1) - 2)] + rest;
    assert ps[1..] == rest;
  }

  lemma TileBound(ps: seq<Place>, base: nat, limit: nat, b: nat, b': nat)
    requires Tile(ps, base, limit, b) && b <= b'
    ensures Tile(ps, base, limit, b')
  {
  }

  lemma {:induction false} PopCountBlock(m: nat, k: nat)
    requires m < Pow2(k)
    ensures PopCount(Pow2(k) + m) == 1 + PopCount(m)
  {
    if k > 0 {
      assert Pow2(k) == 2 * Pow2(k - 1);
      assert (Pow2(k) + m) / 2 == Pow2(k - 1) + m / 2;
      PopCountBlock(m / 2, k - 1);
    } else {
      assert m == 0 && PopCount(1) == PopCount(0) + 1;
    }
  }

  lemma {:induction false} PeaksAreRoots(r: nat, k: nat, front: seq<nat>, i: nat)
    requires r < Pow2(k)
    requires i < |Peaks(r, k, |front|)|
    ensures SubtreeAt(front + Stored(r), Peaks(r, k, |front|)[i])
    decreases k
  {
    hide Perfect, Stored;
    var s := front + Stored(r);
    if r >= Pow2(k - 1) {
      var m := r - Pow2(k - 1);
      StoredAfterBlock(k - 1, m);
      StoredBlock(k - 1);
      var block := Perfect(k - 1);
      assert s == (front + block) + Stored(m);
      if i == 0 {
        assert s[|front|..|front| + |block|] == block;
      } else {
        PeaksAreRoots(m, k - 1, front + block, i - 1);
      }
    } else {
      PeaksAreRoots(r, k - 1, front, i);
    }
  }

  /** Below the root of a perfect subtree, the nodes 2^alt and 1 places before it are the roots of its halves. */
  lemma ChildrenAreRoots(s: seq<nat>, p: Place)
    requires SubtreeAt(s, p) && p.alt > 0
    ensures p.pos >= Pow2(p.alt)
    ensures SubtreeAt(s, Place(p.alt - 1, p.pos - Pow2(p.alt)))
    ensures SubtreeAt(s, Place(p.alt - 1, p.pos - 1))
  {
    hide Perfect;
    PerfectStep(p.alt);
    var half := Perfect(p.alt - 1);
    var h := |half|;
    var start := p.pos + 1 - (2 * h + 1);
    var block := s[start..p.pos + 1];
    assert block[..h] == half && block[h..2 * h] == half;
    SliceOfSlice(s, start, p.pos + 1, 0, h);
    SliceOfSlice(s, start, p.pos + 1, h, 2 * h);
  }

  lemma SliceOfSlice(s: seq<nat>, a: nat, b: nat, i: nat, j: nat)
    requires a <= b <= |s| && i <= j <= b - a
    ensures s[a..b][i..j] == s[a + i..a + j]
  {
    var t := s[a..b];
    assert |t[i..j]| == |s[a + i..a + j]|;
    forall k | 0 <= k < j - i ensures t[i..j][k] == s[a + i..a + j][k] {
    }
  }

  /** The child pairs met on the way down the right slope of a subtree. */
  function Slope(p: Place): seq<Place>
    requires p.pos + 2 >= Pow2(p.alt + 1)
    decreases p.alt
  {
    if p.alt == 0 then []
    else
      [Place(p.alt - 1, p.pos - Pow2(p.alt)), Place(p.alt - 1, p.pos - 1)] + Slope(Place(p.alt - 1, p.pos - 1))
  }

  lemma {:induction false} SlopeAreRoots(s: seq<nat>, p: Place, i: nat)
    requires SubtreeAt(s, p) && i < |Slope(p)|
    ensures SubtreeAt(s, Slope(p)[i])
    decreases p.alt
  {
    hide Perfect, SubtreeAt;
    SubtreeRoom(s, p);
    ChildrenAreRoots(s, p);
    if i >= 2 {
      SlopeAreRoots(s, Place(p.alt - 1, p.pos - 1), i - 2);
    }
  }

  lemma SubtreeRoom(s: seq<nat>, p: Place)
    requires SubtreeAt(s, p)
    ensures p.pos + 2 >= Pow2(p.alt + 1) && p.pos < |s|
  {
  }

  // ---- Loading the tree ----

  /** A stored node as it is handed to the history library: a leaf, or a node with the positions of its children. */
  datatype Entry<N> = LeafEntry(node: N) | NodeEntry(node: N, left: nat, right: nat)

  /** The entry drafted for a place. */
  function Draft<N>(nodes: seq<N>, p: Place): Entry<N>
    requires p.pos < |nodes| && p.pos + 2 >= Pow2(p.alt + 1)
  {
    if p.alt == 0 then LeafEntry(nodes[p.pos]) else NodeEntry(nodes[p.pos], p.pos - Pow2(p.alt), p.pos - 1)
  }

  /** The lists of positions and entries for some places. */
  ghost predicate Drafted<N>(nodes: seq<N>, ps: seq<Place>, indices: seq<nat>, entries: seq<Entry<N>>)
  {
    && |indices| == |ps| == |entries|
    && forall i :: 0 <= i < |ps| ==>
         && ps[i].pos < |nodes| && ps[i].pos + 2 >= Pow2(ps[i].alt + 1)
         && indices[i] == ps[i].pos && entries[i] == Draft(nodes, ps[i])
  }

  /** y is x shifted right by n places. */
  ghost predicate ShiftedBy(x: nat, y: nat, n: nat)
  {
    y * Pow2(n) <= x < (y + 1) * Pow2(n)
  }

  /** floor(log2(x)), by shifting right until nothing is left. */
  method FloorLog2(x: nat) returns (log: nat)
    requires x > 0
    ensures Pow2(log) <= x < Pow2(log + 1)
  {
    hide ShiftedBy, Pow2;
    log := 0;
    ShiftOnce(x, x, 0);
    var y: nat := x / 2;
    while y != 0
      invariant ShiftedBy(x, y, log + 1)
      invariant y == 0 ==> Pow2(log) <= x
    {
      ShiftOnce(x, y, log + 1);
      y := y / 2;
      log := log + 1;
    }
    ShiftedOut(x, log + 1);
  }

  lemma ShiftedOut(x: nat, n: nat)
    requires ShiftedBy(x, 0, n)
    ensures x < Pow2(n)
  {
  }

  lemma ShiftOnce(x: nat, y: nat, n: nat)
    requires y > 0 && (ShiftedBy(x, y, n) || (n == 0 && y == x))
    ensures ShiftedBy(x, y / 2, n + 1)
    ensures Pow2(n) <= x
  {
    HalfProducts(y, Pow2(n));
    MulMonotone(1, y, Pow2(n));
  }

  lemma HalfProducts(y: nat, p: nat)
    ensures (y / 2) * (2 * p) <= y * p
    ensures (y + 1) * p <= (y / 2 + 1) * (2 * p)
  {
    var h := y / 2;
    MulMonotone(2 * h, y, p);
    MulMonotone(y + 1, 2 * (h + 1), p);
    DoubleProduct(h, p);
    DoubleProduct(h + 1, p);
    TwiceProduct(h, p);
    TwiceProduct(h + 1, p);
  }

  lemma TwiceProduct(h: int, p: int)
    ensures (2 * h) * p == 2 * (h * p)
  {
  }

  /** The number of binary digits of n. */
  function Width(n: nat): (k: nat)
    ensures n < Pow2(k)
    ensures n > 0 ==> k > 0 && Pow2(k - 1) <= n
  {
    if n == 0 then 0 else 1 + Width(n / 2)
  }

  /** The logarithm that gives the altitude of the highest peak. */
  lemma AltitudeOfStored(n: nat, length: nat, log: nat)
    requires n >= 1 && length == |Stored(n)|
    requires Pow2(log) <= length + 1 < Pow2(log + 1)
    ensures log == Width(n)
  {
    hide Stored;
    var k := Width(n) - 1;
    StoredSize(n, k + 1);
    assert Pow2(k + 2) == 2 * Pow2(k + 1) && Pow2(k + 1) == 2 * Pow2(k);
    if log < k + 1 {
      Pow2Monotone(log + 1, k + 1);
    } else if log > k + 1 {
      Pow2Monotone(k + 2, log);
    }
  }

  /** The state of the search for peaks: what has been drafted, followed by the peaks of the r leaves that
      remain above position base, makes up all the peaks of the range. */
  ghost predicate Searching(n: nat, top: nat, done: seq<Place>, r: nat, alt: nat, base: nat, length: nat, pos: nat)
  {
    && n < Pow2(top) && r < Pow2(alt + 1)
    && done + Peaks(r, alt + 1, base) == Peaks(n, top, 0)
    && length == base + |Stored(r)|
    && pos == base + Pow2(alt + 1) - 2
  }

  lemma SearchStarts(n: nat, top: nat)
    requires 1 <= top && n < Pow2(top)
    ensures Searching(n, top, [], n, top - 1, 0, |Stored(n)|, Pow2(top) - 2)
  {
    hide Stored;
    assert [] + Peaks(n, top, 0) == Peaks(n, top, 0);
  }

  /** The candidate position is stored exactly when the remaining leaves fill a block of its altitude. */
  lemma CandidateStored(n: nat, top: nat, done: seq<Place>, r: nat, alt: nat, base: nat, length: nat, pos: nat)
    requires Searching(n, top, done, r, alt, base, length, pos)
    ensures pos < length <==> r >= Pow2(alt)
  {
    hide Stored, Peaks;
    StoredSize(r, alt + 1);
  }

  lemma SearchDescends(n: nat, top: nat, done: seq<Place>, r: nat, alt: nat, base: nat, length: nat, pos: nat)
    requires Searching(n, top, done, r, alt, base, length, pos) && alt > 0 && r < Pow2(alt)
    ensures pos >= Pow2(alt)
    ensures Searching(n, top, done, r, alt - 1, base, length, pos - Pow2(alt))
  {
    hide Stored;
  }

  lemma SearchTakes(n: nat, top: nat, done: seq<Place>, r: nat, alt: nat, base: nat, length: nat, pos: nat)
    requires Searching(n, top, done, r, alt, base, length, pos) && r >= Pow2(alt)
    ensures Searching(n, top, done + [Place(alt, pos)], r - Pow2(alt), alt, base + Pow2(alt + 1) - 1, length,
                      pos + Pow2(alt + 1) - 1)
    ensures pos + 2 >= Pow2(alt + 1)
  {
    hide Stored;
    StoredSize(r, alt + 1);
    var rest := Peaks(r - Pow2(alt), alt, base + Pow2(alt + 1) - 1);
    assert Peaks(r, alt + 1, base) == [Place(alt, pos)] + rest;
    assert done + ([Place(alt, pos)] + rest) == (done + [Place(alt, pos)]) + rest;
  }

  lemma SearchEnds(n: nat, top: nat, done: seq<Place>, base: nat, length: nat, pos: nat)
    requires Searching(n, top, done, 0, 0, base, length, pos)
    ensures done == Peaks(n, top, 0)
  {
    hide Stored;
    assert Peaks(0, 1, base) == Peaks(0, 0, base) == [];
    assert done + [] == done;
  }

  /** The largest number of leaves for which all positions stay within 32 bits. */
  const MAX_LEAVES: nat := 0x4000_0000

  /** What PreloadHistoryTree returns, or that it threw. */
  datatype Loaded<N> = Loaded(peaks: nat, indices: seq<nat>, entries: seq<Entry<N>>) | NoTree

  /** The peaks of the range of n leaves. */
  ghost function AllPeaks(n: nat): seq<Place>
  {
    Peaks(n, Width(n), 0)
  }

  /** The last peak of a non-empty range. */
  ghost function LastPeak(n: nat): (p: Place)
    requires n > 0
    ensures SubtreeAt(Stored(n), p) && p.pos < |Stored(n)| && p.pos + 2 >= Pow2(p.alt + 1)
  {
    PeakExists(n);
    PeaksAreRoots(n, Width(n), [], |AllPeaks(n)| - 1);
    assert [] + Stored(n) == Stored(n);
    AllPeaks(n)[|AllPeaks(n)| - 1]
  }

  lemma PeakExists(n: nat)
    requires n > 0
    ensures |AllPeaks(n)| > 0
  {
    assert n >= Pow2(Width(n) - 1);
  }

  /** The places loaded for a range of n leaves: all peaks and, on request, the right slope of the last one. */
  ghost function Wanted(n: nat, extra: bool): seq<Place>
    requires n > 0
  {
    if extra then AllPeaks(n) + Slope(LastPeak(n)) else AllPeaks(n)
  }

  /** Appends one drafted node. */
  method DraftMMRNode<N>(indices: seq<nat>, entries: seq<Entry<N>>, nodes: seq<N>, alt: nat, pos: nat,
      ghost ps: seq<Place>)
    returns (indices': seq<nat>, entries': seq<Entry<N>>)
    requires pos < |nodes| && pos + 2 >= Pow2(alt + 1)
    requires Drafted(nodes, ps, indices, entries)
    ensures Drafted(nodes, ps + [Place(alt, pos)], indices', entries')
    ensures |entries'| == |entries| + 1
  {
    var newEntry := if alt == 0 then LeafEntry(nodes[pos]) else NodeEntry(nodes[pos], pos - Pow2(alt), pos - 1);
    indices' := indices + [pos];
    entries' := entries + [newEntry];
  }

  /** Largest positions and intermediate sums stay within 32 bits. */
  lemma Fits32(n: nat, top: nat, done: seq<Place>, r: nat, alt: nat, base: nat, length: nat, pos: nat)
    requires n < MAX_LEAVES && length == |Stored(n)| && 0 <= alt < Width(n)
    requires Searching(n, top, done, r, alt, base, length, pos) && pos < length
    ensures pos + Pow2(alt + 1) <= 0xffff_ffff
  {
    hide Stored, Peaks;
    WidthBound(n);
    StoredSize(n, Width(n));
    Pow2Monotone(alt + 1, 30);
  }

  lemma WidthBound(n: nat)
    requires n < MAX_LEAVES
    ensures Width(n) <= 30 && Pow2(30) == MAX_LEAVES
  {
    Pow2Of32();
    assert Pow2(32) == 2 * Pow2(31) && Pow2(31) == 2 * Pow2(30);
    if Width(n) > 30 {
      Pow2Monotone(30, Width(n) - 1);
    }
  }

  /** The first loop: the peaks from the left, found by trying the right sibling of the last peak and
      descending to the left child while the candidate is not stored. */
  method FindPeaks<N>(nodes: seq<N>, ghost n: nat)
    returns (indices: seq<nat>, entries: seq<Entry<N>>, lastAlt: nat, lastPos: nat)
    requires 2 <= n < MAX_LEAVES && |nodes| == |Stored(n)|
    ensures Drafted(nodes, AllPeaks(n), indices, entries)
    ensures Place(lastAlt, lastPos) == LastPeak(n)
  {
    hide Stored, Searching, Peaks, Drafted, LastPeak;
    var treeLength := |nodes|;
    indices, entries, lastAlt, lastPos := [], [], 0, 0;
    StoredSize(n, Width(n));
    var log := FloorLog2(treeLength + 1);
    AltitudeOfStored(n, treeLength, log);
    TwoLeaves(n);
    var alt: nat := log - 1;
    var peakPos: nat := Pow2(alt + 1) - 2;
    ghost var done: seq<Place>, r: nat, base: nat := [], n, 0;
    SearchStarts(n, log);
    DraftedNone(nodes);
    while alt != 0
      invariant alt < Width(n) == log
      invariant Searching(n, log, done, r, alt, base, treeLength, peakPos)
      invariant Drafted(nodes, done, indices, entries)
      invariant done != [] ==> done[|done| - 1] == Place(lastAlt, lastPos)
      invariant done == [] ==> r == n && alt == log - 1
      invariant alt == 0 ==> r == 0
      decreases alt, if r >= Pow2(alt) then 1 else 0
    {
      SearchBound(n, log, done, r, alt, base, treeLength, peakPos);
      CandidateStored(n, log, done, r, alt, base, treeLength, peakPos);
      if peakPos >= treeLength {
        SearchDescends(n, log, done, r, alt, base, treeLength, peakPos);
        peakPos := peakPos - Pow2(alt);
        alt := alt - 1;
      }
      CandidateStored(n, log, done, r, alt, base, treeLength, peakPos);
      if peakPos < treeLength {
        SearchTakes(n, log, done, r, alt, base, treeLength, peakPos);
        Fits32(n, log, done, r, alt, base, treeLength, peakPos);
        indices, entries := DraftMMRNode(indices, entries, nodes, alt, peakPos, done);
        lastPos := peakPos;
        lastAlt := alt;
        done, r, base := done + [Place(alt, peakPos)], r - Pow2(alt), base + Pow2(alt + 1) - 1;
        peakPos := peakPos + Pow2(alt + 1) - 1;
      }
      SearchBound(n, log, done, r, alt, base, treeLength, peakPos);
    }
    SearchEnds(n, log, done, base, treeLength, peakPos);
    LastIsLast(n);
  }

  lemma TwoLeaves(n: nat)
    requires n >= 2
    ensures Width(n) >= 2
  {
    assert Width(n) == 1 + Width(n / 2);
  }

  lemma DraftedNone<N>(nodes: seq<N>)
    ensures Drafted<N>(nodes, [], [], [])
  {
  }

  lemma SearchBound(n: nat, top: nat, done: seq<Place>, r: nat, alt: nat, base: nat, length: nat, pos: nat)
    requires Searching(n, top, done, r, alt, base, length, pos)
    ensures r < 2 * Pow2(alt)
  {
  }

  lemma LastIsLast(n: nat)
    requires n > 0
    ensures |AllPeaks(n)| > 0 && AllPeaks(n)[|AllPeaks(n)| - 1] == LastPeak(n)
  {
  }

  /** The second loop: the children along the right slope of the last peak. */
  method AddSlope<N>(nodes: seq<N>, ghost n: nat, indices: seq<nat>, entries: seq<Entry<N>>, lastAlt: nat, lastPos: nat)
    returns (indices': seq<nat>, entries': seq<Entry<N>>)
    requires n > 0 && |nodes| == |Stored(n)|
    requires Place(lastAlt, lastPos) == LastPeak(n)
    requires Drafted(nodes, AllPeaks(n), indices, entries)
    ensures Drafted(nodes, Wanted(n, true), indices', entries')
  {
    hide Stored, Drafted, SubtreeAt, Perfect, AllPeaks;
    indices', entries' := indices, entries;
    var alt: nat, peakPos: nat := lastAlt, lastPos;
    ghost var done := AllPeaks(n);
    ghost var all := Wanted(n, true);
    while alt > 0
      invariant SubtreeAt(Stored(n), Place(alt, peakPos)) && peakPos + 2 >= Pow2(alt + 1)
      invariant Drafted(nodes, done, indices', entries')
      invariant done + Slope(Place(alt, peakPos)) == all
    {
      SubtreeRoom(Stored(n), Place(alt, peakPos));
      ChildrenAreRoots(Stored(n), Place(alt, peakPos));
      var leftPos := peakPos - Pow2(alt);
      var rightPos := peakPos - 1;
      ghost var rest := Slope(Place(alt, peakPos));
      alt := alt - 1;
      SubtreeRoom(Stored(n), Place(alt, leftPos));
      SubtreeRoom(Stored(n), Place(alt, rightPos));
      indices', entries' := DraftMMRNode(indices', entries', nodes, alt, leftPos, done);
      indices', entries' := DraftMMRNode(indices', entries', nodes, alt, rightPos, done + [Place(alt, leftPos)]);
      assert rest == [Place(alt, leftPos), Place(alt, rightPos)] + Slope(Place(alt, rightPos));
      done := done + [Place(alt, leftPos)] + [Place(alt, rightPos)];
      peakPos := rightPos;
    }
    assert done == all;
  }

  /** Loads the peaks of the history tree and, for removals, the right slope of the last peak. */
  method PreloadHistoryTree<N>(nodes: seq<N>, extra: bool, ghost n: nat) returns (res: Loaded<N>)
    requires n < MAX_LEAVES && |nodes| == |Stored(n)|
    ensures n == 0 ==> res == NoTree
    ensures n > 0 ==>
      res.Loaded? && res.peaks == PopCount(n) && Drafted(nodes, Wanted(n, extra), res.indices, res.entries)
  {
    hide Stored, Drafted, SubtreeAt, Perfect, PopCount;
    var treeLength := |nodes|;
    SmallRanges(n);
    if treeLength <= 0 {
      return NoTree;
    } else if treeLength == 1 {
      SingleLeaf(nodes, n);
      return Loaded(1, [0], [LeafEntry(nodes[0])]);
    }
    var indices, entries, lastAlt, lastPos := FindPeaks(nodes, n);
    var totalPeaks := |entries|;
    PeaksTile(n, Width(n), 0);
    DraftedCount(nodes, AllPeaks(n), indices, entries);
    if !extra {
      return Loaded(totalPeaks, indices, entries);
    }
    indices, entries := AddSlope(nodes, n, indices, entries, lastAlt, lastPos);
    return Loaded(totalPeaks, indices, entries);
  }

  lemma DraftedCount<N>(nodes: seq<N>, ps: seq<Place>, indices: seq<nat>, entries: seq<Entry<N>>)
    requires Drafted(nodes, ps, indices, entries)
    ensures |entries| == |ps|
  {
  }

  lemma SmallRanges(n: nat)
    ensures |Stored(n)| == 0 <==> n == 0
    ensures |Stored(n)| == 1 <==> n == 1
    ensures |Stored(n)| >= n
  {
    if n > 2 {
      StoredGrows(n);
    }
  }

  lemma {:induction false} StoredGrows(n: nat)
    ensures |Stored(n)| >= n
  {
    if n > 0 {
      StoredGrows(n - 1);
    }
  }

  lemma SingleLeaf<N>(nodes: seq<N>, n: nat)
    requires n == 1 && |nodes| == 1
    ensures PopCount(n) == 1
    ensures Drafted(nodes, Wanted(n, false), [0], [LeafEntry(nodes[0])])
    ensures Drafted(nodes, Wanted(n, true), [0], [LeafEntry(nodes[0])])
  {
    hide Stored, LastPeak, AllPeaks, Slope, Drafted, PopCount, Wanted, Pow2;
    OnlyPeak(n);
    WantedOne(n);
    DraftedOne(nodes);
  }

  lemma WantedOne(n: nat)
    requires n > 0 && AllPeaks(n) == [Place(0, 0)] && Slope(Place(0, 0)) == []
    ensures Wanted(n, false) == [Place(0, 0)] && Wanted(n, true) == [Place(0, 0)]
  {
    hide Stored, LastPeak, AllPeaks, Slope;
    LastIsLast(n);
    assert AllPeaks(n) + [] == AllPeaks(n);
  }

  lemma DraftedOne<N>(nodes: seq<N>)
    requires |nodes| == 1
    ensures Drafted(nodes, [Place(0, 0)], [0], [LeafEntry(nodes[0])])
  {
    assert Pow2(0 + 1) == 2;
  }

  lemma OnlyPeak(n: nat)
    requires n == 1
    ensures AllPeaks(n) == [Place(0, 0)] && Slope(Place(0, 0)) == [] && PopCount(n) == 1
  {
    hide Stored;
    assert Width(1) == 1;
    assert Peaks(1, 1, 0) == [Place(0, 0)] + Peaks(0, 0, 1);
  }

  /** Everything that is loaded is the root of a perfect subtree of the stored nodes, and the peaks tile them. */
  lemma LoadedAreRoots(n: nat, extra: bool)
    requires n > 0
    ensures forall i :: 0 <= i < |Wanted(n, extra)| ==> SubtreeAt(Stored(n), Wanted(n, extra)[i])
    ensures Tile(AllPeaks(n), 0, |Stored(n)|, Width(n)) && |AllPeaks(n)| == PopCount(n)
    ensures |Stored(n)| == 2 * n - PopCount(n)
  {
    hide Stored, SubtreeAt, Perfect, PopCount, Tile, LastPeak;
    PeaksTile(n, Width(n), 0);
    StoredLength(n);
    assert [] + Stored(n) == Stored(n);
    var w := Wanted(n, extra);
    var k := |AllPeaks(n)|;
    forall i | 0 <= i < |w| ensures SubtreeAt(Stored(n), w[i]) {
      if i < k {
        PeaksAreRoots(n, Width(n), [], i);
        assert w[i] == AllPeaks(n)[i];
      } else {
        SlopeAreRoots(Stored(n), LastPeak(n), i - k);
        assert w[i] == Slope(LastPeak(n))[i - k];
      }
    }
  }
}
