/** The cuckoo cache: a table in which an element may stand at any of eight places, with lazy erasure and
    two epochs. */
module Cuckoo {

  import opened Powers
  import opened Words

  /** A fixed number of flags, packed into bytes. */
  class BitPackedAtomicFlags {
    var mem: array<nat>
    /** The flags. */
    ghost var bits: seq<bool>

    ghost predicate Valid()
      reads this, mem
    {
      && |bits| <= 8 * mem.Length
      && forall s: nat {:trigger bits[s]} :: s < |bits| ==> bits[s] == Bit(mem[s / 8], s % 8)
    }

    /** All flags start out set. */
    constructor (size: nat)
      ensures Valid() && fresh(mem) && |bits| == size && forall s :: 0 <= s < size ==> bits[s]
    {
      mem := new nat[(size + 7) / 8](i => 255);
      bits := seq(size, i => true);
      new;
      forall s: nat | s < size
        ensures Bit(mem[s / 8], s % 8)
      {
        AllSet(s % 8);
      }
    }

    method BitSet(s: nat)
      requires Valid() && s < |bits|
      modifies this, mem
      ensures Valid() && mem == old(mem) && bits == old(bits)[s := true]
    {
      hide Bit, BitOr, Shl;
      ghost var was := mem[s / 8];
      mem[s / 8] := BitOr(mem[s / 8], Shl(1, s % 8));
      forall j: nat | j < 8
        ensures Bit(mem[s / 8], j) == (Bit(was, j) || j == s % 8)
      {
        BitOfShl(1, s % 8, j);
        BitOfOr(was, Shl(1, s % 8), j);
      }
      bits := bits[s := true];
    }

    method BitUnset(s: nat)
      requires Valid() && s < |bits|
      modifies this, mem
      ensures Valid() && mem == old(mem) && bits == old(bits)[s := false]
    {
      hide Bit, BitAnd, Not, Shl;
      ghost var was := mem[s / 8];
      mem[s / 8] := BitAnd(mem[s / 8], Not(Shl(1, s % 8), 8));
      forall j: nat | j < 8
        ensures Bit(mem[s / 8], j) == (Bit(was, j) && j != s % 8)
      {
        BitOfShl(1, s % 8, j);
        BitOfNot(Shl(1, s % 8), 8, j);
        BitOfAnd(was, Not(Shl(1, s % 8), 8), j);
      }
      bits := bits[s := false];
    }

    method BitIsSet(s: nat) returns (r: bool)
      requires Valid() && s < |bits|
      ensures r == bits[s]
    {
      assert bits[s] == Bit(mem[s / 8], s % 8);
      r := Bit(mem[s / 8], s % 8);
    }
  }

  lemma AllSet(j: nat)
    requires j < 8
    ensures Bit(255, j)
  {
    assert Shl(1, 4) == 16;
    AllSetFrom(255, 8, j);
  }

  lemma {:induction false} AllSetFrom(w: nat, width: nat, j: nat)
    requires j < width && w + 1 == Shl(1, width)
    ensures Bit(w, j)
  {
    var half := Shl(1, width - 1);
    assert w == 2 * (half - 1) + 1;
    if j > 0 {
      AllSetFrom(w / 2, width - 1, j - 1);
    }
  }

  const PLACES := 8

  /** The eight places of an element. */
  function ComputeHashes<E>(hash: (nat, E) -> Word32, size: nat, e: E): (locs: seq<nat>)
    requires 0 < size <= TWO32
    ensures |locs| == PLACES && forall i :: 0 <= i < PLACES ==> locs[i] < size
  {
    [FastMod(hash(0, e), size), FastMod(hash(1, e), size), FastMod(hash(2, e), size), FastMod(hash(3, e), size),
     FastMod(hash(4, e), size), FastMod(hash(5, e), size), FastMod(hash(6, e), size), FastMod(hash(7, e), size)]
  }

  // ---------- what the table holds ----------

  /** The live elements: those in slots that are not marked as collected. */
  ghost function Live<E>(table: seq<E>, collected: seq<bool>): (m: multiset<E>)
    requires |table| == |collected|
  {
    if table == [] then multiset{}
    else Live(table[..|table| - 1], collected[..|table| - 1]) + One(table[|table| - 1], !collected[|table| - 1])
  }

  function One<E>(e: E, here: bool): multiset<E>
  {
    if here then multiset{e} else multiset{}
  }

  lemma Exchange<E>(a: multiset<E>, b: multiset<E>, c: multiset<E>)
    ensures a + b + c == a + c + b
  {
  }

  lemma Cancel<E>(a: multiset<E>, b: multiset<E>, e: E, dead: bool)
    requires a + One(e, !dead) == b + multiset{e}
    ensures a == b + One(e, dead)
  {
    if !dead {
      assert a == (a + multiset{e}) - multiset{e} == (b + multiset{e}) - multiset{e} == b;
    }
  }

  lemma {:induction false} LiveUpdate<E>(table: seq<E>, collected: seq<bool>, i: nat, e: E, c: bool)
    requires |table| == |collected| && i < |table|
    ensures Live(table[i := e], collected[i := c]) + One(table[i], !collected[i])
         == Live(table, collected) + One(e, !c)
  {
    hide Live, One;
    var n := |table| - 1;
    var t, c' := table[..n], collected[..n];
    LiveSplit(table, collected);
    LiveSplit(table[i := e], collected[i := c]);
    if i < n {
      LiveUpdate(t, c', i, e, c);
      assert table[i := e][..n] == t[i := e] && collected[i := c][..n] == c'[i := c];
      Exchange(Live(t[i := e], c'[i := c]), One(table[n], !collected[n]), One(table[i], !collected[i]));
      Exchange(Live(t, c'), One(table[n], !collected[n]), One(e, !c));
    } else {
      assert table[i := e][..n] == t && collected[i := c][..n] == c';
      Exchange(Live(t, c'), One(e, !c), One(table[n], !collected[n]));
    }
  }

  lemma LiveSplit<E>(table: seq<E>, collected: seq<bool>)
    requires |table| == |collected| > 0
    ensures var n := |table| - 1;
      Live(table, collected) == Live(table[..n], collected[..n]) + One(table[n], !collected[n])
  {
  }

  lemma {:induction false} LiveShrinks<E>(table: seq<E>, before: seq<bool>, after: seq<bool>)
    requires |table| == |before| == |after| && forall i :: 0 <= i < |table| && before[i] ==> after[i]
    ensures Live(table, after) <= Live(table, before)
  {
    if table != [] {
      LiveShrinks(table[..|table| - 1], before[..|table| - 1], after[..|table| - 1]);
    }
  }

  lemma {:induction false} LiveHas<E>(table: seq<E>, collected: seq<bool>, e: E)
    requires |table| == |collected|
    ensures e in Live(table, collected) <==> exists i :: 0 <= i < |table| && table[i] == e && !collected[i]
  {
    if table != [] {
      var n := |table| - 1;
      LiveHas(table[..n], collected[..n], e);
      if i :| 0 <= i < |table| && table[i] == e && !collected[i] && i < n {
        assert table[..n][i] == e && !collected[..n][i];
      }
      if i :| 0 <= i < n && table[..n][i] == e && !collected[..n][i] {
        assert table[i] == e && !collected[i];
      }
    }
  }

  /** How many slots hold a live element of the current epoch. */
  ghost function Current(epochs: seq<bool>, collected: seq<bool>): (n: nat)
    requires |epochs| == |collected|
    ensures n <= |epochs|
  {
    if epochs == [] then 0
    else
      var n := |epochs| - 1;
      Current(epochs[..n], collected[..n]) + Unit(epochs[n] && !collected[n])
  }

  function Unit(p: bool): nat
  {
    if p then 1 else 0
  }

  lemma {:induction false} CurrentUpdate(epochs: seq<bool>, collected: seq<bool>, i: nat, e: bool, c: bool)
    requires |epochs| == |collected| && i < |epochs|
    ensures Current(epochs[i := e], collected[i := c]) + Unit(epochs[i] && !collected[i])
         == Current(epochs, collected) + Unit(e && !c)
  {
    var n := |epochs| - 1;
    if i < n {
      CurrentUpdate(epochs[..n], collected[..n], i, e, c);
      assert epochs[i := e][..n] == epochs[..n][i := e];
      assert collected[i := c][..n] == collected[..n][i := c];
    } else {
      assert epochs[i := e][..n] == epochs[..n];
      assert collected[i := c][..n] == collected[..n];
    }
  }

  lemma {:induction false} NoneCurrent(epochs: seq<bool>, collected: seq<bool>)
    requires |epochs| == |collected| && forall i :: 0 <= i < |epochs| ==> !epochs[i] || collected[i]
    ensures Current(epochs, collected) == 0
  {
    if epochs != [] {
      NoneCurrent(epochs[..|epochs| - 1], collected[..|epochs| - 1]);
    }
  }

  // ---------- the invariant ----------

  /** What the table can contain: an element other than the filler, and any live one, is at one of its places,
      and no element other than the filler is there twice. */
  ghost predicate Placed<E(!new)>(table: seq<E>, collected: seq<bool>, hash: (nat, E) -> Word32, filler: E)
  {
    && 0 < |table| <= TWO32 && |collected| == |table|
    && (forall i :: 0 <= i < |table| && (table[i] != filler || !collected[i]) ==>
      i in ComputeHashes(hash, |table|, table[i]))
    && (forall i, j :: 0 <= i < j < |table| && table[i] == table[j] ==> table[i] == filler)
  }

  /** The element can be written anywhere without being there twice. */
  ghost predicate Absent<E(!new)>(table: seq<E>, e: E, filler: E)
  {
    e != filler ==> e !in table
  }

  /** Looking at the eight places is enough to find an element. */
  lemma FoundAtPlaces<E(!new)>(table: seq<E>, collected: seq<bool>, hash: (nat, E) -> Word32, filler: E, e: E)
    requires Placed(table, collected, hash, filler)
    ensures (Absent(table, e, filler) && e !in Live(table, collected))
         || exists k :: 0 <= k < PLACES && table[ComputeHashes(hash, |table|, e)[k]] == e
  {
    LiveHas(table, collected, e);
    if i :| 0 <= i < |table| && table[i] == e && (e != filler || !collected[i]) {
      var locs := ComputeHashes(hash, |table|, e);
      var k :| 0 <= k < |locs| && locs[k] == i;
      assert table[locs[k]] == e;
    }
  }

  lemma PutPlaced<E(!new)>(table: seq<E>, collected: seq<bool>, hash: (nat, E) -> Word32, filler: E, i: nat, e: E,
      c: bool)
    requires Placed(table, collected, hash, filler) && Absent(table, e, filler)
    requires i < |table| && i in ComputeHashes(hash, |table|, e)
    ensures Placed(table[i := e], collected[i := c], hash, filler)
    ensures table[i] != e ==> Absent(table[i := e], table[i], filler)
  {
  }

  lemma SwapPlaced<E(!new)>(table: seq<E>, collected: seq<bool>, hash: (nat, E) -> Word32, filler: E, i: nat, e: E)
    requires Placed(table, collected, hash, filler) && Absent(table, e, filler)
    requires i < |table| && !collected[i] && i in ComputeHashes(hash, |table|, e)
    ensures Placed(table[i := e], collected, hash, filler) && Absent(table[i := e], table[i], filler)
    ensures i in ComputeHashes(hash, |table|, table[i])
  {
    PutPlaced(table, collected, hash, filler, i, e, false);
    assert collected[i := false] == collected;
  }

  /** One of the element's places is free. */
  ghost predicate Room<E(!new)>(hash: (nat, E) -> Word32, collected: seq<bool>, e: E)
  {
    0 < |collected| <= TWO32 && exists loc :: loc in ComputeHashes(hash, |collected|, e) && collected[loc]
  }

  lemma UncollectPlaced<E(!new)>(table: seq<E>, collected: seq<bool>, hash: (nat, E) -> Word32, filler: E, i: nat)
    requires Placed(table, collected, hash, filler)
    requires i < |table| && i in ComputeHashes(hash, |table|, table[i])
    ensures Placed(table, collected[i := false], hash, filler)
  {
  }

  lemma CollectPlaced<E(!new)>(table: seq<E>, collected: seq<bool>, after: seq<bool>, hash: (nat, E) -> Word32,
      filler: E)
    requires Placed(table, collected, hash, filler)
    requires |after| == |collected| && forall i :: 0 <= i < |after| ==> collected[i] ==> after[i]
    ensures Placed(table, after, hash, filler)
  {
  }

  class Cache<E(==, !new)> {
    const hash: (nat, E) -> Word32
    /** What a slot holds before anything is put there. */
    const filler: E
    var table: array<E>
    var collectionFlags: BitPackedAtomicFlags
    var epochFlags: array<bool>
    var epochHeuristicCounter: nat
    var epochSize: nat
    var depthLimit: nat

    /** The three arrays are different objects. */
    ghost predicate Separate()
      reads this, collectionFlags
    {
      var t: object, m: object, f: object := table, collectionFlags.mem, epochFlags;
      t != m && t != f && m != f
    }

    ghost predicate Valid()
      reads this, table, collectionFlags, collectionFlags.mem, epochFlags
    {
      && Separate() && collectionFlags.Valid() && Placed(table[..], collectionFlags.bits, hash, filler)
      && |collectionFlags.bits| == epochFlags.Length == table.Length < TWO32
      && 1 <= epochSize && 1 <= depthLimit
      && InEpoch() + epochHeuristicCounter <= epochSize + Slack()
    }

    /** By how much an epoch can outgrow its size. */
    function Slack(): nat
      reads this
    {
      Max(1, epochSize / 16)
    }

    ghost function Contents(): multiset<E>
      requires |collectionFlags.bits| == table.Length
      reads this, table, collectionFlags
    {
      Live(table[..], collectionFlags.bits)
    }

    ghost function InEpoch(): nat
      requires |collectionFlags.bits| == epochFlags.Length
      reads this, collectionFlags, epochFlags
    {
      Current(epochFlags[..], collectionFlags.bits)
    }

    /** The live elements of the current epoch. */
    ghost function CurrentContents(): (m: multiset<E>)
      requires |collectionFlags.bits| == epochFlags.Length == table.Length
      reads this, table, collectionFlags, epochFlags
      ensures |m| == InEpoch()
    {
      RetiredSize(table[..], epochFlags[..], collectionFlags.bits);
      Live(table[..], Retired(epochFlags[..], collectionFlags.bits))
    }

    /** Sets a cache up for a number of elements; depth is the binary logarithm of the size. */
    constructor (newSize: Word32, depth: nat, hash: (nat, E) -> Word32, filler: E)
      requires 1 <= depth
      ensures Valid() && fresh(table) && fresh(collectionFlags) && fresh(collectionFlags.mem) && fresh(epochFlags)
      ensures table.Length == Max(2, newSize) && Contents() == multiset{}
    {
      var size := Max(2, newSize);
      this.hash, this.filler, depthLimit := hash, filler, depth;
      table := new E[size](i => filler);
      collectionFlags := new BitPackedAtomicFlags(size);
      epochFlags := new bool[size](i => false);
      epochSize := Max(1, 45 * size % TWO32 / 100);
      epochHeuristicCounter := epochSize;
      new;
      hide Live, Current;
      NoneCurrent(epochFlags[..], collectionFlags.bits);
      NoneLive(table[..], collectionFlags.bits);
    }

    /** Ages the elements when the current epoch has grown to its size, at the latest. */
    method EpochCheck()
      requires Valid()
      modifies this`epochHeuristicCounter, collectionFlags, collectionFlags.mem, epochFlags
      ensures Valid() && collectionFlags.mem == old(collectionFlags.mem)
      ensures InEpoch() + epochHeuristicCounter + 1 <= epochSize + Slack()
      ensures old(epochHeuristicCounter) > 0 || old(InEpoch()) < epochSize ==>
                epochFlags[..] == old(epochFlags[..]) && collectionFlags.bits == old(collectionFlags.bits)
      ensures old(epochHeuristicCounter) == 0 && old(InEpoch()) >= epochSize ==>
                Aged(old(epochFlags[..]), old(collectionFlags.bits), epochFlags[..], collectionFlags.bits)
    {
      if epochHeuristicCounter != 0 {
        epochHeuristicCounter := epochHeuristicCounter - 1;
        return;
      }
      var epochUnusedCount := CountCurrent();
      if epochUnusedCount >= epochSize {
        Age();
        epochHeuristicCounter := epochSize;
      } else {
        epochHeuristicCounter := Max(1, Max(epochSize / 16, epochSize - epochUnusedCount));
      }
    }

    method CountCurrent() returns (n: nat)
      requires Valid()
      ensures n == InEpoch()
    {
      ghost var bits := collectionFlags.bits;
      n := 0;
      for i := 0 to table.Length
        invariant n == Current(epochFlags[..i], bits[..i])
      {
        var collected := collectionFlags.BitIsSet(i);
        if epochFlags[i] && !collected {
          n := n + 1;
        }
        assert epochFlags[..i + 1][..i] == epochFlags[..i] && bits[..i + 1][..i] == bits[..i];
      }
      assert epochFlags[..table.Length] == epochFlags[..] && bits[..table.Length] == bits;
    }

    /** Ends the epoch: the old elements may be erased, the current ones become old. */
    method Age()
      requires Valid()
      modifies collectionFlags, collectionFlags.mem, epochFlags
      ensures collectionFlags.Valid() && collectionFlags.mem == old(collectionFlags.mem)
      ensures Aged(old(epochFlags[..]), old(collectionFlags.bits), epochFlags[..], collectionFlags.bits)
      ensures Placed(table[..], collectionFlags.bits, hash, filler) && InEpoch() == 0
    {
      hide Placed, Current;
      ghost var epochs, bits := epochFlags[..], collectionFlags.bits;
      for i := 0 to table.Length
        invariant collectionFlags.Valid() && collectionFlags.mem == old(collectionFlags.mem)
        invariant |collectionFlags.bits| == |bits|
        invariant forall j :: 0 <= j < i ==> !epochFlags[j] && collectionFlags.bits[j] == (bits[j] || !epochs[j])
        invariant forall j :: i <= j < |bits| ==> epochFlags[j] == epochs[j] && collectionFlags.bits[j] == bits[j]
      {
        if epochFlags[i] {
          epochFlags[i] := false;
        } else {
          collectionFlags.BitSet(i);
        }
      }
      NoneCurrent(epochFlags[..], collectionFlags.bits);
      CollectPlaced(table[..], bits, collectionFlags.bits, hash, filler);
    }

    /** Marks a slot as one to keep, with an element and an epoch. */
    method Put(i: nat, e: E, epoch: bool)
      requires Valid() && i < table.Length && i in ComputeHashes(hash, table.Length, e)
      requires e == table[i] || Absent(table[..], e, filler)
      requires InEpoch() + Unit(epoch) + epochHeuristicCounter <= epochSize + Slack()
      modifies table, collectionFlags, collectionFlags.mem, epochFlags
      ensures Valid() && collectionFlags.mem == old(collectionFlags.mem)
      ensures table[..] == old(table[..])[i := e] && collectionFlags.bits == old(collectionFlags.bits)[i := false]
      ensures Contents() + One(old(table[i]), old(!collectionFlags.bits[i])) == old(Contents()) + multiset{e}
      ensures InEpoch() + Unit(old(epochFlags[i] && !collectionFlags.bits[i])) == old(InEpoch()) + Unit(epoch)
    {
      hide Placed, Current, Live, Absent, BitPackedAtomicFlags.Valid;
      ghost var t, c, f := table[..], collectionFlags.bits, epochFlags[..];
      LiveUpdate(t, c, i, e, false);
      CurrentUpdate(f, c, i, epoch, false);
      if e != t[i] {
        PutPlaced(t, c, hash, filler, i, e, false);
      } else {
        UncollectPlaced(t, c, hash, filler, i);
        assert t[i := e] == t;
      }
      table[i] := e;
      collectionFlags.BitUnset(i);
      epochFlags[i] := epoch;
      assert table[..] == t[i := e] && epochFlags[..] == f[i := epoch];
    }

    /** Puts an element into a live slot and takes out the one that was there, with their epochs. */
    method Swap(i: nat, e: E, epoch: bool) returns (out: E, outEpoch: bool)
      requires Valid() && i < table.Length && i in ComputeHashes(hash, table.Length, e) && !collectionFlags.bits[i]
      requires Absent(table[..], e, filler)
      requires InEpoch() + Unit(epoch) + epochHeuristicCounter <= epochSize + Slack()
      modifies table, epochFlags
      ensures Valid() && Absent(table[..], out, filler) && i in ComputeHashes(hash, table.Length, out)
      ensures Contents() + multiset{out} == old(Contents()) + multiset{e}
      ensures InEpoch() + Unit(outEpoch) == old(InEpoch()) + Unit(epoch)
    {
      hide Placed, Absent, Current, Live, BitPackedAtomicFlags.Valid, ComputeHashes;
      ghost var t, c, f := table[..], collectionFlags.bits, epochFlags[..];
      SwapPlaced(t, c, hash, filler, i, e);
      LiveUpdate(t, c, i, e, false);
      CurrentUpdate(f, c, i, epoch, false);
      out, outEpoch := table[i], epochFlags[i];
      table[i] := e;
      epochFlags[i] := epoch;
      assert c[i := false] == c;
      assert table[..] == t[i := e] && epochFlags[..] == f[i := epoch];
    }

    /** Whether the element is at one of its places, and the first of them. */
    method Find(e: E) returns (found: bool, loc: nat)
      requires Valid()
      ensures found ==> loc < table.Length && loc in ComputeHashes(hash, table.Length, e) && table[loc] == e
      ensures !found ==> Absent(table[..], e, filler) && e !in Contents()
    {
      var locs := ComputeHashes(hash, table.Length, e);
      for k := 0 to PLACES
        invariant forall j :: 0 <= j < k ==> table[locs[j]] != e
      {
        if table[locs[k]] == e {
          return true, locs[k];
        }
      }
      FoundAtPlaces(table[..], collectionFlags.bits, hash, filler, e);
      return false, 0;
    }

    /** The first free one of an element's places. */
    method FindFree(e: E) returns (free: bool, loc: nat)
      requires Valid()
      ensures free <==> Room(hash, collectionFlags.bits, e)
      ensures free ==> loc < table.Length && loc in ComputeHashes(hash, table.Length, e) && collectionFlags.bits[loc]
    {
      var locs := ComputeHashes(hash, table.Length, e);
      for k := 0 to PLACES
        invariant forall j :: 0 <= j < k ==> !collectionFlags.bits[locs[j]]
      {
        var collected := collectionFlags.BitIsSet(locs[k]);
        if collected {
          return true, locs[k];
        }
      }
      return false, 0;
    }

    /** Puts the element into the first of its places that is free. */
    method TryEmpty(e: E, epoch: bool) returns (done: bool)
      requires Valid() && Absent(table[..], e, filler)
      requires InEpoch() + Unit(epoch) + epochHeuristicCounter <= epochSize + Slack()
      modifies table, collectionFlags, collectionFlags.mem, epochFlags
      ensures Valid() && collectionFlags.mem == old(collectionFlags.mem)
      ensures done <==> Room(hash, old(collectionFlags.bits), e)
      ensures done ==> Contents() == old(Contents()) + multiset{e}
      ensures !done ==> table[..] == old(table[..]) && epochFlags[..] == old(epochFlags[..])
      ensures !done ==> collectionFlags.bits == old(collectionFlags.bits)
    {
      hide Placed, Absent, Current, Live, Room, Slack, Separate, BitPackedAtomicFlags.Valid;
      var loc: nat;
      done, loc := FindFree(e);
      if done {
        Put(loc, e, epoch);
      }
    }

    /** The place after the one last looked at; the second place if none was. */
    method NextPlace(locs: seq<nat>, lastLoc: nat) returns (loc: nat)
      requires |locs| == PLACES
      ensures loc in locs
      ensures lastLoc !in locs ==> loc == locs[1]
    {
      var k := 0;
      while k < PLACES && locs[k] != lastLoc
        invariant k <= PLACES && forall j :: 0 <= j < k ==> locs[j] != lastLoc
      {
        k := k + 1;
      }
      loc := locs[(1 + k) % 8];
    }

    /** The second half of insert.  An element found at one of its places is kept.  Any other one is added, and
        at most one element is lost for it: none if a place is free. */
    method Place(element: E) returns (ghost present: bool, ghost lost: multiset<E>)
      requires Valid() && InEpoch() + 1 + epochHeuristicCounter <= epochSize + Slack()
      modifies table, collectionFlags, collectionFlags.mem, epochFlags
      ensures Valid() && collectionFlags.mem == old(collectionFlags.mem)
      ensures element in old(Contents()) ==> present
      ensures present ==> lost == multiset{} && element in Contents()
      ensures present ==> exists dead :: Contents() == old(Contents()) + One(element, dead)
      ensures !present ==> Contents() + lost == old(Contents()) + multiset{element} && |lost| <= 1
      ensures !present && Room(hash, old(collectionFlags.bits), element) ==> lost == multiset{}
    {
      hide Placed, Absent, Current, Live, Room, Slack, Separate, BitPackedAtomicFlags.Valid;
      lost := multiset{};
      var found, loc := Find(element);
      present := found;
      if found {
        Keep(loc);
        return;
      }
      var e, lastEpoch := element, true;
      var lastLoc: nat := TWO32 - 1;
      ghost var count := InEpoch();
      for depth := 0 to depthLimit
        invariant Valid() && collectionFlags.mem == old(collectionFlags.mem)
        invariant Absent(table[..], e, filler) && (depth == 0 ==> e == element)
        invariant collectionFlags.bits == old(collectionFlags.bits)
        invariant Contents() + multiset{e} == old(Contents()) + multiset{element}
        invariant InEpoch() + Unit(lastEpoch) == count + 1
        invariant depth > 0 ==> !Room(hash, old(collectionFlags.bits), element)
      {
        var done := TryEmpty(e, lastEpoch);
        if done {
          return;
        }
        e, lastLoc, lastEpoch := Displace(e, lastLoc, lastEpoch);
      }
      lost := multiset{e};
    }

    /** Takes the place of the element at the next of the places; that element is in hand then. */
    method Displace(e: E, lastLoc: nat, epoch: bool) returns (out: E, loc: nat, outEpoch: bool)
      requires Valid() && Absent(table[..], e, filler) && !Room(hash, collectionFlags.bits, e)
      requires InEpoch() + Unit(epoch) + epochHeuristicCounter <= epochSize + Slack()
      modifies table, epochFlags
      ensures Valid() && Absent(table[..], out, filler) && loc in ComputeHashes(hash, table.Length, out)
      ensures Contents() + multiset{out} == old(Contents()) + multiset{e}
      ensures InEpoch() + Unit(outEpoch) == old(InEpoch()) + Unit(epoch)
    {
      hide Absent, Current, Live;
      var locs := ComputeHashes(hash, table.Length, e);
      loc := NextPlace(locs, lastLoc);
      out, outEpoch := Swap(loc, e, epoch);
    }

    /** Keeps an element that has been found. */
    method Keep(loc: nat)
      requires Valid() && loc < table.Length && loc in ComputeHashes(hash, table.Length, table[loc])
      requires InEpoch() + 1 + epochHeuristicCounter <= epochSize + Slack()
      modifies table, collectionFlags, collectionFlags.mem, epochFlags
      ensures Valid() && collectionFlags.mem == old(collectionFlags.mem)
      ensures table[..] == old(table[..]) && table[loc] in Contents()
      ensures Contents() == old(Contents()) + One(table[loc], old(collectionFlags.bits)[loc])
    {
      hide Placed, Absent, Current, Live;
      ghost var before, e, dead := Contents(), table[loc], collectionFlags.bits[loc];
      Put(loc, table[loc], true);
      assert table[..][loc] == e;
      LiveHas(table[..], collectionFlags.bits, e);
      Cancel(Contents(), before, e, dead);
    }

    /** Inserts an element.  checked are the elements that the epoch check left live: all of them, or, when the
        current epoch was full and a scan was due, exactly those of the current epoch. */
    method Insert(element: E) returns (ghost present: bool, ghost checked: multiset<E>, ghost lost: multiset<E>)
      requires Valid()
      modifies this`epochHeuristicCounter, table, collectionFlags, collectionFlags.mem, epochFlags
      ensures Valid() && collectionFlags.mem == old(collectionFlags.mem)
      ensures checked == if old(epochHeuristicCounter) == 0 && old(InEpoch()) >= epochSize then old(CurrentContents())
                         else old(Contents())
      ensures checked <= old(Contents())
      ensures element in checked ==> present
      ensures present ==> lost == multiset{} && exists dead :: Contents() == checked + One(element, dead)
      ensures !present ==> Contents() + lost == checked + multiset{element} && |lost| <= 1
    {
      hide Placed, Current, Live, Slack, BitPackedAtomicFlags.Valid;
      ghost var bits, elements, epochs := collectionFlags.bits, table[..], epochFlags[..];
      EpochCheck();
      assert table[..] == elements;
      assert Aged(epochs, bits, epochFlags[..], collectionFlags.bits) ==> collectionFlags.bits == Retired(epochs, bits);
      LiveShrinks(table[..], bits, collectionFlags.bits);
      checked := Contents();
      present, lost := Place(element);
    }

    /** Whether an element is at one of its places, which every live one is; optionally lets it be erased. */
    method Contains(e: E, erase: bool) returns (found: bool)
      requires Valid()
      modifies collectionFlags, collectionFlags.mem
      ensures Valid() && collectionFlags.mem == old(collectionFlags.mem)
      ensures e in old(Contents()) ==> found
      ensures found ==> e in table[..]
      ensures !(found && erase) ==> collectionFlags.bits == old(collectionFlags.bits)
      ensures found && erase ==> Contents() == old(Contents()) || Contents() + multiset{e} == old(Contents())
    {
      var loc: nat;
      found, loc := Find(e);
      if found && erase {
        Erase(loc);
      }
    }

    method Erase(i: nat)
      requires Valid() && i < table.Length
      modifies collectionFlags, collectionFlags.mem
      ensures Valid() && collectionFlags.mem == old(collectionFlags.mem)
      ensures collectionFlags.bits == old(collectionFlags.bits)[i := true]
      ensures Contents() + One(table[i], old(!collectionFlags.bits[i])) == old(Contents())
    {
      hide Placed, Current, Live;
      ghost var t, c, f := table[..], collectionFlags.bits, epochFlags[..];
      LiveUpdate(t, c, i, t[i], true);
      CurrentUpdate(f, c, i, f[i], true);
      CollectPlaced(t, c, c[i := true], hash, filler);
      assert t[i := t[i]] == t && f[i := f[i]] == f;
      collectionFlags.BitSet(i);
    }
  }

  /** The old elements are collected and the current ones are old. */
  ghost predicate Aged(epochs: seq<bool>, collected: seq<bool>, epochsAfter: seq<bool>, collectedAfter: seq<bool>)
  {
    && |epochs| == |collected| == |epochsAfter| == |collectedAfter|
    && forall i :: 0 <= i < |epochs| ==> !epochsAfter[i] && collectedAfter[i] == (collected[i] || !epochs[i])
  }

  /** The slots that an aging scan leaves free: those that are free and those of the old epoch. */
  ghost function Retired(epochs: seq<bool>, collected: seq<bool>): (r: seq<bool>)
    requires |epochs| == |collected|
    ensures |r| == |collected| && forall i :: 0 <= i < |r| ==> r[i] == (collected[i] || !epochs[i])
  {
    seq(|collected|, i requires 0 <= i < |collected| => collected[i] || !epochs[i])
  }

  lemma CurrentSplit(epochs: seq<bool>, collected: seq<bool>)
    requires |epochs| == |collected| > 0
    ensures var n := |epochs| - 1;
      Current(epochs, collected) == Current(epochs[..n], collected[..n]) + Unit(epochs[n] && !collected[n])
  {
  }

  /** What an aging scan keeps is as many elements as the epoch has. */
  lemma {:induction false} RetiredSize<E>(table: seq<E>, epochs: seq<bool>, collected: seq<bool>)
    requires |table| == |epochs| == |collected|
    ensures |Live(table, Retired(epochs, collected))| == Current(epochs, collected)
  {
    hide Live, Current;
    if table == [] {
      NothingLive(table, epochs, Retired(epochs, collected), collected);
    } else {
      var n := |table| - 1;
      var r := Retired(epochs, collected);
      LiveSplit(table, r);
      CurrentSplit(epochs, collected);
      RetiredSize(table[..n], epochs[..n], collected[..n]);
      assert r[..n] == Retired(epochs[..n], collected[..n]);
      assert r[n] == (collected[n] || !epochs[n]);
      hide Retired;
    }
  }

  lemma NothingLive<E>(table: seq<E>, epochs: seq<bool>, retired: seq<bool>, collected: seq<bool>)
    requires table == [] && epochs == retired == collected == []
    ensures |Live(table, retired)| == 0 && Current(epochs, collected) == 0
  {
  }

  lemma {:induction false} NoneLive<E>(table: seq<E>, collected: seq<bool>)
    requires |table| == |collected| && forall i :: 0 <= i < |table| ==> collected[i]
    ensures Live(table, collected) == multiset{}
  {
    if table != [] {
      NoneLive(table[..|table| - 1], collected[..|table| - 1]);
    }
  }

  function Max(a: nat, b: nat): nat
  {
    if a < b then b else a
  }
}
