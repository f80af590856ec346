/** The rolling bloom filter: a set of recently inserted keys that forgets in generations. */
module Bloom {

  import opened Powers
  import opened Words

  type Key = seq<nat>

  // ---------- generations and cells ----------

  /** The two bits of a generation's label, as words. */
  function Low(generation: nat): (v: nat)
    ensures v < 2
  {
    if generation % 2 == 1 then 1 else 0
  }

  function High(generation: nat): (v: nat)
    requires generation < 4
    ensures v < 2
  {
    if generation / 2 == 1 then 1 else 0
  }

  /** Generations are labelled 1, 2, 3, 1, 2, 3, ... */
  function LabelOf(turn: nat): (r: nat)
    ensures 1 <= r <= 3
  {
    turn % 3 + 1
  }

  /** The label stored in a cell: one bit of a word and the same bit of its neighbour. */
  function Label(words: seq<nat>, p: nat, b: nat): (r: nat)
    requires 2 * p + 1 < |words| && b < 64
    ensures r < 4
  {
    (if Bit(words[2 * p], b) then 1 else 0) + (if Bit(words[2 * p + 1], b) then 2 else 0)
  }

  /** How keys are spread over the cells, and how many make a generation. */
  datatype Layout = Layout(hash: (nat, Word32, Key) -> Word32, nTweak: Word32, nHashFuncs: nat, size: nat,
      perGeneration: nat) {
    ghost predicate Ok()
    {
      0 < size <= TWO32 && size % 2 == 0 && 0 < perGeneration
    }

    function Pair(key: Key, n: nat): (p: nat)
      requires Ok()
      ensures 2 * p + 1 < size
    {
      FastMod(hash(n, nTweak, key), size) / 2
    }

    function BitOf(key: Key, n: nat): (b: nat)
      ensures b < 64
    {
      hash(n, nTweak, key) % 64
    }

    /** One of the first count hashes of the key falls into the cell. */
    predicate Touches(key: Key, count: nat, p: nat, b: nat)
      requires Ok()
    {
      exists n: nat :: n < count && Pair(key, n) == p && BitOf(key, n) == b
    }

    /** The last generation that touched a cell, or -1. */
    ghost function Stamp(keys: seq<Key>, p: nat, b: nat): (s: int)
      requires Ok()
      ensures -1 <= s && (keys == [] ==> s == -1)
    {
      if keys == [] then -1
      else if Touches(keys[|keys| - 1], nHashFuncs, p, b) then (|keys| - 1) / perGeneration
      else Stamp(keys[..|keys| - 1], p, b)
    }
  }

  /** The first of the generations that still show: the current one and the two before. */
  function Since(turn: nat): nat
  {
    if turn < 2 then 0 else turn - 2
  }

  /** What a cell shows during a generation. */
  function Shown(stamp: int, turn: nat): nat
  {
    if stamp >= Since(turn) then LabelOf(stamp) else 0
  }

  lemma QuotientAtLeast(i: nat, q: nat, d: nat)
    requires 0 < d && i >= q * d
    ensures i / d >= q
  {
    var r := i / d;
    assert i < d * (r + 1);
    if r < q {
      ProductAtMost(d, r + 1, q);
    }
  }

  lemma NextTurn(turn: nat, d: nat)
    ensures (turn + 1) * d == turn * d + d
  {
  }

  lemma DivMonotone(i: nat, j: nat, d: nat)
    requires i <= j && 0 < d
    ensures i / d <= j / d
  {
    QuotientAtLeast(j, i / d, d);
  }

  /** The stamp of a cell reaches a generation exactly when some key of that generation or later touched the
      cell. */
  lemma {:induction false} StampIs(layout: Layout, keys: seq<Key>, p: nat, b: nat, turn: nat)
    requires layout.Ok()
    ensures layout.Stamp(keys, p, b) >= turn <==>
              exists i :: 0 <= i < |keys| && i / layout.perGeneration >= turn
                && layout.Touches(keys[i], layout.nHashFuncs, p, b)
    ensures keys != [] ==> layout.Stamp(keys, p, b) <= (|keys| - 1) / layout.perGeneration
  {
    hide Layout.Touches;
    if keys != [] {
      var last := |keys| - 1;
      var front := keys[..last];
      StampIs(layout, front, p, b, turn);
      if front != [] {
        DivMonotone(last - 1, last, layout.perGeneration);
      }
      if layout.Touches(keys[last], layout.nHashFuncs, p, b) {
        forall i | 0 <= i < |keys|
          ensures i / layout.perGeneration <= last / layout.perGeneration
        {
          DivMonotone(i, last, layout.perGeneration);
        }
      } else {
        forall i | 0 <= i < |keys| && layout.Touches(keys[i], layout.nHashFuncs, p, b)
          ensures i < |front| && front[i] == keys[i]
        {
        }
        forall i | 0 <= i < |front|
          ensures front[i] == keys[i]
        {
        }
      }
    }
  }

  /** Every cell shows what its stamp says. */
  ghost predicate CellsOk(words: seq<nat>, layout: Layout, keys: seq<Key>, turn: nat)
    requires layout.Ok() && |words| == layout.size
  {
    forall p: nat, b: nat | 2 * p + 1 < |words| && b < 64 ::
      Label(words, p, b) == Shown(layout.Stamp(keys, p, b), turn)
  }

  lemma ZeroCellsOk(words: seq<nat>, layout: Layout)
    requires layout.Ok() && |words| == layout.size && forall i :: 0 <= i < |words| ==> words[i] == 0
    ensures CellsOk(words, layout, [], 0)
  {
    forall p: nat, b: nat | 2 * p + 1 < |words| && b < 64
      ensures Label(words, p, b) == 0
    {
      BitOfZero(b);
    }
  }

  // ---------- beginning a generation ----------

  /** The cells with a given label have been cleared. */
  ghost predicate Wiped(before: seq<nat>, after: seq<nat>, generation: nat)
  {
    && |after| == |before|
    && forall p: nat, b: nat | 2 * p + 1 < |after| && b < 64 ::
         Label(after, p, b) == if Label(before, p, b) == generation then 0 else Label(before, p, b)
  }

  /** Where two words differ from a label. */
  function WipeMask(p1: nat, p2: nat, nGeneration: nat): nat
    requires nGeneration < 4
  {
    BitOr(Xor(p1, Mask(Low(nGeneration))), Xor(p2, Mask(High(nGeneration))))
  }

  lemma WipeBit(p1: nat, p2: nat, nGeneration: nat, b: nat)
    requires b < 64 && nGeneration < 4
    ensures var mask := WipeMask(p1, p2, nGeneration);
            var same := Bit(p1, b) == (nGeneration % 2 == 1) && Bit(p2, b) == (nGeneration / 2 == 1);
            && Bit(BitAnd(p1, mask), b) == (Bit(p1, b) && !same)
            && Bit(BitAnd(p2, mask), b) == (Bit(p2, b) && !same)
  {
    hide Bit, BitAnd, BitOr, Xor, Mask;
    var m1, m2 := Mask(Low(nGeneration)), Mask(High(nGeneration));
    BitOfMask(Low(nGeneration), b);
    BitOfMask(High(nGeneration), b);
    BitOfXor(p1, m1, b);
    BitOfXor(p2, m2, b);
    BitOfOr(Xor(p1, m1), Xor(p2, m2), b);
    BitOfAnd(p1, WipeMask(p1, p2, nGeneration), b);
    BitOfAnd(p2, WipeMask(p1, p2, nGeneration), b);
  }

  /** Clears the cells that carry a label, a word's worth at a time. */
  method Wipe(data: array<nat>, nGeneration: nat)
    requires data.Length % 2 == 0 && 1 <= nGeneration <= 3
    modifies data
    ensures Wiped(old(data[..]), data[..], nGeneration)
  {
    hide Bit, BitAnd, WipeMask;
    ghost var before := data[..];
    var p := 0;
    while p < data.Length
      invariant 0 <= p <= data.Length && p % 2 == 0
      invariant forall i :: p <= i < data.Length ==> data[i] == before[i]
      invariant forall q: nat, b: nat | 2 * q + 1 < p && b < 64 ::
                  Label(data[..], q, b) == if Label(before, q, b) == nGeneration then 0 else Label(before, q, b)
    {
      var p1, p2 := data[p], data[p + 1];
      var mask := WipeMask(p1, p2, nGeneration);
      ghost var was := data[..];
      data[p] := BitAnd(p1, mask);
      data[p + 1] := BitAnd(p2, mask);
      forall q: nat, b: nat | 2 * q + 1 < p + 2 && b < 64
        ensures Label(data[..], q, b) == if Label(before, q, b) == nGeneration then 0 else Label(before, q, b)
      {
        if 2 * q == p {
          WipeBit(p1, p2, nGeneration, b);
        } else {
          assert Label(data[..], q, b) == Label(was, q, b);
        }
      }
      p := p + 2;
    }
  }

  /** A generation is complete: the cells stamped three generations before the next one carry its label, and
      no others do. */
  lemma TurnKeeps(before: seq<nat>, after: seq<nat>, layout: Layout, keys: seq<Key>, turn: nat)
    requires layout.Ok() && |before| == layout.size && CellsOk(before, layout, keys, turn)
    requires keys != [] && (|keys| - 1) / layout.perGeneration == turn
    requires Wiped(before, after, LabelOf(turn + 1))
    ensures CellsOk(after, layout, keys, turn + 1)
  {
    forall p: nat, b: nat | 2 * p + 1 < |after| && b < 64
      ensures Label(after, p, b) == Shown(layout.Stamp(keys, p, b), turn + 1)
    {
      assert Label(before, p, b) == Shown(layout.Stamp(keys, p, b), turn);
      StampIs(layout, keys, p, b, 0);
      LabelsRepeat(layout.Stamp(keys, p, b), turn);
    }
  }

  lemma LabelsRepeat(stamp: int, turn: nat)
    requires -1 <= stamp <= turn
    ensures Shown(stamp, turn + 1) == if Shown(stamp, turn) == LabelOf(turn + 1) then 0 else Shown(stamp, turn)
  {
  }

  // ---------- marking a key ----------

  ghost predicate MarkedUpTo(before: seq<nat>, after: seq<nat>, layout: Layout, key: Key, n: nat, generation: nat)
    requires layout.Ok() && |before| == layout.size
  {
    && |after| == |before|
    && forall p: nat, b: nat | 2 * p + 1 < |after| && b < 64 ::
         Label(after, p, b) == if layout.Touches(key, n, p, b) then generation else Label(before, p, b)
  }

  method MarkCell(data: array<nat>, pos: nat, bit: nat, nGeneration: nat)
    requires pos < data.Length && data.Length % 2 == 0 && bit < 64 && 1 <= nGeneration <= 3
    modifies data
    ensures forall p: nat, b: nat | 2 * p + 1 < data.Length && b < 64 ::
              Label(data[..], p, b) == if p == pos / 2 && b == bit then nGeneration else Label(old(data[..]), p, b)
  {
    hide Bit, WithBit;
    ghost var was := data[..];
    var lo, hi := pos - pos % 2, pos - pos % 2 + 1;
    data[lo] := WithBit(data[lo], bit, Low(nGeneration));
    data[hi] := WithBit(data[hi], bit, High(nGeneration));
    forall p: nat, b: nat | 2 * p + 1 < data.Length && b < 64
      ensures Label(data[..], p, b) == if p == pos / 2 && b == bit then nGeneration else Label(was, p, b)
    {
      if p == pos / 2 {
        BitOfWithBit(was[lo], bit, Low(nGeneration), b);
        BitOfWithBit(was[hi], bit, High(nGeneration), b);
      }
    }
  }

  lemma MarkKeeps(before: seq<nat>, after: seq<nat>, layout: Layout, keys: seq<Key>, key: Key, turn: nat)
    requires layout.Ok() && |before| == layout.size && CellsOk(before, layout, keys, turn)
    requires |keys| / layout.perGeneration == turn
    requires MarkedUpTo(before, after, layout, key, layout.nHashFuncs, LabelOf(turn))
    ensures CellsOk(after, layout, keys + [key], turn)
  {
    assert (keys + [key])[..|keys|] == keys;
    forall p: nat, b: nat | 2 * p + 1 < |after| && b < 64
      ensures Label(after, p, b) == Shown(layout.Stamp(keys + [key], p, b), turn)
    {
      assert Label(before, p, b) == Shown(layout.Stamp(keys, p, b), turn);
    }
  }

  // ---------- what the filter remembers ----------

  /** Some key of this or the two previous generations touched the cell. */
  ghost predicate Recent(layout: Layout, keys: seq<Key>, turn: nat, p: nat, b: nat)
    requires layout.Ok()
  {
    exists i :: 0 <= i < |keys| && i / layout.perGeneration >= Since(turn)
      && layout.Touches(keys[i], layout.nHashFuncs, p, b)
  }

  /** All cells of a key have been touched recently. */
  ghost predicate Seen(layout: Layout, keys: seq<Key>, turn: nat, key: Key)
    requires layout.Ok()
  {
    forall n: nat :: n < layout.nHashFuncs ==> Recent(layout, keys, turn, layout.Pair(key, n), layout.BitOf(key, n))
  }

  lemma CellIsRecent(words: seq<nat>, layout: Layout, keys: seq<Key>, turn: nat, p: nat, b: nat)
    requires layout.Ok() && |words| == layout.size && CellsOk(words, layout, keys, turn)
    requires 2 * p + 1 < |words| && b < 64
    ensures Label(words, p, b) != 0 <==> Recent(layout, keys, turn, p, b)
  {
    hide Label, Layout.Stamp, Layout.Touches, Since;
    assert Label(words, p, b) == Shown(layout.Stamp(keys, p, b), turn);
    StampIs(layout, keys, p, b, Since(turn));
  }

  /** The keys of the current generation and of the two complete ones before it are all seen. */
  lemma LastKeysAreSeen(layout: Layout, keys: seq<Key>, turn: nat, current: nat, i: nat)
    requires layout.Ok() && |keys| == turn * layout.perGeneration + current
    requires i < |keys| && |keys| - i <= 2 * layout.perGeneration + current
    ensures Seen(layout, keys, turn, keys[i])
  {
    var d := layout.perGeneration;
    if turn >= 2 {
      assert i >= (turn - 2) * d;
      QuotientAtLeast(i, turn - 2, d);
    }
    forall n: nat | n < layout.nHashFuncs
      ensures Recent(layout, keys, turn, layout.Pair(keys[i], n), layout.BitOf(keys[i], n))
    {
      assert layout.Touches(keys[i], layout.nHashFuncs, layout.Pair(keys[i], n), layout.BitOf(keys[i], n));
    }
  }

  class CRollingBloomFilter {
    const nFilterBits: nat
    const nEntriesPerGeneration: nat
    const nHashFuncs: nat
    const hash: (nat, Word32, Key) -> Word32

    var nEntriesThisGeneration: nat
    var nGeneration: nat
    var data: array<nat>
    var nTweak: Word32

    /** The keys inserted since the filter was last reset, and how often a new generation has begun. */
    ghost var keys: seq<Key>
    ghost var turn: nat

    ghost function Spread(): Layout
      reads `data, `nTweak
    {
      Layout(hash, nTweak, nHashFuncs, data.Length, nEntriesPerGeneration)
    }

    /** How many of the last keys are certain to be reported. */
    ghost function Kept(): (n: nat)
      requires Valid()
      reads this, data
      ensures n <= |keys|
      ensures n == |keys| || n >= 2 * nEntriesPerGeneration
    {
      var n := 2 * nEntriesPerGeneration + nEntriesThisGeneration;
      if data.Length > 0 && n < |keys| then n else |keys|
    }

    ghost predicate Valid()
      reads this, data
    {
      && 0 < nEntriesPerGeneration && 0 < nFilterBits <= TWO32 - 64
      && if data.Length == 0 then keys == []
         else
           && data.Length == (nFilterBits + 63) / 64 * 2
           && nEntriesThisGeneration <= nEntriesPerGeneration && nGeneration == LabelOf(turn)
           && |keys| == turn * nEntriesPerGeneration + nEntriesThisGeneration
           && Spread().Ok()
           && CellsOk(data[..], Spread(), keys, turn)
    }

    constructor (nElements: nat, nFilterBits: nat, nHashFuncs: nat, hash: (nat, Word32, Key) -> Word32)
      requires 0 < nElements && 0 < nFilterBits <= TWO32 - 64
      ensures Valid() && fresh(data) && keys == [] && nEntriesPerGeneration == (nElements + 1) / 2
    {
      this.nFilterBits, this.nHashFuncs, this.hash := nFilterBits, nHashFuncs, hash;
      nEntriesPerGeneration := (nElements + 1) / 2;
      data := new nat[0];
      keys, turn := [], 0;
    }

    /** Forgets everything. */
    method Reset()
      requires Valid()
      modifies this
      ensures Valid() && fresh(data) && keys == []
    {
      data := new nat[0];
      keys := [];
    }

    method Initialize(rand: Word32)
      requires Valid() && data.Length == 0
      modifies this
      ensures Valid() && fresh(data) && data.Length > 0 && keys == [] && nTweak == rand
    {
      var size := (nFilterBits + 63) / 64 * 2;
      data := new nat[size](i => 0);
      nTweak := rand;
      nEntriesThisGeneration := 0;
      nGeneration := 1;
      turn := 0;
      assert Spread().Ok();
      ZeroCellsOk(data[..], Spread());
    }

    /** Begins the next generation and wipes the cells that carry its label. */
    method Turn()
      requires Valid() && data.Length > 0 && nEntriesThisGeneration == nEntriesPerGeneration
      modifies this, data
      ensures Valid() && data == old(data) && keys == old(keys) && nTweak == old(nTweak)
      ensures nEntriesThisGeneration == 0 && turn == old(turn) + 1
    {
      hide CellsOk, Wiped, Label, Layout.Stamp;
      ghost var before := data[..];
      ghost var layout := Spread();
      NextTurn(turn, nEntriesPerGeneration);
      DivModUnique(turn * nEntriesPerGeneration + nEntriesPerGeneration - 1, nEntriesPerGeneration,
                   turn, nEntriesPerGeneration - 1);
      nEntriesThisGeneration := 0;
      nGeneration := nGeneration + 1;
      if nGeneration == 4 {
        nGeneration := 1;
      }
      Wipe(data, nGeneration);
      TurnKeeps(before, data[..], layout, keys, turn);
      turn := turn + 1;
    }

    /** Adds a key.  rand is the random tweak, used if the filter is empty. */
    method Insert(key: Key, rand: Word32)
      requires Valid()
      modifies this, data
      ensures Valid() && keys == old(keys) + [key]
      ensures data == old(data) || fresh(data)
    {
      if data.Length == 0 {
        Initialize(rand);
      }
      if nEntriesThisGeneration == nEntriesPerGeneration {
        Turn();
      }
      ghost var before := data[..];
      nEntriesThisGeneration := nEntriesThisGeneration + 1;
      MarkAll(key);
      DivModUnique(turn * nEntriesPerGeneration + nEntriesThisGeneration - 1, nEntriesPerGeneration,
                   turn, nEntriesThisGeneration - 1);
      MarkKeeps(before, data[..], Spread(), keys, key, turn);
      keys := keys + [key];
    }

    /** Whether a key may have been inserted: yes exactly when each of its cells was touched in one of the
        last three generations, so certainly if it is one of the last 2 * nEntriesPerGeneration keys. */
    method Contains(key: Key) returns (found: bool)
      requires Valid()
      ensures found <==> data.Length > 0 && Seen(Spread(), keys, turn, key)
      ensures key in keys[|keys| - Kept()..] ==> found
    {
      hide Bit, BitOr;
      if data.Length == 0 {
        return false;
      }
      ghost var layout := Spread();
      forall i | |keys| - Kept() <= i < |keys|
        ensures Seen(layout, keys, turn, keys[i])
      {
        LastKeysAreSeen(layout, keys, turn, nEntriesThisGeneration, i);
      }
      for n := 0 to nHashFuncs
        invariant forall m: nat :: m < n ==> Recent(layout, keys, turn, layout.Pair(key, m), layout.BitOf(key, m))
      {
        var h := hash(n, nTweak, key);
        var bit := h % 64;
        var pos := FastMod(h, data.Length);
        var lo, hi := pos - pos % 2, pos - pos % 2 + 1;
        CellIsRecent(data[..], layout, keys, turn, layout.Pair(key, n), layout.BitOf(key, n));
        BitOfOr(data[lo], data[hi], bit);
        if !Bit(BitOr(data[lo], data[hi]), bit) {
          return false;
        }
      }
      return true;
    }

    /** Writes the current label into every cell of a key. */
    method MarkAll(key: Key)
      requires data.Length > 0 && data.Length % 2 == 0 && Spread().Ok() && 1 <= nGeneration <= 3
      modifies data
      ensures MarkedUpTo(old(data[..]), data[..], Spread(), key, nHashFuncs, nGeneration)
    {
      ghost var layout := Spread();
      ghost var before := data[..];
      for n := 0 to nHashFuncs
        invariant MarkedUpTo(before, data[..], layout, key, n, nGeneration)
      {
        var h := hash(n, nTweak, key);
        var bit := h % 64;
        var pos := FastMod(h, data.Length);
        assert pos / 2 == layout.Pair(key, n) && bit == layout.BitOf(key, n);
        ghost var was := data[..];
        MarkCell(data, pos, bit, nGeneration);
        forall p: nat, b: nat | 2 * p + 1 < data.Length && b < 64
          ensures layout.Touches(key, n + 1, p, b) <==> layout.Touches(key, n, p, b) || (p == pos / 2 && b == bit)
        {
          TouchesNext(layout, key, n, p, b);
        }
      }
    }
  }

  lemma TouchesNext(layout: Layout, key: Key, n: nat, p: nat, b: nat)
    requires layout.Ok()
    ensures layout.Touches(key, n + 1, p, b)
       <==> layout.Touches(key, n, p, b) || (p == layout.Pair(key, n) && b == layout.BitOf(key, n))
  {
  }
}
