/** The unspent outputs of one transaction. */
module Coins {

  datatype CTxOut = CTxOut(nValue: int, scriptPubKey: seq<nat>)

  /** A spent output: value -1 and an empty script. */
  const SPENT := CTxOut(-1, [])

  predicate IsNull(out: CTxOut)
  {
    out.nValue == -1
  }

  datatype CCoins = CCoins(fCoinBase: bool, vout: seq<CTxOut>, nHeight: int, nVersion: int)

  const NO_COINS := CCoins(false, [], 0, 0)

  predicate IsPruned(c: CCoins)
  {
    forall i :: 0 <= i < |c.vout| ==> IsNull(c.vout[i])
  }

  predicate IsAvailable(c: CCoins, n: nat)
  {
    n < |c.vout| && !IsNull(c.vout[n])
  }

  /** The outputs without the spent ones at the end. */
  function Trimmed(vout: seq<CTxOut>): (r: seq<CTxOut>)
    ensures r <= vout && (r == [] || !IsNull(r[|r| - 1]))
    ensures forall i :: |r| <= i < |vout| ==> IsNull(vout[i])
  {
    if |vout| > 0 && IsNull(vout[|vout| - 1]) then Trimmed(vout[..|vout| - 1]) else vout
  }

  function Cleaned(c: CCoins): CCoins
  {
    c.(vout := Trimmed(c.vout))
  }

  /** The loop that drops the spent outputs at the end. */
  method Cleanup(c: CCoins) returns (r: CCoins)
    ensures r == Cleaned(c)
  {
    var vout := c.vout;
    while |vout| > 0 && IsNull(vout[|vout| - 1])
      invariant Trimmed(vout) == Trimmed(c.vout)
    {
      vout := vout[..|vout| - 1];
    }
    r := c.(vout := vout);
  }

  /** Cleaning up changes neither which outputs are available nor any available output, leaves nothing to
      clean, and empties the outputs exactly when all are spent. */
  lemma CleanedKeeps(c: CCoins)
    ensures forall n: nat :: IsAvailable(Cleaned(c), n) <==> IsAvailable(c, n)
    ensures forall n: nat :: IsAvailable(c, n) ==> Cleaned(c).vout[n] == c.vout[n]
    ensures Cleaned(Cleaned(c)) == Cleaned(c)
    ensures IsPruned(c) <==> Cleaned(c).vout == []
    ensures IsPruned(Cleaned(c)) <==> IsPruned(c)
  {
    var t := Trimmed(c.vout);
    if t != [] {
      assert !IsNull(c.vout[|t| - 1]);
    }
    assert Trimmed(t) == t;
  }
}
