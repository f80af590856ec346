/** The values of the layered coins view: abstract states, cache entries, and what a layer of entries over a
    base denotes. */
module CoinsModel {

  import opened Coins
  import opened Options

  type Txid = nat

  datatype ShieldedType = SPROUT | SAPLING | ORCHARD

  /** A note commitment tree, and hashes.  The root of a tree is kept symbolic, so that different trees have
      different roots. */
  datatype Tree = Tree(commitments: seq<nat>)
  datatype Hash = Hash(n: nat) | RootOf(tree: Tree)

  const NULL_HASH := Hash(0)

  /** A nullifier or anchor of one shielded pool. */
  type PoolKey = (ShieldedType, Hash)

  /** The best anchor of each pool. */
  datatype Best = Best(sprout: Hash, sapling: Hash, orchard: Hash) {
    function Of(pool: ShieldedType): Hash
    {
      match pool
      case SPROUT => sprout
      case SAPLING => sapling
      case ORCHARD => orchard
    }

    function With(pool: ShieldedType, hash: Hash): (r: Best)
      ensures r.Of(pool) == hash && forall p :: p != pool ==> r.Of(p) == Of(p)
    {
      match pool
      case SPROUT => this.(sprout := hash)
      case SAPLING => this.(sapling := hash)
      case ORCHARD => this.(orchard := hash)
    }
  }

  const NULL_BEST := Best(NULL_HASH, NULL_HASH, NULL_HASH)

  /** The state a view stands for.  A transaction whose outputs are all spent is not in coins at all. */
  datatype State = State(coins: map<Txid, CCoins>, anchors: map<PoolKey, Tree>, nullifiers: set<PoolKey>,
                         block: Hash, best: Best)

  datatype CCoinsCacheEntry = CCoinsCacheEntry(coins: CCoins, isDirty: bool, isFresh: bool)
  datatype CAnchorsCacheEntry = CAnchorsCacheEntry(entered: bool, tree: Tree, isDirty: bool)
  datatype CNullifiersCacheEntry = CNullifiersCacheEntry(entered: bool, isDirty: bool)

  type CCoinsMap = map<Txid, CCoinsCacheEntry>
  type CAnchorsMap = map<PoolKey, CAnchorsCacheEntry>
  type CNullifiersMap = map<PoolKey, CNullifiersCacheEntry>

  function Look<K, V>(m: map<K, V>, k: K): Option<V>
  {
    if k in m then Some(m[k]) else None
  }

  /** A pruned coin is the same as none. */
  function Unspent(c: CCoins): Option<CCoins>
  {
    if IsPruned(c) then None else Some(Cleaned(c))
  }

  function Overlaid<K, V>(m: map<K, V>, k: K, v: Option<V>): map<K, V>
  {
    if v.Some? then m[k := v.value] else m - {k}
  }

  lemma SameMap<K, V>(a: map<K, V>, b: map<K, V>)
    requires forall k :: Look(a, k) == Look(b, k)
    ensures a == b
  {
    forall k | k in a
      ensures k in b && a[k] == b[k]
    {
      assert Look(a, k) == Look(b, k);
    }
    forall k | k in b
      ensures k in a
    {
      assert Look(a, k) == Look(b, k);
    }
    assert a.Keys == b.Keys;
  }

  // ---------- coins ----------

  lemma OverlaidSame<K, V>(m: map<K, V>, k: K)
    ensures Overlaid(m, k, Look(m, k)) == m
  {
    SameMap(Overlaid(m, k, Look(m, k)), m);
  }

  lemma UnspentCleaned(c: CCoins)
    ensures Unspent(Cleaned(c)) == Unspent(c)
  {
    CleanedKeeps(c);
  }

  /** The coins seen through a cache of entries over a base. */
  function CoinsView(cache: CCoinsMap, base: map<Txid, CCoins>): (r: map<Txid, CCoins>)
    ensures forall k :: Look(r, k) == if k in cache then Unspent(cache[k].coins) else Look(base, k)
  {
    map k | k in base.Keys + cache.Keys && (k in cache ==> !IsPruned(cache[k].coins))
      :: if k in cache then Cleaned(cache[k].coins) else base[k]
  }

  /** What the flags mean: the base has no coins for a fresh entry, and the same coins as an entry that is
      not dirty. */
  ghost predicate CoinsFit(cache: CCoinsMap, base: map<Txid, CCoins>)
  {
    forall k :: k in cache ==> EntryFits(cache[k], Look(base, k))
  }

  predicate EntryFits(e: CCoinsCacheEntry, under: Option<CCoins>)
  {
    && (e.isFresh ==> under.None?)
    && (!e.isDirty ==> Unspent(e.coins) == under)
  }

  /** Coins that are not being modified have been cleaned up. */
  ghost predicate Tidy(cache: CCoinsMap, modified: set<Txid>)
  {
    forall k :: k in cache && k !in modified ==> Cleaned(cache[k].coins) == cache[k].coins
  }

  /** Entries that are not fresh are backed by an entry in the parent cache. */
  ghost predicate Linked(cache: CCoinsMap, parent: set<Txid>)
  {
    forall k :: k in cache && !cache[k].isFresh ==> k in parent
  }

  lemma PutCoins(cache: CCoinsMap, base: map<Txid, CCoins>, k: Txid, e: CCoinsCacheEntry)
    requires CoinsFit(cache, base) && EntryFits(e, Look(base, k))
    ensures CoinsFit(cache[k := e], base)
    ensures CoinsView(cache[k := e], base) == Overlaid(CoinsView(cache, base), k, Unspent(e.coins))
  {
    hide IsPruned, Cleaned;
    SameMap(CoinsView(cache[k := e], base), Overlaid(CoinsView(cache, base), k, Unspent(e.coins)));
  }

  lemma DropCoins(cache: CCoinsMap, base: map<Txid, CCoins>, k: Txid)
    requires CoinsFit(cache, base)
    ensures CoinsFit(cache - {k}, base)
    ensures CoinsView(cache - {k}, base) == Overlaid(CoinsView(cache, base), k, Look(base, k))
  {
    hide IsPruned, Cleaned;
    SameMap(CoinsView(cache - {k}, base), Overlaid(CoinsView(cache, base), k, Look(base, k)));
  }

  // ---------- anchors ----------

  function AnchorsView(cache: CAnchorsMap, base: map<PoolKey, Tree>): (r: map<PoolKey, Tree>)
    ensures forall k :: Look(r, k) == if k in cache then Entered(cache[k]) else Look(base, k)
  {
    map k | k in base.Keys + cache.Keys && (k in cache ==> cache[k].entered)
      :: if k in cache then cache[k].tree else base[k]
  }

  function Entered(e: CAnchorsCacheEntry): Option<Tree>
  {
    if e.entered then Some(e.tree) else None
  }

  /** Anchors are filed under the root of their tree; an entry that is not dirty is in the base too. */
  ghost predicate AnchorsFit(cache: CAnchorsMap, base: map<PoolKey, Tree>)
  {
    forall k :: k in cache ==> AnchorFits(k, cache[k], Look(base, k))
  }

  predicate AnchorFits(k: PoolKey, e: CAnchorsCacheEntry, under: Option<Tree>)
  {
    k.1 == RootOf(e.tree) && (!e.isDirty ==> e.entered && under == Some(e.tree))
  }

  lemma PutAnchor(cache: CAnchorsMap, base: map<PoolKey, Tree>, k: PoolKey, e: CAnchorsCacheEntry)
    requires AnchorsFit(cache, base) && AnchorFits(k, e, Look(base, k))
    ensures AnchorsFit(cache[k := e], base)
    ensures AnchorsView(cache[k := e], base) == Overlaid(AnchorsView(cache, base), k, Entered(e))
  {
    SameMap(AnchorsView(cache[k := e], base), Overlaid(AnchorsView(cache, base), k, Entered(e)));
  }

  // ---------- nullifiers ----------

  function NullifiersView(cache: CNullifiersMap, base: set<PoolKey>): (r: set<PoolKey>)
    ensures forall k :: k in r <==> if k in cache then cache[k].entered else k in base
  {
    set k | k in base + cache.Keys && (k in cache ==> cache[k].entered)
  }

  ghost predicate NullifiersFit(cache: CNullifiersMap, base: set<PoolKey>)
  {
    forall k :: k in cache && !cache[k].isDirty ==> (cache[k].entered <==> k in base)
  }

  function Marked(s: set<PoolKey>, k: PoolKey, spent: bool): set<PoolKey>
  {
    if spent then s + {k} else s - {k}
  }

  // ---------- well-formed states ----------

  /** Coins of a state are unspent and clean, and its anchors are filed under their roots. */
  ghost predicate StateOk(coins: map<Txid, CCoins>, anchors: map<PoolKey, Tree>)
  {
    && (forall k :: k in coins ==> Unspent(coins[k]) == Some(coins[k]))
    && (forall k :: k in anchors ==> k.1 == RootOf(anchors[k]))
  }

  lemma ViewOk(coins: CCoinsMap, baseCoins: map<Txid, CCoins>, anchors: CAnchorsMap, baseAnchors: map<PoolKey, Tree>)
    requires StateOk(baseCoins, baseAnchors) && AnchorsFit(anchors, baseAnchors)
    ensures StateOk(CoinsView(coins, baseCoins), AnchorsView(anchors, baseAnchors))
  {
    var c := CoinsView(coins, baseCoins);
    var a := AnchorsView(anchors, baseAnchors);
    forall k | k in c
      ensures Unspent(c[k]) == Some(c[k])
    {
      assert Look(c, k) == Some(c[k]);
      if k in coins {
        CleanedKeeps(coins[k].coins);
      }
    }
    forall k | k in a
      ensures k.1 == RootOf(a[k])
    {
      assert Look(a, k) == Some(a[k]);
    }
  }

  // ---------- best block and best anchors ----------

  /** A null hash means: ask the view below. */
  function Or(own: Hash, under: Hash): Hash
  {
    if own == NULL_HASH then under else own
  }

  /** A pointer of a view is the same as in the view below. */
  predicate Agrees(own: Hash, under: Hash)
  {
    own == NULL_HASH || own == under
  }

  function BestOr(own: Best, under: Best): Best
  {
    Best(Or(own.sprout, under.sprout), Or(own.sapling, under.sapling), Or(own.orchard, under.orchard))
  }

  // ---------- memory use ----------

  ghost function Sum<K(!new)>(m: map<K, nat>): nat
  {
    if m == map[] then 0 else
      var k :| k in m;
      m[k] + Sum(m - {k})
  }

  lemma {:induction false} SumRemove<K(!new)>(m: map<K, nat>, k: K)
    requires k in m
    ensures Sum(m) == m[k] + Sum(m - {k})
    decreases |m|
  {
    var j :| j in m && Sum(m) == m[j] + Sum(m - {j});
    if j != k {
      SumRemove(m - {j}, k);
      SumRemove(m - {k}, j);
      assert m - {j} - {k} == m - {k} - {j};
    }
  }

  lemma SumPut<K(!new)>(m: map<K, nat>, k: K, v: nat)
    ensures Sum(m[k := v]) == Sum(m) + v - (if k in m then m[k] else 0)
  {
    SumRemove(m[k := v], k);
    assert m[k := v] - {k} == m - {k};
    if k in m {
      SumRemove(m, k);
    } else {
      assert m - {k} == m;
    }
  }

  /** The sizes of the cached coins, and of the cached trees. */
  ghost function CoinSizes(cache: CCoinsMap, usage: CCoins -> nat): map<Txid, nat>
  {
    map k | k in cache :: usage(cache[k].coins)
  }

  ghost function TreeSizes(cache: CAnchorsMap, usage: Tree -> nat): map<PoolKey, nat>
  {
    map k | k in cache :: usage(cache[k].tree)
  }

  ghost function CoinsTotal(cache: CCoinsMap, usage: CCoins -> nat): nat
  {
    Sum(CoinSizes(cache, usage))
  }

  ghost function TreesTotal(cache: CAnchorsMap, usage: Tree -> nat): nat
  {
    Sum(TreeSizes(cache, usage))
  }

  lemma CoinsTotalPut(cache: CCoinsMap, k: Txid, e: CCoinsCacheEntry, usage: CCoins -> nat)
    ensures CoinsTotal(cache[k := e], usage)
         == CoinsTotal(cache, usage) + usage(e.coins) - (if k in cache then usage(cache[k].coins) else 0)
  {
    SumPut(CoinSizes(cache, usage), k, usage(e.coins));
    assert CoinSizes(cache[k := e], usage) == CoinSizes(cache, usage)[k := usage(e.coins)];
  }

  lemma CoinsTotalDrop(cache: CCoinsMap, k: Txid, usage: CCoins -> nat)
    requires k in cache
    ensures CoinsTotal(cache - {k}, usage) == CoinsTotal(cache, usage) - usage(cache[k].coins)
  {
    CoinsTotalPut(cache - {k}, k, cache[k], usage);
    assert (cache - {k})[k := cache[k]] == cache;
  }

  lemma TreesTotalPut(cache: CAnchorsMap, k: PoolKey, e: CAnchorsCacheEntry, usage: Tree -> nat)
    ensures TreesTotal(cache[k := e], usage)
         == TreesTotal(cache, usage) + usage(e.tree) - (if k in cache then usage(cache[k].tree) else 0)
  {
    SumPut(TreeSizes(cache, usage), k, usage(e.tree));
    assert TreeSizes(cache[k := e], usage) == TreeSizes(cache, usage)[k := usage(e.tree)];
  }

  // ---------- opening and closing an entry for modification ----------

  function SizeAt(cache: CCoinsMap, k: Txid, usage: CCoins -> nat): nat
  {
    if k in cache then usage(cache[k].coins) else 0
  }

  /** Putting a dirty entry in place, to be modified. */
  lemma OpenFits(cache: CCoinsMap, base: map<Txid, CCoins>, parent: set<Txid>, k: Txid, e: CCoinsCacheEntry,
                 usage: CCoins -> nat)
    requires CoinsFit(cache, base) && Tidy(cache, {}) && Linked(cache, parent)
    requires e.isDirty && (e.isFresh ==> Look(base, k).None?) && (!e.isFresh ==> k in parent)
    ensures CoinsFit(cache[k := e], base) && Tidy(cache[k := e], {k}) && Linked(cache[k := e], parent)
    ensures CoinsView(cache[k := e], base) == Overlaid(CoinsView(cache, base), k, Unspent(e.coins))
    ensures CoinsTotal(cache[k := e] - {k}, usage) == CoinsTotal(cache - {}, usage) - SizeAt(cache, k, usage)
  {
    hide CoinsView, IsPruned, Cleaned, Overlaid, CoinsTotal, Unspent;
    PutCoins(cache, base, k, e);
    assert cache - {} == cache;
    assert cache[k := e] - {k} == cache - {k};
    if k in cache {
      CoinsTotalDrop(cache, k, usage);
    } else {
      assert cache - {k} == cache;
    }
  }

  /** Changing the open entry. */
  lemma AssignFits(cache: CCoinsMap, base: map<Txid, CCoins>, parent: set<Txid>, k: Txid, coins: CCoins)
    requires CoinsFit(cache, base) && Tidy(cache, {k}) && Linked(cache, parent)
    requires k in cache && cache[k].isDirty
    ensures var after := cache[k := cache[k].(coins := coins)];
            && CoinsFit(after, base) && Tidy(after, {k}) && Linked(after, parent)
            && CoinsView(after, base) == Overlaid(CoinsView(cache, base), k, Unspent(coins))
            && after - {k} == cache - {k}
  {
    hide CoinsView, IsPruned, Cleaned, Overlaid, Unspent;
    var e := cache[k].(coins := coins);
    assert EntryFits(cache[k], Look(base, k));
    PutCoins(cache, base, k, e);
  }

  /** Cleaning the open entry up. */
  lemma CleanFits(cache: CCoinsMap, base: map<Txid, CCoins>, parent: set<Txid>, k: Txid, usage: CCoins -> nat)
    requires CoinsFit(cache, base) && Tidy(cache, {k}) && Linked(cache, parent)
    requires k in cache && cache[k].isDirty
    ensures var after := cache[k := cache[k].(coins := Cleaned(cache[k].coins))];
            && CoinsFit(after, base) && Tidy(after, {}) && Linked(after, parent)
            && CoinsView(after, base) == CoinsView(cache, base)
            && CoinsTotal(after - {}, usage) == CoinsTotal(cache - {k}, usage) + usage(Cleaned(cache[k].coins))
  {
    hide CoinsView, IsPruned, Cleaned, Overlaid, Unspent, CoinsTotal;
    var e := cache[k].(coins := Cleaned(cache[k].coins));
    UnspentCleaned(cache[k].coins);
    CleanedKeeps(cache[k].coins);
    AssignFits(cache, base, parent, k, e.coins);
    assert Look(CoinsView(cache, base), k) == Unspent(e.coins);
    OverlaidSame(CoinsView(cache, base), k);
    CoinsTotalPut(cache - {k}, k, e, usage);
    assert cache[k := e] - {} == (cache - {k})[k := e];
  }

  /** Dropping the open entry, fresh and pruned. */
  lemma DropFits(cache: CCoinsMap, base: map<Txid, CCoins>, parent: set<Txid>, k: Txid)
    requires CoinsFit(cache, base) && Tidy(cache, {k}) && Linked(cache, parent)
    requires k in cache && cache[k].isFresh && IsPruned(cache[k].coins)
    ensures CoinsFit(cache - {k}, base) && Tidy(cache - {k}, {}) && Linked(cache - {k}, parent)
    ensures CoinsView(cache - {k}, base) == CoinsView(cache, base)
    ensures cache - {k} - {} == cache - {k}
  {
    hide CoinsView, Cleaned, Overlaid;
    assert EntryFits(cache[k], Look(base, k));
    DropCoins(cache, base, k);
    assert Look(CoinsView(cache, base), k) == Unspent(cache[k].coins) == Look(base, k);
    OverlaidSame(CoinsView(cache, base), k);
  }

  /** The cache after a modifier is closed. */
  function Closed(cache: CCoinsMap, k: Txid): CCoinsMap
    requires k in cache
  {
    var coins := Cleaned(cache[k].coins);
    if cache[k].isFresh && IsPruned(coins) then cache - {k} else cache[k := cache[k].(coins := coins)]
  }

  lemma CloseFits(cache: CCoinsMap, base: map<Txid, CCoins>, parent: set<Txid>, k: Txid, usage: CCoins -> nat)
    requires CoinsFit(cache, base) && Tidy(cache, {k}) && Linked(cache, parent)
    requires k in cache && cache[k].isDirty
    ensures CoinsFit(Closed(cache, k), base) && Tidy(Closed(cache, k), {}) && Linked(Closed(cache, k), parent)
    ensures CoinsView(Closed(cache, k), base) == CoinsView(cache, base)
    ensures CoinsTotal(Closed(cache, k) - {}, usage)
         == CoinsTotal(cache - {k}, usage) + if k in Closed(cache, k) then usage(Cleaned(cache[k].coins)) else 0
  {
    hide CoinsFit, CoinsView, Tidy, Linked, CoinsTotal, Unspent;
    CleanedKeeps(cache[k].coins);
    if k in Closed(cache, k) {
      CleanFits(cache, base, parent, k, usage);
    } else {
      DropFits(cache, base, parent, k);
    }
  }

  // ---------- writing a dirty entry of a child ----------

  /** The parent's cache after a dirty entry of its child has been written into it. */
  function Written(cache: CCoinsMap, k: Txid, e: CCoinsCacheEntry): CCoinsMap
  {
    if k !in cache then
      if IsPruned(e.coins) then cache else cache[k := CCoinsCacheEntry(e.coins, true, true)]
    else if cache[k].isFresh && IsPruned(e.coins) then cache - {k}
    else cache[k := cache[k].(coins := e.coins, isDirty := true)]
  }

  lemma WriteFits(cache: CCoinsMap, base: map<Txid, CCoins>, parent: set<Txid>, k: Txid, e: CCoinsCacheEntry,
                  usage: CCoins -> nat)
    requires CoinsFit(cache, base) && Tidy(cache, {}) && Linked(cache, parent)
    requires Cleaned(e.coins) == e.coins
    requires e.isFresh ==> Look(CoinsView(cache, base), k).None?
    requires !e.isFresh ==> k in cache
    ensures CoinsFit(Written(cache, k, e), base) && Tidy(Written(cache, k, e), {})
      && Linked(Written(cache, k, e), parent)
    ensures CoinsView(Written(cache, k, e), base) == Overlaid(CoinsView(cache, base), k, Unspent(e.coins))
    ensures CoinsTotal(Written(cache, k, e), usage)
         == CoinsTotal(cache, usage) - SizeAt(cache, k, usage) + SizeAt(Written(cache, k, e), k, usage)
  {
    hide CoinsView, IsPruned, Cleaned, Overlaid, CoinsTotal;
    var view := CoinsView(cache, base);
    assert Look(view, k) == if k in cache then Unspent(cache[k].coins) else Look(base, k);
    if k in cache {
      assert EntryFits(cache[k], Look(base, k));
      if cache[k].isFresh && IsPruned(e.coins) {
        DropCoins(cache, base, k);
        CoinsTotalDrop(cache, k, usage);
      } else {
        PutCoins(cache, base, k, cache[k].(coins := e.coins, isDirty := true));
        CoinsTotalPut(cache, k, cache[k].(coins := e.coins, isDirty := true), usage);
      }
    } else if IsPruned(e.coins) {
      OverlaidSame(view, k);
    } else {
      PutCoins(cache, base, k, CCoinsCacheEntry(e.coins, true, true));
      CoinsTotalPut(cache, k, CCoinsCacheEntry(e.coins, true, true), usage);
    }
  }

  /** The view now is the view then, with the entries that have been written so far on top. */
  ghost predicate CoinsMerged(now: map<Txid, CCoins>, was: map<Txid, CCoins>, entries: CCoinsMap, todo: set<Txid>)
  {
    forall k :: Look(now, k) == if k in entries && k !in todo then Unspent(entries[k].coins) else Look(was, k)
  }

  lemma CoinsMergedDone(now: map<Txid, CCoins>, was: map<Txid, CCoins>, entries: CCoinsMap)
    requires CoinsMerged(now, was, entries, {})
    ensures now == CoinsView(entries, was)
  {
    SameMap(now, CoinsView(entries, was));
  }

  ghost predicate AnchorsMerged(now: map<PoolKey, Tree>, was: map<PoolKey, Tree>, entries: CAnchorsMap,
      todo: set<PoolKey>)
  {
    forall k :: Look(now, k) == if k in entries && k !in todo then Entered(entries[k]) else Look(was, k)
  }

  lemma AnchorsMergedDone(now: map<PoolKey, Tree>, was: map<PoolKey, Tree>, entries: CAnchorsMap)
    requires AnchorsMerged(now, was, entries, {})
    ensures now == AnchorsView(entries, was)
  {
    SameMap(now, AnchorsView(entries, was));
  }
}
