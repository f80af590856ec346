/** The write-back cache over a coins view, which may itself be a cache. */
module CoinsCache {

  import opened Coins
  import opened CoinsModel
  import opened Options

  /** Bookkeeping: the entry an open modifier works on, the size that it will subtract when it is closed, and
      the sizes that ModifyNewCoins forgot to subtract. */
  datatype Books = Books(modified: set<Txid>, pending: nat, drift: nat)

  class CCoinsViewCache {
    /** The parent cache; null when the parent is the database, which answers from store. */
    const base: CCoinsViewCache?
    const store: State
    /** Sizes of coins and trees in memory. */
    const usage: CCoins -> nat
    const treeUsage: Tree -> nat

    var hasModifier: bool
    var hashBlock: Hash
    var cacheCoins: CCoinsMap
    var hashAnchors: Best
    var cacheAnchors: CAnchorsMap
    var cacheNullifiers: CNullifiersMap
    var cachedCoinsUsage: int

    /** This cache and all caches below it. */
    ghost const Repr: set<CCoinsViewCache>

    /** The state this view stands for. */
    ghost var viewCoins: map<Txid, CCoins>
    ghost var viewAnchors: map<PoolKey, Tree>
    ghost var viewNullifiers: set<PoolKey>
    ghost var viewBlock: Hash
    ghost var viewBest: Best

    ghost var books: Books

    ghost function View(): State
      reads `viewCoins, `viewAnchors, `viewNullifiers, `viewBlock, `viewBest
    {
      State(viewCoins, viewAnchors, viewNullifiers, viewBlock, viewBest)
    }

    /** The cache's own best block and best anchors; null means that the view below is asked. */
    ghost function Pointers(): (Hash, Best)
      reads `hashBlock, `hashAnchors
    {
      (hashBlock, hashAnchors)
    }

    /** The state the view below stands for. */
    ghost function Below(): State
      reads base
    {
      if base == null then store else base.View()
    }

    ghost predicate CoinsPart(b: map<Txid, CCoins>)
      reads `cacheCoins, `viewCoins
    {
      CoinsFit(cacheCoins, b) && viewCoins == CoinsView(cacheCoins, b)
    }

    ghost predicate TidyPart()
      reads `cacheCoins, `books, `hasModifier
    {
      Tidy(cacheCoins, books.modified) && books.modified <= cacheCoins.Keys && (hasModifier <==> books.modified != {})
    }

    ghost predicate AnchorsPart(b: map<PoolKey, Tree>)
      reads `cacheAnchors, `viewAnchors
    {
      AnchorsFit(cacheAnchors, b) && viewAnchors == AnchorsView(cacheAnchors, b)
    }

    ghost predicate NullifiersPart(b: set<PoolKey>)
      reads `cacheNullifiers, `viewNullifiers
    {
      NullifiersFit(cacheNullifiers, b) && viewNullifiers == NullifiersView(cacheNullifiers, b)
    }

    ghost predicate BestPart(block: Hash, best: Best)
      reads `hashBlock, `hashAnchors, `viewBlock, `viewBest
    {
      viewBlock == Or(hashBlock, block) && viewBest == BestOr(hashAnchors, best)
    }

    /** The memory counter is the size of everything cached, the open entry not counted, plus what the
        modifier still has to subtract and what was forgotten. */
    ghost predicate UsagePart()
      reads `cacheCoins, `cacheAnchors, `books, `cachedCoinsUsage
    {
      && (books.modified == {} ==> books.pending == 0)
      && cachedCoinsUsage == CoinsTotal(cacheCoins - books.modified, usage) + TreesTotal(cacheAnchors, treeUsage)
                          + books.pending + books.drift
    }

    /** Everything that does not concern the coins. */
    ghost predicate Rest(b: State)
      reads `cacheAnchors, `cacheNullifiers, `hashBlock, `hashAnchors
      reads `viewAnchors, `viewNullifiers, `viewBlock, `viewBest
    {
      && StateOk(b.coins, b.anchors)
      && AnchorsPart(b.anchors) && NullifiersPart(b.nullifiers) && BestPart(b.block, b.best)
    }

    ghost predicate Own(b: State)
      reads this
    {
      CoinsPart(b.coins) && TidyPart() && UsagePart() && Rest(b)
    }

    ghost predicate Shape()
    {
      && this in Repr
      && (base == null ==> Repr == {this})
      && (base != null ==> base in base.Repr && Repr == {this} + base.Repr && this !in base.Repr)
    }

    /** No cache below is being modified, and every entry that is not fresh is backed by one in the parent. */
    ghost predicate BaseReady()
      requires Shape()
      reads Repr - {this}
      decreases Repr, 0
    {
      base != null ==> base.Valid() && !base.hasModifier
    }

    ghost predicate Backed()
      reads `cacheCoins, base
    {
      base != null ==> Linked(cacheCoins, base.cacheCoins.Keys)
    }

    ghost predicate Valid()
      reads this, Repr
      decreases Repr, 1
    {
      Shape() && BaseReady() && Backed() && Own(Below())
    }

    /** Nothing but cached answers has changed in this cache and those below it. */
    twostate predicate Read()
      reads Repr
    {
      forall c :: c in Repr ==>
        && c.View() == old(c.View())
        && c.hasModifier == old(c.hasModifier) && c.books == old(c.books)
        && Grown(old(c.cacheCoins), c.cacheCoins)
    }

    constructor OverDatabase(store: State, usage: CCoins -> nat, treeUsage: Tree -> nat)
      requires StateOk(store.coins, store.anchors)
      ensures Valid() && !hasModifier && base == null && Repr == {this}
      ensures View() == this.store == store && books.drift == 0 && this.usage == usage && this.treeUsage == treeUsage
    {
      this.base, this.store, this.usage, this.treeUsage := null, store, usage, treeUsage;
      hasModifier, hashBlock, cacheCoins, hashAnchors, cacheAnchors := false, NULL_HASH, map[], NULL_BEST, map[];
      cacheNullifiers, cachedCoinsUsage := map[], 0;
      Repr := {this};
      viewCoins, viewAnchors, viewNullifiers := store.coins, store.anchors, store.nullifiers;
      viewBlock, viewBest := store.block, store.best;
      books := Books({}, 0, 0);
      new;
      EmptyFits(store);
    }

    /** A cache over another one starts out as the same view. */
    constructor Over(parent: CCoinsViewCache)
      requires parent.Valid() && !parent.hasModifier
      ensures Valid() && !hasModifier && base == parent && Repr == {this} + parent.Repr
      ensures View() == parent.View() && books.drift == 0 && hashBlock == NULL_HASH && hashAnchors == NULL_BEST
    {
      base, store, usage, treeUsage := parent, parent.store, parent.usage, parent.treeUsage;
      hasModifier, hashBlock, cacheCoins, hashAnchors, cacheAnchors := false, NULL_HASH, map[], NULL_BEST, map[];
      cacheNullifiers, cachedCoinsUsage := map[], 0;
      Repr := {this} + parent.Repr;
      viewCoins, viewAnchors, viewNullifiers := parent.viewCoins, parent.viewAnchors, parent.viewNullifiers;
      viewBlock, viewBest := parent.viewBlock, parent.viewBest;
      books := Books({}, 0, 0);
      new;
      hide Own, StateOk;
      assert this !in parent.Repr;
      parent.ViewIsOk();
      EmptyFits(parent.View());
      assert BaseReady() && Own(Below());
    }

    lemma EmptyFits(b: State)
      requires StateOk(b.coins, b.anchors)
      requires viewCoins == b.coins && viewAnchors == b.anchors && viewNullifiers == b.nullifiers
      requires cacheCoins == map[] && cacheAnchors == map[] && cacheNullifiers == map[]
      requires BestPart(b.block, b.best)
      requires !hasModifier && books == Books({}, 0, 0) && cachedCoinsUsage == 0
      ensures Own(b)
    {
      SameMap(viewCoins, CoinsView(cacheCoins, b.coins));
      SameMap(viewAnchors, AnchorsView(cacheAnchors, b.anchors));
    }

    lemma ViewIsOk()
      requires Valid()
      ensures StateOk(viewCoins, viewAnchors)
    {
      hide CoinsFit, Tidy, AnchorsFit, NullifiersFit, StateOk;
      ViewOk(cacheCoins, Below().coins, cacheAnchors, Below().anchors);
    }

    lemma NotCached(txid: Txid)
      requires Valid() && txid !in cacheCoins
      ensures Look(viewCoins, txid) == Look(Below().coins, txid)
    {
      assert Look(CoinsView(cacheCoins, Below().coins), txid) == Look(Below().coins, txid);
    }

    // ---------- reads ----------

    /** Asks the view below for coins. */
    method GetCoinsBelow(txid: Txid) returns (coins: Option<CCoins>)
      requires Valid()
      modifies Repr - {this}
      ensures Valid() && Read()
      ensures Look(Below().coins, txid) == if coins.Some? then Unspent(coins.value) else None
      ensures coins.Some? ==> Cleaned(coins.value) == coins.value
      ensures coins.Some? && base != null ==> txid in base.cacheCoins
      decreases Repr, 0
    {
      hide CoinsPart, AnchorsPart, NullifiersPart, BestPart, UsagePart, Cleaned;
      if base != null {
        coins := base.GetCoins(txid);
        assert BaseReady();
      } else {
        coins := Look(store.coins, txid);
        if coins.Some? {
          CleanedKeeps(coins.value);
        }
      }
    }

    /** Caches coins of the view below; pruned ones count as fresh. */
    method Remember(txid: Txid, coins: CCoins)
      requires Valid() && txid !in cacheCoins
      requires Look(Below().coins, txid) == Unspent(coins) && Cleaned(coins) == coins
      requires base != null ==> txid in base.cacheCoins
      modifies `cacheCoins, `cachedCoinsUsage
      ensures Valid() && Grown(old(cacheCoins), cacheCoins) && txid in cacheCoins
    {
      hide CoinsView, CoinsFit, Overlaid, StateOk, AnchorsPart;
      hide NullifiersPart, BestPart, CoinsTotal, TreesTotal, IsPruned, Cleaned;
      ghost var b := Below();
      var entry := CCoinsCacheEntry(coins, false, IsPruned(coins));
      assert (cacheCoins - books.modified)[txid := entry] == cacheCoins[txid := entry] - books.modified;
      RememberFits(cacheCoins, b.coins, txid, entry);
      CoinsTotalPut(cacheCoins - books.modified, txid, entry, usage);
      cacheCoins := cacheCoins[txid := entry];
      cachedCoinsUsage := cachedCoinsUsage + usage(coins);
      assert BaseReady() && Own(b);
    }

    /** Makes sure that coins of the view are cached. */
    method FetchCoins(txid: Txid) returns (found: bool)
      requires Valid()
      modifies Repr
      ensures Valid() && Read() && Pointers() == old(Pointers())
      ensures found <==> txid in cacheCoins
      ensures !found ==> txid !in viewCoins
      decreases Repr, 1
    {
      hide CoinsPart, TidyPart, AnchorsPart, NullifiersPart, BestPart, UsagePart, StateOk, IsPruned, Cleaned;
      if txid in cacheCoins {
        return true;
      }
      var tmp := GetCoinsBelow(txid);
      if tmp.None? {
        NotCached(txid);
        return false;
      }
      Remember(txid, tmp.value);
      return true;
    }

    /** The coins of a transaction; a pruned entry may be reported as pruned coins or not at all. */
    method GetCoins(txid: Txid) returns (coins: Option<CCoins>)
      requires Valid()
      modifies Repr
      ensures Valid() && Read() && Pointers() == old(Pointers())
      ensures Look(viewCoins, txid) == if coins.Some? then Unspent(coins.value) else None
      ensures coins.Some? ==> txid in cacheCoins && coins.value == cacheCoins[txid].coins
      decreases Repr, 2
    {
      var found := FetchCoins(txid);
      if found {
        return Some(cacheCoins[txid].coins);
      }
      return None;
    }

    /** Whether the view has coins: for cached coins the test is only that there are outputs at all.  It tells
        the truth because coins are cleaned up when a modifier closes; about the coins that a modifier has
        open it may say yes too early. */
    method HaveCoins(txid: Txid) returns (have: bool)
      requires Valid()
      modifies Repr
      ensures Valid() && Read() && Pointers() == old(Pointers())
      ensures have <==>
        txid in viewCoins || (txid in books.modified && txid in cacheCoins && cacheCoins[txid].coins.vout != [])
      ensures !hasModifier ==> (have <==> txid in viewCoins)
      decreases Repr, 2
    {
      var found := FetchCoins(txid);
      if found {
        var coins := cacheCoins[txid].coins;
        CleanedKeeps(coins);
        assert Look(CoinsView(cacheCoins, Below().coins), txid) == Unspent(coins);
      }
      have := found && |cacheCoins[txid].coins.vout| > 0;
    }

    lemma AnchorSeen(k: PoolKey)
      requires Valid()
      ensures Look(viewAnchors, k) == if k in cacheAnchors then Entered(cacheAnchors[k]) else Look(Below().anchors, k)
    {
      assert Look(AnchorsView(cacheAnchors, Below().anchors), k) == Look(viewAnchors, k);
    }

    method RememberAnchor(k: PoolKey, tree: Tree)
      requires Valid() && k !in cacheAnchors && Look(Below().anchors, k) == Some(tree)
      modifies `cacheAnchors, `cachedCoinsUsage
      ensures Valid() && k in cacheAnchors && cacheAnchors[k].tree == tree && cacheAnchors[k].entered
    {
      hide AnchorsView, AnchorsFit, Overlaid, CoinsPart, TidyPart, NullifiersPart, BestPart, CoinsTotal, TreesTotal;
      ghost var b := Below();
      var entry := CAnchorsCacheEntry(true, tree, false);
      RememberAnchorFits(cacheAnchors, b.anchors, k, entry);
      TreesTotalPut(cacheAnchors, k, entry, treeUsage);
      cacheAnchors := cacheAnchors[k := entry];
      cachedCoinsUsage := cachedCoinsUsage + treeUsage(tree);
      assert BaseReady() && Own(b);
    }

    /** The tree of an anchor of the view. */
    method GetAnchorAt(k: PoolKey) returns (tree: Option<Tree>)
      requires Valid()
      modifies Repr
      ensures Valid() && Read() && Pointers() == old(Pointers())
      ensures tree == Look(viewAnchors, k)
      ensures tree.Some? ==> k in cacheAnchors && cacheAnchors[k].entered && cacheAnchors[k].tree == tree.value
      decreases Repr, 1
    {
      hide CoinsPart, TidyPart, AnchorsPart, NullifiersPart, BestPart, UsagePart, StateOk;
      AnchorSeen(k);
      if k in cacheAnchors {
        return Entered(cacheAnchors[k]);
      }
      if base != null {
        tree := base.GetAnchorAt(k);
        assert BaseReady();
      } else {
        tree := Look(store.anchors, k);
      }
      if tree.Some? {
        RememberAnchor(k, tree.value);
      }
    }

    method RememberNullifier(k: PoolKey, spent: bool)
      requires Valid() && k !in cacheNullifiers && (spent <==> k in Below().nullifiers)
      modifies `cacheNullifiers
      ensures Valid()
    {
      hide CoinsPart, TidyPart, AnchorsPart, BestPart, UsagePart;
      ghost var b := Below();
      cacheNullifiers := cacheNullifiers[k := CNullifiersCacheEntry(spent, false)];
      assert NullifiersView(cacheNullifiers, b.nullifiers) == viewNullifiers;
      assert BaseReady() && Own(b);
    }

    /** Whether a nullifier is spent in the view. */
    method GetNullifier(k: PoolKey) returns (spent: bool)
      requires Valid()
      modifies Repr
      ensures Valid() && Read() && Pointers() == old(Pointers())
      ensures spent <==> k in viewNullifiers
      decreases Repr, 1
    {
      hide CoinsPart, TidyPart, AnchorsPart, BestPart, UsagePart, StateOk;
      assert k in viewNullifiers <==>
        if k in cacheNullifiers then cacheNullifiers[k].entered else k in Below().nullifiers;
      if k in cacheNullifiers {
        return cacheNullifiers[k].entered;
      }
      if base != null {
        spent := base.GetNullifier(k);
        assert BaseReady();
      } else {
        spent := k in store.nullifiers;
      }
      RememberNullifier(k, spent);
    }

    method GetBestBlock() returns (hash: Hash)
      requires Valid()
      modifies Repr
      ensures Valid() && Read()
      ensures hash == viewBlock == hashBlock && hashAnchors == old(hashAnchors)
      decreases Repr, 1
    {
      hide CoinsPart, TidyPart, AnchorsPart, NullifiersPart, UsagePart, StateOk;
      if hashBlock == NULL_HASH {
        var below: Hash;
        if base != null {
          below := base.GetBestBlock();
          assert BaseReady();
        } else {
          below := store.block;
        }
        hashBlock := below;
      }
      hash := hashBlock;
    }

    /** Keeps the best anchor of a pool of the view below. */
    method RememberBest(pool: ShieldedType, below: Hash)
      requires Valid() && hashAnchors.Of(pool) == NULL_HASH && below == Below().best.Of(pool)
      modifies `hashAnchors
      ensures Valid() && hashAnchors == old(hashAnchors).With(pool, below)
    {
      hide CoinsPart, TidyPart, AnchorsPart, NullifiersPart, BaseReady, Backed, UsagePart, StateOk;
      ghost var b := Below();
      hashAnchors := hashAnchors.With(pool, below);
      assert Own(b);
    }

    method GetBestAnchor(pool: ShieldedType) returns (hash: Hash)
      requires Valid()
      modifies Repr
      ensures Valid() && Read()
      ensures hash == viewBest.Of(pool) && hashAnchors == old(hashAnchors).With(pool, hash)
        && hashBlock == old(hashBlock)
      decreases Repr, 1
    {
      hide CoinsPart, TidyPart, AnchorsPart, NullifiersPart, UsagePart, StateOk;
      if hashAnchors.Of(pool) == NULL_HASH {
        var below: Hash;
        if base != null {
          below := base.GetBestAnchor(pool);
          assert BaseReady();
        } else {
          below := store.best.Of(pool);
        }
        RememberBest(pool, below);
      }
      hash := hashAnchors.Of(pool);
    }

    // ---------- changes ----------

    /** No view below has changed. */
    twostate predicate LowerKept()
      reads Repr
    {
      forall c :: c in Repr && c != this ==> c.View() == old(c.View()) && c.books == old(c.books)
    }

    twostate lemma ReadMeans()
      requires Shape() && Read()
      ensures LowerKept() && View() == old(View()) && hasModifier == old(hasModifier) && books == old(books)
    {
    }

    twostate lemma BaseKept()
      requires base != null && Shape() && base.Shape() && LowerKept()
      ensures base.View() == old(base.View()) && base.books == old(base.books) && base.Below() == old(base.Below())
    {
    }

    /** The coins that entries which are not fresh can be about. */
    ghost function Backing(k: Txid): (keys: set<Txid>)
      requires Shape() && Backed()
      reads this, Repr
      ensures Linked(cacheCoins, keys)
    {
      if base == null then cacheCoins.Keys + {k} else base.cacheCoins.Keys
    }

    lemma CoinsSeen(txid: Txid)
      requires Valid() && txid in cacheCoins
      ensures EntryFits(cacheCoins[txid], Look(Below().coins, txid))
      ensures Look(viewCoins, txid) == Unspent(cacheCoins[txid].coins)
      ensures base != null && !cacheCoins[txid].isFresh ==> txid in base.cacheCoins
    {
      hide Unspent;
      assert Look(CoinsView(cacheCoins, Below().coins), txid) == Unspent(cacheCoins[txid].coins);
    }

    /** Puts the dirty entry for a modifier in place.  Of the size that an entry there had before, the
        modifier will subtract pend; the rest is forgotten. */
    method OpenEntry(txid: Txid, coins: CCoins, isFresh: bool, ghost pend: nat, ghost lost: nat)
      requires Valid() && !hasModifier
      requires isFresh ==> Look(Below().coins, txid).None?
      requires !isFresh && base != null ==> txid in base.cacheCoins
      requires pend + lost == SizeAt(cacheCoins, txid, usage)
      modifies `cacheCoins, `hasModifier, `viewCoins, `books
      ensures Valid() && hasModifier && books == Books({txid}, pend, old(books.drift) + lost)
      ensures cacheCoins == old(cacheCoins)[txid := CCoinsCacheEntry(coins, true, isFresh)]
      ensures viewCoins == Overlaid(old(viewCoins), txid, Unspent(coins))
    {
      hide CoinsView, CoinsFit, Tidy, Linked, Overlaid, Unspent, Rest, BaseReady, CoinsTotal, TreesTotal;
      ghost var b := Below();
      var entry := CCoinsCacheEntry(coins, true, isFresh);
      OpenFits(cacheCoins, b.coins, Backing(txid), txid, entry, usage);
      cacheCoins := cacheCoins[txid := entry];
      viewCoins := Overlaid(viewCoins, txid, Unspent(coins));
      hasModifier, books := true, Books({txid}, pend, books.drift + lost);
      assert BaseReady() && Own(b);
    }

    /** Opens an entry for modification.  This alone does not change the view. */
    method ModifyCoins(txid: Txid) returns (m: CCoinsModifier)
      requires Valid() && !hasModifier
      modifies Repr
      ensures Valid() && LowerKept()
      ensures View() == old(View()) && books.drift == old(books.drift) && Pointers() == old(Pointers())
      ensures fresh(m) && m.cache == this && m.txid == txid && m.Open()
      ensures Unspent(cacheCoins[txid].coins) == Look(viewCoins, txid)
    {
      hide CoinsPart, TidyPart, AnchorsPart, NullifiersPart, BestPart, UsagePart, StateOk, Overlaid, CoinsView;
      var coins, isFresh, before := NO_COINS, false, 0;
      if txid in cacheCoins {
        CoinsSeen(txid);
        coins, isFresh, before := cacheCoins[txid].coins, cacheCoins[txid].isFresh, usage(cacheCoins[txid].coins);
      } else {
        var below := GetCoinsBelow(txid);
        NotCached(txid);
        if below.None? {
          isFresh := true;
        } else {
          coins, isFresh := below.value, IsPruned(below.value);
        }
      }
      OverlaidSame(viewCoins, txid);
      OpenEntry(txid, coins, isFresh, before, 0);
      m := new CCoinsModifier(this, txid, before);
    }

    /** Opens an empty entry, on the promise that the view below has no unspent coins of that name.  If this
        cache itself had some, their size is forgotten in the memory counter. */
    method ModifyNewCoins(txid: Txid) returns (m: CCoinsModifier)
      requires Valid() && !hasModifier
      requires txid !in Below().coins
      modifies this
      ensures Valid()
      ensures View() == old(View()).(coins := old(viewCoins) - {txid}) && Pointers() == old(Pointers())
      ensures books.drift == old(books.drift) + SizeAt(old(cacheCoins), txid, usage)
      ensures fresh(m) && m.cache == this && m.txid == txid && m.Open()
    {
      hide CoinsPart, TidyPart, AnchorsPart, NullifiersPart, BestPart, UsagePart, StateOk, CoinsView;
      OpenEntry(txid, NO_COINS, true, 0, SizeAt(cacheCoins, txid, usage));
      m := new CCoinsModifier(this, txid, 0);
    }

    /** Puts a dirty entry for an anchor in place. */
    method WriteAnchor(k: PoolKey, entry: CAnchorsCacheEntry)
      requires Valid() && k.1 == RootOf(entry.tree) && entry.isDirty
      modifies `cacheAnchors, `viewAnchors, `cachedCoinsUsage
      ensures Valid() && viewAnchors == Overlaid(old(viewAnchors), k, Entered(entry))
      ensures cacheAnchors == old(cacheAnchors)[k := entry]
    {
      hide AnchorsView, Overlaid, CoinsPart, TidyPart, NullifiersPart;
      hide BestPart, BaseReady, Backed, CoinsTotal, TreesTotal, StateOk;
      ghost var b := Below();
      PutAnchor(cacheAnchors, b.anchors, k, entry);
      TreesTotalPut(cacheAnchors, k, entry, treeUsage);
      if k !in cacheAnchors {
        cachedCoinsUsage := cachedCoinsUsage + treeUsage(entry.tree);
      } else {
        assert AnchorFits(k, cacheAnchors[k], Look(b.anchors, k));
      }
      cacheAnchors := cacheAnchors[k := entry];
      viewAnchors := Overlaid(viewAnchors, k, Entered(entry));
      assert Own(b);
    }

    /** Makes a tree the best anchor of its pool. */
    method PushAnchor(tree: Tree, pool: ShieldedType)
      requires Valid()
      modifies Repr
      ensures Valid() && LowerKept() && hasModifier == old(hasModifier) && books == old(books)
      ensures var root := RootOf(tree);
              View() == old(View()).(
                anchors := if old(viewBest).Of(pool) == root then old(viewAnchors)
                           else old(viewAnchors)[(pool, root) := tree],
                best := old(viewBest).With(pool, root))
      ensures hashBlock == old(hashBlock) && hashAnchors == old(hashAnchors).With(pool, RootOf(tree))
    {
      hide CoinsPart, TidyPart, AnchorsPart, NullifiersPart, UsagePart, StateOk, BestPart;
      var newrt := RootOf(tree);
      var currentRoot := GetBestAnchor(pool);
      if currentRoot != newrt {
        WriteAnchor((pool, newrt), CAnchorsCacheEntry(true, tree, true));
        SetBestAnchor(pool, newrt);
      }
    }

    /** Points a pool's best anchor somewhere else; a null hash leaves the choice to the view below. */
    method SetBestAnchor(pool: ShieldedType, hash: Hash)
      requires Valid()
      modifies `hashAnchors, `viewBest
      ensures Valid() && viewBest == old(viewBest).With(pool, Or(hash, Below().best.Of(pool)))
      ensures hashAnchors == old(hashAnchors).With(pool, hash)
    {
      hide CoinsPart, TidyPart, AnchorsPart, NullifiersPart, BaseReady, Backed, UsagePart, StateOk;
      ghost var b := Below();
      hashAnchors := hashAnchors.With(pool, hash);
      viewBest := viewBest.With(pool, Or(hash, b.best.Of(pool)));
      assert Own(b);
    }

    /** Removes a pool's best anchor and makes another one the best. */
    method PopAnchor(newrt: Hash, pool: ShieldedType)
      requires Valid()
      requires viewBest.Of(pool) != newrt ==> (pool, viewBest.Of(pool)) in viewAnchors
      modifies Repr
      ensures Valid() && LowerKept() && hasModifier == old(hasModifier) && books == old(books)
      ensures var best := old(viewBest).Of(pool);
              View() == old(View()).(
                anchors := if best == newrt then old(viewAnchors) else old(viewAnchors) - {(pool, best)},
                best := old(viewBest).With(pool, Or(newrt, Below().best.Of(pool))))
      ensures hashBlock == old(hashBlock) && hashAnchors == old(hashAnchors).With(pool, newrt)
    {
      hide CoinsPart, TidyPart, AnchorsPart, NullifiersPart, UsagePart, StateOk, Overlaid;
      var currentRoot := BringBestAnchorIntoCache(pool, newrt);
      if currentRoot != newrt {
        var k := (pool, currentRoot);
        OverlaidNone(viewAnchors, k);
        WriteAnchor(k, cacheAnchors[k].(entered := false, isDirty := true));
        SetBestAnchor(pool, newrt);
      }
    }

    /** Finds the best anchor and, unless it is the given one, makes sure that its tree is cached. */
    method BringBestAnchorIntoCache(pool: ShieldedType, newrt: Hash) returns (currentRoot: Hash)
      requires Valid()
      requires viewBest.Of(pool) != newrt ==> (pool, viewBest.Of(pool)) in viewAnchors
      modifies Repr
      ensures Valid() && Read()
      ensures currentRoot == viewBest.Of(pool)
      ensures hashBlock == old(hashBlock) && hashAnchors == old(hashAnchors).With(pool, currentRoot)
      ensures currentRoot != newrt ==>
                (pool, currentRoot) in cacheAnchors && currentRoot == RootOf(cacheAnchors[(pool, currentRoot)].tree)
    {
      hide Valid;
      currentRoot := GetBestAnchor(pool);
      if currentRoot != newrt {
        var tree := GetAnchorAt((pool, currentRoot));
        assert tree.Some?;
        AnchorKeyed((pool, currentRoot));
      }
    }

    /** The sizes of everything cached. */
    ghost function Held(): nat
      reads `cacheCoins, `cacheAnchors
    {
      CoinsTotal(cacheCoins, usage) + TreesTotal(cacheAnchors, treeUsage)
    }

    /** With no modifier open, the memory counter is the size of everything cached plus what was forgotten. */
    lemma UsageKnown()
      requires Valid() && !hasModifier
      ensures cachedCoinsUsage == Held() + books.drift
    {
      assert cacheCoins - {} == cacheCoins;
    }

    lemma ShapeKnown()
      requires Valid()
      ensures Shape()
    {
    }

    lemma AnchorKeyed(k: PoolKey)
      requires Valid() && k in cacheAnchors
      ensures k.1 == RootOf(cacheAnchors[k].tree)
    {
      assert AnchorFits(k, cacheAnchors[k], Look(Below().anchors, k));
    }

    method WriteNullifier(k: PoolKey, entry: CNullifiersCacheEntry)
      requires Valid() && entry.isDirty
      modifies `cacheNullifiers, `viewNullifiers
      ensures Valid() && viewNullifiers == Marked(old(viewNullifiers), k, entry.entered)
      ensures cacheNullifiers == old(cacheNullifiers)[k := entry]
    {
      hide CoinsPart, TidyPart, AnchorsPart, BestPart, BaseReady, Backed, UsagePart, StateOk;
      ghost var b := Below();
      cacheNullifiers := cacheNullifiers[k := entry];
      viewNullifiers := Marked(viewNullifiers, k, entry.entered);
      assert viewNullifiers == NullifiersView(cacheNullifiers, b.nullifiers);
      assert Own(b);
    }

    /** Marks the nullifiers of a transaction as spent or not. */
    method SetNullifiers(nullifiers: seq<PoolKey>, spent: bool)
      requires Valid()
      modifies `cacheNullifiers, `viewNullifiers
      ensures Valid()
      ensures viewNullifiers == MarkedAll(old(viewNullifiers), nullifiers, spent)
      ensures forall k :: k in viewNullifiers <==> if k in nullifiers then spent else k in old(viewNullifiers)
    {
      hide Valid;
      for i := 0 to |nullifiers|
        invariant Valid() && viewNullifiers == MarkedAll(old(viewNullifiers), nullifiers[..i], spent)
      {
        WriteNullifier(nullifiers[i], CNullifiersCacheEntry(spent, true));
        assert nullifiers[..i + 1] == nullifiers[..i] + [nullifiers[i]];
      }
      assert nullifiers[..|nullifiers|] == nullifiers;
    }

    method SetBestBlock(hash: Hash)
      requires Valid()
      modifies `hashBlock, `viewBlock
      ensures Valid() && hashBlock == hash && viewBlock == Or(hash, Below().block)
    {
      hide CoinsPart, TidyPart, AnchorsPart, NullifiersPart, BaseReady, Backed, UsagePart, StateOk;
      ghost var b := Below();
      hashBlock := hash;
      viewBlock := Or(hash, b.block);
      assert Own(b);
    }

    // ---------- flushing ----------

    /** Writes one dirty entry of a child into this cache.  The entry is fresh where it has to be. */
    method WriteCoins(k: Txid, e: CCoinsCacheEntry)
      requires Valid() && !hasModifier
      requires Cleaned(e.coins) == e.coins
      requires e.isFresh ==> Look(viewCoins, k).None?
      requires !e.isFresh ==> k in cacheCoins
      modifies `cacheCoins, `viewCoins, `cachedCoinsUsage
      ensures Valid() && viewCoins == Overlaid(old(viewCoins), k, Unspent(e.coins))
      ensures forall j :: j != k ==> (j in cacheCoins <==> j in old(cacheCoins))
    {
      hide CoinsView, CoinsFit, Tidy, Linked, Overlaid, Unspent, Cleaned, CoinsTotal, TreesTotal, Rest, BaseReady;
      ghost var b := Below();
      WriteFits(cacheCoins, b.coins, Backing(k), k, e, usage);
      assert cacheCoins - {} == cacheCoins;
      var entries, total := cacheCoins, cachedCoinsUsage;
      if k !in entries {
        if !IsPruned(e.coins) {
          assert e.isFresh;
          entries := entries[k := CCoinsCacheEntry(e.coins, true, true)];
          total := total + usage(e.coins);
        }
      } else {
        total := total - usage(entries[k].coins);
        if entries[k].isFresh && IsPruned(e.coins) {
          entries := entries - {k};
        } else {
          entries := entries[k := entries[k].(coins := e.coins, isDirty := true)];
          total := total + usage(e.coins);
        }
      }
      assert entries == Written(cacheCoins, k, e);
      hide Written;
      assert entries - {} == entries;
      cacheCoins := entries;
      cachedCoinsUsage := total;
      viewCoins := Overlaid(viewCoins, k, Unspent(e.coins));
      assert BaseReady() && Own(b);
    }

    /** The coins loop of BatchWrite. */
    method BatchWriteCoins(mapCoins: CCoinsMap)
      requires Valid() && !hasModifier
      requires CoinsFit(mapCoins, viewCoins) && Tidy(mapCoins, {}) && Linked(mapCoins, cacheCoins.Keys)
      modifies `cacheCoins, `viewCoins, `cachedCoinsUsage
      ensures Valid() && viewCoins == CoinsView(mapCoins, old(viewCoins))
    {
      hide Valid, CoinsView, IsPruned, Cleaned, Overlaid;
      ghost var was := viewCoins;
      var todo := mapCoins.Keys;
      while todo != {}
        invariant Valid() && todo <= mapCoins.Keys
        invariant CoinsMerged(viewCoins, was, mapCoins, todo)
        invariant forall k :: k in todo ==> (k in cacheCoins <==> k in old(cacheCoins))
        decreases |todo|
      {
        var k :| k in todo;
        var e := mapCoins[k];
        assert EntryFits(e, Look(was, k));
        if e.isDirty {
          ghost var now := viewCoins;
          WriteCoins(k, e);
          OverlaidLook(now, k, Unspent(e.coins));
        }
        todo := todo - {k};
      }
      CoinsMergedDone(viewCoins, was, mapCoins);
    }

    /** Writes one dirty anchor entry of a child into this cache. */
    method WriteChildAnchor(k: PoolKey, e: CAnchorsCacheEntry)
      requires Valid() && k.1 == RootOf(e.tree)
      modifies `cacheAnchors, `viewAnchors, `cachedCoinsUsage
      ensures Valid() && viewAnchors == Overlaid(old(viewAnchors), k, Entered(e))
    {
      AnchorSeen(k);
      hide Valid, Overlaid;
      if k !in cacheAnchors {
        WriteAnchor(k, CAnchorsCacheEntry(e.entered, e.tree, true));
      } else {
        AnchorKeyed(k);
        if cacheAnchors[k].entered != e.entered {
          WriteAnchor(k, cacheAnchors[k].(entered := e.entered, isDirty := true));
        } else {
          OverlaidSame(viewAnchors, k);
        }
      }
    }

    method BatchWriteAnchors(mapAnchors: CAnchorsMap)
      requires Valid() && AnchorsFit(mapAnchors, viewAnchors)
      modifies `cacheAnchors, `viewAnchors, `cachedCoinsUsage
      ensures Valid() && viewAnchors == AnchorsView(mapAnchors, old(viewAnchors))
    {
      hide Valid, AnchorsView, Overlaid;
      ghost var was := viewAnchors;
      var todo := mapAnchors.Keys;
      while todo != {}
        invariant Valid() && todo <= mapAnchors.Keys
        invariant AnchorsMerged(viewAnchors, was, mapAnchors, todo)
        decreases |todo|
      {
        var k :| k in todo;
        var e := mapAnchors[k];
        assert AnchorFits(k, e, Look(was, k));
        ghost var now := viewAnchors;
        if e.isDirty {
          WriteChildAnchor(k, e);
          OverlaidLook(now, k, Entered(e));
        }
        todo := todo - {k};
      }
      AnchorsMergedDone(viewAnchors, was, mapAnchors);
    }

    method BatchWriteNullifiers(mapNullifiers: CNullifiersMap)
      requires Valid() && NullifiersFit(mapNullifiers, viewNullifiers)
      modifies `cacheNullifiers, `viewNullifiers
      ensures Valid() && viewNullifiers == NullifiersView(mapNullifiers, old(viewNullifiers))
    {
      hide Valid;
      ghost var was := viewNullifiers;
      var todo := mapNullifiers.Keys;
      while todo != {}
        invariant Valid() && todo <= mapNullifiers.Keys
        invariant forall k :: k in viewNullifiers <==>
                    if k in mapNullifiers && k !in todo then mapNullifiers[k].entered else k in was
        decreases |todo|
      {
        var k :| k in todo;
        var e := mapNullifiers[k];
        if e.isDirty {
          NullifierSeen(k);
          if k !in cacheNullifiers {
            WriteNullifier(k, CNullifiersCacheEntry(e.entered, true));
          } else if cacheNullifiers[k].entered != e.entered {
            WriteNullifier(k, CNullifiersCacheEntry(e.entered, true));
          }
        }
        todo := todo - {k};
      }
    }

    /** Takes over everything a child has changed.  The child's best block and best anchors replace this
        cache's even when the child never set them. */
    method BatchWrite(mapCoins: CCoinsMap, hashBlockIn: Hash, hashAnchorsIn: Best, mapAnchors: CAnchorsMap,
                      mapNullifiers: CNullifiersMap)
      requires Valid() && !hasModifier
      requires CoinsFit(mapCoins, viewCoins) && Tidy(mapCoins, {}) && Linked(mapCoins, cacheCoins.Keys)
      requires AnchorsFit(mapAnchors, viewAnchors) && NullifiersFit(mapNullifiers, viewNullifiers)
      modifies `cacheCoins, `viewCoins, `cachedCoinsUsage
      modifies `cacheAnchors, `viewAnchors, `cacheNullifiers, `viewNullifiers
      modifies `hashBlock, `viewBlock, `hashAnchors, `viewBest
      ensures Valid()
      ensures viewCoins == CoinsView(mapCoins, old(viewCoins))
      ensures viewAnchors == AnchorsView(mapAnchors, old(viewAnchors))
      ensures viewNullifiers == NullifiersView(mapNullifiers, old(viewNullifiers))
      ensures viewBlock == Or(hashBlockIn, Below().block) && viewBest == BestOr(hashAnchorsIn, Below().best)
    {
      hide Valid, CoinsView, CoinsFit, AnchorsView, AnchorsFit, NullifiersView, NullifiersFit, Tidy, Linked;
      BatchWriteCoins(mapCoins);
      BatchWriteAnchors(mapAnchors);
      BatchWriteNullifiers(mapNullifiers);
      SetBest(hashBlockIn, hashAnchorsIn);
    }

    method SetBest(block: Hash, best: Best)
      requires Valid()
      modifies `hashBlock, `viewBlock, `hashAnchors, `viewBest
      ensures Valid() && viewBlock == Or(block, Below().block) && viewBest == BestOr(best, Below().best)
    {
      hide CoinsPart, TidyPart, AnchorsPart, NullifiersPart, BaseReady, Backed, UsagePart, StateOk;
      ghost var b := Below();
      hashAnchors, hashBlock := best, block;
      viewBlock, viewBest := Or(block, b.block), BestOr(best, b.best);
      assert Own(b);
    }

    /** Moves this view's state into the parent cache and empties this cache, which keeps its own best block and
        anchors.  The parent then has exactly the coins, anchors and nullifiers of this view.  Its best block,
        and each best anchor, becomes this cache's own or, where this cache had none, that of the view below
        the parent; so a pointer of this view is kept exactly if this cache has its own, or the parent has
        none of its own or agrees with the view below it. */
    method Flush()
      requires Valid() && !hasModifier && base != null
      modifies this, base
      ensures Valid() && !hasModifier
      ensures base.Valid() && !base.hasModifier && base.books == old(base.books) && base.Below() == old(base.Below())
      ensures base.viewCoins == viewCoins == old(viewCoins)
      ensures base.viewAnchors == viewAnchors == old(viewAnchors)
      ensures base.viewNullifiers == viewNullifiers == old(viewNullifiers)
      ensures base.viewBlock == Or(old(hashBlock), base.Below().block)
      ensures base.viewBest == BestOr(old(hashAnchors), base.Below().best)
      ensures base.viewBlock == old(viewBlock) <==>
        old(hashBlock) != NULL_HASH || Agrees(old(base.hashBlock), old(base.Below()).block)
      ensures forall pool :: base.viewBest.Of(pool) == old(viewBest).Of(pool) <==>
        old(hashAnchors).Of(pool) != NULL_HASH
          || Agrees(old(base.hashAnchors).Of(pool), old(base.Below()).best.Of(pool))
      ensures Pointers() == old(Pointers())
      ensures cacheCoins == map[] && cacheAnchors == map[] && cacheNullifiers == map[]
      ensures cachedCoinsUsage == 0 && books.drift == 0
    {
      PointersSeen();
      BaseKnown();
      base.PointersSeen();
      hide Valid, Agrees;
      HandOver();
    }

    lemma BaseKnown()
      requires Valid()
      ensures base != null ==> base.Valid() && !base.hasModifier
    {
    }

    /** The first part of Flush: the parent takes everything over. */
    method WriteDown()
      requires Valid() && !hasModifier && base != null
      modifies base
      ensures Shape() && books.modified == {}
      ensures base.Valid() && !base.hasModifier && base.books == old(base.books) && base.Below() == old(base.Below())
      ensures base.viewCoins == viewCoins && base.viewAnchors == viewAnchors && base.viewNullifiers == viewNullifiers
      ensures base.viewBlock == Or(hashBlock, base.Below().block)
      ensures base.viewBest == BestOr(hashAnchors, base.Below().best)
    {
      hide CoinsView, CoinsFit, AnchorsView, AnchorsFit, NullifiersView, NullifiersFit, Linked, StateOk;
      base.ShapeKnown();
      base.BatchWrite(cacheCoins, hashBlock, hashAnchors, cacheAnchors, cacheNullifiers);
    }

    /** The steps of Flush. */
    method HandOver()
      requires Valid() && !hasModifier && base != null
      modifies this, base
      ensures Valid() && !hasModifier
      ensures base.Valid() && !base.hasModifier && base.books == old(base.books) && base.Below() == old(base.Below())
      ensures base.viewCoins == viewCoins == old(viewCoins)
      ensures base.viewAnchors == viewAnchors == old(viewAnchors)
      ensures base.viewNullifiers == viewNullifiers == old(viewNullifiers)
      ensures base.viewBlock == Or(old(hashBlock), base.Below().block)
      ensures base.viewBest == BestOr(old(hashAnchors), base.Below().best)
      ensures hashBlock == old(hashBlock) && hashAnchors == old(hashAnchors)
      ensures cacheCoins == map[] && cacheAnchors == map[] && cacheNullifiers == map[]
      ensures cachedCoinsUsage == 0 && books.drift == 0
    {
      hide Own, Or, BestOr, StateOk, Backed;
      base.ShapeKnown();
      WriteDown();
      ClearCaches();
    }

    /** The pointers of the view, and when they are those of the view below. */
    lemma PointersSeen()
      requires Valid()
      ensures viewBlock == Or(hashBlock, Below().block)
      ensures forall pool :: viewBest.Of(pool) == Or(hashAnchors.Of(pool), Below().best.Of(pool))
      ensures viewBlock == Below().block <==> Agrees(hashBlock, Below().block)
      ensures forall pool :: viewBest.Of(pool) == Below().best.Of(pool) <==>
        Agrees(hashAnchors.Of(pool), Below().best.Of(pool))
    {
    }

    /** The end of Flush, when the parent has taken everything over. */
    method ClearCaches()
      requires Shape() && BaseReady() && base != null && !hasModifier && books.modified == {}
      requires viewCoins == base.viewCoins && viewAnchors == base.viewAnchors && viewNullifiers == base.viewNullifiers
      modifies `cacheCoins, `cacheAnchors, `cacheNullifiers, `cachedCoinsUsage, `books, `viewBlock, `viewBest
      ensures Valid()
      ensures cacheCoins == map[] && cacheAnchors == map[] && cacheNullifiers == map[]
      ensures cachedCoinsUsage == 0 && books.drift == 0
    {
      hide Own, StateOk;
      base.ViewIsOk();
      cacheCoins := map[];
      cacheAnchors := map[];
      cacheNullifiers := map[];
      cachedCoinsUsage := 0;
      books := Books({}, 0, 0);
      ghost var b := Below();
      viewBlock, viewBest := Or(hashBlock, b.block), BestOr(hashAnchors, b.best);
      EmptyFits(b);
      assert BaseReady() && Own(b);
    }

    lemma NullifierSeen(k: PoolKey)
      requires Valid()
      ensures k in viewNullifiers <==>
        if k in cacheNullifiers then cacheNullifiers[k].entered else k in Below().nullifiers
    {
    }
  }

  /** A reference to a cache entry that is being modified. */
  class CCoinsModifier {
    const cache: CCoinsViewCache
    const txid: Txid
    const cachedCoinUsage: nat

    ghost predicate Open()
      reads cache
    {
      && cache.hasModifier && cache.books.modified == {txid} && cache.books.pending == cachedCoinUsage
      && txid in cache.cacheCoins && cache.cacheCoins[txid].isDirty
    }

    constructor (cache: CCoinsViewCache, txid: Txid, cachedCoinUsage: nat)
      ensures this.cache == cache && this.txid == txid && this.cachedCoinUsage == cachedCoinUsage
    {
      this.cache, this.txid, this.cachedCoinUsage := cache, txid, cachedCoinUsage;
    }

    /** Changes the coins; of the whole view, only these coins change. */
    method Assign(coins: CCoins)
      requires Open() && cache.Valid()
      modifies cache
      ensures Open() && cache.Valid()
      ensures cache.View() == old(cache.View()).(coins := Overlaid(old(cache.viewCoins), txid, Unspent(coins)))
      ensures cache.Pointers() == old(cache.Pointers())
      ensures cache.cacheCoins[txid].coins == coins && cache.books.drift == old(cache.books.drift)
    {
      hide CoinsView, CoinsFit, Tidy, Linked, Overlaid;
      hide Unspent, CCoinsViewCache.Rest, CCoinsViewCache.BaseReady, CoinsTotal, TreesTotal;
      ghost var b := cache.Below();
      var entry := cache.cacheCoins[txid].(coins := coins);
      AssignFits(cache.cacheCoins, b.coins, cache.Backing(txid), txid, coins);
      cache.cacheCoins := cache.cacheCoins[txid := entry];
      cache.viewCoins := Overlaid(cache.viewCoins, txid, Unspent(coins));
      assert cache.BaseReady() && cache.Own(b);
    }

    /** The destructor: cleans the coins up, drops a fresh entry that ended up pruned, and brings the memory
        counter up to date.  It does not change the view. */
    method Destroy()
      requires Open() && cache.Valid()
      modifies cache`cacheCoins, cache`hasModifier, cache`cachedCoinsUsage, cache`books
      ensures cache.Valid() && !cache.hasModifier && cache.books.drift == old(cache.books.drift)
    {
      hide CoinsView, CoinsFit, Tidy, Linked, Overlaid, Unspent;
      hide IsPruned, Cleaned, CoinsTotal, TreesTotal, CCoinsViewCache.Rest, CCoinsViewCache.BaseReady;
      ghost var b := cache.Below();
      var entry := cache.cacheCoins[txid];
      var coins := Cleanup(entry.coins);
      CloseFits(cache.cacheCoins, b.coins, cache.Backing(txid), txid, cache.usage);
      var entries, total := cache.cacheCoins, cache.cachedCoinsUsage - cachedCoinUsage;
      if entry.isFresh && IsPruned(coins) {
        entries := entries - {txid};
      } else {
        entries := entries[txid := entry.(coins := coins)];
        total := total + cache.usage(coins);
      }
      assert entries == Closed(cache.cacheCoins, txid);
      hide Closed;
      cache.cacheCoins := entries;
      cache.cachedCoinsUsage := total;
      cache.hasModifier, cache.books := false, Books({}, 0, cache.books.drift);
      assert cache.BaseReady() && cache.Own(b);
    }
  }

  /** An entry for what the base says anyway changes nothing. */
  lemma RememberFits(cache: CCoinsMap, base: map<Txid, CCoins>, k: Txid, e: CCoinsCacheEntry)
    requires CoinsFit(cache, base) && k !in cache
    requires Look(base, k) == Unspent(e.coins) && (e.isFresh ==> IsPruned(e.coins))
    ensures CoinsFit(cache[k := e], base) && CoinsView(cache[k := e], base) == CoinsView(cache, base)
  {
    PutCoins(cache, base, k, e);
    SameMap(CoinsView(cache[k := e], base), CoinsView(cache, base));
  }

  lemma RememberAnchorFits(cache: CAnchorsMap, base: map<PoolKey, Tree>, k: PoolKey, e: CAnchorsCacheEntry)
    requires AnchorsFit(cache, base) && k !in cache
    requires e.entered && Look(base, k) == Some(e.tree) && k.1 == RootOf(e.tree)
    ensures AnchorsFit(cache[k := e], base) && AnchorsView(cache[k := e], base) == AnchorsView(cache, base)
  {
    PutAnchor(cache, base, k, e);
    SameMap(AnchorsView(cache[k := e], base), AnchorsView(cache, base));
  }

  function MarkedAll(s: set<PoolKey>, keys: seq<PoolKey>, spent: bool): set<PoolKey>
  {
    if spent then s + (set k | k in keys) else s - (set k | k in keys)
  }

  lemma OverlaidNone<K, V>(m: map<K, V>, k: K)
    ensures Overlaid(m, k, None) == m - {k}
  {
  }

  lemma OverlaidLook<K, V>(m: map<K, V>, k: K, v: Option<V>)
    ensures forall j :: Look(Overlaid(m, k, v), j) == if j == k then v else Look(m, j)
  {
  }

  /** Every entry of a is an entry of b. */
  ghost predicate Grown(a: CCoinsMap, b: CCoinsMap)
  {
    forall k :: k in a ==> k in b && b[k] == a[k]
  }
}
