/** Whole runs of a coins view: what a plain state would do, and that the layered caches do the same. */
module CoinsRuns {

  import opened Coins
  import opened CoinsModel
  import opened CoinsCache
  import opened Options

  datatype Op =
    | AskCoins(txid: Txid)
    | AskNullifier(key: PoolKey)
    | AskAnchor(key: PoolKey)
    | AskBlock
    | AskBest(pool: ShieldedType)
    | Modify(txid: Txid, coins: CCoins)
    | Create(txid: Txid, coins: CCoins)
    | Mark(keys: seq<PoolKey>, spent: bool)
    | Push(tree: Tree, pool: ShieldedType)
    | Pop(newrt: Hash, pool: ShieldedType)
    | Block(hash: Hash)

  /** What a question was answered. */
  datatype Answer =
    | NoAnswer
    | CoinsAre(coins: Option<CCoins>)
    | SpentIs(spent: bool)
    | TreeIs(tree: Option<Tree>)
    | HashIs(hash: Hash)

  /** What an operation does to a plain state.  Asking changes nothing. */
  function Done(s: State, op: Op): State
  {
    match op
    case AskCoins(_) | AskNullifier(_) | AskAnchor(_) | AskBlock | AskBest(_) => s
    case Modify(txid, coins) => s.(coins := Overlaid(s.coins, txid, Unspent(coins)))
    case Create(txid, coins) => s.(coins := Overlaid(s.coins, txid, Unspent(coins)))
    case Mark(keys, spent) => s.(nullifiers := MarkedAll(s.nullifiers, keys, spent))
    case Push(tree, pool) =>
      var root := RootOf(tree);
      s.(anchors := if s.best.Of(pool) == root then s.anchors else s.anchors[(pool, root) := tree],
         best := s.best.With(pool, root))
    case Pop(newrt, pool) =>
      var root := s.best.Of(pool);
      s.(anchors := if root == newrt then s.anchors else s.anchors - {(pool, root)}, best := s.best.With(pool, newrt))
    case Block(hash) => s.(block := hash)
  }

  /** What callers have to see to: coins are created only under names that are unspent in the view below
      nowhere, the best anchor that is popped is there, and null is not a block or an anchor. */
  predicate Allowed(s: State, below: State, op: Op)
  {
    match op
    case Create(txid, coins) => txid !in below.coins
    case Pop(newrt, pool) => newrt != NULL_HASH && (s.best.Of(pool) != newrt ==> (pool, s.best.Of(pool)) in s.anchors)
    case Block(hash) => hash != NULL_HASH
    case _ => true
  }

  /** The right answer in a state; pruned coins may be reported as such or not at all. */
  predicate Right(s: State, op: Op, a: Answer)
  {
    match op
    case AskCoins(txid) => a.CoinsAre? && Look(s.coins, txid) == if a.coins.Some? then Unspent(a.coins.value) else None
    case AskNullifier(key) => a == SpentIs(key in s.nullifiers)
    case AskAnchor(key) => a == TreeIs(Look(s.anchors, key))
    case AskBlock => a == HashIs(s.block)
    case AskBest(pool) => a == HashIs(s.best.Of(pool))
    case _ => a == NoAnswer
  }

  /** How much an operation makes the memory counter too large: the size of coins that are created over. */
  function Cost(s: State, op: Op, usage: CCoins -> nat): nat
  {
    if op.Create? && op.txid in s.coins then usage(s.coins[op.txid]) else 0
  }

  ghost predicate EmptyIsFree(usage: CCoins -> nat)
  {
    forall c: CCoins :: c.vout == [] ==> usage(c) == 0
  }

  /** The operations after which a cache has a best block, or a best anchor, of its own. */
  predicate TouchesBlock(op: Op)
  {
    op.AskBlock? || op.Block?
  }

  predicate TouchesBest(op: Op, pool: ShieldedType)
  {
    (op.AskBest? || op.Push? || op.Pop?) && op.pool == pool
  }

  // ---------- runs of a plain state ----------

  function AllDone(s: State, ops: seq<Op>): State
    decreases |ops|
  {
    if ops == [] then s else AllDone(Done(s, ops[0]), ops[1..])
  }

  predicate AllAllowed(s: State, below: State, ops: seq<Op>)
    decreases |ops|
  {
    ops == [] || (Allowed(s, below, ops[0]) && AllAllowed(Done(s, ops[0]), below, ops[1..]))
  }

  predicate AllRight(s: State, ops: seq<Op>, answers: seq<Answer>)
    decreases |ops|
  {
    && |answers| == |ops|
    && (ops != [] ==> Right(s, ops[0], answers[0]) && AllRight(Done(s, ops[0]), ops[1..], answers[1..]))
  }

  function RunCost(s: State, ops: seq<Op>, usage: CCoins -> nat): nat
    decreases |ops|
  {
    if ops == [] then 0 else Cost(s, ops[0], usage) + RunCost(Done(s, ops[0]), ops[1..], usage)
  }

  predicate BlockTouched(ops: seq<Op>)
  {
    ops != [] && (TouchesBlock(ops[0]) || BlockTouched(ops[1..]))
  }

  predicate BestTouched(ops: seq<Op>, pool: ShieldedType)
  {
    ops != [] && (TouchesBest(ops[0], pool) || BestTouched(ops[1..], pool))
  }

  /** A pointer that is not touched stays what it is. */
  lemma {:induction false} UntouchedKept(s: State, ops: seq<Op>)
    ensures !BlockTouched(ops) ==> AllDone(s, ops).block == s.block
    ensures forall pool :: !BestTouched(ops, pool) ==> AllDone(s, ops).best.Of(pool) == s.best.Of(pool)
    decreases |ops|
  {
    hide Overlaid, MarkedAll, Unspent;
    if ops != [] {
      UntouchedKept(Done(s, ops[0]), ops[1..]);
    }
  }

  /** Creating only names without unspent coins costs nothing. */
  predicate NewNames(s: State, ops: seq<Op>)
    decreases |ops|
  {
    ops == [] || ((ops[0].Create? ==> ops[0].txid !in s.coins) && NewNames(Done(s, ops[0]), ops[1..]))
  }

  lemma {:induction false} NewNamesCostNothing(s: State, ops: seq<Op>, usage: CCoins -> nat)
    ensures NewNames(s, ops) ==> RunCost(s, ops, usage) == 0
    ensures (forall c: CCoins :: !IsPruned(c) ==> usage(c) > 0) && StateOk(s.coins, s.anchors) ==>
      (NewNames(s, ops) <==> RunCost(s, ops, usage) == 0)
    decreases |ops|
  {
    if ops != [] {
      if StateOk(s.coins, s.anchors) {
        DoneOk(s, ops[0]);
      }
      NewNamesCostNothing(Done(s, ops[0]), ops[1..], usage);
    }
  }

  lemma DoneOk(s: State, op: Op)
    requires StateOk(s.coins, s.anchors)
    ensures StateOk(Done(s, op).coins, Done(s, op).anchors)
  {
    if op.Modify? || op.Create? {
      CleanedKeeps(op.coins);
    }
  }

  // ---------- what a run says, read off the list of its operations ----------

  /** Whether a nullifier is spent after a run: the last operation that marked it decides. */
  function SpentAfter(was: bool, ops: seq<Op>, key: PoolKey): bool
  {
    if ops == [] then was
    else
      match ops[|ops| - 1]
      case Mark(keys, spent) => if key in keys then spent else SpentAfter(was, ops[..|ops| - 1], key)
      case _ => SpentAfter(was, ops[..|ops| - 1], key)
  }

  /** The coins of a name after a run: those that were written last. */
  function CoinsAfter(was: Option<CCoins>, ops: seq<Op>, name: Txid): Option<CCoins>
  {
    if ops == [] then was
    else
      match ops[|ops| - 1]
      case Modify(txid, coins) => if txid == name then Some(coins) else CoinsAfter(was, ops[..|ops| - 1], name)
      case Create(txid, coins) => if txid == name then Some(coins) else CoinsAfter(was, ops[..|ops| - 1], name)
      case _ => CoinsAfter(was, ops[..|ops| - 1], name)
  }

  function BlockAfter(was: Hash, ops: seq<Op>): Hash
  {
    if ops == [] then was
    else if ops[|ops| - 1].Block? then ops[|ops| - 1].hash
    else BlockAfter(was, ops[..|ops| - 1])
  }

  /** The best anchor of a pool: the root pushed, or gone back to, last. */
  function BestAfter(was: Hash, ops: seq<Op>, p: ShieldedType): Hash
  {
    if ops == [] then was
    else
      match ops[|ops| - 1]
      case Push(tree, pool) => if pool == p then RootOf(tree) else BestAfter(was, ops[..|ops| - 1], p)
      case Pop(newrt, pool) => if pool == p then newrt else BestAfter(was, ops[..|ops| - 1], p)
      case _ => BestAfter(was, ops[..|ops| - 1], p)
  }

  /** The tree known for a root: entered by the last push that made it the best anchor, unless it has been
      popped as the best anchor since. */
  function TreeAfter(was: Option<Tree>, best: Hash, ops: seq<Op>, p: ShieldedType, root: Hash): Option<Tree>
  {
    if ops == [] then was
    else
      var before := ops[..|ops| - 1];
      var top := BestAfter(best, before, p);
      match ops[|ops| - 1]
      case Push(tree, pool) =>
        if pool == p && RootOf(tree) == root && top != root then Some(tree) else TreeAfter(was, best, before, p, root)
      case Pop(newrt, pool) =>
        if pool == p && top == root && newrt != root then None else TreeAfter(was, best, before, p, root)
      case _ => TreeAfter(was, best, before, p, root)
  }

  /** An output of coins that may be missing: one with value -1 is as good as none. */
  function Output(c: Option<CCoins>, n: nat): Option<CTxOut>
  {
    if c.Some? && n < |c.value.vout| && c.value.vout[n].nValue != -1 then Some(c.value.vout[n]) else None
  }

  /** The same outputs, and the same height, version and origin if there is an output at all. */
  ghost predicate Alike(a: Option<CCoins>, b: Option<CCoins>)
  {
    && (forall n: nat :: Output(a, n) == Output(b, n))
    && (forall n: nat :: Output(a, n).Some? ==>
          a.value.(vout := []) == b.value.(vout := []))
  }

  /** The answer that the operations made so far call for. */
  ghost predicate Called(s: State, before: seq<Op>, op: Op, a: Answer)
  {
    match op
    case AskCoins(txid) => a.CoinsAre? && Alike(a.coins, CoinsAfter(Look(s.coins, txid), before, txid))
    case AskNullifier(key) => a == SpentIs(SpentAfter(key in s.nullifiers, before, key))
    case AskAnchor(key) => a == TreeIs(TreeAfter(Look(s.anchors, key), s.best.Of(key.0), before, key.0, key.1))
    case AskBlock => a == HashIs(BlockAfter(s.block, before))
    case AskBest(pool) => a == HashIs(BestAfter(s.best.Of(pool), before, pool))
    case _ => a == NoAnswer
  }

  /** Every answer of a run is the one that the operations before it call for. */
  ghost predicate AsCalled(s: State, ops: seq<Op>, answers: seq<Answer>)
  {
    |answers| == |ops| && forall i :: 0 <= i < |ops| ==> Called(s, ops[..i], ops[i], answers[i])
  }

  lemma {:induction false} AllDoneLast(s: State, ops: seq<Op>)
    requires ops != []
    ensures AllDone(s, ops) == Done(AllDone(s, ops[..|ops| - 1]), ops[|ops| - 1])
    decreases |ops|
  {
    hide Done;
    if |ops| > 1 {
      AllDoneLast(Done(s, ops[0]), ops[1..]);
      assert ops[1..][..|ops| - 2] == ops[..|ops| - 1][1..];
    }
  }

  lemma {:induction false} RightAt(s: State, ops: seq<Op>, answers: seq<Answer>, i: nat)
    requires AllRight(s, ops, answers) && i < |ops|
    ensures |answers| == |ops| && Right(AllDone(s, ops[..i]), ops[i], answers[i])
    decreases |ops|
  {
    hide Done, Right;
    if i > 0 {
      RightAt(Done(s, ops[0]), ops[1..], answers[1..], i - 1);
      assert ops[..i][1..] == ops[1..][..i - 1];
    }
  }

  lemma {:induction false} SpentStays(s: State, ops: seq<Op>, key: PoolKey)
    ensures key in AllDone(s, ops).nullifiers <==> SpentAfter(key in s.nullifiers, ops, key)
    decreases |ops|
  {
    hide Overlaid, Unspent;
    if ops != [] {
      SpentStays(s, ops[..|ops| - 1], key);
      AllDoneLast(s, ops);
    }
  }

  lemma {:induction false} CoinsStay(s: State, ops: seq<Op>, txid: Txid)
    ensures Alike(Look(AllDone(s, ops).coins, txid), CoinsAfter(Look(s.coins, txid), ops, txid))
    decreases |ops|
  {
    hide MarkedAll, Unspent, Alike;
    if ops == [] {
      AlikeSame(Look(s.coins, txid));
    } else {
      CoinsStay(s, ops[..|ops| - 1], txid);
      AllDoneLast(s, ops);
      var op := ops[|ops| - 1];
      if op.Modify? || op.Create? {
        UnspentAlike(op.coins);
      }
    }
  }

  lemma {:induction false} BlockStays(s: State, ops: seq<Op>)
    ensures AllDone(s, ops).block == BlockAfter(s.block, ops)
    decreases |ops|
  {
    hide Overlaid, MarkedAll, Unspent;
    if ops != [] {
      BlockStays(s, ops[..|ops| - 1]);
      AllDoneLast(s, ops);
    }
  }

  lemma {:induction false} BestStays(s: State, ops: seq<Op>, p: ShieldedType)
    ensures AllDone(s, ops).best.Of(p) == BestAfter(s.best.Of(p), ops, p)
    decreases |ops|
  {
    hide Overlaid, MarkedAll, Unspent;
    if ops != [] {
      BestStays(s, ops[..|ops| - 1], p);
      AllDoneLast(s, ops);
    }
  }

  lemma {:induction false} TreeStays(s: State, ops: seq<Op>, p: ShieldedType, root: Hash)
    ensures Look(AllDone(s, ops).anchors, (p, root))
         == TreeAfter(Look(s.anchors, (p, root)), s.best.Of(p), ops, p, root)
    decreases |ops|
  {
    hide Overlaid, MarkedAll, Unspent;
    if ops != [] {
      TreeStays(s, ops[..|ops| - 1], p, root);
      BestStays(s, ops[..|ops| - 1], p);
      AllDoneLast(s, ops);
    }
  }

  lemma AlikeSame(c: Option<CCoins>)
    ensures Alike(c, c)
  {
  }

  lemma AlikeTurned(a: Option<CCoins>, b: Option<CCoins>)
    requires Alike(a, b)
    ensures Alike(b, a)
  {
  }

  lemma AlikeBoth(a: Option<CCoins>, b: Option<CCoins>, c: Option<CCoins>)
    requires Alike(a, b) && Alike(b, c)
    ensures Alike(a, c)
  {
  }

  /** Coins are stored without losing an output. */
  lemma UnspentAlike(c: CCoins)
    ensures Alike(Unspent(c), Some(c))
  {
    hide Cleaned, IsPruned;
    CleanedKeeps(c);
    UnspentOutputs(c);
  }

  lemma UnspentOutputs(c: CCoins)
    ensures Cleaned(c).(vout := []) == c.(vout := [])
    ensures forall n: nat :: Output(Some(c), n) == if IsAvailable(c, n) then Some(c.vout[n]) else None
    ensures IsPruned(c) ==> forall n: nat :: !IsAvailable(c, n)
  {
  }

  /** The answers of the plain state, one operation after the other, are those read off the list. */
  lemma AnsweredAsCalled(s: State, ops: seq<Op>, answers: seq<Answer>)
    requires AllRight(s, ops, answers)
    ensures AsCalled(s, ops, answers)
  {
    hide AllRight, Called;
    assert |answers| == |ops| by {
      SameLength(s, ops, answers);
    }
    forall i | 0 <= i < |ops|
      ensures Called(s, ops[..i], ops[i], answers[i])
    {
      CalledAt(s, ops, answers, i);
    }
  }

  lemma SameLength(s: State, ops: seq<Op>, answers: seq<Answer>)
    requires AllRight(s, ops, answers)
    ensures |answers| == |ops|
  {
  }

  lemma CalledAt(s: State, ops: seq<Op>, answers: seq<Answer>, i: nat)
    requires AllRight(s, ops, answers) && i < |ops|
    ensures |answers| == |ops| && Called(s, ops[..i], ops[i], answers[i])
  {
    hide AllDone, AllRight, Alike, Unspent;
    RightAt(s, ops, answers, i);
    var before, op, a := ops[..i], ops[i], answers[i];
    match op {
      case AskCoins(txid) =>
        CoinsStay(s, before, txid);
        ReportedAlike(Look(AllDone(s, before).coins, txid), a.coins);
        AlikeBoth(a.coins, Look(AllDone(s, before).coins, txid), CoinsAfter(Look(s.coins, txid), before, txid));
      case AskNullifier(key) => SpentStays(s, before, key);
      case AskAnchor(key) => TreeStays(s, before, key.0, key.1);
      case AskBlock => BlockStays(s, before);
      case AskBest(pool) => BestStays(s, before, pool);
      case _ =>
    }
  }

  lemma ReportedAlike(held: Option<CCoins>, a: Option<CCoins>)
    requires held == if a.Some? then Unspent(a.value) else None
    ensures Alike(a, held)
  {
    hide Alike, Unspent;
    if a.Some? {
      UnspentAlike(a.value);
      AlikeTurned(held, a);
    } else {
      AlikeSame(a);
    }
  }

  /** A nullifier that has been marked is seen as it was marked until it is marked differently. */
  lemma MarkIsSeen(s: State, ops: seq<Op>, answers: seq<Answer>, i: nat, j: nat, key: PoolKey)
    requires AsCalled(s, ops, answers) && i < j < |ops|
    requires ops[i].Mark? && key in ops[i].keys && ops[j] == AskNullifier(key)
    requires forall m :: i < m < j && ops[m].Mark? && key in ops[m].keys ==> ops[m].spent == ops[i].spent
    ensures |answers| == |ops| && answers[j] == SpentIs(ops[i].spent)
  {
    assert Called(s, ops[..j], ops[j], answers[j]);
    MarkLasts(key in s.nullifiers, ops[..j], i, key);
  }

  lemma {:induction false} MarkLasts(was: bool, ops: seq<Op>, i: nat, key: PoolKey)
    requires i < |ops| && ops[i].Mark? && key in ops[i].keys
    requires forall m :: i < m < |ops| && ops[m].Mark? && key in ops[m].keys ==> ops[m].spent == ops[i].spent
    ensures SpentAfter(was, ops, key) == ops[i].spent
  {
    if i + 1 < |ops| {
      MarkLasts(was, ops[..|ops| - 1], i, key);
    }
  }

  // ---------- the best anchor is always there ----------

  /** Every pool's best anchor is one of the anchors. */
  ghost predicate BestKnown(s: State)
  {
    forall pool :: (pool, s.best.Of(pool)) in s.anchors
  }

  /** Popping goes back to an anchor that is there. */
  predicate AllBack(s: State, ops: seq<Op>)
    decreases |ops|
  {
    ops == [] || ((ops[0].Pop? ==> (ops[0].pool, ops[0].newrt) in s.anchors) && AllBack(Done(s, ops[0]), ops[1..]))
  }

  /** Exactly when popping leaves the best anchor known. */
  lemma PopKeepsBestKnown(s: State, newrt: Hash, pool: ShieldedType)
    requires BestKnown(s)
    ensures BestKnown(Done(s, Pop(newrt, pool))) <==> (pool, newrt) in s.anchors
  {
    var s' := Done(s, Pop(newrt, pool));
    assert s'.best.Of(pool) == newrt && (pool, s.best.Of(pool)) in s.anchors;
    if (pool, newrt) in s.anchors {
      forall p: ShieldedType
        ensures (p, s'.best.Of(p)) in s'.anchors
      {
        assert (p, s.best.Of(p)) in s.anchors;
      }
    }
  }

  lemma StepKeepsBestKnown(s: State, op: Op)
    requires BestKnown(s) && (op.Pop? ==> (op.pool, op.newrt) in s.anchors)
    ensures BestKnown(Done(s, op))
  {
    hide Overlaid, MarkedAll, Unspent;
    if op.Pop? {
      PopKeepsBestKnown(s, op.newrt, op.pool);
    } else {
      forall p: ShieldedType
        ensures (p, Done(s, op).best.Of(p)) in Done(s, op).anchors
      {
        assert (p, s.best.Of(p)) in s.anchors;
      }
    }
  }

  /** What is left to callers when the best anchors are known: that pops go back to known anchors. */
  predicate Sensible(below: State, op: Op)
  {
    match op
    case Create(txid, coins) => txid !in below.coins
    case Pop(newrt, pool) => newrt != NULL_HASH
    case Block(hash) => hash != NULL_HASH
    case _ => true
  }

  /** Over a whole run the best anchors stay known, so that popping one always finds its tree. */
  lemma {:induction false} BestStaysKnown(s: State, below: State, ops: seq<Op>)
    requires BestKnown(s) && AllBack(s, ops) && forall op :: op in ops ==> Sensible(below, op)
    ensures AllAllowed(s, below, ops) && BestKnown(AllDone(s, ops))
    decreases |ops|
  {
    hide BestKnown, Done;
    if ops != [] {
      assert ops[0] in ops;
      BestIsThere(s);
      StepKeepsBestKnown(s, ops[0]);
      BestStaysKnown(Done(s, ops[0]), below, ops[1..]);
    }
  }

  lemma BestIsThere(s: State)
    requires BestKnown(s)
    ensures forall pool :: (pool, s.best.Of(pool)) in s.anchors
  {
  }

  // ---------- the layered caches ----------

  /** Using a modifier: the coins are changed and the modifier goes out of scope. */
  method Use(m: CCoinsModifier, coins: CCoins)
    requires m.Open() && m.cache.Valid()
    modifies m.cache
    ensures m.cache.Pointers() == old(m.cache.Pointers())
    ensures m.cache.Valid() && !m.cache.hasModifier && m.cache.books.drift == old(m.cache.books.drift)
    ensures m.cache.View() == old(m.cache.View()).(coins := Overlaid(old(m.cache.viewCoins), m.txid, Unspent(coins)))
  {
    hide CCoinsViewCache.Valid, Overlaid, Unspent;
    m.Assign(coins);
    m.Destroy();
  }

  method ModifyThrough(view: CCoinsViewCache, txid: Txid, coins: CCoins)
    requires view.Valid() && !view.hasModifier
    modifies view.Repr
    ensures view.Valid() && !view.hasModifier && view.LowerKept()
    ensures view.View() == old(view.View()).(coins := Overlaid(old(view.viewCoins), txid, Unspent(coins)))
    ensures view.books.drift == old(view.books.drift) && view.Pointers() == old(view.Pointers())
  {
    view.ShapeKnown();
    hide CCoinsViewCache.Valid, Overlaid, Unspent;
    var m := view.ModifyCoins(txid);
    Use(m, coins);
  }

  method CreateThrough(view: CCoinsViewCache, txid: Txid, coins: CCoins)
    requires view.Valid() && !view.hasModifier && txid !in view.Below().coins
    modifies view
    ensures view.Valid() && !view.hasModifier
    ensures view.View() == old(view.View()).(coins := Overlaid(old(view.viewCoins), txid, Unspent(coins)))
    ensures EmptyIsFree(view.usage) ==>
      view.books.drift == old(view.books.drift) + Cost(old(view.View()), Create(txid, coins), view.usage)
    ensures view.Pointers() == old(view.Pointers())
  {
    NewCoinsCost(view, txid, coins);
    CreatedOver(view.viewCoins, txid, Unspent(coins));
    hide CCoinsViewCache.Valid, Unspent, SizeAt, EmptyIsFree, Cost, Overlaid;
    var m := view.ModifyNewCoins(txid);
    Use(m, coins);
  }

  lemma CreatedOver(m: map<Txid, CCoins>, txid: Txid, coins: Option<CCoins>)
    ensures Overlaid(m - {txid}, txid, coins) == Overlaid(m, txid, coins)
  {
  }

  /** What ModifyNewCoins forgets: the size of the coins of that name in the view, if there are any. */
  lemma NewCoinsCost(view: CCoinsViewCache, txid: Txid, coins: CCoins)
    requires view.Valid() && !view.hasModifier && txid !in view.Below().coins
    ensures EmptyIsFree(view.usage) ==>
      SizeAt(view.cacheCoins, txid, view.usage) == Cost(view.View(), Create(txid, coins), view.usage)
  {
    if txid in view.cacheCoins {
      view.CoinsSeen(txid);
      CleanedKeeps(view.cacheCoins[txid].coins);
    } else {
      view.NotCached(txid);
    }
  }

  /** A question put to a cache. */
  method Ask(view: CCoinsViewCache, op: Op) returns (a: Answer)
    requires view.Valid() && !view.hasModifier
    requires IsQuestion(op)
    modifies view.Repr
    ensures view.Valid() && !view.hasModifier && view.LowerKept() && view.View() == old(view.View())
    ensures Right(view.View(), op, a) && view.books == old(view.books)
    ensures view.hashBlock == if op.AskBlock? then view.viewBlock else old(view.hashBlock)
    ensures view.hashAnchors ==
      if op.AskBest? then old(view.hashAnchors).With(op.pool, view.viewBest.Of(op.pool)) else old(view.hashAnchors)
  {
    view.ShapeKnown();
    hide CCoinsViewCache.Valid, CCoinsViewCache.Read, CCoinsViewCache.LowerKept, Unspent;
    match op {
      case AskCoins(txid) =>
        var coins := view.GetCoins(txid);
        a := CoinsAre(coins);
      case AskNullifier(key) =>
        var spent := view.GetNullifier(key);
        a := SpentIs(spent);
      case AskAnchor(key) =>
        var tree := view.GetAnchorAt(key);
        a := TreeIs(tree);
      case AskBlock =>
        var hash := view.GetBestBlock();
        a := HashIs(hash);
      case AskBest(pool) =>
        var hash := view.GetBestAnchor(pool);
        a := HashIs(hash);
    }
    view.ReadMeans();
  }

  predicate IsQuestion(op: Op)
  {
    op.AskCoins? || op.AskNullifier? || op.AskAnchor? || op.AskBlock? || op.AskBest?
  }

  method MarkThrough(view: CCoinsViewCache, keys: seq<PoolKey>, spent: bool)
    requires view.Valid() && !view.hasModifier
    modifies view
    ensures view.Valid() && !view.hasModifier && view.books == old(view.books)
    ensures view.View() == old(view.View()).(nullifiers := MarkedAll(old(view.viewNullifiers), keys, spent))
    ensures view.Pointers() == old(view.Pointers())
  {
    hide CCoinsViewCache.Valid, MarkedAll;
    view.SetNullifiers(keys, spent);
  }

  /** One change of a cache. */
  method Change(view: CCoinsViewCache, op: Op)
    requires view.Valid() && !view.hasModifier && !IsQuestion(op)
    requires Allowed(view.View(), view.Below(), op)
    modifies view.Repr
    ensures view.Valid() && !view.hasModifier && view.LowerKept()
    ensures view.View() == Done(old(view.View()), op)
    ensures EmptyIsFree(view.usage) ==>
      view.books.drift == old(view.books.drift) + Cost(old(view.View()), op, view.usage)
    ensures view.hashBlock == if op.Block? then view.viewBlock else old(view.hashBlock)
    ensures view.hashAnchors ==
      if op.Push? || op.Pop? then old(view.hashAnchors).With(op.pool, view.viewBest.Of(op.pool))
        else old(view.hashAnchors)
  {
    view.ShapeKnown();
    hide CCoinsViewCache.Valid, Overlaid, MarkedAll, Unspent, EmptyIsFree;
    match op {
      case Modify(txid, coins) => ModifyThrough(view, txid, coins);
      case Create(txid, coins) => CreateThrough(view, txid, coins);
      case Mark(keys, spent) => MarkThrough(view, keys, spent);
      case Push(tree, pool) => view.PushAnchor(tree, pool);
      case Pop(newrt, pool) => view.PopAnchor(newrt, pool);
      case Block(hash) => view.SetBestBlock(hash);
    }
  }

  /** One operation on a cache. */
  method Perform(view: CCoinsViewCache, op: Op) returns (a: Answer)
    requires view.Valid() && !view.hasModifier
    requires Allowed(view.View(), view.Below(), op)
    modifies view.Repr
    ensures view.Valid() && !view.hasModifier && view.LowerKept()
    ensures view.View() == Done(old(view.View()), op) && Right(old(view.View()), op, a)
    ensures EmptyIsFree(view.usage) ==>
      view.books.drift == old(view.books.drift) + Cost(old(view.View()), op, view.usage)
    ensures view.hashBlock == if TouchesBlock(op) then view.viewBlock else old(view.hashBlock)
    ensures forall pool ::
      view.hashAnchors.Of(pool) ==
        if TouchesBest(op, pool) then view.viewBest.Of(pool) else old(view.hashAnchors).Of(pool)
  {
    hide CCoinsViewCache.Valid, Overlaid, MarkedAll, Unspent, EmptyIsFree;
    if IsQuestion(op) {
      a := Ask(view, op);
    } else {
      a := NoAnswer;
      Change(view, op);
    }
  }

  /** A run of operations on a cache does what it would do to the plain state, and gives the answers that the
      plain state would give.  The memory counter grows too large by the coins that were created over, and by
      nothing else.  The cache has a best block or a best anchor of its own if the run touched it. */
  method PerformAll(view: CCoinsViewCache, ops: seq<Op>) returns (answers: seq<Answer>)
    requires view.Valid() && !view.hasModifier
    requires AllAllowed(view.View(), view.Below(), ops)
    modifies view.Repr
    ensures view.Valid() && !view.hasModifier && view.LowerKept()
    ensures view.View() == AllDone(old(view.View()), ops)
    ensures AllRight(old(view.View()), ops, answers) && AsCalled(old(view.View()), ops, answers)
    ensures EmptyIsFree(view.usage) ==>
      view.cachedCoinsUsage == view.Held() + old(view.books.drift) + RunCost(old(view.View()), ops, view.usage)
    ensures view.cachedCoinsUsage == view.Held() + view.books.drift
    ensures view.hashBlock == if BlockTouched(ops) then view.viewBlock else old(view.hashBlock)
    ensures forall pool ::
      view.hashAnchors.Of(pool) ==
        if BestTouched(ops, pool) then view.viewBest.Of(pool) else old(view.hashAnchors).Of(pool)
    decreases |ops|
  {
    view.ShapeKnown();
    view.UsageKnown();
    hide CCoinsViewCache.Valid, CCoinsViewCache.Held, Done, Allowed;
    hide Right, EmptyIsFree, Cost, TouchesBlock, TouchesBest, AsCalled;
    answers := [];
    if ops != [] {
      var a := Perform(view, ops[0]);
      UntouchedKept(view.View(), ops[1..]);
      var rest := PerformAll(view, ops[1..]);
      answers := [a] + rest;
      assert answers[1..] == rest;
    }
    AnsweredAsCalled(old(view.View()), ops, answers);
  }

  /** A run made in a new cache on top of a parent, and then flushed: the parent ends up as if the run had
      been made on it directly, and its own memory counter is as good as before.  The best block, and each
      best anchor, carries over exactly if the run touched it, or the parent had none of its own, or the
      parent agreed with the view below it. */
  method PerformInChild(parent: CCoinsViewCache, ops: seq<Op>) returns (answers: seq<Answer>)
    requires parent.Valid() && !parent.hasModifier
    requires AllAllowed(parent.View(), parent.View(), ops)
    modifies parent.Repr
    ensures parent.Valid() && !parent.hasModifier && parent.Below() == old(parent.Below())
    ensures parent.books == old(parent.books)
    ensures AllRight(old(parent.View()), ops, answers) && AsCalled(old(parent.View()), ops, answers)
    ensures var end := AllDone(old(parent.View()), ops);
      && parent.viewCoins == end.coins && parent.viewAnchors == end.anchors && parent.viewNullifiers == end.nullifiers
      && (parent.viewBlock == end.block <==>
            BlockTouched(ops) || Agrees(old(parent.hashBlock), old(parent.Below()).block))
      && (forall pool :: parent.viewBest.Of(pool) == end.best.Of(pool) <==>
            BestTouched(ops, pool) || Agrees(old(parent.hashAnchors).Of(pool), old(parent.Below()).best.Of(pool)))
  {
    parent.ShapeKnown();
    parent.PointersSeen();
    ghost var start := parent.View();
    var child := new CCoinsViewCache.Over(parent);
    hide CCoinsViewCache.Valid, AllDone, AllAllowed, AllRight, AsCalled, BlockTouched, BestTouched, EmptyIsFree;
    hide CCoinsViewCache.Held, RunCost, Agrees;
    label Begun:
    answers := PerformAll(child, ops);
    child.BaseKept@Begun();
    hide CCoinsViewCache.LowerKept;
    parent.PointersSeen();
    UntouchedKept(start, ops);
    child.Flush();
  }

  /** A flush that does lose the parent's best block: the child never looked it up. */
  method FlushForgetsBlock(store: State, hash: Hash) returns (parent: CCoinsViewCache)
    requires StateOk(store.coins, store.anchors) && hash != NULL_HASH && hash != store.block
    ensures parent.Valid() && parent.viewBlock == store.block != hash
  {
    hide CCoinsViewCache.Valid;
    parent := new CCoinsViewCache.OverDatabase(store, (c: CCoins) => 0, (t: Tree) => 0);
    parent.SetBestBlock(hash);
    var child := new CCoinsViewCache.Over(parent);
    child.Flush();
  }

  /** A run after which the memory counter is too large: the same new coins are entered twice. */
  method CreatedTwice() returns (view: CCoinsViewCache)
    ensures view.Valid() && view.books.drift == 1 && view.cachedCoinsUsage == view.Held() + 1
  {
    hide CCoinsViewCache.Valid, CCoinsViewCache.Held;
    var nothing := State(map[], map[], {}, NULL_HASH, NULL_BEST);
    view := new CCoinsViewCache.OverDatabase(nothing, (c: CCoins) => |c.vout|, (t: Tree) => 0);
    var coins := CCoins(false, [CTxOut(5, [])], 0, 1);
    var ops := [Create(1, coins), Create(1, coins)];
    TwiceCosts(nothing, coins, ops, (c: CCoins) => |c.vout|);
    var answers := PerformAll(view, ops);
  }

  lemma TwiceCosts(nothing: State, coins: CCoins, ops: seq<Op>, usage: CCoins -> nat)
    requires nothing == State(map[], map[], {}, NULL_HASH, NULL_BEST)
    requires coins == CCoins(false, [CTxOut(5, [])], 0, 1) && ops == [Create(1, coins), Create(1, coins)]
    requires usage(coins) == 1
    ensures AllAllowed(nothing, nothing, ops) && RunCost(nothing, ops, usage) == 1
  {
    assert !IsNull(coins.vout[0]);
    assert Trimmed(coins.vout) == coins.vout;
    assert !IsPruned(coins);
    var once := Done(nothing, ops[0]);
    assert once.coins == map[1 := coins];
    assert ops[1..] == [ops[1]] && ops[1..][1..] == [];
    assert RunCost(once, ops[1..], usage) == Cost(once, ops[1], usage) == 1;
    assert AllAllowed(once, nothing, ops[1..]);
  }
}
