/** The per-epoch cache of chain-history nodes: the parent view's nodes up to a depth, replaced and extended
    by cached nodes from there on. */
module HistoryCaches {

  import opened Options

  /** The base's nodes up to a depth, then the cached ones. */
  function Spliced<N>(base: seq<N>, appends: map<nat, N>, depth: nat, length: nat): (h: seq<N>)
    requires depth <= length && depth <= |base|
    requires forall i: nat :: depth <= i < length ==> i in appends
    ensures |h| == length
    ensures forall i :: 0 <= i < depth ==> h[i] == base[i]
    ensures forall i :: depth <= i < length ==> h[i] == appends[i]
  {
    base[..depth] + seq(length - depth, i requires 0 <= i < length - depth => appends[depth + i])
  }

  lemma SplicedExtend<N>(base: seq<N>, appends: map<nat, N>, depth: nat, length: nat, leaf: N)
    requires depth <= length && depth <= |base|
    requires forall i: nat :: depth <= i < length ==> i in appends
    ensures Spliced(base, appends[length := leaf], depth, length + 1) == Spliced(base, appends, depth, length) + [leaf]
  {
    hide Spliced;
    var longer := Spliced(base, appends[length := leaf], depth, length + 1);
    var whole := Spliced(base, appends, depth, length) + [leaf];
    forall i | 0 <= i < |longer|
      ensures longer[i] == whole[i]
    {
      if i < depth {
      } else if i < length {
        assert longer[i] == appends[length := leaf][i];
      }
    }
  }

  class HistoryCache<N> {
    var appends: map<nat, N>
    var length: nat
    var updateDepth: nat
    var root: int

    /** The cache is consistent with a parent view that has the given nodes. */
    ghost predicate Fits(base: seq<N>)
      reads this
    {
      && updateDepth <= length && updateDepth <= |base|
      && forall i: nat :: updateDepth <= i < length ==> i in appends
    }

    /** The nodes of this view, given those of the parent view. */
    ghost function History(base: seq<N>): (h: seq<N>)
      requires Fits(base)
      reads this
      ensures |h| == length
    {
      Spliced(base, appends, updateDepth, length)
    }

    /** A cache that has changed nothing yet. */
    constructor (initialLength: nat, initialRoot: int)
      ensures length == updateDepth == initialLength && root == initialRoot && appends == map[]
      ensures forall base: seq<N> :: |base| == initialLength ==> Fits(base) && History(base) == base
    {
      appends, length, updateDepth, root := map[], initialLength, initialLength, initialRoot;
    }

    constructor Copy(from: HistoryCache<N>)
      ensures appends == from.appends && length == from.length && updateDepth == from.updateDepth && root == from.root
      ensures forall base: seq<N> :: from.Fits(base) ==> Fits(base) && History(base) == from.History(base)
    {
      appends, length, updateDepth, root := from.appends, from.length, from.updateDepth, from.root;
    }

    /** Adds one node at the end. */
    method Extend(leaf: N, ghost base: seq<N>)
      requires Fits(base)
      modifies this
      ensures Fits(base) && History(base) == old(History(base)) + [leaf]
      ensures root == old(root) && updateDepth == old(updateDepth)
    {
      hide Spliced;
      SplicedExtend(base, appends, updateDepth, length, leaf);
      appends := appends[length := leaf];
      length := length + 1;
    }

    /** Shortens the history. */
    method Truncate(newLength: nat, ghost base: seq<N>)
      requires Fits(base) && newLength <= length
      modifies this
      ensures Fits(base) && History(base) == old(History(base))[..newLength]
      ensures root == old(root) && updateDepth == if newLength < old(updateDepth) then newLength else old(updateDepth)
    {
      ghost var was := History(base);
      if newLength > 0 {
        var idx := length;
        while idx >= newLength
          invariant newLength - 1 <= idx <= length
          invariant length == old(length) && updateDepth == old(updateDepth) && root == old(root)
          invariant forall i: nat :: i in appends <==> i in old(appends) && !(idx < i <= length)
          invariant forall i: nat :: i in appends ==> appends[i] == old(appends)[i]
          decreases idx
        {
          appends := appends - {idx};
          idx := idx - 1;
        }
      } else {
        appends := map[];
      }
      length := newLength;
      if updateDepth > length {
        updateDepth := length;
      }
      assert History(base) == was[..newLength];
    }

    /** The node at an index; an index beyond the end, and only that, is an error. */
    method GetHistoryAt(base: seq<N>, index: nat) returns (node: Option<N>)
      requires Fits(base)
      ensures node == if index < |History(base)| then Some(History(base)[index]) else None
    {
      if index >= length {
        return None;
      }
      if index >= updateDepth {
        return Some(appends[index]);
      }
      return Some(base[index]);
    }

    /** Writes one child cache into this one: the body of the loop in BatchWriteHistory. */
    method Absorb(child: HistoryCache<N>, ghost base: seq<N>)
      requires child != this && Fits(base) && child.Fits(History(base))
      modifies this
      ensures Fits(base)
      ensures History(base) == old(child.History(History(base))) && length == child.length && root == child.root
    {
      hide Spliced;
      ghost var mine := History(base);
      ghost var theirs := child.History(mine);
      assert theirs[..child.updateDepth] == mine[..child.updateDepth];
      Truncate(child.updateDepth, base);
      assert History(base) == theirs[..child.updateDepth];
      for i := child.updateDepth to child.length
        invariant Fits(base) && History(base) == theirs[..i]
      {
        var leaf := child.appends[i];
        assert leaf == theirs[i];
        Extend(leaf, base);
        assert theirs[..i] + [theirs[i]] == theirs[..i + 1];
      }
      assert theirs[..child.length] == theirs;
      root := child.root;
    }
  }

  /** The history of one epoch as a view reports it. */
  datatype Epoch<N> = Epoch(nodes: seq<N>, root: int)

  /** No cache object is shared between epochs. */
  ghost predicate Distinct<N>(caches: map<nat, HistoryCache<N>>)
  {
    forall e, f :: e in caches && f in caches && e != f ==> caches[e] != caches[f]
  }

  ghost predicate AllFit<N>(caches: map<nat, HistoryCache<N>>, base: nat -> Epoch<N>)
    reads caches.Values
  {
    forall e :: e in caches ==> caches[e].Fits(base(e).nodes)
  }

  /** What a view with these caches over the given base reports for an epoch. */
  ghost function Seen<N>(caches: map<nat, HistoryCache<N>>, base: nat -> Epoch<N>, e: nat): Epoch<N>
    requires AllFit(caches, base)
    reads caches.Values
  {
    if e in caches then Epoch(caches[e].History(base(e).nodes), caches[e].root) else base(e)
  }

  /** One step of the loop of BatchWriteHistory. */
  method WriteEpoch<N>(caches: map<nat, HistoryCache<N>>, epoch: nat, children: map<nat, HistoryCache<N>>,
                       ghost base: nat -> Epoch<N>, ghost mine: nat -> Epoch<N>)
    returns (written: map<nat, HistoryCache<N>>)
    requires Distinct(caches) && caches.Values !! children.Values
    requires AllFit(caches, base) && AllFit(children, mine)
    requires epoch in children && mine(epoch) == Seen(caches, base, epoch)
    modifies if epoch in caches then {caches[epoch]} else {}
    ensures Distinct(written) && AllFit(written, base) && fresh(written.Values - caches.Values)
    ensures Seen(written, base, epoch) == Seen(children, mine, epoch)
    ensures forall e :: e != epoch ==> Seen(written, base, e) == old(Seen(caches, base, e))
  {
    written := caches;
    var child := children[epoch];
    assert child in children.Values && child.Fits(mine(epoch).nodes);
    if epoch in written {
      var cache := written[epoch];
      assert cache in caches.Values;
      cache.Absorb(child, base(epoch).nodes);
    } else {
      var copy := new HistoryCache.Copy(child);
      written := written[epoch := copy];
    }
  }

  /** Writes a child view's caches into those of its parent.  mine is what the parent reports beforehand;
      afterwards the parent reports for every epoch exactly what the child did. */
  method BatchWriteHistory<N>(caches: map<nat, HistoryCache<N>>, children: map<nat, HistoryCache<N>>,
                              ghost base: nat -> Epoch<N>, ghost mine: nat -> Epoch<N>)
    returns (written: map<nat, HistoryCache<N>>)
    requires Distinct(caches) && caches.Values !! children.Values
    requires AllFit(caches, base) && forall e :: mine(e) == Seen(caches, base, e)
    requires AllFit(children, mine)
    modifies caches.Values
    ensures Distinct(written) && AllFit(written, base)
    ensures fresh(written.Values - caches.Values)
    ensures forall e :: Seen(written, base, e) == old(Seen(children, mine, e))
  {
    written := caches;
    var todo := children.Keys;
    while todo != {}
      invariant todo <= children.Keys
      invariant Distinct(written) && AllFit(written, base)
      invariant fresh(written.Values - caches.Values) && written.Values !! children.Values
      invariant unchanged(children.Values)
      invariant forall e :: e in todo ==> Seen(written, base, e) == mine(e)
      invariant forall e :: e !in todo ==> Seen(written, base, e) == old(Seen(children, mine, e))
      decreases |todo|
    {
      var epoch :| epoch in todo;
      written := WriteEpoch(written, epoch, children, base, mine);
      todo := todo - {epoch};
    }
  }
}
