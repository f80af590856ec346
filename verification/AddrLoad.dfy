/** Loading a stored address manager: the entries come back under new ids, and every table, count and link
    with them; nothing collides and nothing is pruned. */
module AddrLoad {
  import opened AddrModel
  import opened AddrMan
  import opened AddrStore

  // ---------- what loading gives back ----------

  /** The same keys, with the values renumbered. */
  ghost predicate Renumbered<K>(a: map<K, int>, a': map<K, int>, ids: seq<int>)
  {
    a'.Keys == a.Keys && forall k :: k in a ==> 0 <= a'[k] < |ids| && ids[a'[k]] == a[k]
  }

  /** The tables agree up to the numbering of the entries, the random order and the time of the last attempt,
      which is kept in memory only. */
  ghost predicate Renumbers(ids: seq<int>, t: Tables, t': Tables)
  {
    && (forall i, j :: 0 <= i < j < |ids| ==> ids[i] != ids[j])
    && (forall id :: id in ids <==> id in t.mapInfo)
    && (forall j :: j in t'.mapInfo <==> 0 <= j < |ids|)
    && (forall j :: 0 <= j < |ids| ==>
          ids[j] in t.mapInfo && t'.mapInfo[j] == t.mapInfo[ids[j]].(nLastTry := 0, nRandomPos := j))
    && Renumbered(t.mapAddr, t'.mapAddr, ids)
    && Renumbered(t.news, t'.news, ids)
    && Renumbered(t.tried, t'.tried, ids)
  }

  /** The entry loaded under a number, before any bucket refers to it. */
  ghost function Entry(m: map<int, Info>, ids: seq<int>, j: int): Info
    requires 0 <= j < |ids| && ids[j] in m
  {
    m[ids[j]].(nLastTry := 0, nRefCount := 0, nRandomPos := j)
  }

  /** The first n entries are loaded; their reference counts are open. */
  ghost predicate Loaded(m: map<int, Info>, ids: seq<int>, n: nat, m': map<int, Info>)
  {
    && n <= |ids|
    && (forall j :: j in m' <==> 0 <= j < n)
    && forall j :: 0 <= j < n ==> ids[j] in m && m'[j] == Entry(m, ids, j).(nRefCount := m'[j].nRefCount)
  }

  lemma LoadedNext(m: map<int, Info>, ids: seq<int>, n: nat, m': map<int, Info>)
    requires Loaded(m, ids, n, m') && n < |ids| && ids[n] in m
    ensures Loaded(m, ids, n + 1, m'[n := Entry(m, ids, n)])
  {
  }

  lemma LoadedCounted(m: map<int, Info>, ids: seq<int>, n: nat, m': map<int, Info>, j: int, count: int)
    requires Loaded(m, ids, n, m') && j in m'
    ensures Loaded(m, ids, n, m'[j := m'[j].(nRefCount := count)])
  {
  }

  /** The address of the next entry is not known yet. */
  lemma AddressFree(t: Tables, t1: Tables, ids: seq<int>, n: nat, count: nat)
    requires AddrOk(t.mapInfo, t.mapAddr) && AddrOk(t1.mapInfo, t1.mapAddr)
    requires Numbers(ids, t.mapInfo, count) && n < |ids| && Loaded(t.mapInfo, ids, n, t1.mapInfo)
    ensures t.mapInfo[ids[n]].service.net !in t1.mapAddr
  {
    var id := ids[n];
    var net := t.mapInfo[id].service.net;
    assert id in t.mapInfo && net in t.mapAddr && t.mapAddr[net] == id;
    forall j | j in t1.mapInfo
      ensures t1.mapInfo[j].service.net != net
    {
      var other := ids[j];
      assert other in t.mapInfo && t1.mapInfo[j].service == t.mapInfo[other].service;
      assert t.mapInfo[other].service.net in t.mapAddr && t.mapAddr[t.mapInfo[other].service.net] == other;
    }
  }

  /** The tried slot of the next entry is still empty. */
  lemma TriedFree(t: Tables, t1: Tables, h: Hasher, ids: seq<int>, n: nat, count: nat)
    requires TriedOk(t.mapInfo, t.tried, h) && TriedOk(t1.mapInfo, t1.tried, h)
    requires Numbers(ids, t.mapInfo, count) && count <= n < |ids| && Loaded(t.mapInfo, ids, n, t1.mapInfo)
    ensures h.TriedSlot(t.mapInfo[ids[n]].service) !in t1.tried
  {
    hide Hasher.TriedSlot;
    var id := ids[n];
    assert id in ids && id in t.mapInfo && t.mapInfo[id].fInTried;
    var s := h.TriedSlot(t.mapInfo[id].service);
    assert s in t.tried && t.tried[s] == id;
    forall j | j in t1.mapInfo && t1.mapInfo[j].fInTried
      ensures h.TriedSlot(t1.mapInfo[j].service) != s
    {
      var other := ids[j];
      assert other in t.mapInfo && t1.mapInfo[j].service == t.mapInfo[other].service && t.mapInfo[other].fInTried;
      assert t.tried[h.TriedSlot(t.mapInfo[other].service)] == other != id;
    }
  }

  // ---------- entries ----------

  /** The tables with one more entry; a tried entry also takes its slot. */
  ghost function WithEntry(t: Tables, h: Hasher, id: int, info: Info): Tables
  {
    Tables(t.mapInfo[id := info], t.mapAddr[info.service.net := id], t.vRandom + [id], t.news,
      if info.fInTried then t.tried[h.TriedSlot(info.service) := id] else t.tried)
  }

  lemma EntryConsistent(t: Tables, h: Hasher, id: int, info: Info)
    requires Consistent(t, h)
    requires id !in t.mapInfo && info.service.net !in t.mapAddr
    requires info.nRefCount == 0 && info.nRandomPos == |t.vRandom|
    requires info.nLastTry == 0 && info.nLastSuccess >= 0 && (info.fInTried ==> info.nLastSuccess > 0)
    requires info.fInTried ==> h.TriedSlot(info.service) !in t.tried
    ensures Consistent(WithEntry(t, h, id, info), h)
  {
    hide RandomOk, AddrOk, TriedOk, NewOk, Hasher.TriedSlot;
    NewRefs(t.mapInfo, t.news, h, id);
    CreateRandom(t.mapInfo, t.vRandom, id, info);
    CreateAddr(t.mapInfo, t.mapAddr, id, info);
    CreateNew(t.mapInfo, t.news, h, id, info);
    if info.fInTried {
      EnterTriedOk(t.mapInfo, t.tried, h, id, info);
    } else {
      CreateTried(t.mapInfo, t.tried, h, id, info);
    }
  }

  lemma EnterTriedOk(m: map<int, Info>, tried: map<Slot, int>, h: Hasher, id: int, info: Info)
    requires TriedOk(m, tried, h) && id !in m && info.fInTried && h.TriedSlot(info.service) !in tried
    ensures TriedOk(m[id := info], tried[h.TriedSlot(info.service) := id], h)
  {
    hide Hasher.TriedSlot;
  }

  /** Stored entries are loaded as the next entry of either status. */
  lemma EntryStored(image: Image, ids: seq<int>, t: Tables, h: Hasher, n: nat)
    requires IsImage(image, ids, t, h) && n < |ids|
    ensures ids[n] in t.mapInfo
    ensures n < image.nNew ==> Load(image.news[n], 0, false, n) == Entry(t.mapInfo, ids, n)
    ensures n >= image.nNew ==> Load(image.trieds[n - image.nNew], 0, true, n) == Entry(t.mapInfo, ids, n)
  {
    hide BucketsStored;
    assert t.mapInfo[ids[n]].fInTried <==> n >= image.nNew;
    if n < image.nNew {
      assert ids[0 + n] == ids[n];
    } else {
      assert ids[image.nNew + (n - image.nNew)] == ids[n];
      assert image.trieds[n - image.nNew] == Store(t.mapInfo[ids[n]]);
    }
  }

  /** The loop over the stored new entries. */
  method LoadNews(man: CAddrMan, image: Image, ghost t: Tables, ghost ids: seq<int>)
    requires Checked(t, man.hasher) && IsImage(image, ids, t, man.hasher)
    requires man.View() == Tables(map[], map[], [], map[], map[])
    requires man.Grids()
    modifies man`nIdCount, man`mapInfo, man`mapAddr, man`vRandom
    ensures man.Steady() && man.nIdCount == image.nNew == |man.vRandom|
    ensures Loaded(t.mapInfo, ids, image.nNew, man.mapInfo)
  {
    hide RandomOk, AddrOk, TriedOk, NewOk, Mirrors, Loaded, Load, StoredFrom, BucketsStored, Hasher.TriedSlot, Entry;
    EmptyConsistent(man.View(), man.hasher, t.mapInfo, ids);
    for n := 0 to image.nNew
      invariant Consistent(man.View(), man.hasher) && |man.vRandom| == n
      invariant Loaded(t.mapInfo, ids, n, man.mapInfo)
    {
      var info := Load(image.news[n], 0, false, |man.vRandom|);
      NextEntry(image, ids, t, man.View(), man.hasher, n);
      LoadedNext(t.mapInfo, ids, n, man.mapInfo);
      EntryConsistent(man.View(), man.hasher, n, info);
      man.mapInfo := man.mapInfo[n := info];
      man.mapAddr := man.mapAddr[info.service.net := n];
      man.vRandom := man.vRandom + [n];
    }
    man.nIdCount := image.nNew;
    LoadedBelow(t.mapInfo, ids, image.nNew, man.mapInfo);
  }

  lemma LoadedBelow(m: map<int, Info>, ids: seq<int>, n: nat, m': map<int, Info>)
    requires Loaded(m, ids, n, m')
    ensures forall j :: j in m' <==> 0 <= j < n
  {
  }

  lemma EmptyConsistent(t1: Tables, h: Hasher, m: map<int, Info>, ids: seq<int>)
    requires t1 == Tables(map[], map[], [], map[], map[])
    ensures Consistent(t1, h) && Loaded(m, ids, 0, t1.mapInfo)
  {
  }

  /** All that is needed to take the next entry in. */
  lemma NextEntry(image: Image, ids: seq<int>, t: Tables, t1: Tables, h: Hasher, n: nat)
    requires Checked(t, h) && IsImage(image, ids, t, h) && n < |ids|
    requires Consistent(t1, h) && Loaded(t.mapInfo, ids, n, t1.mapInfo)
    ensures ids[n] in t.mapInfo && n !in t1.mapInfo
    ensures var info := Entry(t.mapInfo, ids, n);
      && (n < image.nNew ==> Load(image.news[n], 0, false, n) == info)
      && (n >= image.nNew ==> Load(image.trieds[n - image.nNew], 0, true, n) == info)
      && info.service.net !in t1.mapAddr
      && info.nRefCount == 0 && info.nRandomPos == n && info.nLastTry == 0 && info.nLastSuccess >= 0
      && (info.fInTried <==> n >= image.nNew)
      && (info.fInTried ==> info.nLastSuccess > 0 && h.TriedSlot(info.service) !in t1.tried)
  {
    hide RandomOk, AddrOk, TriedOk, NewOk, Loaded, Load, StoredFrom, BucketsStored, Hasher.TriedSlot, CountsOk;
    EntryStored(image, ids, t, h, n);
    LoadedBelow(t.mapInfo, ids, n, t1.mapInfo);
    AddressFree(t, t1, ids, n, image.nNew);
    var id := ids[n];
    assert id in t.mapInfo && (t.mapInfo[id].fInTried <==> n >= image.nNew);
    assert t.mapInfo[id].nLastSuccess >= 0;
    if n >= image.nNew {
      TriedFree(t, t1, h, ids, n, image.nNew);
    }
  }

  /** One stored tried entry: it is lost exactly when its slot is taken. */
  method LoadTried(man: CAddrMan, s: Stored) returns (lost: bool)
    requires man.Steady() && s.service.net !in man.mapAddr && s.nLastSuccess > 0
    modifies man`nIdCount, man`mapInfo, man`mapAddr, man`vRandom, man`tried, man.vvTried
    ensures man.Steady()
    ensures lost <==> man.hasher.TriedSlot(s.service) in old(man.tried)
    ensures lost ==> man.View() == old(man.View()) && man.nIdCount == old(man.nIdCount)
    ensures !lost ==> man.nIdCount == old(man.nIdCount) + 1
    ensures !lost ==>
      man.View() == WithEntry(old(man.View()), man.hasher, old(man.nIdCount), Load(s, 0, true, |old(man.vRandom)|))
  {
    hide RandomOk, AddrOk, TriedOk, NewOk, CountsOk, StatsOk, Mirrors;
    var k := man.hasher.TriedSlot(s.service);
    TriedSlotInRange(man.hasher, s.service);
    hide Hasher.TriedSlot;
    CellOf(man.vvTried, man.tried, TRIED_BUCKET_COUNT, k);
    lost := man.vvTried[k.bucket, k.pos] != EMPTY;
    if !lost {
      var info := Load(s, 0, true, |man.vRandom|);
      var id := man.nIdCount;
      EntryConsistent(man.View(), man.hasher, id, info);
      man.SetTriedCell(k, id);
      man.vRandom := man.vRandom + [id];
      man.mapInfo := man.mapInfo[id := info];
      man.mapAddr := man.mapAddr[info.service.net := id];
      man.nIdCount := id + 1;
    }
  }

  /** The loop over the stored tried entries: none is lost. */
  method LoadTrieds(man: CAddrMan, image: Image, ghost t: Tables, ghost ids: seq<int>) returns (nLost: int)
    requires Checked(t, man.hasher) && IsImage(image, ids, t, man.hasher)
    requires man.Steady() && man.nIdCount == image.nNew == |man.vRandom|
    requires Loaded(t.mapInfo, ids, image.nNew, man.mapInfo)
    modifies man`nIdCount, man`mapInfo, man`mapAddr, man`vRandom, man`tried, man.vvTried
    ensures man.Steady() && Loaded(t.mapInfo, ids, |ids|, man.mapInfo)
    ensures nLost == 0
  {
    hide Consistent, Checked, Mirrors, Loaded, Load;
    hide Numbers, StoredFrom, BucketsStored, Hasher.TriedSlot, Entry, CAddrMan.Grids;
    nLost := 0;
    for n := 0 to image.nTried
      invariant man.Steady() && man.nIdCount == image.nNew + n == |man.vRandom|
      invariant Loaded(t.mapInfo, ids, image.nNew + n, man.mapInfo)
      invariant nLost == 0
    {
      ghost var id := image.nNew + n;
      NextEntry(image, ids, t, man.View(), man.hasher, id);
      LoadedNext(t.mapInfo, ids, id, man.mapInfo);
      LoadKeeps(image.trieds[n], id);
      var lost := LoadTried(man, image.trieds[n]);
      if lost {
        nLost := nLost + 1;
      }
    }
  }

  lemma LoadKeeps(s: Stored, n: int)
    ensures var info := Load(s, 0, true, n);
      info.service == s.service && info.nLastSuccess == s.nLastSuccess && info.fInTried
  {
  }

  // ---------- buckets ----------

  /** A slot of an earlier bucket, or of this one at one of the given positions. */
  ghost predicate Reached(s: Slot, bucket: nat, ps: seq<nat>)
  {
    s.bucket < bucket || (s.bucket == bucket && s.pos in ps)
  }

  /** Exactly the occupied slots reached so far are occupied again, by the same entries. */
  ghost predicate SlotsLoaded(news: map<Slot, int>, news': map<Slot, int>, ids: seq<int>, bucket: nat, ps: seq<nat>)
  {
    && (forall s :: s in news' <==> s in news && Reached(s, bucket, ps))
    && (forall s :: s in news' ==> 0 <= news'[s] < |ids| && ids[news'[s]] == news[s])
  }

  /** The tables after a bucket has named an entry: it takes its position there if that is free and it has not
      been named eight times; other numbers are skipped. */
  ghost function WithRef(t: Tables, h: Hasher, bucket: nat, id: int, nNew: int): Tables
  {
    if 0 <= id < nNew && id in t.mapInfo then
      var s := Slot(bucket, h.Position(t.mapInfo[id].service, true, bucket));
      if s !in t.news && t.mapInfo[id].nRefCount < NEW_BUCKETS_PER_ADDRESS then
        t.(mapInfo := t.mapInfo[id := t.mapInfo[id].(nRefCount := t.mapInfo[id].nRefCount + 1)],
          news := t.news[s := id])
      else t
    else t
  }

  method LoadRef(man: CAddrMan, bucket: nat, nIndex: int, nNew: int)
    requires man.Steady() && bucket < NEW_BUCKET_COUNT
    requires forall j :: 0 <= j < nNew ==> j in man.mapInfo && !man.mapInfo[j].fInTried
    modifies man`mapInfo, man`news, man.vvNew
    ensures man.Steady()
    ensures man.View() == WithRef(old(man.View()), man.hasher, bucket, nIndex, nNew)
  {
    hide RandomOk, AddrOk, TriedOk, NewOk, CountsOk, StatsOk, Consistent, Mirrors, Hasher.Position;
    if 0 <= nIndex < nNew {
      var info := man.mapInfo[nIndex];
      var s := Slot(bucket, man.hasher.Position(info.service, true, bucket));
      PositionInRange(man.hasher, info.service, bucket);
      CellOf(man.vvNew, man.news, NEW_BUCKET_COUNT, s);
      if man.vvNew[s.bucket, s.pos] == EMPTY && info.nRefCount < NEW_BUCKETS_PER_ADDRESS {
        ghost var t := man.View();
        man.SetNewCell(s, nIndex);
        man.mapInfo := man.mapInfo[nIndex := info.(nRefCount := info.nRefCount + 1)];
        RefConsistent(t, man.View(), man.hasher, s, nIndex);
      }
    }
  }

  /** The next named entry finds its old position free, and it has been named less than eight times. */
  lemma RefTaken(t: Tables, t1: Tables, h: Hasher, ids: seq<int>, count: nat, bucket: nat,
    list: seq<int>, ps: seq<nat>, k: nat)
    requires Checked(t, h) && Numbers(ids, t.mapInfo, count)
    requires Consistent(t1, h) && Loaded(t.mapInfo, ids, |ids|, t1.mapInfo)
    requires Names(list, ps, t.news, bucket, ids, count) && k < |list|
    requires forall i, j :: 0 <= i < j < |ps| ==> ps[i] < ps[j]
    requires SlotsLoaded(t.news, t1.news, ids, bucket, ps[..k])
    ensures 0 <= list[k] < count && list[k] in t1.mapInfo
    ensures var s := Slot(bucket, ps[k]);
      && s.pos == h.Position(t1.mapInfo[list[k]].service, true, bucket)
      && s !in t1.news && t1.mapInfo[list[k]].nRefCount < NEW_BUCKETS_PER_ADDRESS
      && SlotsLoaded(t.news, t1.news[s := list[k]], ids, bucket, ps[..k + 1])
  {
    hide RandomOk, AddrOk, TriedOk, StatsOk, Hasher.Position;
    var j, s := list[k], Slot(bucket, ps[k]);
    assert s in t.news && t.news[s] == ids[j];
    assert t1.mapInfo[j].service == t.mapInfo[ids[j]].service;
    assert s !in t1.news;
    FewerRefs(t, t1, h, ids, count, bucket, ps[..k], s, j);
    assert ps[..k + 1] == ps[..k] + [ps[k]];
    NextSlot(t.news, t1.news, ids, bucket, ps[..k], s, j);
  }

  lemma NextSlot(news: map<Slot, int>, news': map<Slot, int>, ids: seq<int>, bucket: nat, ps: seq<nat>, s: Slot, j: int)
    requires SlotsLoaded(news, news', ids, bucket, ps)
    requires s in news && s.bucket == bucket && 0 <= j < |ids| && ids[j] == news[s]
    ensures SlotsLoaded(news, news'[s := j], ids, bucket, ps + [s.pos])
  {
    forall u: Slot
      ensures Reached(u, bucket, ps + [s.pos]) <==> Reached(u, bucket, ps) || u == s
    {
      assert u == Slot(u.bucket, u.pos) && s == Slot(bucket, s.pos);
    }
  }

  lemma FewerRefs(t: Tables, t1: Tables, h: Hasher, ids: seq<int>, count: nat, bucket: nat,
    ps: seq<nat>, s: Slot, j: int)
    requires CountsOk(t.mapInfo, t.news) && NewOk(t.mapInfo, t.news, h) && Referenced(t.mapInfo, {})
    requires CountsOk(t1.mapInfo, t1.news) && j in t1.mapInfo
    requires SlotsLoaded(t.news, t1.news, ids, bucket, ps)
    requires s in t.news && s !in t1.news && 0 <= j < |ids| && ids[j] == t.news[s]
    ensures t1.mapInfo[j].nRefCount < NEW_BUCKETS_PER_ADDRESS
  {
    hide Hasher.Position, Reached;
    var before, after := Refs(t.news, ids[j]), Refs(t1.news, j);
    assert ids[j] in t.mapInfo && !t.mapInfo[ids[j]].fInTried;
    assert s in before;
    assert after <= before - {s};
    Smaller(after, before - {s});
  }

  lemma BucketDone(news: map<Slot, int>, news': map<Slot, int>, ids: seq<int>, bucket: nat)
    requires forall s :: s in news ==> s.pos < BUCKET_SIZE
    requires SlotsLoaded(news, news', ids, bucket, Occupied(news, bucket, BUCKET_SIZE))
    ensures SlotsLoaded(news, news', ids, bucket + 1, [])
  {
    hide Occupied;
    var ps := Occupied(news, bucket, BUCKET_SIZE);
    forall s | s in news
      ensures Reached(s, bucket, ps) <==> Reached(s, bucket + 1, [])
    {
      assert s == Slot(s.bucket, s.pos);
    }
  }

  /** The loop over the numbers stored for a bucket. */
  method LoadBucket(man: CAddrMan, bucket: nat, list: seq<int>, nNew: int, ghost t: Tables, ghost ids: seq<int>)
    requires Checked(t, man.hasher) && 0 <= nNew && Numbers(ids, t.mapInfo, nNew) && bucket < NEW_BUCKET_COUNT
    requires Names(list, Occupied(t.news, bucket, BUCKET_SIZE), t.news, bucket, ids, nNew)
    requires man.Steady() && Loaded(t.mapInfo, ids, |ids|, man.mapInfo)
    requires SlotsLoaded(t.news, man.news, ids, bucket, [])
    modifies man`mapInfo, man`news, man.vvNew
    ensures man.Steady() && Loaded(t.mapInfo, ids, |ids|, man.mapInfo)
    ensures SlotsLoaded(t.news, man.news, ids, bucket + 1, [])
  {
    hide Consistent, Checked, Mirrors, Loaded, Numbers, Names, Occupied, SlotsLoaded, Hasher.Position, CAddrMan.Grids;
    ghost var ps := Occupied(t.news, bucket, BUCKET_SIZE);
    NamesSize(list, ps, t.news, bucket, ids, nNew);
    assert ps[..0] == [];
    for n := 0 to |list|
      invariant man.Steady() && Loaded(t.mapInfo, ids, |ids|, man.mapInfo)
      invariant SlotsLoaded(t.news, man.news, ids, bucket, ps[..n])
    {
      RefTaken(t, man.View(), man.hasher, ids, nNew, bucket, list, ps, n);
      NewOnesLoaded(t.mapInfo, ids, nNew, man.mapInfo);
      var j := list[n];
      LoadedCounted(t.mapInfo, ids, |ids|, man.mapInfo, j, man.mapInfo[j].nRefCount + 1);
      LoadRef(man, bucket, j, nNew);
    }
    assert ps[..|list|] == ps;
    PositionsBelow(t, man.hasher);
    BucketDone(t.news, man.news, ids, bucket);
  }

  lemma NamesSize(list: seq<int>, ps: seq<nat>, news: map<Slot, int>, bucket: nat, ids: seq<int>, count: nat)
    requires Names(list, ps, news, bucket, ids, count)
    ensures |list| == |ps|
  {
  }

  lemma NewOnesLoaded(m: map<int, Info>, ids: seq<int>, count: nat, m': map<int, Info>)
    requires Numbers(ids, m, count) && Loaded(m, ids, |ids|, m')
    ensures forall j :: 0 <= j < |ids| ==> j in m' && (m'[j].fInTried <==> j >= count)
    ensures count <= |ids|
  {
    forall j | 0 <= j < |ids|
      ensures j in m' && (m'[j].fInTried <==> j >= count)
    {
      assert m'[j].fInTried == m[ids[j]].fInTried;
    }
  }

  lemma PositionsBelow(t: Tables, h: Hasher)
    requires Checked(t, h)
    ensures forall s :: s in t.news ==> s.bucket < NEW_BUCKET_COUNT && s.pos < BUCKET_SIZE
  {
    hide RandomOk, AddrOk, TriedOk, CountsOk, StatsOk;
  }

  /** The loop over the stored buckets. */
  method LoadBuckets(man: CAddrMan, image: Image, ghost t: Tables, ghost ids: seq<int>)
    requires Checked(t, man.hasher) && IsImage(image, ids, t, man.hasher)
    requires man.Steady() && Loaded(t.mapInfo, ids, |ids|, man.mapInfo) && man.news == map[]
    modifies man`mapInfo, man`news, man.vvNew
    ensures man.Steady() && Loaded(t.mapInfo, ids, |ids|, man.mapInfo)
    ensures SlotsLoaded(t.news, man.news, ids, NEW_BUCKET_COUNT, [])
  {
    hide Consistent, Checked, Mirrors, Loaded, Numbers, Names, Occupied, SlotsLoaded, StoredFrom, CAddrMan.Steady;
    NoneReached(t.news, ids);
    for bucket := 0 to NEW_BUCKET_COUNT
      invariant man.Steady() && Loaded(t.mapInfo, ids, |ids|, man.mapInfo)
      invariant SlotsLoaded(t.news, man.news, ids, bucket, [])
    {
      LoadBucket(man, bucket, image.buckets[bucket], image.nNew, t, ids);
    }
  }

  lemma NoneReached(news: map<Slot, int>, ids: seq<int>)
    ensures SlotsLoaded(news, map[], ids, 0, [])
  {
  }

  // ---------- pruning ----------

  /** The new entries below an id that no bucket refers to. */
  ghost function Unreferenced(m: map<int, Info>, n: int): set<int>
  {
    set id | id in m && id < n && !m[id].fInTried && m[id].nRefCount == 0
  }

  /** The loop that deletes every new entry without a reference. */
  method Prune(man: CAddrMan) returns (nLostUnk: int)
    requires man.Steady()
    modifies man`mapInfo, man`mapAddr, man`vRandom, man`nNew
    ensures man.Steady()
    ensures var lost := Unreferenced(old(man.mapInfo), man.nIdCount);
      && nLostUnk == |lost| && man.nNew == old(man.nNew) - nLostUnk
      && man.mapInfo.Keys == old(man.mapInfo).Keys - lost
      && (lost == {} ==> man.View() == old(man.View()))
    ensures SameEntries(old(man.mapInfo), man.mapInfo, man.mapInfo.Keys)
  {
    hide Consistent, Mirrors, NewIds, TriedIds, SameEntries, Unreferenced;
    ghost var t := man.View();
    NoneLostYet(t.mapInfo, man.mapInfo);
    nLostUnk := 0;
    for id := 0 to man.nIdCount
      invariant man.Steady()
      invariant nLostUnk == |Unreferenced(t.mapInfo, id)| && man.nNew == old(man.nNew) - nLostUnk
      invariant man.mapInfo.Keys == t.mapInfo.Keys - Unreferenced(t.mapInfo, id)
      invariant Unreferenced(t.mapInfo, id) == {} ==> man.View() == t
      invariant SameEntries(t.mapInfo, man.mapInfo, man.mapInfo.Keys)
    {
      OneMoreLost(t.mapInfo, id);
      if id in man.mapInfo {
        SameFields(t.mapInfo, man.mapInfo, id);
        if !man.mapInfo[id].fInTried && man.mapInfo[id].nRefCount == 0 {
          ghost var m := man.mapInfo;
          man.Delete(id);
          SameTwice(t.mapInfo, m, man.mapInfo);
          nLostUnk := nLostUnk + 1;
        }
      }
    }
  }

  lemma NoneLostYet(m: map<int, Info>, m': map<int, Info>)
    requires m' == m && forall id :: id in m ==> id >= 0
    ensures Unreferenced(m, 0) == {} && SameEntries(m, m', m'.Keys)
  {
  }

  lemma OneMoreLost(m: map<int, Info>, id: nat)
    ensures var lost := Unreferenced(m, id);
      var gone := id in m && !m[id].fInTried && m[id].nRefCount == 0;
      Unreferenced(m, id + 1) == (if gone then lost + {id} else lost) && id !in lost
  {
  }

  lemma SameFields(m: map<int, Info>, m': map<int, Info>, id: int)
    requires SameEntries(m, m', m'.Keys) && id in m'
    ensures id in m && m'[id].fInTried == m[id].fInTried && m'[id].nRefCount == m[id].nRefCount
  {
    assert m'[id] == m[id].(nRandomPos := m'[id].nRandomPos);
  }

  lemma SameTwice(m0: map<int, Info>, m1: map<int, Info>, m2: map<int, Info>)
    requires SameEntries(m0, m1, m1.Keys) && SameEntries(m1, m2, m2.Keys)
    ensures SameEntries(m0, m2, m2.Keys)
  {
    forall id | id in m2
      ensures id in m0 && m2[id] == m0[id].(nRandomPos := m2[id].nRandomPos)
    {
      assert id in m1 && m2[id] == m1[id].(nRandomPos := m2[id].nRandomPos);
      assert m1[id] == m0[id].(nRandomPos := m1[id].nRandomPos);
    }
  }

  // ---------- the round trip ----------

  /** All slots of a number of buckets. */
  ghost function Slots(buckets: nat): set<Slot>
  {
    set b: nat, p: nat | b < buckets && p < BUCKET_SIZE :: Slot(b, p)
  }

  ghost function Row(b: nat, n: nat): set<Slot>
  {
    set p: nat | p < n :: Slot(b, p)
  }

  lemma {:induction false} RowSize(b: nat, n: nat)
    ensures |Row(b, n)| == n
  {
    if n == 0 {
      assert Row(b, 0) == {};
    } else {
      RowSize(b, n - 1);
      assert Row(b, n) == Row(b, n - 1) + {Slot(b, n - 1)};
    }
  }

  lemma {:induction false} SlotsSize(buckets: nat)
    ensures |Slots(buckets)| == buckets * BUCKET_SIZE
  {
    if buckets == 0 {
      assert Slots(0) == {};
    } else {
      SlotsSize(buckets - 1);
      RowSize(buckets - 1, BUCKET_SIZE);
      assert Slots(buckets) == Slots(buckets - 1) + Row(buckets - 1, BUCKET_SIZE);
    }
  }

  /** A table holds no more ids than it has slots. */
  lemma {:induction false} AtMostSlots(table: map<Slot, int>)
    ensures |table.Values| <= |table.Keys|
    decreases |table.Keys|
  {
    if s :| s in table {
      var rest := table - {s};
      assert rest.Keys == table.Keys - {s};
      AtMostSlots(rest);
      forall x | x in table.Values
        ensures x in rest.Values + {table[s]}
      {
        var u :| u in table && table[u] == x;
        assert u == s || (u in rest && rest[u] == x);
      }
      Smaller(table.Values, rest.Values + {table[s]});
    } else {
      assert table.Values == {};
    }
  }

  /** Neither limit on the counters that the reader checks can be exceeded by what was stored. */
  lemma LimitsHold(t: Tables, h: Hasher)
    requires Checked(t, h)
    ensures |NewIds(t.mapInfo)| <= NEW_BUCKET_COUNT * BUCKET_SIZE
    ensures |TriedIds(t.mapInfo)| <= TRIED_BUCKET_COUNT * BUCKET_SIZE
  {
    hide RandomOk, AddrOk, StatsOk, Hasher.TriedSlot, Hasher.Position;
    forall id | id in NewIds(t.mapInfo)
      ensures id in t.news.Values
    {
      assert Refs(t.news, id) != {};
      var s :| s in Refs(t.news, id);
    }
    PositionsBelow(t, h);
    InRange(NewIds(t.mapInfo), t.news, NEW_BUCKET_COUNT);
    forall id | id in TriedIds(t.mapInfo)
      ensures id in t.tried.Values
    {
      assert t.tried[h.TriedSlot(t.mapInfo[id].service)] == id;
    }
    forall s | s in t.tried
      ensures s.bucket < TRIED_BUCKET_COUNT && s.pos < BUCKET_SIZE
    {
      TriedSlotInRange(h, t.mapInfo[t.tried[s]].service);
    }
    InRange(TriedIds(t.mapInfo), t.tried, TRIED_BUCKET_COUNT);
  }

  lemma InRange(ids: set<int>, table: map<Slot, int>, buckets: nat)
    requires forall s :: s in table ==> s.bucket < buckets && s.pos < BUCKET_SIZE
    requires ids <= table.Values
    ensures |ids| <= buckets * BUCKET_SIZE
  {
    forall s | s in table
      ensures s in Slots(buckets)
    {
      assert s == Slot(s.bucket, s.pos);
    }
    SlotsSize(buckets);
    AtMostSlots(table);
    Smaller(ids, table.Values);
    Smaller(table.Keys, Slots(buckets));
  }

  lemma CountsLoaded(m: map<int, Info>, ids: seq<int>, count: nat, m': map<int, Info>)
    requires Numbers(ids, m, count) && Loaded(m, ids, |ids|, m')
    ensures |NewIds(m')| == count && |TriedIds(m')| == |ids| - count
  {
    NewOnesLoaded(m, ids, count, m');
    LoadedBelow(m, ids, |ids|, m');
    hide Numbers, Loaded;
    var a, b := seq(count, j => j), seq(|ids| - count, j => count + j);
    forall j | j in m'
      ensures j in (if m'[j].fInTried then b else a)
    {
      assert j == if j < count then a[j] else b[j - count];
    }
    assert SetOf(a) == NewIds(m') && SetOf(b) == TriedIds(m');
    SizeOfSet(a);
    SizeOfSet(b);
  }

  /** A fully loaded manager is the stored one under new ids, and each new entry is referenced again. */
  lemma LoadedRenumbers(t: Tables, t1: Tables, h: Hasher, ids: seq<int>, count: nat)
    requires Checked(t, h) && Numbers(ids, t.mapInfo, count)
    requires Consistent(t1, h) && Loaded(t.mapInfo, ids, |ids|, t1.mapInfo)
    requires SlotsLoaded(t.news, t1.news, ids, NEW_BUCKET_COUNT, [])
    ensures Renumbers(ids, t, t1)
    ensures Referenced(t1.mapInfo, {})
  {
    hide RandomOk, AddrOk, TriedOk, NewOk, CountsOk, StatsOk, Loaded, SlotsLoaded, Renumbered, Referenced, Entry;
    NewsRenumbered(t, t1, h, ids);
    TriedRenumbered(t, t1, h, ids, count);
    AddrRenumbered(t, t1, ids, count);
    CountsBack(t, t1, ids, count);
    LoadedBelow(t.mapInfo, ids, |ids|, t1.mapInfo);
    ReferencedBack(t, t1, ids, count);
  }

  lemma NewsRenumbered(t: Tables, t1: Tables, h: Hasher, ids: seq<int>)
    requires Checked(t, h)
    requires SlotsLoaded(t.news, t1.news, ids, NEW_BUCKET_COUNT, [])
    ensures Renumbered(t.news, t1.news, ids)
  {
    PositionsBelow(t, h);
    hide Checked;
    forall s | s in t.news
      ensures s in t1.news
    {
      assert Reached(s, NEW_BUCKET_COUNT, []);
    }
  }

  lemma TriedRenumbered(t: Tables, t1: Tables, h: Hasher, ids: seq<int>, count: nat)
    requires TriedOk(t.mapInfo, t.tried, h) && TriedOk(t1.mapInfo, t1.tried, h)
    requires Numbers(ids, t.mapInfo, count) && Loaded(t.mapInfo, ids, |ids|, t1.mapInfo)
    ensures Renumbered(t.tried, t1.tried, ids)
  {
    hide Hasher.TriedSlot, TriedOk, Numbers, Loaded;
    forall s | s in t1.tried
      ensures s in t.tried && 0 <= t1.tried[s] < |ids| && ids[t1.tried[s]] == t.tried[s]
    {
      TriedWasThere(t, t1, h, ids, s);
    }
    forall s | s in t.tried
      ensures s in t1.tried
    {
      TriedIsBack(t, t1, h, ids, count, s);
    }
  }

  lemma TriedWasThere(t: Tables, t1: Tables, h: Hasher, ids: seq<int>, s: Slot)
    requires TriedOk(t.mapInfo, t.tried, h) && TriedOk(t1.mapInfo, t1.tried, h)
    requires Loaded(t.mapInfo, ids, |ids|, t1.mapInfo) && s in t1.tried
    ensures s in t.tried && 0 <= t1.tried[s] < |ids| && ids[t1.tried[s]] == t.tried[s]
  {
    hide Hasher.TriedSlot;
    var j := t1.tried[s];
    assert j in t1.mapInfo && t1.mapInfo[j].fInTried && s == h.TriedSlot(t1.mapInfo[j].service);
    var id := ids[j];
    assert id in t.mapInfo && t.mapInfo[id].fInTried && t1.mapInfo[j].service == t.mapInfo[id].service;
    assert h.TriedSlot(t.mapInfo[id].service) in t.tried;
  }

  lemma TriedIsBack(t: Tables, t1: Tables, h: Hasher, ids: seq<int>, count: nat, s: Slot)
    requires TriedOk(t.mapInfo, t.tried, h) && TriedOk(t1.mapInfo, t1.tried, h)
    requires Numbers(ids, t.mapInfo, count) && Loaded(t.mapInfo, ids, |ids|, t1.mapInfo) && s in t.tried
    ensures s in t1.tried
  {
    hide Hasher.TriedSlot;
    var id := t.tried[s];
    assert id in t.mapInfo && s == h.TriedSlot(t.mapInfo[id].service);
    assert id in ids;
    var j :| 0 <= j < |ids| && ids[j] == id;
    assert j in t1.mapInfo && t1.mapInfo[j].fInTried && t1.mapInfo[j].service == t.mapInfo[id].service;
  }

  lemma AddrRenumbered(t: Tables, t1: Tables, ids: seq<int>, count: nat)
    requires AddrOk(t.mapInfo, t.mapAddr) && AddrOk(t1.mapInfo, t1.mapAddr)
    requires Numbers(ids, t.mapInfo, count) && Loaded(t.mapInfo, ids, |ids|, t1.mapInfo)
    ensures Renumbered(t.mapAddr, t1.mapAddr, ids)
  {
    hide AddrOk, Numbers, Loaded;
    forall n | n in t1.mapAddr
      ensures n in t.mapAddr && 0 <= t1.mapAddr[n] < |ids| && ids[t1.mapAddr[n]] == t.mapAddr[n]
    {
      AddressWasThere(t, t1, ids, n);
    }
    forall n | n in t.mapAddr
      ensures n in t1.mapAddr
    {
      AddressIsBack(t, t1, ids, count, n);
    }
  }

  lemma AddressWasThere(t: Tables, t1: Tables, ids: seq<int>, n: NetAddr)
    requires AddrOk(t.mapInfo, t.mapAddr) && AddrOk(t1.mapInfo, t1.mapAddr)
    requires Loaded(t.mapInfo, ids, |ids|, t1.mapInfo) && n in t1.mapAddr
    ensures n in t.mapAddr && 0 <= t1.mapAddr[n] < |ids| && ids[t1.mapAddr[n]] == t.mapAddr[n]
  {
    var j := t1.mapAddr[n];
    assert j in t1.mapInfo && t1.mapInfo[j].service.net == n;
    var id := ids[j];
    assert id in t.mapInfo && t1.mapInfo[j].service == t.mapInfo[id].service;
    assert t.mapInfo[id].service.net in t.mapAddr;
  }

  lemma AddressIsBack(t: Tables, t1: Tables, ids: seq<int>, count: nat, n: NetAddr)
    requires AddrOk(t.mapInfo, t.mapAddr) && AddrOk(t1.mapInfo, t1.mapAddr)
    requires Numbers(ids, t.mapInfo, count) && Loaded(t.mapInfo, ids, |ids|, t1.mapInfo) && n in t.mapAddr
    ensures n in t1.mapAddr
  {
    var id := t.mapAddr[n];
    assert id in t.mapInfo && t.mapInfo[id].service.net == n;
    assert id in ids;
    var j :| 0 <= j < |ids| && ids[j] == id;
    assert j in t1.mapInfo && t1.mapInfo[j].service == t.mapInfo[id].service;
  }

  /** The reference counts are those stored. */
  lemma CountsBack(t: Tables, t1: Tables, ids: seq<int>, count: nat)
    requires CountsOk(t.mapInfo, t.news) && CountsOk(t1.mapInfo, t1.news)
    requires Numbers(ids, t.mapInfo, count) && Loaded(t.mapInfo, ids, |ids|, t1.mapInfo)
    requires Renumbered(t.news, t1.news, ids)
    ensures forall j :: 0 <= j < |ids| ==>
      && ids[j] in t.mapInfo && j in t1.mapInfo
      && t1.mapInfo[j] == t.mapInfo[ids[j]].(nLastTry := 0, nRandomPos := j)
  {
    hide Renumbered, Refs, Entry;
    forall j | 0 <= j < |ids|
      ensures ids[j] in t.mapInfo && j in t1.mapInfo
      ensures t1.mapInfo[j] == t.mapInfo[ids[j]].(nLastTry := 0, nRandomPos := j)
    {
      RefsBack(t.news, t1.news, ids, j);
      EntryWith(t.mapInfo, ids, j, t1.mapInfo[j]);
    }
  }

  lemma RefsBack(news: map<Slot, int>, news': map<Slot, int>, ids: seq<int>, j: int)
    requires Renumbered(news, news', ids) && 0 <= j < |ids|
    requires forall i, k :: 0 <= i < k < |ids| ==> ids[i] != ids[k]
    ensures Refs(news', j) == Refs(news, ids[j])
  {
  }

  lemma EntryWith(m: map<int, Info>, ids: seq<int>, j: int, info: Info)
    requires 0 <= j < |ids| && ids[j] in m
    requires info == Entry(m, ids, j).(nRefCount := info.nRefCount) && info.nRefCount == m[ids[j]].nRefCount
    ensures info == m[ids[j]].(nLastTry := 0, nRandomPos := j)
  {
  }

  lemma ReferencedBack(t: Tables, t1: Tables, ids: seq<int>, count: nat)
    requires Referenced(t.mapInfo, {}) && Numbers(ids, t.mapInfo, count)
    requires forall j :: j in t1.mapInfo <==> 0 <= j < |ids|
    requires forall j :: 0 <= j < |ids| ==>
      && ids[j] in t.mapInfo && j in t1.mapInfo
      && t1.mapInfo[j] == t.mapInfo[ids[j]].(nLastTry := 0, nRandomPos := j)
    ensures Referenced(t1.mapInfo, {})
  {
  }

  /** Builds a manager from what was stored for the tables t. */
  method Unserialize(image: Image, ghost t: Tables, ghost ids: seq<int>)
    returns (man: CAddrMan, nLost: int, nLostUnk: int)
    requires Checked(t, image.nKey) && IsImage(image, ids, t, image.nKey)
    ensures man.Valid() && man.hasher == image.nKey
    ensures Renumbers(ids, t, man.View())
    ensures man.nNew == |NewIds(t.mapInfo)| && man.nTried == |TriedIds(t.mapInfo)|
    ensures nLost == 0 && nLostUnk == 0
  {
    hide Consistent, CAddrMan.Grids, Numbers, Names, StoredFrom, BucketsStored;
    hide Loaded, SlotsLoaded, NewIds, TriedIds, Referenced, Renumbers, Unreferenced;
    man := new CAddrMan(image.nKey);
    LimitsHold(t, image.nKey);
    NumbersSize(ids, t.mapInfo, image.nNew);
    assert image.nNew <= NEW_BUCKET_COUNT * BUCKET_SIZE;
    assert image.nTried <= TRIED_BUCKET_COUNT * BUCKET_SIZE;
    LoadNews(man, image, t, ids);
    nLost := LoadTrieds(man, image, t, ids);
    LoadBuckets(man, image, t, ids);
    man.nNew := image.nNew;
    man.nTried := image.nTried - nLost;
    LoadedRenumbers(t, man.View(), man.hasher, ids, image.nNew);
    CountsLoaded(t.mapInfo, ids, image.nNew, man.mapInfo);
    NothingLost(man.mapInfo, man.nIdCount);
    nLostUnk := Prune(man);
  }

  /** Exactly as many entries are numbered new and tried as there are. */
  lemma NumbersSize(ids: seq<int>, m: map<int, Info>, count: nat)
    requires Numbers(ids, m, count)
    ensures count == |NewIds(m)| && |ids| - count == |TriedIds(m)|
  {
    var a, b := ids[..count], ids[count..];
    SizeOfSet(a);
    SizeOfSet(b);
    forall id | id in m
      ensures id in (if m[id].fInTried then b else a)
    {
      assert id in ids;
      var j :| 0 <= j < |ids| && ids[j] == id;
      assert id == if j < count then a[j] else b[j - count];
    }
    assert SetOf(a) == NewIds(m) && SetOf(b) == TriedIds(m);
  }

  lemma NothingLost(m: map<int, Info>, n: int)
    requires Referenced(m, {})
    ensures Unreferenced(m, n) == {}
  {
  }

  /** What is stored and loaded again is the same manager under new ids. */
  method StoreAndLoad(man: CAddrMan) returns (copy: CAddrMan, nLost: int, nLostUnk: int)
    requires man.Valid()
    ensures copy.Valid() && copy.hasher == man.hasher
    ensures Renumbers(AllIds(man.mapInfo, man.nIdCount), man.View(), copy.View())
    ensures copy.nNew == man.nNew && copy.nTried == man.nTried
    ensures nLost == 0 && nLostUnk == 0
  {
    ghost var ids := AllIds(man.mapInfo, man.nIdCount);
    hide Consistent, CAddrMan.Grids, IsImage, AllIds, NewIds, TriedIds, Referenced, Renumbers;
    var image := Serialize(man);
    ImageKey(image, ids, man.View(), man.hasher);
    copy, nLost, nLostUnk := Unserialize(image, man.View(), ids);
  }

  lemma ImageKey(image: Image, ids: seq<int>, t: Tables, h: Hasher)
    requires IsImage(image, ids, t, h)
    ensures image.nKey == h
  {
  }
}
