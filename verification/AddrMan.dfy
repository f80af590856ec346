/** The stochastic address manager: entries by id, ids by address, a random order, and the new and tried
    tables.  Every method keeps the conditions of Check_ and states which entries and slots it changes. */
module AddrMan {
  import opened AddrModel
  import opened Powers

  const EMPTY: int := -1
  const GETADDR_MAX_PCT: nat := 23
  const GETADDR_MAX: nat := 2500

  /** What a table cell holds when the occupied slots are given by a map. */
  ghost function Cell(m: map<Slot, int>, b: nat, p: nat): int
  {
    if Slot(b, p) in m then m[Slot(b, p)] else EMPTY
  }

  /** A two-dimensional table and the map of its occupied slots agree. */
  ghost predicate Mirrors(a: array2<int>, m: map<Slot, int>, buckets: nat)
    reads a
  {
    && a.Length0 == buckets && a.Length1 == BUCKET_SIZE
    && (forall b: nat, p: nat :: b < a.Length0 && p < a.Length1 ==> a[b, p] == Cell(m, b, p))
    && (forall s :: s in m ==> s.bucket < buckets && s.pos < BUCKET_SIZE && m[s] >= 0)
  }

  /** The new-table slots left when an id is taken out of all of them. */
  ghost function Without(news: map<Slot, int>, id: int): map<Slot, int>
  {
    map s | s in news && news[s] != id :: news[s]
  }

  /** An entry without the fields that the tables determine. */
  ghost function Public(i: Info): Info
  {
    i.(nRandomPos := 0, nRefCount := 0, fInTried := false)
  }

  /** The entries of ids carry over, apart from the fields that the tables determine. */
  ghost predicate SamePublic(m: map<int, Info>, m': map<int, Info>, ids: set<int>)
  {
    forall id :: id in ids ==> id in m && id in m' && Public(m'[id]) == Public(m[id])
  }

  class CAddrMan {
    const hasher: Hasher
    const vvNew: array2<int>
    const vvTried: array2<int>

    var nIdCount: int
    var mapInfo: map<int, Info>
    var mapAddr: map<NetAddr, int>
    var vRandom: seq<int>
    var nTried: int
    var nNew: int

    ghost var news: map<Slot, int>
    ghost var tried: map<Slot, int>

    ghost function View(): Tables
      reads `mapInfo, `mapAddr, `vRandom, `news, `tried
    {
      Tables(mapInfo, mapAddr, vRandom, news, tried)
    }

    /** The tables in memory match their maps, and ids in use are below nIdCount. */
    ghost predicate Grids()
      reads `nIdCount, `mapInfo, `news, `tried, vvNew, vvTried
    {
      && vvNew != vvTried
      && Mirrors(vvNew, news, NEW_BUCKET_COUNT)
      && Mirrors(vvTried, tried, TRIED_BUCKET_COUNT)
      && nIdCount >= 0
      && (forall id :: id in mapInfo ==> 0 <= id < nIdCount)
    }

    /** The indexes agree with each other: what holds between the steps of an operation. */
    ghost predicate Steady()
      reads `nIdCount, `mapInfo, `mapAddr, `vRandom, `news, `tried, vvNew, vvTried
    {
      Grids() && Consistent(View(), hasher)
    }

    /** Check_ finds nothing wrong. */
    ghost predicate Valid()
      reads this, vvNew, vvTried
    {
      && Steady()
      && Referenced(mapInfo, {})
      && nNew == |NewIds(mapInfo)|
      && nTried == |TriedIds(mapInfo)|
    }

    constructor (hasher: Hasher)
      ensures Valid() && this.hasher == hasher
      ensures View() == Tables(map[], map[], [], map[], map[])
      ensures fresh(vvNew) && fresh(vvTried)
    {
      this.hasher := hasher;
      vvNew := new int[NEW_BUCKET_COUNT, BUCKET_SIZE]((i, j) => EMPTY);
      vvTried := new int[TRIED_BUCKET_COUNT, BUCKET_SIZE]((i, j) => EMPTY);
      nIdCount, mapInfo, mapAddr, vRandom, nTried, nNew := 0, map[], map[], [], 0, 0;
      news, tried := map[], map[];
      new;
      assert NewIds(mapInfo) == {} && TriedIds(mapInfo) == {};
    }

    // ---- Table cells ----

    method SetNewCell(s: Slot, id: int)
      requires Grids() && s.bucket < NEW_BUCKET_COUNT && s.pos < BUCKET_SIZE && id >= 0
      modifies this`news, vvNew
      ensures Grids() && news == old(news)[s := id]
    {
      vvNew[s.bucket, s.pos] := id;
      news := news[s := id];
    }

    method EmptyNewCell(s: Slot)
      requires Grids() && s.bucket < NEW_BUCKET_COUNT && s.pos < BUCKET_SIZE
      modifies this`news, vvNew
      ensures Grids() && news == old(news) - {s}
    {
      vvNew[s.bucket, s.pos] := EMPTY;
      news := news - {s};
    }

    method SetTriedCell(s: Slot, id: int)
      requires Grids() && s.bucket < TRIED_BUCKET_COUNT && s.pos < BUCKET_SIZE && id >= 0
      modifies this`tried, vvTried
      ensures Grids() && tried == old(tried)[s := id]
    {
      vvTried[s.bucket, s.pos] := id;
      tried := tried[s := id];
    }

    method EmptyTriedCell(s: Slot)
      requires Grids() && s.bucket < TRIED_BUCKET_COUNT && s.pos < BUCKET_SIZE
      modifies this`tried, vvTried
      ensures Grids() && tried == old(tried) - {s}
    {
      vvTried[s.bucket, s.pos] := EMPTY;
      tried := tried - {s};
    }

    // ---- Elementary operations ----

    /** The id registered for a network address, if any. */
    method Find(addr: NetAddr) returns (found: bool, nId: int)
      requires Steady()
      ensures found <==> addr in mapAddr
      ensures found ==> nId in mapInfo && mapInfo[nId].service.net == addr && mapAddr[addr] == nId
      ensures !found ==> forall id :: id in mapInfo ==> mapInfo[id].service.net != addr
    {
      if addr in mapAddr {
        nId := mapAddr[addr];
        found := nId in mapInfo;
      } else {
        found, nId := false, 0;
      }
    }

    method Create(addr: Address, addrSource: NetAddr) returns (nId: int)
      requires Steady() && addr.service.net !in mapAddr
      modifies this`nIdCount, this`mapInfo, this`mapAddr, this`vRandom
      ensures Steady()
      ensures nId == old(nIdCount) && nId !in old(mapInfo)
      ensures mapInfo == old(mapInfo)[nId := Info(addr.service, addr.nServices, addr.nTime, addrSource, 0, 0, 0, 0,
        false, |old(vRandom)|)]
      ensures mapAddr == old(mapAddr)[addr.service.net := nId] && vRandom == old(vRandom) + [nId]
      ensures NewIds(mapInfo) == NewIds(old(mapInfo)) + {nId} && TriedIds(mapInfo) == TriedIds(old(mapInfo))
    {
      hide Consistent, Mirrors, NewIds, TriedIds;
      ghost var t := View();
      nId := nIdCount;
      nIdCount := nIdCount + 1;
      var info := Info(addr.service, addr.nServices, addr.nTime, addrSource, 0, 0, 0, 0, false, |vRandom|);
      mapInfo := mapInfo[nId := info];
      mapAddr := mapAddr[addr.service.net := nId];
      vRandom := vRandom + [nId];
      CreateConsistent(t, View(), hasher, nId, info);
    }

    /** Exchanges two places of the random order. */
    method SwapRandom(nRndPos1: nat, nRndPos2: nat)
      requires Steady() && nRndPos1 < |vRandom| && nRndPos2 < |vRandom|
      modifies this`mapInfo, this`vRandom
      ensures Steady()
      ensures vRandom == Swapped(old(vRandom), nRndPos1, nRndPos2)
      ensures mapInfo.Keys == old(mapInfo).Keys && SameEntries(old(mapInfo), mapInfo, mapInfo.Keys)
      ensures NewIds(mapInfo) == NewIds(old(mapInfo)) && TriedIds(mapInfo) == TriedIds(old(mapInfo))
    {
      hide AddrOk, TriedOk, NewOk, CountsOk, StatsOk, Mirrors, NewIds, TriedIds;
      if nRndPos1 == nRndPos2 {
        return;
      }
      ghost var t := View();
      var entries, order := mapInfo, vRandom;
      var nId1 := order[nRndPos1];
      var nId2 := order[nRndPos2];
      assert nId1 in entries && nId2 in entries;
      entries := entries[nId1 := entries[nId1].(nRandomPos := nRndPos2)];
      entries := entries[nId2 := entries[nId2].(nRandomPos := nRndPos1)];
      order := order[nRndPos1 := nId2];
      order := order[nRndPos2 := nId1];
      SwapKeepsRandom(mapInfo, vRandom, nRndPos1, nRndPos2, entries);
      mapInfo, vRandom := entries, order;
      SameEntriesConsistent(t, View(), hasher);
    }

    /** Removes an entry that is neither tried nor in any new bucket. */
    method Delete(nId: int)
      requires Steady()
      requires nId in mapInfo && !mapInfo[nId].fInTried && mapInfo[nId].nRefCount == 0
      modifies this`mapInfo, this`mapAddr, this`vRandom, this`nNew
      ensures Steady()
      ensures mapInfo.Keys == old(mapInfo).Keys - {nId} && SameEntries(old(mapInfo), mapInfo, mapInfo.Keys)
      ensures NewIds(mapInfo) == NewIds(old(mapInfo)) - {nId} && TriedIds(mapInfo) == TriedIds(old(mapInfo))
      ensures nNew == old(nNew) - 1
    {
      hide AddrOk, TriedOk, NewOk, CountsOk, StatsOk, Mirrors, NewIds, TriedIds;
      var pos := mapInfo[nId].nRandomPos;
      SwapRandom(pos, |vRandom| - 1);
      assert vRandom[|vRandom| - 1] == nId;
      ghost var t := View();
      vRandom := vRandom[..|vRandom| - 1];
      mapAddr := mapAddr - {mapInfo[nId].service.net};
      mapInfo := mapInfo - {nId};
      nNew := nNew - 1;
      DropLastConsistent(t, View(), hasher, nId);
    }

    /** Empties a new-table slot; the entry in it is deleted when this was its last reference.  The ids in
        open are those that may be unreferenced at this point. */
    method ClearNew(s: Slot, ghost open: set<int>)
      requires Steady() && s.bucket < NEW_BUCKET_COUNT && s.pos < BUCKET_SIZE
      requires Referenced(mapInfo, open)
      modifies this`mapInfo, this`mapAddr, this`vRandom, this`nNew, this`news, vvNew
      ensures Steady() && Referenced(mapInfo, open)
      ensures news == old(news) - {s}
      ensures mapInfo.Keys == old(mapInfo).Keys - Displaced(old(View()), s)
      ensures old(mapInfo).Keys - Occupant(old(news), s) <= mapInfo.Keys
      ensures NewIds(mapInfo) == NewIds(old(mapInfo)) - Displaced(old(View()), s)
        && TriedIds(mapInfo) == TriedIds(old(mapInfo))
      ensures nNew == old(nNew) - |Displaced(old(View()), s)|
      ensures SameEntries(old(mapInfo), mapInfo, mapInfo.Keys - Occupant(old(news), s))
      ensures SamePublic(old(mapInfo), mapInfo, mapInfo.Keys)
    {
      hide RandomOk, AddrOk, TriedOk, CountsOk, StatsOk, Mirrors, NewIds, TriedIds, Consistent, Hasher.Position;
      CellOf(vvNew, news, NEW_BUCKET_COUNT, s);
      if vvNew[s.bucket, s.pos] != EMPTY {
        ghost var t := View();
        var nIdDelete := vvNew[s.bucket, s.pos];
        OccupantKnown(t, hasher, s);
        EmptyNewCell(s);
        mapInfo := mapInfo[nIdDelete := mapInfo[nIdDelete].(nRefCount := mapInfo[nIdDelete].nRefCount - 1)];
        UnrefConsistent(t, View(), hasher, s);
        if mapInfo[nIdDelete].nRefCount == 0 {
          Delete(nIdDelete);
        }
      }
    }

    /** The loop of MakeTried that takes an entry out of every new bucket. */
    method LeaveNew(nId: int)
      requires Steady() && nId in mapInfo && !mapInfo[nId].fInTried
      modifies this`mapInfo, this`news, vvNew
      ensures Steady()
      ensures news == Without(old(news), nId)
      ensures mapInfo == old(mapInfo)[nId := old(mapInfo)[nId].(nRefCount := 0)]
      ensures NewIds(mapInfo) == NewIds(old(mapInfo)) && TriedIds(mapInfo) == TriedIds(old(mapInfo))
    {
      hide RandomOk, AddrOk, TriedOk, StatsOk, CountsOk, NewOk, Mirrors, NewIds, TriedIds, Consistent, Hasher.Position;
      ghost var t0 := View();
      NoneLeft(news, nId);
      for bucket: nat := 0 to NEW_BUCKET_COUNT
        invariant Steady()
        invariant nId in mapInfo
        invariant mapInfo == t0.mapInfo[nId := t0.mapInfo[nId].(nRefCount := mapInfo[nId].nRefCount)]
        invariant View() == t0.(mapInfo := mapInfo, news := LeftFrom(t0.news, nId, bucket))
        invariant NewIds(mapInfo) == NewIds(t0.mapInfo) && TriedIds(mapInfo) == TriedIds(t0.mapInfo)
      {
        var pos := hasher.Position(mapInfo[nId].service, true, bucket);
        ghost var t := View();
        CellOf(vvNew, news, NEW_BUCKET_COUNT, Slot(bucket, pos));
        LeaveBucket(t0, hasher, nId, bucket);
        if vvNew[bucket, pos] == nId {
          EmptyNewCell(Slot(bucket, pos));
          mapInfo := mapInfo[nId := mapInfo[nId].(nRefCount := mapInfo[nId].nRefCount - 1)];
          UnrefConsistent(t, View(), hasher, Slot(bucket, pos));
        }
      }
      AllLeft(t0, View(), hasher, nId);
    }

    /** The part of MakeTried that moves the occupant of a tried slot back to the new table. */
    method Evict(s: Slot, nId: int)
      requires Steady() && s in tried
      requires nId in mapInfo && !mapInfo[nId].fInTried && mapInfo[nId].nRefCount == 0
      requires Referenced(mapInfo, {nId})
      modifies this`mapInfo, this`mapAddr, this`vRandom, this`nNew, this`nTried, this`news, this`tried, vvNew, vvTried
      ensures Steady() && Referenced(mapInfo, {nId})
      ensures old(tried)[s] in old(mapInfo) && old(mapInfo)[old(tried)[s]].fInTried
      ensures tried == old(tried) - {s}
      ensures var e := old(tried)[s]; var u := hasher.NewSlot(old(mapInfo)[e].service, old(mapInfo)[e].source);
        && news == old(news)[u := e]
        && mapInfo.Keys == old(mapInfo).Keys - Displaced(old(View()), u)
        && NewIds(mapInfo) == NewIds(old(mapInfo)) + {e} - Displaced(old(View()), u)
        && TriedIds(mapInfo) == TriedIds(old(mapInfo)) - {e}
        && nNew == old(nNew) - |Displaced(old(View()), u)| + 1 && nTried == old(nTried) - 1
        && e in TriedIds(old(mapInfo)) && e !in Displaced(old(View()), u)
          && Displaced(old(View()), u) <= NewIds(old(mapInfo))
      ensures nId in mapInfo && SameEntries(old(mapInfo), mapInfo, {nId})
      ensures SamePublic(old(mapInfo), mapInfo, mapInfo.Keys)
    {
      hide RandomOk, AddrOk, StatsOk, CountsOk, NewOk, TriedOk;
      hide Mirrors, NewIds, TriedIds, Consistent, Hasher.TriedSlot, Hasher.Position, Displaced;
      hide Public, SamePublic, SameEntries, Occupant, Hasher.NewSlot;
      ghost var t0 := View();
      var nIdEvict := LeaveTried(s);
      ghost var t1 := View();
      var u := hasher.NewSlot(mapInfo[nIdEvict].service, mapInfo[nIdEvict].source);
      NewSlotInRange(hasher, mapInfo[nIdEvict].service, mapInfo[nIdEvict].source);
      EvictTarget(t0, t1, hasher, nIdEvict, nId, u);
      MoveBack(nIdEvict, u, nId);
      UntriedKept(t0.mapInfo, t1.mapInfo, mapInfo, nIdEvict, nId);
    }

    /** Puts an unreferenced entry into a new slot, whatever is there; another unreferenced entry is untouched. */
    method MoveBack(e: int, u: Slot, nId: int)
      requires Steady() && Referenced(mapInfo, {nId, e})
      requires e in mapInfo && !mapInfo[e].fInTried && mapInfo[e].nRefCount == 0 && e !in Occupant(news, u)
      requires nId in mapInfo && nId != e && nId !in Occupant(news, u)
      requires u.bucket < NEW_BUCKET_COUNT && u.pos < BUCKET_SIZE
      requires u.pos == hasher.Position(mapInfo[e].service, true, u.bucket)
      modifies this`mapInfo, this`mapAddr, this`vRandom, this`nNew, this`news, vvNew
      ensures Steady() && Referenced(mapInfo, {nId})
      ensures news == old(news)[u := e] && e !in Displaced(old(View()), u)
      ensures mapInfo.Keys == old(mapInfo).Keys - Displaced(old(View()), u)
      ensures NewIds(mapInfo) == NewIds(old(mapInfo)) - Displaced(old(View()), u)
        && TriedIds(mapInfo) == TriedIds(old(mapInfo))
      ensures nNew == old(nNew) - |Displaced(old(View()), u)| + 1
      ensures nId in mapInfo && SameEntries(old(mapInfo), mapInfo, {nId})
      ensures SamePublic(old(mapInfo), mapInfo, mapInfo.Keys)
    {
      hide RandomOk, AddrOk, StatsOk, CountsOk, NewOk, TriedOk;
      hide Mirrors, NewIds, TriedIds, Consistent, Hasher.Position, Public;
      ghost var t0 := View();
      ClearNew(u, {nId, e});
      ghost var t1 := View();
      KeptAround(t0, t1, u, e, nId);
      hide SamePublic, SameEntries;
      EnterNew(e, u, {nId, e});
      EnteredKept(t0.mapInfo, t1.mapInfo, mapInfo, e, nId);
      assert news == t0.news[u := e];
    }

    /** Takes the occupant of a tried slot out of the tried table. */
    method LeaveTried(s: Slot) returns (e: int)
      requires Steady() && s in tried
      modifies this`mapInfo, this`nTried, this`tried, vvTried
      ensures Steady()
      ensures e == old(tried)[s] && e in old(mapInfo) && old(mapInfo)[e].fInTried && old(mapInfo)[e].nRefCount == 0
      ensures e in TriedIds(old(mapInfo))
      ensures tried == old(tried) - {s}
      ensures mapInfo == old(mapInfo)[e := old(mapInfo)[e].(fInTried := false)]
      ensures NewIds(mapInfo) == NewIds(old(mapInfo)) + {e} && TriedIds(mapInfo) == TriedIds(old(mapInfo)) - {e}
      ensures nTried == old(nTried) - 1
    {
      hide RandomOk, AddrOk, StatsOk, CountsOk, NewOk, TriedOk;
      hide Mirrors, NewIds, TriedIds, Consistent, Hasher.TriedSlot, Hasher.Position;
      ghost var t := View();
      TriedOccupant(t, hasher, s);
      CellOf(vvTried, tried, TRIED_BUCKET_COUNT, s);
      e := vvTried[s.bucket, s.pos];
      mapInfo := mapInfo[e := mapInfo[e].(fInTried := false)];
      EmptyTriedCell(s);
      nTried := nTried - 1;
      UntryConsistent(t, View(), hasher, s);
    }

    /** Enters an unreferenced, untried entry into an empty new-table slot. */
    method EnterNew(e: int, u: Slot, ghost open: set<int>)
      requires Steady() && Referenced(mapInfo, open)
      requires e in mapInfo && !mapInfo[e].fInTried && mapInfo[e].nRefCount == 0
      requires u !in news && u.bucket < NEW_BUCKET_COUNT && u.pos == hasher.Position(mapInfo[e].service, true, u.bucket)
      modifies this`mapInfo, this`nNew, this`news, vvNew
      ensures Steady() && Referenced(mapInfo, open - {e})
      ensures news == old(news)[u := e]
      ensures mapInfo == old(mapInfo)[e := old(mapInfo)[e].(nRefCount := 1)]
      ensures NewIds(mapInfo) == NewIds(old(mapInfo)) && TriedIds(mapInfo) == TriedIds(old(mapInfo))
      ensures nNew == old(nNew) + 1
    {
      hide RandomOk, AddrOk, StatsOk, CountsOk, NewOk, TriedOk, Mirrors, NewIds, TriedIds, Consistent, Hasher.Position;
      ghost var t := View();
      PositionInRange(hasher, mapInfo[e].service, u.bucket);
      mapInfo := mapInfo[e := mapInfo[e].(nRefCount := 1)];
      SetNewCell(u, e);
      nNew := nNew + 1;
      RefConsistent(t, View(), hasher, u, e);
    }

    /** Moves an untried entry from the new table to its tried slot, sending the occupant back to the new table. */
    method MakeTried(nId: int)
      requires Valid() && nId in mapInfo && !mapInfo[nId].fInTried && mapInfo[nId].nLastSuccess > 0
      modifies this`mapInfo, this`mapAddr, this`vRandom, this`nNew, this`nTried, this`news, this`tried, vvNew, vvTried
      ensures Valid()
      ensures MovedToTried(old(View()), View(), hasher, nId)
    {
      hide RandomOk, AddrOk, StatsOk, CountsOk, NewOk, TriedOk, Mirrors, NewIds, TriedIds, Consistent;
      hide Hasher.TriedSlot, RoomMade, MovedToTried, Referenced, Grids, Steady, Without;
      ghost var t0 := View();
      LeaveNew(nId);
      nNew := nNew - 1;
      assert mapInfo[nId].nRefCount == 0;
      ghost var t1 := View();
      OneOpen(t0.mapInfo, mapInfo, nId);
      ghost var t2 := TakeTried(nId);
      MovedInSteps(t0, t1, t2, View(), hasher, nId);
    }

    /** The rest of MakeTried: the tried slot is freed and the entry enters it.  In between are the tables t2. */
    method TakeTried(nId: int) returns (ghost t2: Tables)
      requires Steady() && Referenced(mapInfo, {nId})
      requires nId in mapInfo && !mapInfo[nId].fInTried && mapInfo[nId].nRefCount == 0 && mapInfo[nId].nLastSuccess > 0
      modifies this`mapInfo, this`mapAddr, this`vRandom, this`nNew, this`nTried, this`news, this`tried, vvNew, vvTried
      ensures Steady() && Referenced(mapInfo, {})
      ensures nNew - |NewIds(mapInfo)| == old(nNew) - |NewIds(old(mapInfo))| + 1
      ensures nTried - |TriedIds(mapInfo)| == old(nTried) - |TriedIds(old(mapInfo))|
      ensures var k := hasher.TriedSlot(old(mapInfo)[nId].service);
        RoomMade(old(View()), t2, hasher, k) && t2.tried == old(tried) - {k} && tried == t2.tried[k := nId]
      ensures nId in t2.mapInfo && mapInfo == t2.mapInfo[nId := t2.mapInfo[nId].(fInTried := true)] && news == t2.news
    {
      hide RandomOk, AddrOk, StatsOk, CountsOk, NewOk, TriedOk, Mirrors, NewIds, TriedIds, Consistent;
      hide Hasher.TriedSlot, RoomMade, RoomSets, Evicted, DisplacedBy, SameEntries, Referenced, Grids, Steady;
      ghost var t1 := View();
      var k := hasher.TriedSlot(mapInfo[nId].service);
      MakeRoom(k, nId);
      t2 := View();
      RoomKeeps(t1.mapInfo, t2.mapInfo, nId);
      EnterTried(nId, k);
      RoomCounts(t1, t2, mapInfo, hasher, k, nId);
    }

    /** The last part of MakeTried: enters an unreferenced entry into its empty tried slot. */
    method EnterTried(nId: int, k: Slot)
      requires Steady() && Referenced(mapInfo, {nId})
      requires nId in mapInfo && !mapInfo[nId].fInTried && mapInfo[nId].nRefCount == 0 && mapInfo[nId].nLastSuccess > 0
      requires k == hasher.TriedSlot(mapInfo[nId].service) && k !in tried
      modifies this`mapInfo, this`nTried, this`tried, vvTried
      ensures Steady() && Referenced(mapInfo, {})
      ensures tried == old(tried)[k := nId]
      ensures mapInfo == old(mapInfo)[nId := old(mapInfo)[nId].(fInTried := true)]
      ensures NewIds(mapInfo) == NewIds(old(mapInfo)) - {nId} && TriedIds(mapInfo) == TriedIds(old(mapInfo)) + {nId}
      ensures nTried == old(nTried) + 1
    {
      hide RandomOk, AddrOk, StatsOk, CountsOk, NewOk, TriedOk;
      hide Mirrors, NewIds, TriedIds, Consistent, Hasher.TriedSlot, Referenced;
      ghost var t := View();
      TriedSlotInRange(hasher, mapInfo[nId].service);
      SetTriedCell(k, nId);
      nTried := nTried + 1;
      mapInfo := mapInfo[nId := mapInfo[nId].(fInTried := true)];
      TryConsistent(t, View(), hasher, nId);
      NoneOpen(t.mapInfo, mapInfo, nId);
    }

    /** The part of MakeTried that frees the tried slot. */
    method MakeRoom(k: Slot, nId: int)
      requires Steady() && Referenced(mapInfo, {nId})
      requires nId in mapInfo && !mapInfo[nId].fInTried && mapInfo[nId].nRefCount == 0
      requires k == hasher.TriedSlot(mapInfo[nId].service)
      modifies this`mapInfo, this`mapAddr, this`vRandom, this`nNew, this`nTried, this`news, this`tried, vvNew, vvTried
      ensures Steady() && Referenced(mapInfo, {nId})
      ensures k.bucket < TRIED_BUCKET_COUNT && k.pos < BUCKET_SIZE
      ensures tried == old(tried) - {k}
      ensures nId in mapInfo && SameEntries(old(mapInfo), mapInfo, {nId})
      ensures RoomMade(old(View()), View(), hasher, k)
      ensures RoomSets(old(View()), View(), hasher, k, nId)
      ensures nNew == old(nNew) - |DisplacedBy(old(View()), hasher, k)| + |Evicted(old(View()), k)|
      ensures nTried == old(nTried) - |Evicted(old(View()), k)|
    {
      hide RandomOk, AddrOk, StatsOk, CountsOk, NewOk, TriedOk, Mirrors;
      hide NewIds, TriedIds, Consistent, Hasher.TriedSlot, Hasher.NewSlot, Hasher.Position, Displaced, Referenced;
      TriedSlotInRange(hasher, mapInfo[nId].service);
      CellOf(vvTried, tried, TRIED_BUCKET_COUNT, k);
      if vvTried[k.bucket, k.pos] != EMPTY {
        Evict(k, nId);
      }
    }

    // ---- The operations ----

    /** Marks an address good at a positive time.  nRnd is where the search for its bucket starts. */
    method Good_(addr: Service, nTime: int, nRnd: nat)
      requires Valid() && nTime > 0 && nRnd < NEW_BUCKET_COUNT
      modifies this`mapInfo, this`mapAddr, this`vRandom, this`nNew, this`nTried, this`news, this`tried, vvNew, vvTried
      ensures Valid()
      ensures !Knows(old(View()), addr) ==> View() == old(View())
      ensures Knows(old(View()), addr) ==>
        var id := old(mapAddr)[addr.net];
        var info := old(mapInfo)[id].(nLastSuccess := nTime, nLastTry := nTime, nAttempts := 0);
        var t := WithStats(old(View()), id, info);
        if old(mapInfo)[id].fInTried then View() == t else MovedToTried(t, View(), hasher, id)
    {
      hide RandomOk, AddrOk, StatsOk, CountsOk, NewOk, TriedOk;
      hide Mirrors, NewIds, TriedIds, Consistent, MovedToTried, Hasher.Position;
      var found, nId := Find(addr.net);
      AddressKnown(View(), hasher, addr);
      if !found {
        return;
      }
      if mapInfo[nId].service != addr {
        return;
      }
      ghost var t := View();
      var info := mapInfo[nId].(nLastSuccess := nTime, nLastTry := nTime, nAttempts := 0);
      StatsNonNegative(t, hasher, nId);
      mapInfo := mapInfo[nId := info];
      StatsConsistent(t, View(), hasher, nId, info);
      RefreshKeepsReferenced(t.mapInfo, mapInfo, nId);
      if info.fInTried {
        return;
      }
      var nUBucket: int := -1;
      for n: nat := 0 to NEW_BUCKET_COUNT
        invariant nUBucket == -1
        invariant forall k: nat :: k < n ==> !HoldsAt(vvNew, hasher, info.service, nId, Probe(k, nRnd))
        modifies {}
      {
        var nB := Probe(n, nRnd);
        var nBpos := hasher.Position(info.service, true, nB);
        PositionInRange(hasher, info.service, nB);
        CellOf(vvNew, news, NEW_BUCKET_COUNT, Slot(nB, nBpos));
        if vvNew[nB, nBpos] == nId {
          nUBucket := nB;
          break;
        }
      }
      if nUBucket == -1 {
        ghost var k := SearchFinds(vvNew, View(), hasher, nId, nRnd);
        assert false;
        return;
      }
      MakeTried(nId);
    }

    /** Records a connection attempt. */
    method Attempt_(addr: Service, nTime: int)
      requires Valid() && nTime >= 0
      modifies this`mapInfo
      ensures Valid()
      ensures View() == if Knows(old(View()), addr)
        then var id := old(mapAddr)[addr.net];
          WithStats(old(View()), id, old(mapInfo)[id].(nLastTry := nTime, nAttempts := old(mapInfo)[id].nAttempts + 1))
        else old(View())
    {
      hide RandomOk, AddrOk, StatsOk, CountsOk, NewOk, TriedOk, Mirrors, NewIds, TriedIds, Consistent;
      var found, nId := Find(addr.net);
      AddressKnown(View(), hasher, addr);
      if !found {
        return;
      }
      if mapInfo[nId].service != addr {
        return;
      }
      ghost var t := View();
      var info := mapInfo[nId].(nLastTry := nTime, nAttempts := mapInfo[nId].nAttempts + 1);
      StatsNonNegative(t, hasher, nId);
      mapInfo := mapInfo[nId := info];
      StatsConsistent(t, View(), hasher, nId, info);
    }

    /** Records that a peer is connected, at most every twenty minutes. */
    method Connected_(addr: Service, nTime: int)
      requires Valid()
      modifies this`mapInfo
      ensures Valid()
      ensures View() == if Knows(old(View()), addr) && nTime - old(mapInfo)[old(mapAddr)[addr.net]].nTime > 20 * 60
        then WithStats(old(View()), old(mapAddr)[addr.net], old(mapInfo)[old(mapAddr)[addr.net]].(nTime := nTime))
        else old(View())
    {
      hide RandomOk, AddrOk, StatsOk, CountsOk, NewOk, TriedOk, Mirrors, NewIds, TriedIds, Consistent;
      var found, nId := Find(addr.net);
      AddressKnown(View(), hasher, addr);
      if !found {
        return;
      }
      if mapInfo[nId].service != addr {
        return;
      }
      var nUpdateInterval := 20 * 60;
      if nTime - mapInfo[nId].nTime > nUpdateInterval {
        ghost var t := View();
        var info := mapInfo[nId].(nTime := nTime);
        StatsNonNegative(t, hasher, nId);
        mapInfo := mapInfo[nId := info];
        StatsConsistent(t, View(), hasher, nId, info);
      }
    }

    /** The tail of Add_: tries to give an entry the new-table slot that its source selects.  Without the
        slot, an entry that has no other reference is deleted again. */
    method EnterBucket(nId: int, source: NetAddr, nNow: int)
      requires Steady() && Referenced(mapInfo, {nId})
      requires nId in mapInfo && !mapInfo[nId].fInTried && mapInfo[nId].nRefCount < NEW_BUCKETS_PER_ADDRESS
      requires nNew == |NewIds(mapInfo)| && nTried == |TriedIds(mapInfo)|
      modifies this`mapInfo, this`mapAddr, this`vRandom, this`nNew, this`news, vvNew
      ensures Valid()
      ensures Entered(old(View()), View(), hasher, nId, source, nNow)
    {
      hide RandomOk, AddrOk, StatsOk, CountsOk, NewOk, TriedOk, Mirrors;
      hide NewIds, TriedIds, Consistent, Hasher.NewSlot, Hasher.Position, Referenced, SamePublic, Info.IsTerrible;
      ghost var t := View();
      var u := hasher.NewSlot(mapInfo[nId].service, source);
      NewSlotInRange(hasher, mapInfo[nId].service, source);
      CellOf(vvNew, news, NEW_BUCKET_COUNT, u);
      SelfPublic(t.mapInfo);
      if vvNew[u.bucket, u.pos] != nId {
        var fInsert := vvNew[u.bucket, u.pos] == EMPTY;
        if !fInsert {
          OccupantKnown(t, hasher, u);
          var existing := mapInfo[vvNew[u.bucket, u.pos]];
          if existing.IsTerrible(nNow) || (existing.nRefCount > 1 && mapInfo[nId].nRefCount == 0) {
            fInsert := true;
          }
        }
        if fInsert {
          TakeSlot(nId, u);
        } else {
          if mapInfo[nId].nRefCount == 0 {
            Delete(nId);
            SameEntriesPublic(t.mapInfo, mapInfo);
            DeletedOpen(t.mapInfo, mapInfo, nId);
            StatusSplit(t.mapInfo, nId);
          } else {
            ClosedOpen(t, hasher, nId);
          }
        }
      } else {
        HeldOpen(t, hasher, nId, u);
      }
    }

    /** Empties a slot and enters another entry into it. */
    method TakeSlot(nId: int, u: Slot)
      requires Steady() && Referenced(mapInfo, {nId})
      requires nId in mapInfo && !mapInfo[nId].fInTried && mapInfo[nId].nRefCount < NEW_BUCKETS_PER_ADDRESS
      requires nId !in Occupant(news, u)
      requires u.bucket < NEW_BUCKET_COUNT && u.pos == hasher.Position(mapInfo[nId].service, true, u.bucket)
      requires nNew == |NewIds(mapInfo)| && nTried == |TriedIds(mapInfo)|
      modifies this`mapInfo, this`mapAddr, this`vRandom, this`nNew, this`news, vvNew
      ensures Valid()
      ensures news == old(news)[u := nId]
      ensures mapInfo.Keys == old(mapInfo).Keys - Displaced(old(View()), u)
      ensures SamePublic(old(mapInfo), mapInfo, mapInfo.Keys)
    {
      hide RandomOk, AddrOk, StatsOk, CountsOk, NewOk, TriedOk, Mirrors, NewIds;
      hide TriedIds, Consistent, Hasher.Position, Referenced, SamePublic, Public, Displaced, SameEntries;
      ghost var t0 := View();
      PositionInRange(hasher, mapInfo[nId].service, u.bucket);
      DisplacedIsNew(t0, hasher, u);
      ClearNew(u, {nId});
      ghost var t1 := View();
      mapInfo := mapInfo[nId := mapInfo[nId].(nRefCount := mapInfo[nId].nRefCount + 1)];
      SetNewCell(u, nId);
      EntryKept(t0.mapInfo, t1.mapInfo, nId, Occupant(t0.news, u));
      RefConsistent(t1, View(), hasher, u, nId);
      NowReferenced(t1, hasher, nId);
      PublicUpdate(t1.mapInfo, nId, mapInfo[nId]);
      SelfPublic(t0.mapInfo);
      PublicChain(t0.mapInfo, t0.mapInfo, t1.mapInfo, mapInfo);
    }

    /** Adds an address reported by source, or refreshes its entry.  nNow is the clock and nRnd the random
        number of the stochastic test. */
    method Add_(addr: Address, source: NetAddr, nTimePenalty: int, nNow: int, nRnd: nat) returns (fNew: bool)
      requires Valid()
      modifies this`nIdCount, this`mapInfo, this`mapAddr, this`vRandom, this`nNew, this`news, vvNew
      ensures Valid()
      ensures fNew <==> hasher.routable(addr.service.net) && addr.service.net !in old(mapAddr)
      ensures !hasher.routable(addr.service.net) ==> View() == old(View())
      ensures fNew ==> Entered(Created(old(View()), old(nIdCount), addr, source, nTimePenalty), View(), hasher,
        old(nIdCount), source, nNow)
      ensures hasher.routable(addr.service.net) && !fNew ==>
        var id := old(mapAddr)[addr.service.net];
        && id in old(mapInfo)
        && var info := Refreshed(old(mapInfo)[id], addr, nTimePenalty, nNow);
        && var t := WithStats(old(View()), id, info);
        && (if StopsAdding(info, addr, nRnd) then View() == t else Entered(t, View(), hasher, id, source, nNow))
      ensures hasher.routable(addr.service.net) && !fNew ==>
        Updated(old(mapInfo), mapInfo, old(mapAddr)[addr.service.net], addr, nTimePenalty, nNow)
      ensures hasher.routable(addr.service.net) && !fNew ==>
        var info := old(mapInfo)[old(mapAddr)[addr.service.net]];
        addr.nTime == 0 || info.fInTried || info.nRefCount == 8 || nRnd % Pow2(info.nRefCount) != 0 ==>
          mapInfo.Keys == old(mapInfo).Keys && news == old(news) && tried == old(tried)
      ensures fNew ==> Newcomer(old(View()), View(), hasher, old(nIdCount), addr, source, nTimePenalty, nNow)
    {
      hide RandomOk, AddrOk, StatsOk, CountsOk, NewOk, TriedOk, Updated, Newcomer;
      hide Mirrors, NewIds, TriedIds, Consistent, Entered, Referenced;
      if !hasher.routable(addr.service.net) {
        return false;
      }
      fNew := false;
      var found, nId := Find(addr.service.net);
      ghost var t0 := View();
      if found {
        Refresh(nId, addr, nTimePenalty, nNow);
        var pinfo := mapInfo[nId];
        if addr.nTime == 0 || (pinfo.nTime != 0 && addr.nTime <= pinfo.nTime) {
          return false;
        }
        if pinfo.fInTried {
          return false;
        }
        if pinfo.nRefCount == NEW_BUCKETS_PER_ADDRESS {
          return false;
        }
        var nFactor: nat := 1;
        for n: int := 0 to pinfo.nRefCount
          invariant nFactor == Pow2(n)
        {
          nFactor := nFactor * 2;
        }
        if nFactor > 1 && nRnd % nFactor != 0 {
          return false;
        }
        ghost var t := View();
        MoreOpen(mapInfo, nId);
        EnterBucket(nId, source, nNow);
        UpdatedStays(t0.mapInfo, t, View(), hasher, nId, addr, source, nTimePenalty, nNow);
      } else {
        nId := Introduce(addr, source, nTimePenalty);
        fNew := true;
        EnterBucket(nId, source, nNow);
        NewcomerSettles(t0, View(), hasher, nId, addr, source, nTimePenalty, nNow);
      }
    }

    /** The first part of Add_ for a known address: its time and services are brought up to date. */
    method Refresh(nId: int, addr: Address, nTimePenalty: int, nNow: int)
      requires Valid() && nId in mapInfo
      modifies this`mapInfo
      ensures Valid()
      ensures View() == WithStats(old(View()), nId, Refreshed(old(mapInfo)[nId], addr, nTimePenalty, nNow))
      ensures Updated(old(mapInfo), mapInfo, nId, addr, nTimePenalty, nNow)
      ensures !mapInfo[nId].fInTried ==> 1 <= mapInfo[nId].nRefCount <= NEW_BUCKETS_PER_ADDRESS
    {
      hide RandomOk, AddrOk, StatsOk, CountsOk, NewOk, TriedOk, Mirrors, NewIds, TriedIds, Consistent, Referenced;
      hide Refreshed, TimeMoves;
      ghost var t := View();
      var pinfo := Touch(mapInfo[nId], addr, nTimePenalty, nNow);
      StatsNonNegative(t, hasher, nId);
      mapInfo := mapInfo[nId := pinfo];
      StatsConsistent(t, View(), hasher, nId, pinfo);
      RefreshKeepsReferenced(t.mapInfo, mapInfo, nId);
    }

    /** The new time and services of an entry that is reported again. */
    method Touch(info: Info, addr: Address, nTimePenalty: int, nNow: int) returns (pinfo: Info)
      ensures pinfo == Refreshed(info, addr, nTimePenalty, nNow)
      ensures pinfo == info.(nTime := pinfo.nTime, nServices := BitOr(info.nServices, addr.nServices))
      ensures TimeMoves(info.nTime, pinfo.nTime, addr.nTime, nTimePenalty, nNow)
    {
      pinfo := info;
      var fCurrentlyOnline := nNow - addr.nTime < 24 * 60 * 60;
      var nUpdateInterval := if fCurrentlyOnline then 60 * 60 else 24 * 60 * 60;
      if addr.nTime != 0 && (pinfo.nTime == 0 || pinfo.nTime < addr.nTime - nUpdateInterval - nTimePenalty) {
        pinfo := pinfo.(nTime := if addr.nTime - nTimePenalty > 0 then addr.nTime - nTimePenalty else 0);
      }
      pinfo := pinfo.(nServices := BitOr(pinfo.nServices, addr.nServices));
    }

    /** The first part of Add_ for an unknown address: an entry without a slot. */
    method Introduce(addr: Address, source: NetAddr, nTimePenalty: int) returns (nId: int)
      requires Valid() && addr.service.net !in mapAddr
      modifies this`nIdCount, this`mapInfo, this`mapAddr, this`vRandom, this`nNew
      ensures Steady() && nId == old(nIdCount)
      ensures View() == Created(old(View()), nId, addr, source, nTimePenalty)
      ensures nId in mapInfo && mapInfo[nId].nRefCount == 0 && !mapInfo[nId].fInTried
      ensures Referenced(mapInfo, {nId})
      ensures nNew == |NewIds(mapInfo)| && nTried == |TriedIds(mapInfo)|
    {
      hide RandomOk, AddrOk, StatsOk, CountsOk, NewOk, TriedOk, Mirrors, NewIds, TriedIds, Consistent, Referenced;
      ghost var m := mapInfo;
      nId := Create(addr, source);
      ghost var t := View();
      var nTime := mapInfo[nId].nTime - nTimePenalty;
      var info := mapInfo[nId].(nTime := if nTime > 0 then nTime else 0);
      mapInfo := mapInfo[nId := info];
      StatsConsistent(t, View(), hasher, nId, info);
      nNew := nNew + 1;
      CreatedOpen(m, mapInfo, nId);
    }

    /** Collects a random sample of addresses by shuffling vRandom from the front.  rnd gives the random
        numbers; taken is how far the shuffle went. */
    method GetAddr_(rnd: nat -> nat, nNow: int) returns (vAddr: seq<Address>, ghost taken: nat)
      requires Valid()
      modifies this`mapInfo, this`vRandom
      ensures Valid()
      ensures mapInfo.Keys == old(mapInfo).Keys && SameEntries(old(mapInfo), mapInfo, mapInfo.Keys)
      ensures taken <= |vRandom| == |old(vRandom)|
      ensures forall i :: 0 <= i < |vRandom| ==> vRandom[i] in mapInfo
      ensures vAddr == Offered(mapInfo, vRandom[..taken], nNow)
      ensures OffersExactly(mapInfo, vRandom, taken, nNow, vAddr)
      ensures |vAddr| <= SampleSize(|vRandom|)
      ensures taken < |vRandom| ==> |vAddr| == SampleSize(|vRandom|)
      ensures DistinctNets(vAddr)
    {
      hide AddrOk, StatsOk, CountsOk, NewOk, TriedOk, Mirrors, NewIds, TriedIds, Consistent, RandomOk, Info.IsTerrible,
        Referenced, SameEntries, DistinctNets, Offered, OffersExactly;
      vAddr, taken := [], 0;
      var nNodes := GETADDR_MAX_PCT * |vRandom| / 100;
      if nNodes > GETADDR_MAX {
        nNodes := GETADDR_MAX;
      }
      ghost var m0, len := mapInfo, |vRandom|;
      SelfEntries(m0);
      EveryPlaceKnown(View(), hasher);
      OfferedNone(mapInfo, vRandom[..0], nNow);
      var n: nat := 0;
      while n < |vRandom|
        invariant Valid()
        invariant mapInfo.Keys == m0.Keys && SameEntries(m0, mapInfo, mapInfo.Keys)
        invariant taken == n <= |vRandom| == len
        invariant forall i :: 0 <= i < |vRandom| ==> vRandom[i] in mapInfo
        invariant vAddr == Offered(mapInfo, vRandom[..n], nNow)
        invariant |vAddr| <= nNodes
        invariant news == old(news) && tried == old(tried)
      {
        if |vAddr| >= nNodes {
          break;
        }
        var nRndPos := rnd(n) % (|vRandom| - n) + n;
        ghost var m := mapInfo;
        Shuffle(n, nRndPos, nNow);
        EntriesChain(m0, m, mapInfo);
        var ai := mapInfo[vRandom[n]];
        assert vRandom[..n + 1] == vRandom[..n] + [vRandom[n]];
        OfferedPush(mapInfo, vRandom[..n], vRandom[n], nNow);
        if !ai.IsTerrible(nNow) {
          vAddr := vAddr + [Address(ai.service, ai.nServices, ai.nTime)];
        }
        n := n + 1;
        taken := n;
      }
      OfferedDistinct(View(), hasher, vRandom[..taken], nNow);
      OfferedAll(mapInfo, vRandom, taken, nNow);
    }

    /** One exchange of the shuffle: what has been collected from the places before it stays the same. */
    method Shuffle(n: nat, nRndPos: nat, ghost nNow: int)
      requires Valid() && n <= nRndPos < |vRandom|
      requires forall i :: 0 <= i < |vRandom| ==> vRandom[i] in mapInfo
      modifies this`mapInfo, this`vRandom
      ensures Valid()
      ensures mapInfo.Keys == old(mapInfo).Keys && SameEntries(old(mapInfo), mapInfo, mapInfo.Keys)
      ensures |vRandom| == |old(vRandom)| && vRandom[..n] == old(vRandom)[..n]
      ensures forall i :: 0 <= i < |vRandom| ==> vRandom[i] in mapInfo
      ensures Offered(mapInfo, vRandom[..n], nNow) == Offered(old(mapInfo), old(vRandom)[..n], nNow)
    {
      hide AddrOk, StatsOk, CountsOk, NewOk, TriedOk, Mirrors;
      hide NewIds, TriedIds, Consistent, RandomOk, Referenced, SameEntries, Offered;
      ghost var m, v := mapInfo, vRandom;
      SwapRandom(n, nRndPos);
      StillReferenced(m, mapInfo);
      EveryPlaceKnown(View(), hasher);
      assert vRandom[..n] == v[..n];
      OfferedSame(m, mapInfo, v[..n], nNow);
    }
  }

  ghost predicate DistinctNets(v: seq<Address>)
  {
    forall i, j :: 0 <= i < j < |v| ==> v[i].service.net != v[j].service.net
  }

  /** The number of addresses a sample may hold. */
  function SampleSize(n: nat): (k: nat)
    ensures k <= n && k <= 2500 && 100 * k <= 23 * n
    ensures k == 2500 || 23 * n < 100 * (k + 1)
  {
    if GETADDR_MAX_PCT * n / 100 > GETADDR_MAX then GETADDR_MAX else GETADDR_MAX_PCT * n / 100
  }

  /** The addresses of the entries of good quality, in order. */
  ghost function Offered(m: map<int, Info>, ids: seq<int>, nNow: int): seq<Address>
    requires forall i :: 0 <= i < |ids| ==> ids[i] in m
  {
    if |ids| == 0 then []
    else
      var rest := Offered(m, ids[..|ids| - 1], nNow);
      var i := m[ids[|ids| - 1]];
      if i.IsTerrible(nNow) then rest else rest + [Address(i.service, i.nServices, i.nTime)]
  }

  /** Exactly the entries of good quality are offered. */
  lemma {:induction false} OfferedExactly(m: map<int, Info>, ids: seq<int>, nNow: int, a: Address)
    requires forall i :: 0 <= i < |ids| ==> ids[i] in m
    ensures a in Offered(m, ids, nNow) <==> exists i :: 0 <= i < |ids| && Offers(m, ids[i], nNow, a)
  {
    hide Info.IsTerrible;
    if |ids| > 0 {
      var last := |ids| - 1;
      OfferedExactly(m, ids[..last], nNow, a);
      if a in Offered(m, ids[..last], nNow) {
        var i :| 0 <= i < last && Offers(m, ids[..last][i], nNow, a);
        assert Offers(m, ids[i], nNow, a);
      }
      if Offers(m, ids[last], nNow, a) {
        assert a in Offered(m, ids, nNow);
      }
      if exists i :: 0 <= i < |ids| && Offers(m, ids[i], nNow, a) {
        var i :| 0 <= i < |ids| && Offers(m, ids[i], nNow, a);
        if i < last {
          assert Offers(m, ids[..last][i], nNow, a);
        }
      }
    }
  }

  /** The address is that of a known entry of good quality. */
  ghost predicate Offers(m: map<int, Info>, id: int, nNow: int, a: Address)
  {
    id in m && !m[id].IsTerrible(nNow) && a == Address(m[id].service, m[id].nServices, m[id].nTime)
  }

  /** The addresses offered are those of the entries of good quality among the first n places, and no others. */
  ghost predicate OffersExactly(m: map<int, Info>, v: seq<int>, n: nat, nNow: int, offered: seq<Address>)
    requires n <= |v|
  {
    forall a :: a in offered <==> exists i :: 0 <= i < n && Offers(m, v[i], nNow, a)
  }

  lemma OfferedAll(m: map<int, Info>, v: seq<int>, n: nat, nNow: int)
    requires n <= |v| && forall i :: 0 <= i < |v| ==> v[i] in m
    ensures OffersExactly(m, v, n, nNow, Offered(m, v[..n], nNow))
  {
    hide Offered, Offers;
    forall a
      ensures a in Offered(m, v[..n], nNow) <==> exists i :: 0 <= i < n && Offers(m, v[i], nNow, a)
    {
      OfferedExactly(m, v[..n], nNow, a);
      if a in Offered(m, v[..n], nNow) {
        var i :| 0 <= i < n && Offers(m, v[..n][i], nNow, a);
        assert Offers(m, v[i], nNow, a);
      }
      if exists i :: 0 <= i < n && Offers(m, v[i], nNow, a) {
        var i :| 0 <= i < n && Offers(m, v[i], nNow, a);
        assert Offers(m, v[..n][i], nNow, a);
      }
    }
  }

  lemma OfferedNone(m: map<int, Info>, ids: seq<int>, nNow: int)
    requires |ids| == 0
    ensures Offered(m, ids, nNow) == []
  {
  }

  lemma OfferedPush(m: map<int, Info>, ids: seq<int>, id: int, nNow: int)
    requires id in m && forall i :: 0 <= i < |ids| ==> ids[i] in m
    ensures Offered(m, ids + [id], nNow)
      == Offered(m, ids, nNow)
        + (if m[id].IsTerrible(nNow) then [] else [Address(m[id].service, m[id].nServices, m[id].nTime)])
  {
    assert (ids + [id])[..|ids|] == ids;
  }

  lemma {:induction false} OfferedSame(m: map<int, Info>, m': map<int, Info>, ids: seq<int>, nNow: int)
    requires forall i :: 0 <= i < |ids| ==> ids[i] in m && ids[i] in m'
    requires SameEntries(m, m', m'.Keys)
    ensures Offered(m', ids, nNow) == Offered(m, ids, nNow)
  {
    if |ids| > 0 {
      OfferedSame(m, m', ids[..|ids| - 1], nNow);
      var id := ids[|ids| - 1];
      assert id in m'.Keys;
      assert m'[id] == m[id].(nRandomPos := m'[id].nRandomPos);
    }
  }

  /** Every address offered belongs to one of the listed entries. */
  lemma {:induction false} OfferedFrom(m: map<int, Info>, ids: seq<int>, nNow: int, k: nat) returns (i: nat)
    requires forall i :: 0 <= i < |ids| ==> ids[i] in m
    requires k < |Offered(m, ids, nNow)|
    ensures i < |ids| && Offered(m, ids, nNow)[k].service == m[ids[i]].service
  {
    var last := |ids| - 1;
    if k < |Offered(m, ids[..last], nNow)| {
      i := OfferedFrom(m, ids[..last], nNow, k);
    } else {
      i := last;
    }
  }

  /** vRandom lists no entry twice and no two entries share an address, so a sample has no duplicates. */
  lemma {:induction false} OfferedDistinct(t: Tables, h: Hasher, ids: seq<int>, nNow: int)
    requires Consistent(t, h)
    requires forall i :: 0 <= i < |ids| ==> ids[i] in t.mapInfo
    requires ids <= t.vRandom
    ensures DistinctNets(Offered(t.mapInfo, ids, nNow))
  {
    hide StatsOk, CountsOk, NewOk, TriedOk, Info.IsTerrible;
    if |ids| > 0 {
      var last := |ids| - 1;
      OfferedDistinct(t, h, ids[..last], nNow);
      var rest := Offered(t.mapInfo, ids[..last], nNow);
      forall i | 0 <= i < |rest| ensures rest[i].service.net != t.mapInfo[ids[last]].service.net {
        var k := OfferedFrom(t.mapInfo, ids[..last], nNow, i);
        assert t.mapInfo[t.vRandom[k]].nRandomPos == k && t.mapInfo[t.vRandom[last]].nRandomPos == last;
        assert ids[k] != ids[last];
      }
    }
  }

  lemma EveryPlaceKnown(t: Tables, h: Hasher)
    requires Consistent(t, h)
    ensures forall i :: 0 <= i < |t.vRandom| ==> t.vRandom[i] in t.mapInfo
  {
    hide AddrOk, StatsOk, CountsOk, NewOk, TriedOk;
  }

  lemma SelfEntries(m: map<int, Info>)
    ensures SameEntries(m, m, m.Keys)
  {
  }

  lemma EntriesChain(m0: map<int, Info>, m1: map<int, Info>, m2: map<int, Info>)
    requires m1.Keys == m0.Keys && SameEntries(m0, m1, m1.Keys)
    requires m2.Keys == m1.Keys && SameEntries(m1, m2, m2.Keys)
    ensures SameEntries(m0, m2, m2.Keys)
  {
    forall id | id in m2.Keys ensures id in m0 && id in m2 && m2[id] == m0[id].(nRandomPos := m2[id].nRandomPos) {
      assert id in m1.Keys && id in m0.Keys;
      assert m1[id] == m0[id].(nRandomPos := m1[id].nRandomPos);
      assert m2[id] == m1[id].(nRandomPos := m2[id].nRandomPos);
    }
  }

  lemma StillReferenced(m: map<int, Info>, m': map<int, Info>)
    requires Referenced(m, {}) && m'.Keys == m.Keys && SameEntries(m, m', m'.Keys)
    ensures Referenced(m', {})
  {
    forall j | j in m' && !m'[j].fInTried ensures 1 <= m'[j].nRefCount <= NEW_BUCKETS_PER_ADDRESS {
      assert j in m'.Keys && j in m.Keys;
      assert m'[j] == m[j].(nRandomPos := m'[j].nRandomPos);
    }
  }

  // ---- Runs ----

  /** One request to the manager, with the clock and random numbers it is served with. */
  datatype Request =
    | Add(addr: Address, source: NetAddr, nTimePenalty: int, nNow: int, nRnd: nat)
    | Good(service: Service, time: int, nRnd: nat)
    | Attempt(service: Service, time: int)
    | Connected(service: Service, time: int)
    | GetAddr(rnd: nat -> nat, nNow: int)

  /** Times are positive and random numbers are in range. */
  predicate Admissible(r: Request)
  {
    match r
    case Good(_, time, nRnd) => time > 0 && nRnd < NEW_BUCKET_COUNT
    case Attempt(_, time) => time >= 0
    case _ => true
  }

  /** Any sequence of requests from a fresh manager: Check_ would pass after every one of them. */
  method Serve(hasher: Hasher, requests: seq<Request>) returns (man: CAddrMan)
    requires forall i :: 0 <= i < |requests| ==> Admissible(requests[i])
    ensures fresh(man) && man.Valid()
  {
    hide CAddrMan.Valid, MovedToTried, Entered, Knows;
    man := new CAddrMan(hasher);
    for i := 0 to |requests|
      invariant fresh(man) && fresh(man.vvNew) && fresh(man.vvTried)
      invariant man.Valid()
    {
      match requests[i] {
        case Add(addr, source, nTimePenalty, nNow, nRnd) =>
          var fNew := man.Add_(addr, source, nTimePenalty, nNow, nRnd);
        case Good(service, time, nRnd) =>
          man.Good_(service, time, nRnd);
        case Attempt(service, time) =>
          man.Attempt_(service, time);
        case Connected(service, time) =>
          man.Connected_(service, time);
        case GetAddr(rnd, nNow) =>
          var vAddr, taken := man.GetAddr_(rnd, nNow);
      }
    }
  }

  /** The entry of a known address after Add_ has brought its time and services up to date. */
  ghost function Refreshed(i: Info, addr: Address, nTimePenalty: int, nNow: int): Info
  {
    var interval := if nNow - addr.nTime < 24 * 60 * 60 then 60 * 60 else 24 * 60 * 60;
    var late := addr.nTime != 0 && (i.nTime == 0 || i.nTime < addr.nTime - interval - nTimePenalty);
    i.(nTime := if !late then i.nTime else if addr.nTime - nTimePenalty > 0 then addr.nTime - nTimePenalty else 0,
       nServices := BitOr(i.nServices, addr.nServices))
  }

  /** The time known for an address moves to the reported one, less the penalty but not below 0, if it was unknown, or
      older than the report by more than the penalty and a day, or by more than the penalty and an hour where the
      report itself is less than a day old.  A report without a time moves nothing. */
  ghost predicate TimeMoves(was: int, now: int, reported: int, penalty: int, clock: int)
  {
    var moves := reported != 0
      && (|| was == 0
          || reported - was > 86400 + penalty
          || (reported - was > 3600 + penalty && clock - reported < 86400));
    && (moves && reported >= penalty ==> now == reported - penalty)
    && (moves && reported < penalty ==> now == 0)
    && (!moves ==> now == was)
  }

  /** What a report does to the entry of a known address: its time may move and its services grow. */
  ghost predicate Updated(m: map<int, Info>, m': map<int, Info>, id: int, addr: Address, penalty: int, clock: int)
  {
    && id in m && id in m'
    && TimeMoves(m[id].nTime, m'[id].nTime, addr.nTime, penalty, clock)
    && m'[id].nServices == BitOr(m[id].nServices, addr.nServices)
    && Public(m'[id]) == Public(m[id]).(nTime := m'[id].nTime, nServices := m'[id].nServices)
  }

  /** What a report of an unknown address does: with the slot free, or held by a terrible entry or by one that has
      another slot, there is an entry with what was reported, and it has the slot; otherwise there is none. */
  ghost predicate Newcomer(t: Tables, t': Tables, h: Hasher, id: int, addr: Address, source: NetAddr,
                           penalty: int, clock: int)
  {
    var u := h.NewSlot(addr.service, source);
    var given := u !in t.news || (t.news[u] in t.mapInfo &&
                   (t.mapInfo[t.news[u]].IsTerrible(clock) || t.mapInfo[t.news[u]].nRefCount > 1));
    && (id in t'.mapInfo <==> given)
    && t'.news == (if given then t.news[u := id] else t.news) && t'.tried == t.tried
    && (!given ==> t'.mapInfo.Keys == t.mapInfo.Keys)
    && (given ==>
          t'.mapInfo.Keys == t.mapInfo.Keys + {id}
            - (if u in t.news && t.mapInfo[t.news[u]].nRefCount == 1 then {t.news[u]} else {}))
    && (given ==>
          var i := t'.mapInfo[id];
          && i.service == addr.service && i.nServices == addr.nServices && i.source == source
          && i.nTime == (if addr.nTime >= penalty then addr.nTime - penalty else 0)
          && i.nLastTry == i.nLastSuccess == i.nAttempts == 0)
  }

  lemma UpdatedStays(m: map<int, Info>, t: Tables, t': Tables, h: Hasher, id: int, addr: Address, source: NetAddr,
                     penalty: int, clock: int)
    requires Updated(m, t.mapInfo, id, addr, penalty, clock) && t.mapInfo[id].nRefCount > 0
    requires Entered(t, t', h, id, source, clock)
    ensures Updated(m, t'.mapInfo, id, addr, penalty, clock)
  {
    hide TimeMoves, Claims, Hasher.NewSlot;
    assert id in t'.mapInfo;
  }

  /** When a report of a known address, as Add_ handles it, wins the entry one more slot: the report has a time that is
      not older than what is known now, the entry is not tried and has fewer than eight slots, the random number is a
      multiple of two to the power of their number, and the slot is free or held by a terrible entry. */
  lemma ReportedAgain(t: Tables, t': Tables, h: Hasher, id: int, addr: Address, source: NetAddr, penalty: int,
                      clock: int, nRnd: nat)
    requires Consistent(t, h) && Referenced(t.mapInfo, {}) && id in t.mapInfo
    requires var info := Refreshed(t.mapInfo[id], addr, penalty, clock);
      if StopsAdding(info, addr, nRnd) then t' == WithStats(t, id, info)
      else Entered(WithStats(t, id, info), t', h, id, source, clock)
    ensures id in t'.mapInfo
    ensures var i, u := t.mapInfo[id], h.NewSlot(t.mapInfo[id].service, source);
      var fits := addr.nTime != 0 && (t'.mapInfo[id].nTime == 0 || t'.mapInfo[id].nTime < addr.nTime)
        && !i.fInTried && i.nRefCount < 8 && nRnd % Pow2(i.nRefCount) == 0;
      && (fits && u !in t.news ==> t'.news == t.news[u := id])
      && (fits && u in t.news && t.news[u] != id && t.mapInfo[t.news[u]].IsTerrible(clock) ==>
            t'.news == t.news[u := id])
      && (fits && u in t.news && !t.mapInfo[t.news[u]].IsTerrible(clock) ==> t'.news == t.news)
      && (!fits ==> t'.news == t.news)
  {
    hide Hasher.NewSlot, Info.IsTerrible, Refreshed, RandomOk, AddrOk, StatsOk, TriedOk, Hasher.Position;
    RefreshedKeeps(t.mapInfo[id], addr, penalty, clock);
    assert t.mapInfo[id].fInTried || 1 <= t.mapInfo[id].nRefCount <= 8;
  }

  lemma RefreshedKeeps(i: Info, addr: Address, penalty: int, clock: int)
    ensures var r := Refreshed(i, addr, penalty, clock); r == i.(nTime := r.nTime, nServices := r.nServices)
  {
  }

  lemma NewcomerSettles(t: Tables, t': Tables, h: Hasher, id: int, addr: Address, source: NetAddr, penalty: int,
                        clock: int)
    requires id !in t.mapInfo && Entered(Created(t, id, addr, source, penalty), t', h, id, source, clock)
    requires Consistent(t, h)
    ensures Newcomer(t, t', h, id, addr, source, penalty, clock)
  {
    hide Hasher.NewSlot, Info.IsTerrible, RandomOk, AddrOk, StatsOk, CountsOk, TriedOk, Hasher.Position;
  }

  /** The conditions under which Add_ leaves a known address where it is. */
  ghost predicate StopsAdding(i: Info, addr: Address, nRnd: nat)
  {
    || addr.nTime == 0 || (i.nTime != 0 && addr.nTime <= i.nTime)
    || i.fInTried || i.nRefCount == NEW_BUCKETS_PER_ADDRESS
    || (i.nRefCount > 0 && nRnd % Pow2(i.nRefCount) != 0)
  }

  /** The tables after an unknown address has got its entry and before it has a slot. */
  ghost function Created(t: Tables, id: int, addr: Address, source: NetAddr, nTimePenalty: int): Tables
  {
    var time := if addr.nTime - nTimePenalty > 0 then addr.nTime - nTimePenalty else 0;
    t.(mapInfo := t.mapInfo[id := Info(addr.service, addr.nServices, time, source, 0, 0, 0, 0, false, |t.vRandom|)],
       mapAddr := t.mapAddr[addr.service.net := id], vRandom := t.vRandom + [id])
  }

  lemma RefreshKeepsReferenced(m: map<int, Info>, m': map<int, Info>, id: int)
    requires Referenced(m, {}) && id in m
    requires m'.Keys == m.Keys && m' == m[id := m'[id]]
    requires m'[id].nRefCount == m[id].nRefCount && m'[id].fInTried == m[id].fInTried
    ensures Referenced(m', {})
    ensures !m[id].fInTried ==> 1 <= m'[id].nRefCount <= NEW_BUCKETS_PER_ADDRESS
  {
  }

  lemma MoreOpen(m: map<int, Info>, id: int)
    requires Referenced(m, {})
    ensures Referenced(m, {id})
  {
  }

  lemma CreatedOpen(m: map<int, Info>, m': map<int, Info>, id: int)
    requires Referenced(m, {}) && id !in m
    requires id in m' && m' == m[id := m'[id]] && m'[id].nRefCount == 0
    ensures Referenced(m', {id})
    ensures |NewIds(m) + {id}| == |NewIds(m)| + 1
  {
    assert id !in NewIds(m);
  }

  /** Entries that are not in a slot survive when it is cleared. */
  lemma KeptAround(t0: Tables, t1: Tables, u: Slot, e: int, id: int)
    requires e !in Occupant(t0.news, u) && id !in Occupant(t0.news, u) && e in t0.mapInfo && id in t0.mapInfo
    requires t0.mapInfo.Keys - Occupant(t0.news, u) <= t1.mapInfo.Keys
    requires SameEntries(t0.mapInfo, t1.mapInfo, t1.mapInfo.Keys - Occupant(t0.news, u))
    ensures e in t1.mapInfo && SameEntries(t0.mapInfo, t1.mapInfo, {e, id}) && e !in Displaced(t0, u)
    ensures t1.mapInfo[e].service == t0.mapInfo[e].service && t1.mapInfo[e].fInTried == t0.mapInfo[e].fInTried
    ensures t1.mapInfo[e].nRefCount == t0.mapInfo[e].nRefCount
  {
    forall j | j in {e, id}
      ensures j in t0.mapInfo && j in t1.mapInfo
        && t1.mapInfo[j] == t0.mapInfo[j].(nRandomPos := t1.mapInfo[j].nRandomPos)
    {
      assert j in t1.mapInfo.Keys - Occupant(t0.news, u);
    }
    assert e in {e, id};
  }

  /** Counting a reference changes no public field, and no other entry. */
  lemma EnteredKept(m0: map<int, Info>, m1: map<int, Info>, m2: map<int, Info>, e: int, id: int)
    requires SamePublic(m0, m1, m1.Keys) && SameEntries(m0, m1, {e, id}) && id != e
    requires e in m1 && m2 == m1[e := m1[e].(nRefCount := 1)]
    ensures id in m2 && SamePublic(m0, m2, m2.Keys) && SameEntries(m0, m2, {id})
  {
    forall j | j in m2.Keys
      ensures j in m0 && Public(m2[j]) == Public(m0[j])
    {
      assert j in m1 && Public(m1[j]) == Public(m0[j]);
    }
    assert id in {e, id};
  }

  /** Leaving the tried table changes no public field, and no other entry. */
  lemma UntriedKept(m0: map<int, Info>, m1: map<int, Info>, m2: map<int, Info>, e: int, id: int)
    requires e in m0 && m1 == m0[e := m0[e].(fInTried := false)] && id != e
    requires SamePublic(m1, m2, m2.Keys) && SameEntries(m1, m2, {id})
    ensures SamePublic(m0, m2, m2.Keys) && SameEntries(m0, m2, {id})
  {
    forall j | j in m2.Keys
      ensures j in m0 && Public(m2[j]) == Public(m0[j])
    {
      assert j in m1 && Public(m2[j]) == Public(m1[j]);
    }
    assert id in {id};
  }

  lemma NewSlotInRange(h: Hasher, s: Service, source: NetAddr)
    ensures var u := h.NewSlot(s, source);
      u.bucket < NEW_BUCKET_COUNT && u.pos < BUCKET_SIZE && u.pos == h.Position(s, true, u.bucket)
  {
  }

  lemma SelfPublic(m: map<int, Info>)
    ensures SamePublic(m, m, m.Keys)
  {
  }

  lemma SameEntriesPublic(m: map<int, Info>, m': map<int, Info>)
    requires SameEntries(m, m', m'.Keys)
    ensures SamePublic(m, m', m'.Keys)
  {
  }

  lemma DeletedOpen(m: map<int, Info>, m': map<int, Info>, id: int)
    requires Referenced(m, {id}) && m'.Keys == m.Keys - {id} && SameEntries(m, m', m'.Keys)
    ensures Referenced(m', {})
  {
    forall j | j in m' && !m'[j].fInTried ensures 1 <= m'[j].nRefCount <= NEW_BUCKETS_PER_ADDRESS {
      assert j in m'.Keys && j in m.Keys;
      assert m'[j] == m[j].(nRandomPos := m'[j].nRandomPos);
    }
  }

  lemma ClosedOpen(t: Tables, h: Hasher, id: int)
    requires Consistent(t, h) && Referenced(t.mapInfo, {id})
    requires id in t.mapInfo && t.mapInfo[id].nRefCount != 0
    ensures Referenced(t.mapInfo, {})
  {
    hide RandomOk, AddrOk, StatsOk, NewOk, TriedOk;
  }

  lemma HeldOpen(t: Tables, h: Hasher, id: int, u: Slot)
    requires Consistent(t, h) && Referenced(t.mapInfo, {id})
    requires id in t.mapInfo && u in t.news && t.news[u] == id
    ensures Referenced(t.mapInfo, {})
  {
    hide RandomOk, AddrOk, StatsOk, NewOk, TriedOk;
    assert u in Refs(t.news, id);
    assert t.mapInfo[id].nRefCount != 0;
  }

  lemma DisplacedIsNew(t: Tables, h: Hasher, u: Slot)
    requires Consistent(t, h)
    ensures Displaced(t, u) <= NewIds(t.mapInfo)
    ensures |NewIds(t.mapInfo) - Displaced(t, u)| == |NewIds(t.mapInfo)| - |Displaced(t, u)|
  {
    hide RandomOk, AddrOk, StatsOk, CountsOk, TriedOk;
    assert Displaced(t, u) <= NewIds(t.mapInfo);
  }

  lemma EntryKept(m: map<int, Info>, m': map<int, Info>, id: int, others: set<int>)
    requires id in m && id in m' && id !in others
    requires SameEntries(m, m', m'.Keys - others)
    ensures m'[id].service == m[id].service && m'[id].fInTried == m[id].fInTried && m'[id].nRefCount == m[id].nRefCount
  {
    assert m'[id] == m[id].(nRandomPos := m'[id].nRandomPos);
  }

  lemma NowReferenced(t: Tables, h: Hasher, id: int)
    requires Consistent(t, h) && Referenced(t.mapInfo, {id})
    requires id in t.mapInfo && t.mapInfo[id].nRefCount < NEW_BUCKETS_PER_ADDRESS
    ensures Referenced(t.mapInfo[id := t.mapInfo[id].(nRefCount := t.mapInfo[id].nRefCount + 1)], {})
  {
    hide RandomOk, AddrOk, StatsOk, NewOk, TriedOk;
  }

  /** Whether a service, port included, is among the entries. */
  ghost predicate Knows(t: Tables, addr: Service)
  {
    addr.net in t.mapAddr && t.mapAddr[addr.net] in t.mapInfo && t.mapInfo[t.mapAddr[addr.net]].service == addr
  }

  ghost function WithStats(t: Tables, id: int, info: Info): Tables
  {
    t.(mapInfo := t.mapInfo[id := info])
  }

  lemma AddressKnown(t: Tables, h: Hasher, addr: Service)
    requires Consistent(t, h)
    ensures addr.net in t.mapAddr ==> t.mapAddr[addr.net] in t.mapInfo
  {
    hide RandomOk, StatsOk, CountsOk, NewOk, TriedOk;
  }

  lemma StatsNonNegative(t: Tables, h: Hasher, id: int)
    requires Consistent(t, h) && id in t.mapInfo
    ensures t.mapInfo[id].nLastTry >= 0 && t.mapInfo[id].nLastSuccess >= 0
    ensures t.mapInfo[id].fInTried ==> t.mapInfo[id].nLastSuccess > 0
  {
    hide RandomOk, AddrOk, CountsOk, NewOk, TriedOk;
  }

  /** Whether a bucket holds an id at the position of a service. */
  ghost predicate HoldsAt(a: array2<int>, h: Hasher, s: Service, id: int, bucket: nat)
    reads a
  {
    bucket < a.Length0 && h.Position(s, true, bucket) < a.Length1 && a[bucket, h.Position(s, true, bucket)] == id
  }

  /** The bucket visited in step n of a search that starts at bucket nRnd and wraps around. */
  function Probe(n: nat, nRnd: nat): (b: nat)
    ensures b < NEW_BUCKET_COUNT
  {
    (n + nRnd) % NEW_BUCKET_COUNT
  }

  /** An entry that is not tried is found by the search through all buckets, wherever it starts: the
      exit of Good_ for an entry in no bucket is never taken. */
  lemma SearchFinds(a: array2<int>, t: Tables, h: Hasher, id: int, nRnd: nat) returns (k: nat)
    requires Consistent(t, h) && Mirrors(a, t.news, NEW_BUCKET_COUNT)
    requires id in t.mapInfo && !t.mapInfo[id].fInTried && Referenced(t.mapInfo, {})
    requires nRnd < NEW_BUCKET_COUNT
    ensures k < NEW_BUCKET_COUNT && HoldsAt(a, h, t.mapInfo[id].service, id, Probe(k, nRnd))
  {
    hide RandomOk, AddrOk, StatsOk, TriedOk, Hasher.Position;
    assert |Refs(t.news, id)| >= 1;
    var s :| s in Refs(t.news, id);
    var b := s.bucket;
    CellOf(a, t.news, NEW_BUCKET_COUNT, s);
    k := if b >= nRnd then b - nRnd else b + NEW_BUCKET_COUNT - nRnd;
    assert Probe(k, nRnd) == b;
  }

  /** Whether an entry gets the slot: it is free, or its occupant is terrible, or its occupant has another
      reference and the entry has none. */
  ghost predicate Claims(t: Tables, id: int, u: Slot, nNow: int)
    requires id in t.mapInfo
  {
    u !in t.news || (t.news[u] in t.mapInfo &&
      (t.mapInfo[t.news[u]].IsTerrible(nNow) || (t.mapInfo[t.news[u]].nRefCount > 1 && t.mapInfo[id].nRefCount == 0)))
  }

  /** The outcome of trying to enter an entry into the slot its source selects. */
  ghost predicate Entered(t: Tables, t': Tables, h: Hasher, id: int, source: NetAddr, nNow: int)
    requires id in t.mapInfo
  {
    var u := h.NewSlot(t.mapInfo[id].service, source);
    && t'.tried == t.tried
    && SamePublic(t.mapInfo, t'.mapInfo, t'.mapInfo.Keys)
    && (if u in t.news && t.news[u] == id then t' == t
        else if Claims(t, id, u, nNow) then
          t'.news == t.news[u := id] && t'.mapInfo.Keys == t.mapInfo.Keys - Displaced(t, u)
        else
          t'.news == t.news && t'.mapInfo.Keys == t.mapInfo.Keys - (if t.mapInfo[id].nRefCount == 0 then {id} else {}))
  }

  /** The occupant of a tried slot, as a set. */
  ghost function Evicted(t: Tables, k: Slot): set<int>
  {
    if k in t.tried then {t.tried[k]} else {}
  }

  /** The new-table slot the occupant of a tried slot goes back to. */
  ghost function ReturnSlot(t: Tables, h: Hasher, k: Slot): Slot
    requires k in t.tried && t.tried[k] in t.mapInfo
  {
    h.NewSlot(t.mapInfo[t.tried[k]].service, t.mapInfo[t.tried[k]].source)
  }

  /** The entry deleted when the occupant of a tried slot goes back to the new table. */
  ghost function DisplacedBy(t: Tables, h: Hasher, k: Slot): set<int>
  {
    if k in t.tried && t.tried[k] in t.mapInfo then Displaced(t, ReturnSlot(t, h, k)) else {}
  }

  /** What freeing a tried slot does to the new table and to the entries. */
  ghost predicate RoomMade(t: Tables, t': Tables, h: Hasher, k: Slot)
  {
    && SamePublic(t.mapInfo, t'.mapInfo, t'.mapInfo.Keys)
    && t'.mapInfo.Keys == t.mapInfo.Keys - DisplacedBy(t, h, k)
    && t'.news == if k in t.tried && t.tried[k] in t.mapInfo then t.news[ReturnSlot(t, h, k) := t.tried[k]] else t.news
  }

  /** Who is in which table after room has been made: the evicted entry is new, the displaced one gone. */
  ghost predicate RoomSets(t: Tables, t': Tables, h: Hasher, k: Slot, id: int)
  {
    && NewIds(t'.mapInfo) == NewIds(t.mapInfo) + Evicted(t, k) - DisplacedBy(t, h, k)
    && TriedIds(t'.mapInfo) == TriedIds(t.mapInfo) - Evicted(t, k)
    && Evicted(t, k) <= TriedIds(t.mapInfo)
    && DisplacedBy(t, h, k) <= NewIds(t.mapInfo) && id !in DisplacedBy(t, h, k)
  }

  lemma RoomCounts(t: Tables, t': Tables, m: map<int, Info>, h: Hasher, k: Slot, id: int)
    requires RoomSets(t, t', h, k, id) && id in t.mapInfo && !t.mapInfo[id].fInTried
    requires NewIds(m) == NewIds(t'.mapInfo) - {id} && TriedIds(m) == TriedIds(t'.mapInfo) + {id}
    ensures |NewIds(m)| == |NewIds(t.mapInfo)| - 1 - |DisplacedBy(t, h, k)| + |Evicted(t, k)|
    ensures |TriedIds(m)| == |TriedIds(t.mapInfo)| - |Evicted(t, k)| + 1
  {
    StatusSplit(t.mapInfo, id);
    hide NewIds, TriedIds, Evicted, DisplacedBy;
    MoveCounts(NewIds(t.mapInfo), TriedIds(t.mapInfo), NewIds(t'.mapInfo), TriedIds(t'.mapInfo), id, Evicted(t, k),
      DisplacedBy(t, h, k));
  }

  /** What moving an untried entry to the tried table does to slots and entries. */
  ghost predicate MovedToTried(t: Tables, t': Tables, h: Hasher, id: int)
    requires id in t.mapInfo
  {
    var k := h.TriedSlot(t.mapInfo[id].service);
    && t'.tried == t.tried[k := id]
    && RoomMade(t.(news := Without(t.news, id)), t', h, k)
  }

  lemma OneOpen(m: map<int, Info>, m': map<int, Info>, id: int)
    requires Referenced(m, {}) && id in m
    requires m' == m[id := m[id].(nRefCount := 0)]
    ensures Referenced(m', {id})
  {
  }

  lemma NoneOpen(m: map<int, Info>, m': map<int, Info>, id: int)
    requires Referenced(m, {id}) && id in m
    requires m' == m[id := m[id].(fInTried := true)]
    ensures Referenced(m', {})
  {
  }

  lemma RoomKeeps(m: map<int, Info>, m': map<int, Info>, id: int)
    requires id in m && SameEntries(m, m', {id})
    ensures id in m' && m'[id].service == m[id].service && m'[id].nLastSuccess == m[id].nLastSuccess
    ensures m'[id].nRefCount == m[id].nRefCount && m'[id].fInTried == m[id].fInTried
  {
    assert m'[id] == m[id].(nRandomPos := m'[id].nRandomPos);
  }

  lemma MovedInSteps(t0: Tables, t1: Tables, t2: Tables, t3: Tables, h: Hasher, id: int)
    requires id in t0.mapInfo
    requires t1 == t0.(mapInfo := t0.mapInfo[id := t0.mapInfo[id].(nRefCount := 0)], news := Without(t0.news, id))
    requires var k := h.TriedSlot(t0.mapInfo[id].service);
      RoomMade(t1, t2, h, k) && t2.tried == t1.tried - {k} && t3.tried == t2.tried[k := id]
    requires id in t2.mapInfo && t3.mapInfo == t2.mapInfo[id := t2.mapInfo[id].(fInTried := true)] && t3.news == t2.news
    ensures MovedToTried(t0, t3, h, id)
  {
    hide Hasher.TriedSlot, Hasher.NewSlot, Public, Displaced;
    var k := h.TriedSlot(t0.mapInfo[id].service);
    var left := t0.(news := Without(t0.news, id));
    DisplacedSame(left, t1, h, k, id);
    PublicUpdate(t0.mapInfo, id, t1.mapInfo[id]);
    PublicUpdate(t2.mapInfo, id, t3.mapInfo[id]);
    PublicChain(t0.mapInfo, t1.mapInfo, t2.mapInfo, t3.mapInfo);
  }

  lemma PublicUpdate(m: map<int, Info>, id: int, info: Info)
    requires id in m
    requires info == m[id].(nRefCount := info.nRefCount, fInTried := info.fInTried)
    ensures SamePublic(m, m[id := info], m.Keys)
  {
  }

  lemma PublicChain(m0: map<int, Info>, m1: map<int, Info>, m2: map<int, Info>, m3: map<int, Info>)
    requires SamePublic(m0, m1, m0.Keys) && m1.Keys == m0.Keys
    requires SamePublic(m1, m2, m2.Keys) && m2.Keys <= m1.Keys
    requires SamePublic(m2, m3, m2.Keys) && m3.Keys == m2.Keys
    ensures SamePublic(m0, m3, m3.Keys)
  {
    hide Public;
    forall j | j in m3.Keys ensures j in m0 && j in m3 && Public(m3[j]) == Public(m0[j]) {
      assert j in m2.Keys && j in m1.Keys && j in m0.Keys;
    }
  }

  lemma DisplacedSame(t: Tables, t': Tables, h: Hasher, k: Slot, id: int)
    requires id in t.mapInfo && forall s :: s in t.news ==> t.news[s] != id
    requires t' == t.(mapInfo := t.mapInfo[id := t.mapInfo[id].(nRefCount := 0)])
    ensures DisplacedBy(t', h, k) == DisplacedBy(t, h, k)
    ensures k in t.tried && t.tried[k] in t.mapInfo ==> ReturnSlot(t', h, k) == ReturnSlot(t, h, k)
  {
    hide Hasher.NewSlot;
  }

  /** Every entry is new or tried and not both. */
  lemma StatusSplit(m: map<int, Info>, id: int)
    requires id in m && !m[id].fInTried
    ensures NewIds(m) !! TriedIds(m) && id in NewIds(m) && id !in TriedIds(m)
  {
  }

  lemma MoveCounts(n0: set<int>, t0: set<int>, n2: set<int>, t2: set<int>, id: int, evicted: set<int>,
      displaced: set<int>)
    requires n0 !! t0 && id in n0 && id !in displaced
    requires evicted <= t0 && displaced <= n0
    requires n2 == n0 + evicted - displaced && t2 == t0 - evicted
    ensures |n2 - {id}| == |n0| - 1 - |displaced| + |evicted|
    ensures |t2 + {id}| == |t0| - |evicted| + 1
  {
    var kept := n0 - displaced - {id};
    assert n0 == kept + displaced + {id};
    assert n2 - {id} == kept + evicted;
    assert t0 == t2 + evicted;
  }

  lemma TriedSlotInRange(h: Hasher, s: Service)
    ensures h.TriedSlot(s).bucket < TRIED_BUCKET_COUNT && h.TriedSlot(s).pos < BUCKET_SIZE
  {
  }

  lemma PositionInRange(h: Hasher, s: Service, bucket: nat)
    ensures h.Position(s, true, bucket) < BUCKET_SIZE
  {
  }

  /** The id in a slot, as a set. */
  ghost function Occupant(news: map<Slot, int>, s: Slot): set<int>
  {
    if s in news then {news[s]} else {}
  }

  /** The entry that is deleted when a new-table slot is emptied: its occupant, if the slot is its only reference. */
  ghost function Displaced(t: Tables, s: Slot): set<int>
  {
    if s in t.news && t.news[s] in t.mapInfo && t.mapInfo[t.news[s]].nRefCount == 1 then {t.news[s]} else {}
  }

  /** The new-table slots left when an id has been taken out of the buckets below bound. */
  ghost function LeftFrom(news: map<Slot, int>, id: int, bound: nat): map<Slot, int>
  {
    map s | s in news && !(news[s] == id && s.bucket < bound) :: news[s]
  }

  lemma CellOf(a: array2<int>, m: map<Slot, int>, buckets: nat, s: Slot)
    requires Mirrors(a, m, buckets) && s.bucket < buckets && s.pos < BUCKET_SIZE
    ensures a.Length0 == buckets && a.Length1 == BUCKET_SIZE
    ensures a[s.bucket, s.pos] == EMPTY <==> s !in m
    ensures s in m ==> a[s.bucket, s.pos] == m[s]
  {
    assert s == Slot(s.bucket, s.pos);
  }

  lemma OccupantKnown(t: Tables, h: Hasher, s: Slot)
    requires Consistent(t, h) && s in t.news
    ensures t.news[s] in t.mapInfo && !t.mapInfo[t.news[s]].fInTried
  {
  }

  lemma NoneLeft(news: map<Slot, int>, id: int)
    ensures LeftFrom(news, id, 0) == news
  {
  }

  /** An id can only sit at its own position of a bucket, so emptying that cell removes it from the bucket. */
  lemma LeaveBucket(t: Tables, h: Hasher, id: int, bucket: nat)
    requires Consistent(t, h) && id in t.mapInfo
    ensures var s := Slot(bucket, h.Position(t.mapInfo[id].service, true, bucket));
      var left := LeftFrom(t.news, id, bucket);
      LeftFrom(t.news, id, bucket + 1) == if s in left && left[s] == id then left - {s} else left
  {
    hide RandomOk, AddrOk, TriedOk, StatsOk, CountsOk, Hasher.Position;
    var s := Slot(bucket, h.Position(t.mapInfo[id].service, true, bucket));
    forall u | u in t.news && t.news[u] == id && u.bucket == bucket ensures u == s {
    }
  }

  lemma AllLeft(t0: Tables, t: Tables, h: Hasher, id: int)
    requires Consistent(t0, h) && Consistent(t, h)
    requires id in t.mapInfo && t.news == LeftFrom(t0.news, id, NEW_BUCKET_COUNT)
    ensures t.news == Without(t0.news, id)
    ensures t.mapInfo[id].nRefCount == 0
  {
    hide RandomOk, AddrOk, TriedOk, StatsOk, Hasher.Position;
    forall u | u in t0.news ensures u.bucket < NEW_BUCKET_COUNT {
    }
    assert Refs(t.news, id) == {};
  }

  lemma TriedOccupant(t: Tables, h: Hasher, s: Slot)
    requires Consistent(t, h) && s in t.tried
    ensures t.tried[s] in t.mapInfo && t.mapInfo[t.tried[s]].fInTried && t.tried[s] in TriedIds(t.mapInfo)
    ensures s.bucket < TRIED_BUCKET_COUNT && s.pos < BUCKET_SIZE
  {
    hide RandomOk, AddrOk, NewOk, StatsOk, CountsOk;
  }

  /** After leaving the tried table, the evicted entry and the entry on its way in are in no new slot. */
  lemma EvictTarget(t0: Tables, t1: Tables, h: Hasher, e: int, id: int, u: Slot)
    requires Consistent(t0, h) && Consistent(t1, h)
    requires e in t0.mapInfo && t0.mapInfo[e].fInTried && t0.mapInfo[e].nRefCount == 0
    requires id in t0.mapInfo && !t0.mapInfo[id].fInTried && t0.mapInfo[id].nRefCount == 0
    requires t1.mapInfo == t0.mapInfo[e := t0.mapInfo[e].(fInTried := false)] && t1.news == t0.news
    requires Referenced(t0.mapInfo, {id})
    ensures e !in Occupant(t1.news, u) && id !in Occupant(t1.news, u)
    ensures Displaced(t1, u) == Displaced(t0, u) && Displaced(t0, u) <= NewIds(t0.mapInfo)
    ensures Referenced(t1.mapInfo, {id, e})
  {
    hide RandomOk, AddrOk, TriedOk, StatsOk, Hasher.Position;
    UnreferencedAbsent(t1.mapInfo, t1.news, e);
    UnreferencedAbsent(t1.mapInfo, t1.news, id);
  }
}
