/** Storing the address manager and loading it again: ids are renumbered, everything else comes back. */
module AddrStore {
  import opened AddrModel
  import opened AddrMan

  /** The part of an entry that is stored. */
  datatype Stored = Stored(service: Service, nServices: nat, nTime: int, source: NetAddr, nLastSuccess: int,
      nAttempts: int)

  function Store(i: Info): Stored
  {
    Stored(i.service, i.nServices, i.nTime, i.source, i.nLastSuccess, i.nAttempts)
  }

  function Load(s: Stored, nRefCount: int, fInTried: bool, nRandomPos: int): Info
  {
    Info(s.service, s.nServices, s.nTime, s.source, 0, s.nLastSuccess, s.nAttempts, nRefCount, fInTried, nRandomPos)
  }

  /** A stored manager: the key, the counters, the entries of the new and the tried table, and for each new
      bucket the numbers of the entries in it, in the order of their positions. */
  datatype Image = Image(
    nKey: Hasher, nNew: int, nTried: int, news: seq<Stored>, trieds: seq<Stored>, buckets: seq<seq<int>>)

  // ---------- the order of the entries ----------

  /** The ids below a bound with a status, in ascending order. */
  ghost function IdsBelow(m: map<int, Info>, n: nat, fInTried: bool): (ids: seq<int>)
    ensures forall id :: id in ids <==> 0 <= id < n && id in m && m[id].fInTried == fInTried
    ensures forall i, j :: 0 <= i < j < |ids| ==> ids[i] < ids[j]
  {
    if n == 0 then []
    else
      var front := IdsBelow(m, n - 1, fInTried);
      assert forall i :: 0 <= i < |front| ==> front[i] in front;
      front + if n - 1 in m && m[n - 1].fInTried == fInTried then [n - 1] else []
  }

  ghost function SetOf(s: seq<int>): set<int>
  {
    set x | x in s
  }

  lemma {:induction false} SizeOfSet(s: seq<int>)
    requires forall i, j :: 0 <= i < j < |s| ==> s[i] != s[j]
    ensures |SetOf(s)| == |s|
  {
    if s != [] {
      var front, x := s[..|s| - 1], s[|s| - 1];
      SizeOfSet(front);
      assert SetOf(s) == SetOf(front) + {x} && x !in front;
    }
  }

  /** All ids: first the new ones, then the tried ones. */
  ghost function AllIds(m: map<int, Info>, n: nat): seq<int>
  {
    IdsBelow(m, n, false) + IdsBelow(m, n, true)
  }

  /** A numbering of the entries: each id once, the first count of them new and the others tried. */
  ghost predicate Numbers(ids: seq<int>, m: map<int, Info>, count: nat)
  {
    && count <= |ids|
    && (forall i, j :: 0 <= i < j < |ids| ==> ids[i] != ids[j])
    && (forall id :: id in ids <==> id in m)
    && (forall j :: 0 <= j < |ids| ==> ids[j] in m && (m[ids[j]].fInTried <==> j >= count))
  }

  lemma IdsCounted(m: map<int, Info>, n: nat)
    requires forall id :: id in m ==> 0 <= id < n
    ensures |IdsBelow(m, n, false)| == |NewIds(m)| && |IdsBelow(m, n, true)| == |TriedIds(m)|
  {
    hide IdsBelow;
    var a, b := IdsBelow(m, n, false), IdsBelow(m, n, true);
    assert SetOf(a) == NewIds(m) && SetOf(b) == TriedIds(m);
    SizeOfSet(a);
    SizeOfSet(b);
  }

  lemma AllIdsNumber(m: map<int, Info>, n: nat)
    requires forall id :: id in m ==> 0 <= id < n
    ensures Numbers(AllIds(m, n), m, |IdsBelow(m, n, false)|)
    ensures |IdsBelow(m, n, false)| == |NewIds(m)| && |IdsBelow(m, n, true)| == |TriedIds(m)|
  {
    hide IdsBelow;
    var a, b := IdsBelow(m, n, false), IdsBelow(m, n, true);
    var ids := AllIds(m, n);
    IdsCounted(m, n);
    hide NewIds, TriedIds;
    forall i, j | 0 <= i < j < |ids|
      ensures ids[i] != ids[j]
    {
      if i < |a| <= j {
        assert ids[i] in a && ids[j] in b;
      }
    }
    forall j | 0 <= j < |ids|
      ensures ids[j] in m && (m[ids[j]].fInTried <==> j >= |a|)
    {
      assert ids[j] == if j < |a| then a[j] else b[j - |a|];
    }
    forall id | id in m
      ensures id in ids
    {
      assert id in a || id in b;
    }
  }

  /** The occupied positions of a bucket below a bound, in ascending order. */
  ghost function Occupied(news: map<Slot, int>, bucket: nat, k: nat): (ps: seq<nat>)
    ensures forall p: nat :: p in ps <==> p < k && Slot(bucket, p) in news
    ensures forall i, j :: 0 <= i < j < |ps| ==> ps[i] < ps[j]
  {
    if k == 0 then []
    else
      var front := Occupied(news, bucket, k - 1);
      assert forall i :: 0 <= i < |front| ==> front[i] in front;
      front + if Slot(bucket, k - 1) in news then [k - 1] else []
  }

  /** The list of a bucket names the entries at the given positions by their numbers. */
  ghost predicate Names(list: seq<int>, ps: seq<nat>, news: map<Slot, int>, bucket: nat, ids: seq<int>, count: nat)
  {
    && |list| == |ps|
    && forall i :: 0 <= i < |list| ==>
         && 0 <= list[i] < count <= |ids|
         && Slot(bucket, ps[i]) in news && ids[list[i]] == news[Slot(bucket, ps[i])]
  }

  /** The stored entries are those of the ids from a place on. */
  ghost predicate StoredFrom(stored: seq<Stored>, ids: seq<int>, place: nat, m: map<int, Info>)
  {
    && place + |stored| <= |ids|
    && forall j :: 0 <= j < |stored| ==> ids[place + j] in m && stored[j] == Store(m[ids[place + j]])
  }

  /** The stored lists are those of the first buckets. */
  ghost predicate BucketsStored(buckets: seq<seq<int>>, news: map<Slot, int>, ids: seq<int>, count: nat)
  {
    forall b :: 0 <= b < |buckets| ==> Names(buckets[b], Occupied(news, b, BUCKET_SIZE), news, b, ids, count)
  }

  /** What is stored for a manager, given a numbering of its entries. */
  ghost predicate IsImage(image: Image, ids: seq<int>, t: Tables, h: Hasher)
  {
    && image.nKey == h
    && |image.news| == image.nNew && |image.trieds| == image.nTried && |ids| == image.nNew + image.nTried
    && Numbers(ids, t.mapInfo, image.nNew)
    && StoredFrom(image.news, ids, 0, t.mapInfo)
    && StoredFrom(image.trieds, ids, image.nNew, t.mapInfo)
    && |image.buckets| == NEW_BUCKET_COUNT
    && BucketsStored(image.buckets, t.news, ids, image.nNew)
  }

  // ---------- storing ----------

  /** The entries stored so far and their numbers. */
  ghost predicate Counted(stored: seq<Stored>, numbers: map<int, int>, m: map<int, Info>, ids: seq<int>)
  {
    && |stored| == |ids|
    && forall j :: 0 <= j < |ids| ==>
         ids[j] in m && stored[j] == Store(m[ids[j]]) && ids[j] in numbers && numbers[ids[j]] == j
  }

  lemma CountedNone(m: map<int, Info>)
    ensures Counted([], map[], m, [])
  {
  }

  lemma IdsNext(m: map<int, Info>, id: nat, fInTried: bool)
    ensures IdsBelow(m, id + 1, fInTried) ==
      IdsBelow(m, id, fInTried) + if id in m && m[id].fInTried == fInTried then [id] else []
    ensures forall j :: 0 <= j < |IdsBelow(m, id, fInTried)| ==> IdsBelow(m, id, fInTried)[j] != id
  {
    var ids := IdsBelow(m, id, fInTried);
    forall j | 0 <= j < |ids|
      ensures ids[j] != id
    {
      assert ids[j] in ids;
    }
  }

  lemma CountedNext(stored: seq<Stored>, numbers: map<int, int>, m: map<int, Info>, id: nat, fInTried: bool)
    requires Counted(stored, numbers, m, IdsBelow(m, id, fInTried))
    ensures var here := id in m && m[id].fInTried == fInTried;
            var after := IdsBelow(m, id + 1, fInTried);
            && |after| == |stored| + (if here then 1 else 0)
            && Counted(if here then stored + [Store(m[id])] else stored,
                       if id in m then numbers[id := |stored|] else numbers, m, after)
  {
    hide IdsBelow, Store;
    IdsNext(m, id, fInTried);
  }

  /** The entries with a status, in the order of their ids, and their numbers; total is the counter that the
      code compares with. */
  method StoreEntries(m: map<int, Info>, nIdCount: nat, fInTried: bool, total: int)
    returns (stored: seq<Stored>, numbers: map<int, int>)
    requires forall id :: id in m ==> 0 <= id < nIdCount && (m[id].nRefCount != 0 <==> !m[id].fInTried)
    requires total == if fInTried then |TriedIds(m)| else |NewIds(m)|
    ensures Counted(stored, numbers, m, IdsBelow(m, nIdCount, fInTried))
  {
    stored, numbers := [], map[];
    assert IdsBelow(m, 0, fInTried) == [];
    hide Counted, IdsBelow;
    CountedNone(m);
    for id := 0 to nIdCount
      invariant |stored| == |IdsBelow(m, id, fInTried)| && Counted(stored, numbers, m, IdsBelow(m, id, fInTried))
    {
      CountedNext(stored, numbers, m, id, fInTried);
      if id in m {
        numbers := numbers[id := |stored|];
        var info := m[id];
        if if fInTried then info.fInTried else info.nRefCount != 0 {
          OneMore(m, nIdCount, id, fInTried);
          assert |stored| != total;
          stored := stored + [Store(info)];
        }
      }
    }
  }

  /** Exactly the new entries are referenced. */
  lemma ReferencedAreNew(t: Tables, h: Hasher)
    requires Checked(t, h)
    ensures forall id :: id in t.mapInfo ==> (t.mapInfo[id].nRefCount != 0 <==> !t.mapInfo[id].fInTried)
  {
    hide RandomOk, AddrOk, TriedOk, NewOk;
    forall id | id in t.mapInfo && t.mapInfo[id].fInTried
      ensures t.mapInfo[id].nRefCount == 0
    {
      TriedUnreferenced(t.mapInfo, t.news, h, id);
    }
  }

  /** As long as an entry is still to come, fewer have been counted than there are. */
  lemma OneMore(m: map<int, Info>, n: nat, id: nat, fInTried: bool)
    requires id < n && id in m && m[id].fInTried == fInTried && forall x :: x in m ==> 0 <= x < n
    ensures |IdsBelow(m, id, fInTried)| < if fInTried then |TriedIds(m)| else |NewIds(m)|
  {
    hide IdsBelow;
    var ids := IdsBelow(m, id, fInTried);
    var all := if fInTried then TriedIds(m) else NewIds(m);
    SizeOfSet(ids);
    assert SetOf(ids) <= all - {id};
    Smaller(SetOf(ids), all - {id});
  }

  lemma Smaller<T>(a: set<T>, b: set<T>)
    requires a <= b
    ensures |a| <= |b|
  {
    assert b == a + (b - a);
  }

  /** How many entries of a bucket are stored, and their numbers in the order of the positions. */
  method StoreBucket(man: CAddrMan, numbers: map<int, int>, bucket: nat, ghost ids: seq<int>, ghost count: nat)
    returns (nSize: int, list: seq<int>)
    requires man.Grids() && bucket < NEW_BUCKET_COUNT
    requires NumbersOf(man.news, numbers, ids, count)
    ensures Names(list, Occupied(man.news, bucket, BUCKET_SIZE), man.news, bucket, ids, count)
    ensures nSize == |list|
  {
    hide Occupied;
    nSize, list := 0, [];
    OccupiedNone(man.news, bucket);
    for i: nat := 0 to BUCKET_SIZE
      invariant nSize == |Occupied(man.news, bucket, i)|
    {
      OccupiedNext(man.news, bucket, i);
      CellOf(man.vvNew, man.news, NEW_BUCKET_COUNT, Slot(bucket, i));
      if man.vvNew[bucket, i] != EMPTY {
        nSize := nSize + 1;
      }
    }
    for i: nat := 0 to BUCKET_SIZE
      invariant Names(list, Occupied(man.news, bucket, i), man.news, bucket, ids, count)
    {
      OccupiedNext(man.news, bucket, i);
      CellOf(man.vvNew, man.news, NEW_BUCKET_COUNT, Slot(bucket, i));
      if man.vvNew[bucket, i] != EMPTY {
        var nIndex := numbers[man.vvNew[bucket, i]];
        list := list + [nIndex];
      }
    }
  }

  /** Every id in the new table has a number, and it is that of its place among the ids. */
  ghost predicate NumbersOf(news: map<Slot, int>, numbers: map<int, int>, ids: seq<int>, count: nat)
  {
    count <= |ids| && forall s :: s in news ==>
      news[s] in numbers && 0 <= numbers[news[s]] < count && ids[numbers[news[s]]] == news[s]
  }

  lemma OccupiedNone(news: map<Slot, int>, bucket: nat)
    ensures Occupied(news, bucket, 0) == []
  {
  }

  lemma OccupiedNext(news: map<Slot, int>, bucket: nat, i: nat)
    ensures Occupied(news, bucket, i + 1) == Occupied(news, bucket, i) + if Slot(bucket, i) in news then [i] else []
  {
  }

  lemma NumbersKnown(t: Tables, h: Hasher, n: nat, stored: seq<Stored>, numbers: map<int, int>)
    requires NewOk(t.mapInfo, t.news, h)
    requires forall id :: id in t.mapInfo ==> 0 <= id < n
    requires Counted(stored, numbers, t.mapInfo, IdsBelow(t.mapInfo, n, false))
    ensures NumbersOf(t.news, numbers, AllIds(t.mapInfo, n), |stored|)
  {
    hide IdsBelow, Hasher.Position;
    var a := IdsBelow(t.mapInfo, n, false);
    var ids := AllIds(t.mapInfo, n);
    forall s | s in t.news
      ensures t.news[s] in numbers && 0 <= numbers[t.news[s]] < |stored| && ids[numbers[t.news[s]]] == t.news[s]
    {
      assert t.news[s] in a;
      var j :| 0 <= j < |a| && a[j] == t.news[s];
      assert ids[j] == a[j];
    }
  }

  /** The entries of one status are stored from the place where they begin. */
  lemma CountedStored(stored: seq<Stored>, numbers: map<int, int>, m: map<int, Info>,
    part: seq<int>, ids: seq<int>, place: nat)
    requires Counted(stored, numbers, m, part)
    requires place + |part| <= |ids| && ids[place..place + |part|] == part
    ensures StoredFrom(stored, ids, place, m) && |stored| == |part|
  {
    hide Store;
    forall j | 0 <= j < |stored|
      ensures ids[place + j] in m && stored[j] == Store(m[ids[place + j]])
    {
      assert ids[place + j] == part[j];
    }
  }

  /** The lists of all new buckets. */
  method StoreBuckets(man: CAddrMan, numbers: map<int, int>, ghost ids: seq<int>, ghost count: nat)
    returns (buckets: seq<seq<int>>)
    requires man.Grids()
    requires NumbersOf(man.news, numbers, ids, count)
    ensures |buckets| == NEW_BUCKET_COUNT && BucketsStored(buckets, man.news, ids, count)
  {
    hide Occupied, Names, NumbersOf, CAddrMan.Grids;
    buckets := [];
    for bucket := 0 to NEW_BUCKET_COUNT
      invariant |buckets| == bucket && BucketsStored(buckets, man.news, ids, count)
    {
      var nSize, list := StoreBucket(man, numbers, bucket, ids, count);
      assert nSize == |list|;
      buckets := buckets + [list];
    }
  }

  /** The new entries come first, the tried ones behind them. */
  lemma BothStored(m: map<int, Info>, n: nat, news: seq<Stored>, trieds: seq<Stored>,
    numbers: map<int, int>, unused: map<int, int>)
    requires Counted(news, numbers, m, IdsBelow(m, n, false))
    requires Counted(trieds, unused, m, IdsBelow(m, n, true))
    ensures |news| == |IdsBelow(m, n, false)| && |trieds| == |IdsBelow(m, n, true)|
    ensures |AllIds(m, n)| == |news| + |trieds|
    ensures StoredFrom(news, AllIds(m, n), 0, m) && StoredFrom(trieds, AllIds(m, n), |news|, m)
  {
    hide IdsBelow, StoredFrom, Counted;
    CountedSize(news, numbers, m, IdsBelow(m, n, false));
    CountedSize(trieds, unused, m, IdsBelow(m, n, true));
    CountedStored(news, numbers, m, IdsBelow(m, n, false), AllIds(m, n), 0);
    CountedStored(trieds, unused, m, IdsBelow(m, n, true), AllIds(m, n), |news|);
  }

  lemma CountedSize(stored: seq<Stored>, numbers: map<int, int>, m: map<int, Info>, ids: seq<int>)
    requires Counted(stored, numbers, m, ids)
    ensures |stored| == |ids|
  {
  }

  method Serialize(man: CAddrMan) returns (image: Image)
    requires man.Valid()
    ensures IsImage(image, AllIds(man.mapInfo, man.nIdCount), man.View(), man.hasher)
  {
    hide IdsBelow, AllIds, Numbers, Counted, RandomOk, AddrOk;
    hide TriedOk, StatsOk, NewOk, CountsOk, NewIds, TriedIds, Referenced;
    hide NumbersOf, StoredFrom, BucketsStored, Mirrors;
    ghost var t := man.View();
    ghost var h := man.hasher;
    var n: nat := man.nIdCount;
    ghost var ids := AllIds(t.mapInfo, n);
    ReferencedAreNew(t, h);
    AllIdsNumber(t.mapInfo, n);
    var news, mapUnkIds := StoreEntries(man.mapInfo, n, false, man.nNew);
    var trieds, unused := StoreEntries(man.mapInfo, n, true, man.nTried);
    BothStored(t.mapInfo, n, news, trieds, mapUnkIds, unused);
    NumbersKnown(t, h, n, news, mapUnkIds);
    var buckets := StoreBuckets(man, mapUnkIds, ids, |news|);
    image := Image(man.hasher, man.nNew, man.nTried, news, trieds, buckets);
  }
}
