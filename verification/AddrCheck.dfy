/** The address manager's own consistency check: it accepts exactly the states in which all indexes agree,
    apart from addresses that are registered without an entry. */
module AddrCheck {
  import opened AddrModel
  import opened AddrMan
  import opened AddrStore

  // ---------- what the check accepts ----------

  /** The id that reading mapAddr gives for an address; a missing address reads as id 0. */
  ghost function Registered(a: map<NetAddr, int>, n: NetAddr): int
  {
    if n in a then a[n] else 0
  }

  ghost predicate AddrKnown(m: map<int, Info>, a: map<NetAddr, int>)
  {
    forall id :: id in m ==> Registered(a, m[id].service.net) == id
  }

  /** mapAddr after an address has been read: a missing one is registered under id 0. */
  ghost function Touched(a: map<NetAddr, int>, n: NetAddr): map<NetAddr, int>
  {
    a[n := Registered(a, n)]
  }

  /** mapAddr after all entries have been looked up. */
  ghost function Repaired(m: map<int, Info>, a: map<NetAddr, int>): map<NetAddr, int>
  {
    if 0 in m then Touched(a, m[0].service.net) else a
  }

  /** The conditions under which the check finds nothing wrong. */
  ghost predicate Passes(t: Tables, h: Hasher, nNew: int, nTried: int)
  {
    && RandomOk(t.mapInfo, t.vRandom)
    && AddrKnown(t.mapInfo, t.mapAddr)
    && TriedOk(t.mapInfo, t.tried, h)
    && NewOk(t.mapInfo, t.news, h)
    && CountsOk(t.mapInfo, t.news)
    && StatsOk(t.mapInfo)
    && Referenced(t.mapInfo, {})
    && nNew == |NewIds(t.mapInfo)| && nTried == |TriedIds(t.mapInfo)|
  }

  /** What the check does not see: an address registered without its entry, or the address of id 0 missing. */
  lemma PassesIff(t: Tables, h: Hasher, nNew: int, nTried: int)
    ensures Checked(t, h) && nNew == |NewIds(t.mapInfo)| && nTried == |TriedIds(t.mapInfo)| <==>
      && Passes(t, h, nNew, nTried)
      && (forall n :: n in t.mapAddr ==> t.mapAddr[n] in t.mapInfo && t.mapInfo[t.mapAddr[n]].service.net == n)
      && (0 in t.mapInfo ==> t.mapInfo[0].service.net in t.mapAddr)
  {
    hide RandomOk, TriedOk, NewOk, CountsOk, StatsOk, Referenced;
    if Passes(t, h, nNew, nTried) {
      forall id | id in t.mapInfo && (0 in t.mapInfo ==> t.mapInfo[0].service.net in t.mapAddr)
        ensures t.mapInfo[id].service.net in t.mapAddr && t.mapAddr[t.mapInfo[id].service.net] == id
      {
        assert Registered(t.mapAddr, t.mapInfo[id].service.net) == id;
      }
    }
  }

  /** A state in which an address is registered without an entry is accepted although the indexes disagree. */
  lemma StaleAddressPasses(h: Hasher)
    ensures var t := Tables(map[], map[NetAddr(1) := 5], [], map[], map[]);
      Passes(t, h, 0, 0) && !AddrOk(t.mapInfo, t.mapAddr)
  {
    var t := Tables(map[], map[NetAddr(1) := 5], [], map[], map[]);
    assert NewIds(t.mapInfo) == {} && TriedIds(t.mapInfo) == {};
    assert NetAddr(1) in t.mapAddr && 5 !in t.mapInfo;
  }

  // ---------- the entries ----------

  /** What is checked of one entry. */
  ghost predicate EntryOk(info: Info, id: int, a: map<NetAddr, int>, v: seq<int>)
  {
    && (if info.fInTried then info.nLastSuccess != 0 && info.nRefCount == 0
        else 1 <= info.nRefCount <= NEW_BUCKETS_PER_ADDRESS)
    && Registered(a, info.service.net) == id
    && 0 <= info.nRandomPos < |v| && v[info.nRandomPos] == id
    && info.nLastTry >= 0 && info.nLastSuccess >= 0
  }

  ghost predicate EntriesOk(m: map<int, Info>, n: int, a: map<NetAddr, int>, v: seq<int>)
  {
    forall id :: id in m && id < n ==> EntryOk(m[id], id, a, v)
  }

  /** The ids of a status below a bound. */
  ghost function Below(m: map<int, Info>, n: int, fInTried: bool): set<int>
  {
    set id | id in m && id < n && m[id].fInTried == fInTried
  }

  /** Counters for exactly some ids, each with the reference count of its entry. */
  ghost predicate CountersFor(counters: map<int, int>, ids: set<int>, m: map<int, Info>)
  {
    counters.Keys == ids && forall id :: id in ids ==> id in m && counters[id] == m[id].nRefCount
  }

  /** mapAddr after the entries below a bound have been looked up successfully. */
  ghost function RepairedBelow(m: map<int, Info>, a: map<NetAddr, int>, n: int): map<NetAddr, int>
  {
    if n > 0 then Repaired(m, a) else a
  }

  lemma RepairedNext(m: map<int, Info>, a: map<NetAddr, int>, id: nat)
    requires id in m && Registered(a, m[id].service.net) == id
    ensures Touched(RepairedBelow(m, a, id), m[id].service.net) == RepairedBelow(m, a, id + 1)
  {
    var n := m[id].service.net;
    if id == 0 {
    } else {
      assert n in a && a[n] == id;
      assert Touched(Repaired(m, a), n) == Repaired(m, a);
    }
  }

  /** The loop over the entries. */
  method CheckEntries(man: CAddrMan) returns (err: int, setTried: set<int>, mapNew: map<int, int>)
    requires man.nIdCount >= 0 && forall id :: id in man.mapInfo ==> 0 <= id < man.nIdCount
    modifies man`mapAddr
    ensures err == 0 <==> EntriesOk(man.mapInfo, man.nIdCount, old(man.mapAddr), man.vRandom)
    ensures err == 0 ==> man.mapAddr == Repaired(man.mapInfo, old(man.mapAddr))
    ensures err == 0 ==> setTried == TriedIds(man.mapInfo) && CountersFor(mapNew, NewIds(man.mapInfo), man.mapInfo)
  {
    err, setTried, mapNew := 0, {}, map[];
    var m, v := man.mapInfo, man.vRandom;
    ghost var a := man.mapAddr;
    hide Registered, Touched, Repaired;
    for n := 0 to man.nIdCount
      invariant EntriesOk(m, n, a, v)
      invariant man.mapAddr == RepairedBelow(m, a, n)
      invariant setTried == Below(m, n, true) && CountersFor(mapNew, Below(m, n, false), m)
      invariant m == man.mapInfo && v == man.vRandom
    {
      if n in m {
        var info := m[n];
        LookupSame(m, a, n, info.service.net);
        if info.fInTried {
          if info.nLastSuccess == 0 { return -1, setTried, mapNew; }
          if info.nRefCount != 0 { return -2, setTried, mapNew; }
          setTried := setTried + {n};
        } else {
          if info.nRefCount < 0 || info.nRefCount > NEW_BUCKETS_PER_ADDRESS { return -3, setTried, mapNew; }
          if info.nRefCount == 0 { return -4, setTried, mapNew; }
          mapNew := mapNew[n := info.nRefCount];
        }
        var known := LookUp(man, info.service.net);
        if known != n { return -5, setTried, mapNew; }
        if info.nRandomPos < 0 || info.nRandomPos >= |v| || v[info.nRandomPos] != n { return -14, setTried, mapNew; }
        if info.nLastTry < 0 { return -6, setTried, mapNew; }
        if info.nLastSuccess < 0 { return -8, setTried, mapNew; }
        RepairedNext(m, a, n);
      } else {
        RepairedSkip(m, a, n);
      }
    }
    AllBelow(m, a, man.nIdCount);
  }

  /** Reading mapAddr registers a missing address under id 0. */
  method LookUp(man: CAddrMan, n: NetAddr) returns (id: int)
    modifies man`mapAddr
    ensures id == Registered(old(man.mapAddr), n) && man.mapAddr == Touched(old(man.mapAddr), n)
  {
    if n !in man.mapAddr {
      man.mapAddr := man.mapAddr[n := 0];
    }
    id := man.mapAddr[n];
  }

  lemma LookupSame(m: map<int, Info>, a: map<NetAddr, int>, bound: int, n: NetAddr)
    ensures Registered(RepairedBelow(m, a, bound), n) == Registered(a, n)
  {
  }

  lemma RepairedSkip(m: map<int, Info>, a: map<NetAddr, int>, n: nat)
    requires n !in m
    ensures RepairedBelow(m, a, n + 1) == RepairedBelow(m, a, n)
  {
  }

  lemma AllBelow(m: map<int, Info>, a: map<NetAddr, int>, n: nat)
    requires forall id :: id in m ==> 0 <= id < n
    ensures Below(m, n, true) == TriedIds(m) && Below(m, n, false) == NewIds(m)
    ensures RepairedBelow(m, a, n) == Repaired(m, a)
  {
  }

  // ---------- the tables ----------

  /** Slots come bucket by bucket, position by position. */
  ghost predicate Before(s: Slot, b: nat, i: nat)
  {
    s.bucket < b || (s.bucket == b && s.pos < i)
  }

  /** The slots met so far. */
  ghost function Part(table: map<Slot, int>, b: nat, i: nat): map<Slot, int>
  {
    map s | s in table && Before(s, b, i) :: table[s]
  }

  lemma PartNext(table: map<Slot, int>, b: nat, i: nat)
    ensures var s := Slot(b, i);
      && s !in Part(table, b, i)
      && Part(table, b, i + 1) == if s in table then Part(table, b, i)[s := table[s]] else Part(table, b, i)
  {
    forall s | s in table
      ensures Before(s, b, i + 1) <==> Before(s, b, i) || s == Slot(b, i)
    {
      assert s == Slot(s.bucket, s.pos);
    }
  }

  lemma PartWraps(table: map<Slot, int>, b: nat)
    requires forall s :: s in table ==> s.pos < BUCKET_SIZE
    ensures Part(table, b, BUCKET_SIZE) == Part(table, b + 1, 0)
  {
  }

  lemma PartEnds(table: map<Slot, int>, buckets: nat)
    requires forall s :: s in table ==> s.bucket < buckets
    ensures Part(table, 0, 0) == map[] && Part(table, buckets, 0) == table
  {
  }

  lemma MirroredSlots(man: CAddrMan)
    requires man.Grids()
    ensures forall s :: s in man.tried ==> s.bucket < TRIED_BUCKET_COUNT && s.pos < BUCKET_SIZE
    ensures forall s :: s in man.news ==> s.bucket < NEW_BUCKET_COUNT && s.pos < BUCKET_SIZE
  {
  }

  // ---------- the tried table ----------

  /** What is checked of one tried slot. */
  ghost predicate TriedEntryOk(m: map<int, Info>, h: Hasher, s: Slot, id: int)
  {
    id in m && m[id].fInTried && s == h.TriedSlot(m[id].service)
  }

  ghost predicate TriedSlotsOk(m: map<int, Info>, h: Hasher, table: map<Slot, int>)
  {
    forall s :: s in table ==> TriedEntryOk(m, h, s, table[s])
  }

  /** The tried ids not met among the slots of a table. */
  ghost function Unmet(m: map<int, Info>, table: map<Slot, int>): set<int>
  {
    set id | id in TriedIds(m) && id !in table.Values
  }

  lemma UnmetNext(m: map<int, Info>, h: Hasher, part: map<Slot, int>, s: Slot, id: int)
    requires s !in part && TriedSlotsOk(m, h, part)
    ensures id !in Unmet(m, part) ==> !TriedEntryOk(m, h, s, id)
    ensures Unmet(m, part[s := id]) == Unmet(m, part) - {id}
    ensures TriedSlotsOk(m, h, part[s := id]) <==> TriedEntryOk(m, h, s, id)
  {
    hide Hasher.TriedSlot;
    if id in part.Values {
      var u :| u in part && part[u] == id;
      assert TriedEntryOk(m, h, u, id);
    }
    var more := part[s := id];
    assert more[s] == id;
    forall x
      ensures x in more.Values <==> x in part.Values || x == id
    {
      if x in part.Values {
        var u :| u in part && part[u] == x;
        assert more[u] == x;
      }
    }
    forall u | u in part
      ensures more[u] == part[u]
    {
    }
  }

  /** When the slots met so far are wrong, so is the table. */
  lemma TriedPartWrong(m: map<int, Info>, h: Hasher, table: map<Slot, int>, b: nat, i: nat)
    ensures TriedSlotsOk(m, h, table) ==> TriedSlotsOk(m, h, Part(table, b, i))
  {
    hide TriedEntryOk;
  }

  /** One cell of the tried table. */
  method CheckTriedCell(man: CAddrMan, b: nat, i: nat, setTried: set<int>) returns (err: int, left: set<int>)
    requires man.Grids() && b < TRIED_BUCKET_COUNT && i < BUCKET_SIZE
    requires TriedSlotsOk(man.mapInfo, man.hasher, Part(man.tried, b, i))
    requires setTried == Unmet(man.mapInfo, Part(man.tried, b, i))
    ensures err == 0 <==> TriedSlotsOk(man.mapInfo, man.hasher, Part(man.tried, b, i + 1))
    ensures err == 0 ==> left == Unmet(man.mapInfo, Part(man.tried, b, i + 1))
  {
    hide Part, Unmet, TriedSlotsOk;
    err, left := 0, setTried;
    var s := Slot(b, i);
    PartNext(man.tried, b, i);
    CellOf(man.vvTried, man.tried, TRIED_BUCKET_COUNT, s);
    if man.vvTried[b, i] != EMPTY {
      var id := man.vvTried[b, i];
      UnmetNext(man.mapInfo, man.hasher, Part(man.tried, b, i), s, id);
      if id !in left { return -11, left; }
      UnmetKnown(man.mapInfo, Part(man.tried, b, i), id);
      var service := man.mapInfo[id].service;
      if man.hasher.TriedBucket(service) != b { return -17, left; }
      if man.hasher.Position(service, false, b) != i { return -18, left; }
      left := left - {id};
    }
  }

  lemma UnmetKnown(m: map<int, Info>, part: map<Slot, int>, id: int)
    requires id in Unmet(m, part)
    ensures id in m && m[id].fInTried
  {
  }

  /** The loops over the tried table. */
  method CheckTried(man: CAddrMan, setTried: set<int>) returns (err: int, left: set<int>)
    requires man.Grids() && setTried == TriedIds(man.mapInfo)
    ensures err == 0 <==> TriedSlotsOk(man.mapInfo, man.hasher, man.tried)
    ensures err == 0 ==> left == Unmet(man.mapInfo, man.tried)
  {
    err, left := 0, setTried;
    MirroredSlots(man);
    PartEnds(man.tried, TRIED_BUCKET_COUNT);
    NothingMet(man.mapInfo, man.hasher);
    hide CAddrMan.Grids, Part, Unmet, TriedSlotsOk;
    for n := 0 to TRIED_BUCKET_COUNT
      invariant TriedSlotsOk(man.mapInfo, man.hasher, Part(man.tried, n, 0))
      invariant left == Unmet(man.mapInfo, Part(man.tried, n, 0)) && err == 0
    {
      for i := 0 to BUCKET_SIZE
        invariant TriedSlotsOk(man.mapInfo, man.hasher, Part(man.tried, n, i))
        invariant left == Unmet(man.mapInfo, Part(man.tried, n, i)) && err == 0
      {
        err, left := CheckTriedCell(man, n, i, left);
        if err != 0 {
          TriedPartWrong(man.mapInfo, man.hasher, man.tried, n, i + 1);
          return;
        }
      }
      PartWraps(man.tried, n);
    }
  }

  lemma NothingMet(m: map<int, Info>, h: Hasher)
    ensures Unmet(m, map[]) == TriedIds(m) && TriedSlotsOk(m, h, map[])
  {
  }

  /** All slots right and no tried id left over: each tried entry is in its slot, and nothing else is there. */
  lemma TriedOkIff(m: map<int, Info>, h: Hasher, tried: map<Slot, int>)
    ensures TriedOk(m, tried, h) <==> TriedSlotsOk(m, h, tried) && Unmet(m, tried) == {}
  {
    hide Hasher.TriedSlot;
    if TriedOk(m, tried, h) {
      forall id | id in TriedIds(m)
        ensures id in tried.Values
      {
        assert tried[h.TriedSlot(m[id].service)] == id;
      }
    }
    if TriedSlotsOk(m, h, tried) && Unmet(m, tried) == {} {
      forall s | s in tried
        ensures tried[s] in m && m[tried[s]].fInTried && s == h.TriedSlot(m[tried[s]].service)
      {
        assert TriedEntryOk(m, h, s, tried[s]);
      }
      forall id | id in m && m[id].fInTried
        ensures h.TriedSlot(m[id].service) in tried && tried[h.TriedSlot(m[id].service)] == id
      {
        assert id !in Unmet(m, tried);
        var s :| s in tried && tried[s] == id;
        assert TriedEntryOk(m, h, s, id);
      }
    }
  }

  // ---------- the new table ----------

  /** What is checked of the slots of the new table, apart from counting. */
  ghost predicate NewSlotsOk(m: map<int, Info>, h: Hasher, table: map<Slot, int>)
  {
    forall s :: s in table ==> NewEntryOk(m, h, s, table[s])
  }

  ghost predicate NewEntryOk(m: map<int, Info>, h: Hasher, s: Slot, id: int)
  {
    id in NewIds(m) && s.pos == h.Position(m[id].service, true, s.bucket)
  }

  /** No entry is in more slots than its count says. */
  ghost predicate NotOver(m: map<int, Info>, table: map<Slot, int>)
  {
    forall id :: id in NewIds(m) ==> |Refs(table, id)| <= m[id].nRefCount
  }

  /** The counters that are not used up, with what is left of them. */
  ghost predicate Remaining(counters: map<int, int>, m: map<int, Info>, table: map<Slot, int>)
  {
    forall id :: id in counters <==> id in NewIds(m) && |Refs(table, id)| < m[id].nRefCount
  }

  ghost predicate RemainingValues(counters: map<int, int>, m: map<int, Info>, table: map<Slot, int>)
  {
    forall id :: id in counters ==> id in m && counters[id] == m[id].nRefCount - |Refs(table, id)|
  }

  lemma NewNext(m: map<int, Info>, h: Hasher, part: map<Slot, int>, s: Slot, id: int, counters: map<int, int>)
    requires s !in part && NewSlotsOk(m, h, part) && NotOver(m, part)
    requires Remaining(counters, m, part) && RemainingValues(counters, m, part)
    ensures NewSlotsOk(m, h, part[s := id]) <==> NewEntryOk(m, h, s, id)
    ensures NewEntryOk(m, h, s, id) ==> (NotOver(m, part[s := id]) <==> id in counters)
    ensures id in counters ==> id in NewIds(m)
    ensures id in counters ==>
      var rest := if counters[id] == 1 then counters - {id} else counters[id := counters[id] - 1];
      Remaining(rest, m, part[s := id]) && RemainingValues(rest, m, part[s := id])
  {
    hide Hasher.Position, Refs, NewIds;
    var more := part[s := id];
    assert more[s] == id;
    forall u | u in part
      ensures more[u] == part[u]
    {
    }
    forall x: int
      ensures |Refs(more, x)| == |Refs(part, x)| + (if x == id then 1 else 0)
    {
      RefsPut(part, s, id, x);
    }
  }

  lemma NewPartWrong(m: map<int, Info>, h: Hasher, table: map<Slot, int>, b: nat, i: nat)
    ensures NewSlotsOk(m, h, table) ==> NewSlotsOk(m, h, Part(table, b, i))
    ensures NotOver(m, table) ==> NotOver(m, Part(table, b, i))
  {
    hide NewEntryOk;
    var part := Part(table, b, i);
    forall id | id in NewIds(m)
      ensures |Refs(part, id)| <= |Refs(table, id)|
    {
      assert Refs(part, id) <= Refs(table, id);
      Smaller(Refs(part, id), Refs(table, id));
    }
  }

  /** One cell of the new table. */
  method CheckNewCell(man: CAddrMan, b: nat, i: nat, mapNew: map<int, int>) returns (err: int, left: map<int, int>)
    requires man.Grids() && b < NEW_BUCKET_COUNT && i < BUCKET_SIZE
    requires var part := Part(man.news, b, i);
      NewSlotsOk(man.mapInfo, man.hasher, part) && NotOver(man.mapInfo, part)
      && Remaining(mapNew, man.mapInfo, part) && RemainingValues(mapNew, man.mapInfo, part)
    ensures var part := Part(man.news, b, i + 1);
      && (err == 0 <==> NewSlotsOk(man.mapInfo, man.hasher, part) && NotOver(man.mapInfo, part))
      && (err == 0 ==> Remaining(left, man.mapInfo, part) && RemainingValues(left, man.mapInfo, part))
  {
    hide Part, NewSlotsOk, NotOver, Remaining, RemainingValues;
    err, left := 0, mapNew;
    var s := Slot(b, i);
    PartNext(man.news, b, i);
    CellOf(man.vvNew, man.news, NEW_BUCKET_COUNT, s);
    if man.vvNew[b, i] != EMPTY {
      var id := man.vvNew[b, i];
      NewNext(man.mapInfo, man.hasher, Part(man.news, b, i), s, id, left);
      if id !in left { return -12, left; }
      if man.hasher.Position(man.mapInfo[id].service, true, b) != i { return -19, left; }
      left := left[id := left[id] - 1];
      assert left - {id} == mapNew - {id};
      if left[id] == 0 {
        left := left - {id};
      }
    }
  }

  /** The slots met are right, and the counters say what is left of each count. */
  ghost predicate NewMet(m: map<int, Info>, h: Hasher, part: map<Slot, int>, counters: map<int, int>)
  {
    NewSlotsOk(m, h, part) && NotOver(m, part) && Remaining(counters, m, part) && RemainingValues(counters, m, part)
  }

  /** The new table is right, apart from slots that may be missing. */
  ghost predicate NewTableOk(m: map<int, Info>, h: Hasher, table: map<Slot, int>)
  {
    NewSlotsOk(m, h, table) && NotOver(m, table)
  }

  /** A wrong cell makes the whole table wrong. */
  method CheckNewPlace(man: CAddrMan, b: nat, i: nat, mapNew: map<int, int>) returns (err: int, left: map<int, int>)
    requires man.Grids() && b < NEW_BUCKET_COUNT && i < BUCKET_SIZE
    requires NewMet(man.mapInfo, man.hasher, Part(man.news, b, i), mapNew)
    ensures err == 0 ==> NewMet(man.mapInfo, man.hasher, Part(man.news, b, i + 1), left)
    ensures err != 0 ==> !NewTableOk(man.mapInfo, man.hasher, man.news)
  {
    hide CAddrMan.Grids, Part, NewSlotsOk, NotOver, Remaining, RemainingValues;
    NewPartWrong(man.mapInfo, man.hasher, man.news, b, i + 1);
    err, left := CheckNewCell(man, b, i, mapNew);
  }

  /** The loop over a bucket of the new table. */
  method CheckNewBucket(man: CAddrMan, b: nat, mapNew: map<int, int>) returns (err: int, left: map<int, int>)
    requires man.Grids() && b < NEW_BUCKET_COUNT
    requires NewMet(man.mapInfo, man.hasher, Part(man.news, b, 0), mapNew)
    ensures err == 0 ==> NewMet(man.mapInfo, man.hasher, Part(man.news, b + 1, 0), left)
    ensures err != 0 ==> !NewTableOk(man.mapInfo, man.hasher, man.news)
  {
    hide CAddrMan.Grids, Part, NewTableOk, NewMet;
    err, left := 0, mapNew;
    var i: nat := 0;
    while i < BUCKET_SIZE && err == 0
      invariant i <= BUCKET_SIZE
      invariant err == 0 ==> NewMet(man.mapInfo, man.hasher, Part(man.news, b, i), left)
      invariant err != 0 ==> !NewTableOk(man.mapInfo, man.hasher, man.news)
    {
      err, left := CheckNewPlace(man, b, i, left);
      i := i + 1;
    }
    WrapsHere(man, b);
  }

  lemma WrapsHere(man: CAddrMan, b: nat)
    requires man.Grids()
    ensures Part(man.news, b, BUCKET_SIZE) == Part(man.news, b + 1, 0)
  {
    MirroredSlots(man);
    PartWraps(man.news, b);
  }

  /** The loops over the new table. */
  method CheckNew(man: CAddrMan, mapNew: map<int, int>) returns (err: int, left: map<int, int>)
    requires man.Grids() && NewMet(man.mapInfo, man.hasher, map[], mapNew)
    ensures err == 0 <==> NewSlotsOk(man.mapInfo, man.hasher, man.news) && NotOver(man.mapInfo, man.news)
    ensures err == 0 ==> Remaining(left, man.mapInfo, man.news)
  {
    NonePassed(man.news);
    hide CAddrMan.Grids, Part, NewSlotsOk, NotOver, Remaining, NewMet;
    err, left := 0, mapNew;
    var b: nat := 0;
    while b < NEW_BUCKET_COUNT && err == 0
      invariant b <= NEW_BUCKET_COUNT
      invariant err == 0 ==> NewMet(man.mapInfo, man.hasher, Part(man.news, b, 0), left)
      invariant err != 0 ==> !NewTableOk(man.mapInfo, man.hasher, man.news)
    {
      err, left := CheckNewBucket(man, b, left);
      b := b + 1;
    }
    if err == 0 {
      AfterNew(man, left);
    }
  }

  lemma NonePassed(table: map<Slot, int>)
    ensures Part(table, 0, 0) == map[]
  {
  }

  lemma AfterNew(man: CAddrMan, left: map<int, int>)
    requires man.Grids() && NewMet(man.mapInfo, man.hasher, Part(man.news, NEW_BUCKET_COUNT, 0), left)
    ensures NewSlotsOk(man.mapInfo, man.hasher, man.news) && NotOver(man.mapInfo, man.news)
    ensures Remaining(left, man.mapInfo, man.news)
  {
    MirroredSlots(man);
    PartEnds(man.news, NEW_BUCKET_COUNT);
    hide NewSlotsOk, NotOver, Remaining;
  }

  lemma NothingCounted(m: map<int, Info>, h: Hasher, counters: map<int, int>)
    requires CountersFor(counters, NewIds(m), m)
    requires forall id :: id in NewIds(m) ==> m[id].nRefCount >= 1
    ensures NewMet(m, h, map[], counters)
  {
    forall id: int
      ensures Refs(map[], id) == {}
    {
    }
  }

  /** All slots right, no count exceeded and none left over: the counts are exact. */
  lemma NewOkIff(m: map<int, Info>, h: Hasher, news: map<Slot, int>)
    requires forall s :: s in news ==> s.bucket < NEW_BUCKET_COUNT
    requires forall id :: id in m && m[id].fInTried ==> m[id].nRefCount == 0
    ensures NewOk(m, news, h) && CountsOk(m, news) <==>
      && NewSlotsOk(m, h, news) && NotOver(m, news)
      && forall id :: id in NewIds(m) ==> |Refs(news, id)| >= m[id].nRefCount
  {
    hide Hasher.Position;
    if NewSlotsOk(m, h, news) {
      forall s | s in news
        ensures news[s] in m && !m[news[s]].fInTried && s.pos == h.Position(m[news[s]].service, true, s.bucket)
      {
        assert NewEntryOk(m, h, s, news[s]);
      }
      forall id | id in m && m[id].fInTried
        ensures |Refs(news, id)| == 0
      {
        assert Refs(news, id) == {};
      }
    }
  }

  // ---------- the whole check ----------

  /** As many places in the random order as entries, each entry at its own: then every place has its entry. */
  lemma RandomOkIff(m: map<int, Info>, v: seq<int>)
    ensures RandomOk(m, v) <==>
      |v| == |m.Keys| && forall id :: id in m ==> 0 <= m[id].nRandomPos < |v| && v[m[id].nRandomPos] == id
  {
    if RandomOk(m, v) {
      forall i, j | 0 <= i < j < |v|
        ensures v[i] != v[j]
      {
        assert m[v[i]].nRandomPos == i && m[v[j]].nRandomPos == j;
      }
      SizeOfSet(v);
      assert SetOf(v) == m.Keys by {
        forall id | id in m
          ensures id in SetOf(v)
        {
          assert v[m[id].nRandomPos] == id;
        }
      }
    } else if |v| == |m.Keys| && forall id :: id in m ==> 0 <= m[id].nRandomPos < |v| && v[m[id].nRandomPos] == id {
      PlacesFilled(m, v);
    }
  }

  lemma PlacesFilled(m: map<int, Info>, v: seq<int>)
    requires |v| == |m.Keys|
    requires forall id :: id in m ==> 0 <= m[id].nRandomPos < |v| && v[m[id].nRandomPos] == id
    ensures RandomOk(m, v)
  {
    var places := seq(|v|, i => i);
    SizeOfSet(places);
    PlacesDistinct(m, m.Keys, v);
    assert forall i :: 0 <= i < |v| ==> places[i] in SetOf(places);
    forall x | x in Places(m, m.Keys)
      ensures x in SetOf(places)
    {
      assert places[x] == x;
    }
    SameSize(Places(m, m.Keys), SetOf(places));
    forall i | 0 <= i < |v|
      ensures v[i] in m && m[v[i]].nRandomPos == i
    {
      assert places[i] in Places(m, m.Keys);
    }
  }

  lemma Pick<T>(s: set<T>) returns (x: T)
    requires s != {}
    ensures x in s
  {
    x :| x in s;
  }

  ghost function Places(m: map<int, Info>, ids: set<int>): set<int>
    requires ids <= m.Keys
  {
    set id | id in ids :: m[id].nRandomPos
  }

  lemma {:induction false} PlacesDistinct(m: map<int, Info>, ids: set<int>, v: seq<int>)
    requires ids <= m.Keys
    requires forall id :: id in m ==> 0 <= m[id].nRandomPos < |v| && v[m[id].nRandomPos] == id
    ensures |Places(m, ids)| == |ids|
  {
    if ids == {} {
      assert Places(m, ids) == {};
    } else {
      var id := Pick(ids);
      PlacesDistinct(m, ids - {id}, v);
      assert Places(m, ids) == Places(m, ids - {id}) + {m[id].nRandomPos};
      forall x | x in ids - {id}
        ensures m[x].nRandomPos != m[id].nRandomPos
      {
        assert v[m[x].nRandomPos] == x && v[m[id].nRandomPos] == id;
      }
    }
  }

  lemma SameSize(a: set<int>, b: set<int>)
    requires a <= b && |a| == |b|
    ensures a == b
  {
    assert b == a + (b - a);
    assert |b| == |a| + |b - a|;
  }

  /** Every entry is new or tried. */
  lemma NewAndTried(m: map<int, Info>)
    ensures |m.Keys| == |NewIds(m)| + |TriedIds(m)|
  {
    assert m.Keys == NewIds(m) + TriedIds(m);
  }

  /** No entry is in fewer slots than its count says. */
  ghost predicate NotUnder(m: map<int, Info>, table: map<Slot, int>)
  {
    forall id :: id in NewIds(m) ==> |Refs(table, id)| >= m[id].nRefCount
  }

  /** The entry checks, spread over the indexes they concern. */
  lemma EntriesOkIff(m: map<int, Info>, n: nat, a: map<NetAddr, int>, v: seq<int>)
    requires forall id :: id in m ==> 0 <= id < n
    ensures EntriesOk(m, n, a, v) <==>
      && (forall id :: id in m ==> 0 <= m[id].nRandomPos < |v| && v[m[id].nRandomPos] == id)
      && AddrKnown(m, a) && StatsOk(m) && Referenced(m, {})
      && forall id :: id in m && m[id].fInTried ==> m[id].nRefCount == 0
  {
    hide Registered;
    if EntriesOk(m, n, a, v) {
      forall id | id in m
        ensures EntryOk(m[id], id, a, v)
      {
      }
    }
  }

  /** The conditions on tables and counts, for entries whose tried ones have no references. */
  lemma TablesInSteps(t: Tables, h: Hasher)
    requires forall s :: s in t.news ==> s.bucket < NEW_BUCKET_COUNT
    ensures NewOk(t.mapInfo, t.news, h) && CountsOk(t.mapInfo, t.news) <==>
      && (forall id :: id in t.mapInfo && t.mapInfo[id].fInTried ==> t.mapInfo[id].nRefCount == 0)
      && NewSlotsOk(t.mapInfo, h, t.news) && NotOver(t.mapInfo, t.news) && NotUnder(t.mapInfo, t.news)
  {
    hide NewOk, CountsOk, NewSlotsOk, NotOver, NewIds;
    var m := t.mapInfo;
    if NewOk(m, t.news, h) && CountsOk(m, t.news) {
      forall id | id in m && m[id].fInTried
        ensures m[id].nRefCount == 0
      {
        TriedUnreferenced(m, t.news, h, id);
      }
    }
    if forall id :: id in m && m[id].fInTried ==> m[id].nRefCount == 0 {
      NewOkIff(m, h, t.news);
    }
  }

  /** The steps of the check together are its conditions. */
  lemma PassesInSteps(t: Tables, h: Hasher, n: nat, nNew: int, nTried: int)
    requires forall id :: id in t.mapInfo ==> 0 <= id < n
    requires forall s :: s in t.news ==> s.bucket < NEW_BUCKET_COUNT
    ensures Passes(t, h, nNew, nTried) <==>
      && |t.vRandom| == nTried + nNew
      && EntriesOk(t.mapInfo, n, t.mapAddr, t.vRandom)
      && nTried == |TriedIds(t.mapInfo)| && nNew == |NewIds(t.mapInfo)|
      && TriedSlotsOk(t.mapInfo, h, t.tried) && Unmet(t.mapInfo, t.tried) == {}
      && NewSlotsOk(t.mapInfo, h, t.news) && NotOver(t.mapInfo, t.news) && NotUnder(t.mapInfo, t.news)
  {
    hide RandomOk, AddrKnown, TriedOk, NewOk, CountsOk, StatsOk, Referenced;
    hide EntriesOk, TriedSlotsOk, Unmet, NewSlotsOk, NotOver, NotUnder, NewIds, TriedIds;
    RandomOkIff(t.mapInfo, t.vRandom);
    NewAndTried(t.mapInfo);
    EntriesOkIff(t.mapInfo, n, t.mapAddr, t.vRandom);
    TriedOkIff(t.mapInfo, h, t.tried);
    TablesInSteps(t, h);
  }

  lemma RemainingNone(counters: map<int, int>, m: map<int, Info>, table: map<Slot, int>)
    requires Remaining(counters, m, table)
    ensures |counters| == 0 <==> NotUnder(m, table)
  {
    if |counters| == 0 {
      assert counters == map[];
    } else {
      assert counters.Keys != {};
      var id := Pick(counters.Keys);
    }
  }

  /** The steps on the two tables and what is left over after them. */
  method CheckTables(man: CAddrMan, setTried: set<int>, mapNew: map<int, int>) returns (err: int)
    requires man.Grids()
    requires setTried == TriedIds(man.mapInfo) && CountersFor(mapNew, NewIds(man.mapInfo), man.mapInfo)
    requires forall id :: id in NewIds(man.mapInfo) ==> man.mapInfo[id].nRefCount >= 1
    ensures err == 0 <==>
      && TriedSlotsOk(man.mapInfo, man.hasher, man.tried) && Unmet(man.mapInfo, man.tried) == {}
      && NewSlotsOk(man.mapInfo, man.hasher, man.news) && NotOver(man.mapInfo, man.news)
        && NotUnder(man.mapInfo, man.news)
  {
    hide CAddrMan.Grids, TriedSlotsOk, Unmet, NewSlotsOk, NotOver, NotUnder, Remaining, NewIds, TriedIds, CountersFor;
    var triedLeft, newLeft;
    err, triedLeft := CheckTried(man, setTried);
    if err != 0 { return; }
    NothingCounted(man.mapInfo, man.hasher, mapNew);
    err, newLeft := CheckNew(man, mapNew);
    if err != 0 { return; }
    RemainingNone(newLeft, man.mapInfo, man.news);
    if |triedLeft| != 0 { return -13; }
    if |newLeft| != 0 { return -15; }
  }

  /** The check up to the key. */
  method CheckIndexes(man: CAddrMan) returns (err: int)
    requires man.Grids()
    modifies man`mapAddr
    ensures err == 0 <==> Passes(old(man.View()), man.hasher, man.nNew, man.nTried)
    ensures err == 0 ==> man.mapAddr == Repaired(man.mapInfo, old(man.mapAddr))
  {
    ghost var t := man.View();
    MirroredSlots(man);
    PassesInSteps(t, man.hasher, man.nIdCount, man.nNew, man.nTried);
    CountedOnce(t.mapInfo, man.nIdCount, t.mapAddr, t.vRandom);
    hide Consistent, Referenced, Passes, EntriesOk, TriedSlotsOk, Unmet, NewSlotsOk;
    hide NotOver, NotUnder, Repaired, NewIds, TriedIds, Mirrors, CountersFor;
    if |man.vRandom| != man.nTried + man.nNew { return -7; }
    var setTried, mapNew;
    err, setTried, mapNew := CheckEntries(man);
    if err != 0 { return; }
    CountersSize(mapNew, t.mapInfo);
    if |setTried| != man.nTried { return -9; }
    if |mapNew| != man.nNew { return -10; }
    err := CheckTables(man, setTried, mapNew);
  }

  /** The numbers returned are those of the code; 0 means that nothing is wrong.  Whether the key is null is
      asked last. */
  method Check_(man: CAddrMan, nKeyIsNull: bool) returns (err: int)
    requires man.Grids()
    modifies man`mapAddr
    ensures err == 0 <==> Passes(old(man.View()), man.hasher, man.nNew, man.nTried) && !nKeyIsNull
    ensures Passes(old(man.View()), man.hasher, man.nNew, man.nTried) && nKeyIsNull ==> err == -16
    ensures err == 0 ==> man.mapAddr == Repaired(man.mapInfo, old(man.mapAddr))
    ensures old(man.Valid()) ==> (err == 0 <==> !nKeyIsNull) && man.View() == old(man.View())
  {
    ValidPasses(man.View(), man.hasher, man.nNew, man.nTried);
    hide CAddrMan.Grids, Consistent, Referenced, Passes, Repaired, NewIds, TriedIds;
    err := CheckIndexes(man);
    if err != 0 { return; }
    if nKeyIsNull { return -16; }
  }

  lemma CountersSize(counters: map<int, int>, m: map<int, Info>)
    requires CountersFor(counters, NewIds(m), m)
    ensures |counters| == |NewIds(m)|
  {
    assert counters.Keys == NewIds(m);
  }

  lemma CountedOnce(m: map<int, Info>, n: nat, a: map<NetAddr, int>, v: seq<int>)
    requires forall id :: id in m ==> 0 <= id < n
    ensures EntriesOk(m, n, a, v) ==> forall id :: id in NewIds(m) ==> m[id].nRefCount >= 1
  {
  }

  /** The check accepts every consistent state and leaves it alone. */
  lemma ValidPasses(t: Tables, h: Hasher, nNew: int, nTried: int)
    ensures Checked(t, h) && nNew == |NewIds(t.mapInfo)| && nTried == |TriedIds(t.mapInfo)| ==>
      Passes(t, h, nNew, nTried) && Repaired(t.mapInfo, t.mapAddr) == t.mapAddr
  {
    hide RandomOk, TriedOk, NewOk, CountsOk, StatsOk, Referenced;
    if 0 in t.mapInfo && t.mapInfo[0].service.net in t.mapAddr {
      assert Touched(t.mapAddr, t.mapInfo[0].service.net) == t.mapAddr;
    }
    PassesIff(t, h, nNew, nTried);
  }
}
