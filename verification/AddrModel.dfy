/** The entries, tables and consistency conditions of the address manager, as values: what Check_ demands,
    and how each elementary update of the five indexes preserves it. */
module AddrModel {

  const NEW_BUCKET_COUNT: nat := 1024
  const TRIED_BUCKET_COUNT: nat := 256
  const BUCKET_SIZE: nat := 64
  const NEW_BUCKETS_PER_ADDRESS: nat := 8
  const HORIZON_DAYS: nat := 30
  const RETRIES: nat := 3
  const MAX_FAILURES: nat := 10
  const MIN_FAIL_DAYS: nat := 7

  datatype NetAddr = NetAddr(ip: nat)
  datatype Service = Service(net: NetAddr, port: nat)

  /** An address as a peer reports it. */
  datatype Address = Address(service: Service, nServices: nat, nTime: int)

  datatype Info = Info(
    service: Service, nServices: nat, nTime: int, source: NetAddr,
    nLastTry: int, nLastSuccess: int, nAttempts: int,
    nRefCount: int, fInTried: bool, nRandomPos: int)
  {
    /** Whether the statistics of this entry are bad enough to drop it. */
    predicate IsTerrible(nNow: int)
    {
      if nLastTry != 0 && nLastTry >= nNow - 60 then false
      else if nTime > nNow + 10 * 60 then true
      else if nTime == 0 || nNow - nTime > HORIZON_DAYS * 24 * 60 * 60 then true
      else if nLastSuccess == 0 && nAttempts >= RETRIES then true
      else nNow - nLastSuccess > MIN_FAIL_DAYS * 24 * 60 * 60 && nAttempts >= MAX_FAILURES
    }
  }

  /** The verdict on an entry in seconds: it was not tried within the last minute, and its time is unknown, more than
      ten minutes ahead or more than thirty days old, or three attempts have failed without any success, or ten have
      with the last success more than a week ago. */
  lemma TerribleMeans(i: Info, nNow: int)
    ensures i.IsTerrible(nNow) <==>
      && (i.nLastTry == 0 || nNow - i.nLastTry > 60)
      && (|| i.nTime == 0 || i.nTime - nNow > 600 || nNow - i.nTime > 2592000
          || (i.nLastSuccess == 0 && i.nAttempts >= 3)
          || (nNow - i.nLastSuccess > 604800 && i.nAttempts >= 10))
  {
  }

  datatype Slot = Slot(bucket: nat, pos: nat)

  /** The keyed hashes behind bucket selection, and the routability test; nothing is assumed of them. */
  datatype Hasher = Hasher(
    triedHash: Service -> nat,
    newHash: (NetAddr, NetAddr) -> nat,
    posHash: (bool, nat, Service) -> nat,
    routable: NetAddr -> bool)
  {
    function TriedBucket(s: Service): (b: nat)
      ensures b < TRIED_BUCKET_COUNT
    {
      triedHash(s) % TRIED_BUCKET_COUNT
    }

    function NewBucket(s: Service, source: NetAddr): (b: nat)
      ensures b < NEW_BUCKET_COUNT
    {
      newHash(s.net, source) % NEW_BUCKET_COUNT
    }

    function Position(s: Service, fNew: bool, bucket: nat): (p: nat)
      ensures p < BUCKET_SIZE
    {
      posHash(fNew, bucket, s) % BUCKET_SIZE
    }

    function TriedSlot(s: Service): Slot
    {
      Slot(TriedBucket(s), Position(s, false, TriedBucket(s)))
    }

    function NewSlot(s: Service, source: NetAddr): Slot
    {
      Slot(NewBucket(s, source), Position(s, true, NewBucket(s, source)))
    }
  }

  /** The five indexes.  The tables hold occupied slots only. */
  datatype Tables = Tables(
    mapInfo: map<int, Info>,
    mapAddr: map<NetAddr, int>,
    vRandom: seq<int>,
    news: map<Slot, int>,
    tried: map<Slot, int>)

  /** The new-table slots that hold an id. */
  ghost function Refs(news: map<Slot, int>, id: int): set<Slot>
  {
    set s | s in news && news[s] == id
  }

  ghost function NewIds(m: map<int, Info>): set<int>
  {
    set id | id in m && !m[id].fInTried
  }

  ghost function TriedIds(m: map<int, Info>): set<int>
  {
    set id | id in m && m[id].fInTried
  }

  // ---- The conditions of Check_, index by index ----

  /** vRandom lists every id once, and each entry knows its place. */
  ghost predicate RandomOk(m: map<int, Info>, v: seq<int>)
  {
    && (forall id :: id in m ==> 0 <= m[id].nRandomPos < |v| && v[m[id].nRandomPos] == id)
    && (forall i :: 0 <= i < |v| ==> v[i] in m && m[v[i]].nRandomPos == i)
  }

  /** mapAddr and mapInfo are inverse to each other on network addresses. */
  ghost predicate AddrOk(m: map<int, Info>, a: map<NetAddr, int>)
  {
    && (forall id :: id in m ==> m[id].service.net in a && a[m[id].service.net] == id)
    && (forall n :: n in a ==> a[n] in m && m[a[n]].service.net == n)
  }

  /** A tried entry sits in exactly the slot its address selects. */
  ghost predicate TriedOk(m: map<int, Info>, tried: map<Slot, int>, h: Hasher)
  {
    && (forall s :: s in tried ==> tried[s] in m && m[tried[s]].fInTried && s == h.TriedSlot(m[tried[s]].service))
    && (forall id :: id in m && m[id].fInTried ==>
      h.TriedSlot(m[id].service) in tried && tried[h.TriedSlot(m[id].service)] == id)
  }

  /** New-table slots hold untried entries, at the position their bucket selects. */
  ghost predicate NewOk(m: map<int, Info>, news: map<Slot, int>, h: Hasher)
  {
    forall s :: s in news ==>
      && s.bucket < NEW_BUCKET_COUNT
      && news[s] in m && !m[news[s]].fInTried
      && s.pos == h.Position(m[news[s]].service, true, s.bucket)
  }

  /** Reference counts are the numbers of new-table slots. */
  ghost predicate CountsOk(m: map<int, Info>, news: map<Slot, int>)
  {
    forall id :: id in m ==> m[id].nRefCount == |Refs(news, id)|
  }

  ghost predicate StatsOk(m: map<int, Info>)
  {
    forall id :: id in m ==>
      && m[id].nLastTry >= 0 && m[id].nLastSuccess >= 0
      && (m[id].fInTried ==> m[id].nLastSuccess > 0)
  }

  /** Everything but the demand that each untried entry is referenced: it holds between the steps of an operation. */
  ghost predicate Consistent(t: Tables, h: Hasher)
  {
    && RandomOk(t.mapInfo, t.vRandom)
    && AddrOk(t.mapInfo, t.mapAddr)
    && TriedOk(t.mapInfo, t.tried, h)
    && NewOk(t.mapInfo, t.news, h)
    && CountsOk(t.mapInfo, t.news)
    && StatsOk(t.mapInfo)
  }

  /** Every untried entry except the ids in open is referenced at least once and at most eight times. */
  ghost predicate Referenced(m: map<int, Info>, open: set<int>)
  {
    forall id :: id in m && !m[id].fInTried ==>
      m[id].nRefCount <= NEW_BUCKETS_PER_ADDRESS && (id !in open ==> m[id].nRefCount >= 1)
  }

  /** What Check_ accepts (the counters are compared in the class). */
  ghost predicate Checked(t: Tables, h: Hasher)
  {
    Consistent(t, h) && Referenced(t.mapInfo, {})
  }

  /** The same entries, up to their places in vRandom. */
  ghost predicate SameEntries(m: map<int, Info>, m': map<int, Info>, ids: set<int>)
  {
    forall id :: id in ids ==> id in m && id in m' && m'[id] == m[id].(nRandomPos := m'[id].nRandomPos)
  }

  // ---- Elementary updates ----

  lemma RefsPut(news: map<Slot, int>, s: Slot, id: int, j: int)
    requires s !in news
    ensures Refs(news[s := id], j) == Refs(news, j) + (if j == id then {s} else {})
    ensures |Refs(news[s := id], j)| == |Refs(news, j)| + (if j == id then 1 else 0)
  {
    assert Refs(news[s := id], j) == Refs(news, j) + (if j == id then {s} else {});
    assert s !in Refs(news, j);
  }

  lemma RefsDrop(news: map<Slot, int>, s: Slot, j: int)
    requires s in news
    ensures Refs(news - {s}, j) == Refs(news, j) - {s}
    ensures |Refs(news - {s}, j)| == |Refs(news, j)| - (if news[s] == j then 1 else 0)
  {
    assert Refs(news - {s}, j) == Refs(news, j) - {s};
  }

  /** Exchanging two places of vRandom. */
  ghost function Swapped(v: seq<int>, i: nat, j: nat): seq<int>
    requires i < |v| && j < |v|
  {
    v[i := v[j]][j := v[i]]
  }

  lemma SwapKeepsRandom(m: map<int, Info>, v: seq<int>, i: nat, j: nat, m': map<int, Info>)
    requires RandomOk(m, v)
    requires i < |v| && j < |v| && i != j
    requires m' == m[v[i] := m[v[i]].(nRandomPos := j)][v[j] := m[v[j]].(nRandomPos := i)]
    ensures RandomOk(m', Swapped(v, i, j))
    ensures SameEntries(m, m', m.Keys) && m'.Keys == m.Keys
  {
    var v' := Swapped(v, i, j);
    assert v[i] != v[j];
    forall k | 0 <= k < |v'| ensures v'[k] in m' && m'[v'[k]].nRandomPos == k {
    }
  }

  /** Only places in vRandom differ, so every other index stays consistent. */
  lemma SameEntriesConsistent(t: Tables, t': Tables, h: Hasher)
    requires Consistent(t, h)
    requires SameEntries(t.mapInfo, t'.mapInfo, t.mapInfo.Keys) && t'.mapInfo.Keys == t.mapInfo.Keys
    requires t'.mapAddr == t.mapAddr && t'.news == t.news && t'.tried == t.tried
    requires RandomOk(t'.mapInfo, t'.vRandom)
    ensures Consistent(t', h)
    ensures NewIds(t'.mapInfo) == NewIds(t.mapInfo) && TriedIds(t'.mapInfo) == TriedIds(t.mapInfo)
  {
    hide RandomOk, AddrOk, TriedOk, NewOk;
    var m, m' := t.mapInfo, t'.mapInfo;
    forall id | id in m
      ensures SameStatus(m[id], m'[id]) && m'[id].nRefCount == m[id].nRefCount
    {
      assert m'[id] == m[id].(nRandomPos := m'[id].nRandomPos);
    }
    AddrFrame(m, m', t.mapAddr);
    TriedFrame(m, m', t.tried, h);
    NewFrame(m, m', t.news, h);
    SameIds(m, m');
  }

  lemma AddrFrame(m: map<int, Info>, m': map<int, Info>, a: map<NetAddr, int>)
    requires AddrOk(m, a) && m'.Keys == m.Keys
    requires forall id :: id in m ==> m'[id].service == m[id].service
    ensures AddrOk(m', a)
  {
    forall id | id in m' ensures m'[id].service.net in a && a[m'[id].service.net] == id {
      assert id in m;
    }
    forall n | n in a ensures a[n] in m' && m'[a[n]].service.net == n {
      assert a[n] in m;
    }
  }

  lemma RandomFrame(m: map<int, Info>, m': map<int, Info>, v: seq<int>)
    requires RandomOk(m, v) && m'.Keys == m.Keys
    requires forall id :: id in m ==> m'[id].nRandomPos == m[id].nRandomPos
    ensures RandomOk(m', v)
  {
    forall id | id in m' ensures 0 <= m'[id].nRandomPos < |v| && v[m'[id].nRandomPos] == id {
      assert id in m;
    }
    forall i | 0 <= i < |v| ensures v[i] in m' && m'[v[i]].nRandomPos == i {
      assert v[i] in m;
    }
  }

  ghost predicate SameStatus(i: Info, j: Info)
  {
    j.service == i.service && j.fInTried == i.fInTried
  }

  lemma TriedFrame(m: map<int, Info>, m': map<int, Info>, tried: map<Slot, int>, h: Hasher)
    requires TriedOk(m, tried, h) && m'.Keys == m.Keys
    requires forall id :: id in m ==> SameStatus(m[id], m'[id])
    ensures TriedOk(m', tried, h)
  {
    hide Hasher.TriedSlot;
    forall s | s in tried ensures tried[s] in m' && m'[tried[s]].fInTried && s == h.TriedSlot(m'[tried[s]].service) {
      var x := tried[s];
      assert x in m && SameStatus(m[x], m'[x]);
    }
    forall id | id in m' && m'[id].fInTried
      ensures h.TriedSlot(m'[id].service) in tried && tried[h.TriedSlot(m'[id].service)] == id
    {
      assert id in m && SameStatus(m[id], m'[id]);
    }
  }

  lemma NewFrame(m: map<int, Info>, m': map<int, Info>, news: map<Slot, int>, h: Hasher)
    requires NewOk(m, news, h) && m'.Keys == m.Keys
    requires forall id :: id in m ==> SameStatus(m[id], m'[id])
    ensures NewOk(m', news, h)
  {
    hide Hasher.Position;
    forall s | s in news
      ensures s.bucket < NEW_BUCKET_COUNT && news[s] in m' && !m'[news[s]].fInTried
      ensures s.pos == h.Position(m'[news[s]].service, true, s.bucket)
    {
      var x := news[s];
      assert x in m && SameStatus(m[x], m'[x]);
    }
  }

  lemma SameIds(m: map<int, Info>, m': map<int, Info>)
    requires m'.Keys == m.Keys
    requires forall id :: id in m ==> SameStatus(m[id], m'[id])
    ensures NewIds(m') == NewIds(m) && TriedIds(m') == TriedIds(m)
  {
    forall id | id in m ensures m'[id].fInTried == m[id].fInTried {
      assert SameStatus(m[id], m'[id]);
    }
    assert forall id :: id in m <==> id in m';
  }

  /** Dropping the last place of vRandom together with its unreferenced, untried entry. */
  lemma DropLastConsistent(t: Tables, t': Tables, h: Hasher, id: int)
    requires Consistent(t, h)
    requires id in t.mapInfo && t.mapInfo[id].nRefCount == 0 && !t.mapInfo[id].fInTried
    requires |t.vRandom| > 0 && t.mapInfo[id].nRandomPos == |t.vRandom| - 1
    requires t' == Tables(t.mapInfo - {id}, t.mapAddr - {t.mapInfo[id].service.net}, t.vRandom[..|t.vRandom| - 1],
      t.news, t.tried)
    ensures Consistent(t', h)
    ensures NewIds(t'.mapInfo) == NewIds(t.mapInfo) - {id} && TriedIds(t'.mapInfo) == TriedIds(t.mapInfo)
  {
    hide RandomOk, AddrOk, TriedOk, NewOk;
    UnreferencedAbsent(t.mapInfo, t.news, id);
    DropRandom(t.mapInfo, t.vRandom, id);
    DropAddr(t.mapInfo, t.mapAddr, id);
    DropTried(t.mapInfo, t.tried, h, id);
    DropNew(t.mapInfo, t.news, h, id);
  }

  lemma DropRandom(m: map<int, Info>, v: seq<int>, id: int)
    requires RandomOk(m, v) && id in m && |v| > 0 && m[id].nRandomPos == |v| - 1
    ensures RandomOk(m - {id}, v[..|v| - 1])
  {
    var v' := v[..|v| - 1];
    forall i | 0 <= i < |v'| ensures v'[i] in m - {id} && (m - {id})[v'[i]].nRandomPos == i {
    }
    forall j | j in m - {id} ensures 0 <= m[j].nRandomPos < |v'| && v'[m[j].nRandomPos] == j {
      assert m[j].nRandomPos != |v| - 1;
    }
  }

  lemma DropAddr(m: map<int, Info>, a: map<NetAddr, int>, id: int)
    requires AddrOk(m, a) && id in m
    ensures AddrOk(m - {id}, a - {m[id].service.net})
  {
  }

  lemma DropTried(m: map<int, Info>, tried: map<Slot, int>, h: Hasher, id: int)
    requires TriedOk(m, tried, h) && id in m && !m[id].fInTried
    ensures TriedOk(m - {id}, tried, h)
  {
    hide Hasher.TriedSlot;
  }

  lemma DropNew(m: map<int, Info>, news: map<Slot, int>, h: Hasher, id: int)
    requires NewOk(m, news, h) && id in m
    requires forall s :: s in news ==> news[s] != id
    ensures NewOk(m - {id}, news, h)
  {
    hide Hasher.Position;
  }

  /** An update of one entry that keeps its address, place and status leaves these indexes alone. */
  lemma EntryFrame(t: Tables, h: Hasher, id: int, info: Info)
    requires id in t.mapInfo
    requires info.service == t.mapInfo[id].service && info.nRandomPos == t.mapInfo[id].nRandomPos
    requires RandomOk(t.mapInfo, t.vRandom) && AddrOk(t.mapInfo, t.mapAddr)
    ensures RandomOk(t.mapInfo[id := info], t.vRandom) && AddrOk(t.mapInfo[id := info], t.mapAddr)
    ensures info.fInTried == t.mapInfo[id].fInTried && TriedOk(t.mapInfo, t.tried, h) ==>
      TriedOk(t.mapInfo[id := info], t.tried, h)
    ensures info.fInTried == t.mapInfo[id].fInTried && NewOk(t.mapInfo, t.news, h) ==>
      NewOk(t.mapInfo[id := info], t.news, h)
    ensures info.fInTried == t.mapInfo[id].fInTried ==>
      NewIds(t.mapInfo[id := info]) == NewIds(t.mapInfo) && TriedIds(t.mapInfo[id := info]) == TriedIds(t.mapInfo)
  {
    hide RandomOk, AddrOk, TriedOk, NewOk;
    var m' := t.mapInfo[id := info];
    RandomFrame(t.mapInfo, m', t.vRandom);
    AddrFrame(t.mapInfo, m', t.mapAddr);
    if info.fInTried == t.mapInfo[id].fInTried {
      SameIds(t.mapInfo, m');
      if TriedOk(t.mapInfo, t.tried, h) {
        TriedFrame(t.mapInfo, m', t.tried, h);
      }
      if NewOk(t.mapInfo, t.news, h) {
        NewFrame(t.mapInfo, m', t.news, h);
      }
    }
  }

  /** Emptying a slot and lowering the count of the entry that was in it. */
  lemma UnrefConsistent(t: Tables, t': Tables, h: Hasher, s: Slot)
    requires Consistent(t, h)
    requires s in t.news && t.news[s] in t.mapInfo
    requires var x := t.news[s];
      t' == t.(mapInfo := t.mapInfo[x := t.mapInfo[x].(nRefCount := t.mapInfo[x].nRefCount - 1)], news := t.news - {s})
    ensures t.mapInfo[t.news[s]].nRefCount > 0
    ensures Consistent(t', h)
    ensures NewIds(t'.mapInfo) == NewIds(t.mapInfo) && TriedIds(t'.mapInfo) == TriedIds(t.mapInfo)
  {
    hide RandomOk, AddrOk, TriedOk, NewOk, Refs;
    var x := t.news[s];
    EntryFrame(t, h, x, t'.mapInfo[x]);
    RefsDrop(t.news, s, x);
    FewerSlots(t'.mapInfo, t.news, h, s);
    forall id | id in t'.mapInfo ensures t'.mapInfo[id].nRefCount == |Refs(t'.news, id)| {
      RefsDrop(t.news, s, id);
    }
  }

  lemma FewerSlots(m: map<int, Info>, news: map<Slot, int>, h: Hasher, s: Slot)
    requires NewOk(m, news, h)
    ensures NewOk(m, news - {s}, h)
  {
    hide Hasher.Position;
  }

  lemma MoreSlots(m: map<int, Info>, news: map<Slot, int>, h: Hasher, s: Slot, id: int)
    requires NewOk(m, news, h)
    requires id in m && !m[id].fInTried
    requires s.bucket < NEW_BUCKET_COUNT && s.pos == h.Position(m[id].service, true, s.bucket)
    ensures NewOk(m, news[s := id], h)
  {
    hide Hasher.Position;
  }

  /** Entering an untried entry into an empty slot at its position and raising its count. */
  lemma RefConsistent(t: Tables, t': Tables, h: Hasher, s: Slot, id: int)
    requires Consistent(t, h)
    requires id in t.mapInfo && !t.mapInfo[id].fInTried && s !in t.news
    requires s.bucket < NEW_BUCKET_COUNT && s.pos == h.Position(t.mapInfo[id].service, true, s.bucket)
    requires t' == t.(mapInfo := t.mapInfo[id := t.mapInfo[id].(nRefCount := t.mapInfo[id].nRefCount + 1)],
      news := t.news[s := id])
    ensures Consistent(t', h)
    ensures NewIds(t'.mapInfo) == NewIds(t.mapInfo) && TriedIds(t'.mapInfo) == TriedIds(t.mapInfo)
  {
    hide RandomOk, AddrOk, TriedOk, NewOk, Refs, Hasher.Position;
    EntryFrame(t, h, id, t'.mapInfo[id]);
    MoreSlots(t'.mapInfo, t.news, h, s, id);
    forall j | j in t'.mapInfo ensures t'.mapInfo[j].nRefCount == |Refs(t'.news, j)| {
      RefsPut(t.news, s, id, j);
    }
  }

  /** Creating an entry under a new id for an address not yet known. */
  lemma CreateConsistent(t: Tables, t': Tables, h: Hasher, id: int, info: Info)
    requires Consistent(t, h)
    requires id !in t.mapInfo && info.service.net !in t.mapAddr
    requires info.nRefCount == 0 && !info.fInTried && info.nRandomPos == |t.vRandom|
    requires info.nLastTry == 0 && info.nLastSuccess == 0
    requires t' == t.(mapInfo := t.mapInfo[id := info], mapAddr := t.mapAddr[info.service.net := id],
      vRandom := t.vRandom + [id])
    ensures Consistent(t', h)
    ensures NewIds(t'.mapInfo) == NewIds(t.mapInfo) + {id} && TriedIds(t'.mapInfo) == TriedIds(t.mapInfo)
  {
    hide RandomOk, AddrOk, TriedOk, NewOk;
    NewRefs(t.mapInfo, t.news, h, id);
    CreateRandom(t.mapInfo, t.vRandom, id, info);
    CreateAddr(t.mapInfo, t.mapAddr, id, info);
    CreateTried(t.mapInfo, t.tried, h, id, info);
    CreateNew(t.mapInfo, t.news, h, id, info);
  }

  lemma NewRefs(m: map<int, Info>, news: map<Slot, int>, h: Hasher, id: int)
    requires NewOk(m, news, h) && id !in m
    ensures Refs(news, id) == {}
  {
    hide Hasher.Position;
  }

  lemma CreateRandom(m: map<int, Info>, v: seq<int>, id: int, info: Info)
    requires RandomOk(m, v) && id !in m && info.nRandomPos == |v|
    ensures RandomOk(m[id := info], v + [id])
  {
  }

  lemma CreateAddr(m: map<int, Info>, a: map<NetAddr, int>, id: int, info: Info)
    requires AddrOk(m, a) && id !in m && info.service.net !in a
    ensures AddrOk(m[id := info], a[info.service.net := id])
  {
  }

  lemma CreateTried(m: map<int, Info>, tried: map<Slot, int>, h: Hasher, id: int, info: Info)
    requires TriedOk(m, tried, h) && id !in m && !info.fInTried
    ensures TriedOk(m[id := info], tried, h)
  {
    hide Hasher.TriedSlot;
  }

  lemma CreateNew(m: map<int, Info>, news: map<Slot, int>, h: Hasher, id: int, info: Info)
    requires NewOk(m, news, h) && id !in m
    ensures NewOk(m[id := info], news, h)
  {
    hide Hasher.Position;
  }

  /** Taking an entry out of the tried table. */
  lemma UntryConsistent(t: Tables, t': Tables, h: Hasher, s: Slot)
    requires Consistent(t, h)
    requires s in t.tried && t.tried[s] in t.mapInfo
    requires var e := t.tried[s];
      t' == t.(mapInfo := t.mapInfo[e := t.mapInfo[e].(fInTried := false)], tried := t.tried - {s})
    ensures t.mapInfo[t.tried[s]].nRefCount == 0 && t.mapInfo[t.tried[s]].fInTried
    ensures Consistent(t', h)
    ensures NewIds(t'.mapInfo) == NewIds(t.mapInfo) + {t.tried[s]}
      && TriedIds(t'.mapInfo) == TriedIds(t.mapInfo) - {t.tried[s]}
  {
    hide RandomOk, AddrOk, TriedOk, NewOk;
    var e := t.tried[s];
    UntryTried(t.mapInfo, t.tried, h, s);
    TriedUnreferenced(t.mapInfo, t.news, h, e);
    EntryFrame(t, h, e, t'.mapInfo[e]);
    StatusNew(t.mapInfo, t.news, h, e, t'.mapInfo[e]);
  }

  lemma UntryTried(m: map<int, Info>, tried: map<Slot, int>, h: Hasher, s: Slot)
    requires TriedOk(m, tried, h) && s in tried && tried[s] in m
    ensures m[tried[s]].fInTried
    ensures TriedOk(m[tried[s] := m[tried[s]].(fInTried := false)], tried - {s}, h)
  {
    hide Hasher.TriedSlot;
  }

  /** Changing the status of an entry that no new-table slot holds. */
  lemma StatusNew(m: map<int, Info>, news: map<Slot, int>, h: Hasher, e: int, info: Info)
    requires NewOk(m, news, h) && Refs(news, e) == {} && e in m
    ensures NewOk(m[e := info], news, h)
  {
    hide Hasher.Position;
    forall s | s in news ensures news[s] != e {
      assert news[s] == e ==> s in Refs(news, e);
    }
  }

  lemma TriedUnreferenced(m: map<int, Info>, news: map<Slot, int>, h: Hasher, e: int)
    requires NewOk(m, news, h) && CountsOk(m, news)
    requires e in m && m[e].fInTried
    ensures Refs(news, e) == {} && m[e].nRefCount == 0
  {
    hide Hasher.Position;
    assert Refs(news, e) == {};
  }

  /** Entering an unreferenced entry into its empty tried slot. */
  lemma TryConsistent(t: Tables, t': Tables, h: Hasher, id: int)
    requires Consistent(t, h)
    requires id in t.mapInfo && !t.mapInfo[id].fInTried && t.mapInfo[id].nRefCount == 0
      && t.mapInfo[id].nLastSuccess > 0
    requires h.TriedSlot(t.mapInfo[id].service) !in t.tried
    requires t' == t.(mapInfo := t.mapInfo[id := t.mapInfo[id].(fInTried := true)],
                      tried := t.tried[h.TriedSlot(t.mapInfo[id].service) := id])
    ensures Consistent(t', h)
    ensures NewIds(t'.mapInfo) == NewIds(t.mapInfo) - {id} && TriedIds(t'.mapInfo) == TriedIds(t.mapInfo) + {id}
  {
    hide RandomOk, AddrOk, TriedOk, NewOk, Hasher.TriedSlot;
    UnreferencedAbsent(t.mapInfo, t.news, id);
    EntryFrame(t, h, id, t'.mapInfo[id]);
    StatusNew(t.mapInfo, t.news, h, id, t'.mapInfo[id]);
    TryTried(t.mapInfo, t.tried, h, id);
  }

  lemma TryTried(m: map<int, Info>, tried: map<Slot, int>, h: Hasher, id: int)
    requires TriedOk(m, tried, h) && id in m && !m[id].fInTried && h.TriedSlot(m[id].service) !in tried
    ensures TriedOk(m[id := m[id].(fInTried := true)], tried[h.TriedSlot(m[id].service) := id], h)
  {
    hide Hasher.TriedSlot;
  }

  lemma UnreferencedAbsent(m: map<int, Info>, news: map<Slot, int>, id: int)
    requires CountsOk(m, news)
    requires id in m && m[id].nRefCount == 0
    ensures Refs(news, id) == {}
    ensures forall s :: s in news ==> news[s] != id
  {
    assert Refs(news, id) == {};
    forall s | s in news ensures news[s] != id {
      assert news[s] == id ==> s in Refs(news, id);
    }
  }

  /** Updating statistics that no index depends on. */
  lemma StatsConsistent(t: Tables, t': Tables, h: Hasher, id: int, info: Info)
    requires Consistent(t, h)
    requires id in t.mapInfo && t' == t.(mapInfo := t.mapInfo[id := info])
    requires var was := t.mapInfo[id];
      && info.service == was.service && info.nRefCount == was.nRefCount && info.fInTried == was.fInTried
      && info.nRandomPos == was.nRandomPos
      && info.nLastTry >= 0 && info.nLastSuccess >= 0 && (was.fInTried ==> info.nLastSuccess > 0)
    ensures Consistent(t', h)
    ensures NewIds(t'.mapInfo) == NewIds(t.mapInfo) && TriedIds(t'.mapInfo) == TriedIds(t.mapInfo)
  {
    hide RandomOk, AddrOk, TriedOk, NewOk;
    EntryFrame(t, h, id, info);
  }
}
