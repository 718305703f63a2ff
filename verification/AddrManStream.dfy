/** Saving the address manager and loading it back. The ids are not saved: loading renumbers the
    entries, untried ones first, and rebuilds every index. */
module AddrManStream {
  import opened AddrMan
  import opened AddrManager

  /** The fields of an entry that are saved. */
  datatype Record = Record(addr: Address, source: NetAddr, nLastSuccess: int, nAttempts: int)

  /** The saved values in the order they are written: version, key size and key, the bucket count
      (with bit 30 flipped), the untried entries, the tried entries, and per bucket the entry numbers. */
  datatype Saved = Saved(
    nVersion: int, nKeySize: int, nKey: nat, nUBuckets: int,
    news: seq<Record>, trieds: seq<Record>, buckets: seq<seq<int>>)

  const BIT30 := 0x4000_0000

  /** x ^ (1 << 30). */
  function FlipBit30(x: int): int {
    if (x / BIT30) % 2 == 1 then x - BIT30 else x + BIT30
  }

  function ToRecord(info: AddrInfo): Record {
    Record(info.addr, info.source, info.nLastSuccess, info.nAttempts)
  }

  /** The entry that a record is read into, its memory-only fields initialised. */
  function FromRecord(r: Record): AddrInfo {
    NewInfo(r.addr, r.source).(nLastSuccess := r.nLastSuccess, nAttempts := r.nAttempts)
  }

  // ---------- renumbering ----------

  /** The tried (or the untried) ids below `n`, in increasing order. */
  function Order(entries: map<int, AddrInfo>, tried: bool, n: nat): seq<int> {
    if n == 0 then []
    else
      Order(entries, tried, n - 1)
      + if n - 1 in entries && entries[n - 1].fInTried == tried then [n - 1] else []
  }

  /** The number an entry gets: untried entries first, each kind in the order of the old ids. */
  function Renumber(entries: map<int, AddrInfo>, ids: nat, id: nat): nat
    requires id in entries
  {
    if entries[id].fInTried then |Order(entries, false, ids)| + |Order(entries, true, id)|
    else |Order(entries, false, id)|
  }

  lemma {:induction false} OrderHas(entries: map<int, AddrInfo>, tried: bool, n: nat)
    ensures forall i :: 0 <= i < |Order(entries, tried, n)| ==>
              var id := Order(entries, tried, n)[i];
              0 <= id < n && id in entries && entries[id].fInTried == tried
    ensures forall i, j :: 0 <= i < j < |Order(entries, tried, n)| ==>
      Order(entries, tried, n)[i] < Order(entries, tried, n)[j]
  {
    if n > 0 { OrderHas(entries, tried, n - 1); }
  }

  lemma {:induction false} OrderAt(entries: map<int, AddrInfo>, tried: bool, n: nat, id: nat)
    requires id < n && id in entries && entries[id].fInTried == tried
    ensures |Order(entries, tried, id)| < |Order(entries, tried, n)|
    ensures Order(entries, tried, n)[|Order(entries, tried, id)|] == id
  {
    if id < n - 1 { OrderAt(entries, tried, n - 1, id); }
  }

  /** Ids below `n` with the given mark. */
  ghost function Marked(entries: map<int, AddrInfo>, tried: bool, n: nat): set<int> {
    set id | id in entries && entries[id].fInTried == tried && 0 <= id < n
  }

  lemma {:induction false} OrderCounts(entries: map<int, AddrInfo>, tried: bool, n: nat)
    ensures |Order(entries, tried, n)| == |Marked(entries, tried, n)|
  {
    if n == 0 {
      assert Marked(entries, tried, 0) == {};
    } else {
      OrderCounts(entries, tried, n - 1);
      if n - 1 in entries && entries[n - 1].fInTried == tried {
        assert Marked(entries, tried, n) == Marked(entries, tried, n - 1) + {n - 1};
      } else {
        assert Marked(entries, tried, n) == Marked(entries, tried, n - 1);
      }
    }
  }

  /** The renumbering is one to one, below the number of entries, and untried entries come first. */
  lemma RenumberInjective(entries: map<int, AddrInfo>, ids: nat, i: nat, j: nat)
    requires i in entries && j in entries && i < ids && j < ids
    ensures Renumber(entries, ids, i) < |Order(entries, false, ids)| + |Order(entries, true, ids)|
    ensures Renumber(entries, ids, i) < |Order(entries, false, ids)| <==> !entries[i].fInTried
    ensures Renumber(entries, ids, i) == Renumber(entries, ids, j) ==> i == j
  {
    OrderAt(entries, entries[i].fInTried, ids, i);
    OrderAt(entries, entries[j].fInTried, ids, j);
  }

  // ---------- what is saved ----------

  /** The record of an id (a blank one for an id that is not there). */
  function RecordOf(entries: map<int, AddrInfo>, id: int): Record {
    if id in entries then ToRecord(entries[id])
    else Record(Address(Service(NetAddr(0), 0), 0, 0), NetAddr(0), 0, 0)
  }

  function Records(entries: map<int, AddrInfo>, ids: seq<int>): seq<Record> {
    seq(|ids|, i requires 0 <= i < |ids| => RecordOf(entries, ids[i]))
  }

  /** The entry numbers of the occupied slots of a bucket below position `p`. */
  function BucketNumbers(v: View, ids: nat, b: int, p: nat): seq<int> {
    if p == 0 then []
    else
      var t := Slot(b, p - 1);
      BucketNumbers(v, ids, b, p - 1)
      + if t in v.new_ && v.new_[t] >= 0 && v.new_[t] in v.entries
        then [Renumber(v.entries, ids, v.new_[t])] else []
  }

  function SavedOf(h: Hasher, v: View, ids: nat): Saved {
    Saved(1, 32, h.nKey, FlipBit30(NEW_BUCKET_COUNT),
          Records(v.entries, Order(v.entries, false, ids)),
          Records(v.entries, Order(v.entries, true, ids)),
          seq(NEW_BUCKET_COUNT, b => BucketNumbers(v, ids, b, BUCKET_SIZE)))
  }

  /** The occupied positions of a bucket below `p`. */
  ghost function PlacesBelow(v: View, b: int, p: int): set<int> { set q | 0 <= q < p && Slot(b, q) in v.new_ }

  /** Every new slot holds an untried entry with an id below `ids`. */
  ghost predicate HoldersIn(v: View, ids: nat) {
    forall t :: t in v.new_ ==> v.new_[t] in v.entries && 0 <= v.new_[t] < ids && !v.entries[v.new_[t]].fInTried
  }

  /** What is written: each entry's address, source, last success and attempts, at the place given by how many of its
      kind have lower ids; and for each slot of a bucket, at the place given by how many below it are taken, the place
      that its entry has among the untried ones. */
  lemma SavedIs(h: Hasher, v: View, ids: nat)
    requires HoldersIn(v, ids)
    ensures var sv := SavedOf(h, v, ids);
      && sv.nVersion == 1 && sv.nKeySize == 32 && sv.nKey == h.nKey && sv.nUBuckets == 0x4000_0400
      && |sv.news| == |Marked(v.entries, false, ids)| && |sv.trieds| == |Marked(v.entries, true, ids)|
      && |sv.buckets| == 1024
    ensures forall id :: id in v.entries && 0 <= id < ids ==>
      var info, sv := v.entries[id], SavedOf(h, v, ids);
      var recs, n := if info.fInTried then sv.trieds else sv.news, |Marked(v.entries, info.fInTried, id)|;
      n < |recs| && recs[n] == Record(info.addr, info.source, info.nLastSuccess, info.nAttempts)
    ensures forall b :: 0 <= b < 1024 ==> |SavedOf(h, v, ids).buckets[b]| == |PlacesBelow(v, b, 64)|
    ensures forall b, p :: 0 <= b < 1024 && 0 <= p < 64 && Slot(b, p) in v.new_ ==>
      var numbers := SavedOf(h, v, ids).buckets[b];
      && |PlacesBelow(v, b, p)| < |numbers|
      && numbers[|PlacesBelow(v, b, p)|] == |Marked(v.entries, false, v.new_[Slot(b, p)])|
  {
    hide Order, BucketNumbers, PlacesBelow, Marked;
    OrderCounts(v.entries, false, ids);
    OrderCounts(v.entries, true, ids);
    forall id | id in v.entries && 0 <= id < ids
      ensures var info, sv := v.entries[id], SavedOf(h, v, ids);
        var recs, n := if info.fInTried then sv.trieds else sv.news, |Marked(v.entries, info.fInTried, id)|;
        n < |recs| && recs[n] == Record(info.addr, info.source, info.nLastSuccess, info.nAttempts)
    {
      OrderAt(v.entries, v.entries[id].fInTried, ids, id);
      OrderCounts(v.entries, v.entries[id].fInTried, id);
    }
    forall b | 0 <= b < 1024 ensures |SavedOf(h, v, ids).buckets[b]| == |PlacesBelow(v, b, 64)| {
      BucketCounts(v, ids, b, 64);
    }
    forall b, p | 0 <= b < 1024 && 0 <= p < 64 && Slot(b, p) in v.new_
      ensures var numbers := SavedOf(h, v, ids).buckets[b];
        && |PlacesBelow(v, b, p)| < |numbers|
        && numbers[|PlacesBelow(v, b, p)|] == |Marked(v.entries, false, v.new_[Slot(b, p)])|
    {
      BucketAt(v, ids, b, 64, p);
      BucketCounts(v, ids, b, p);
      OrderCounts(v.entries, false, v.new_[Slot(b, p)]);
    }
  }

  lemma {:induction false} BucketCounts(v: View, ids: nat, b: int, p: nat)
    requires HoldersIn(v, ids)
    ensures |BucketNumbers(v, ids, b, p)| == |PlacesBelow(v, b, p)|
  {
    if p == 0 {
      assert PlacesBelow(v, b, 0) == {};
    } else {
      BucketCounts(v, ids, b, p - 1);
      assert PlacesBelow(v, b, p) == PlacesBelow(v, b, p - 1) + if Slot(b, p - 1) in v.new_ then {p - 1} else {};
    }
  }

  lemma {:induction false} BucketAt(v: View, ids: nat, b: int, p: nat, q: nat)
    requires HoldersIn(v, ids) && q < p && Slot(b, q) in v.new_
    ensures |BucketNumbers(v, ids, b, q)| < |BucketNumbers(v, ids, b, p)|
    ensures BucketNumbers(v, ids, b, p)[|BucketNumbers(v, ids, b, q)|] == |Order(v.entries, false, v.new_[Slot(b, q)])|
  {
    if q < p - 1 { BucketAt(v, ids, b, p - 1, q); }
  }

  lemma RecordsNone(entries: map<int, AddrInfo>, tried: bool)
    ensures Records(entries, Order(entries, tried, 0)) == []
  { }

  lemma RecordsNext(entries: map<int, AddrInfo>, tried: bool, n: nat)
    ensures |Records(entries, Order(entries, tried, n))| == |Order(entries, tried, n)|
    ensures Records(entries, Order(entries, tried, n + 1)) ==
            Records(entries, Order(entries, tried, n))
            + if n in entries && entries[n].fInTried == tried then [ToRecord(entries[n])] else []
  { }

  /** First loop: the untried entries, and the number each id will have. */
  method SaveNews(m: Manager) returns (news: seq<Record>, mapUnkIds: map<int, int>)
    requires m.Consistent()
    ensures news == Records(m.V().entries, Order(m.V().entries, false, m.nIdCount))
    ensures mapUnkIds.Keys == m.mapInfo.Keys
    ensures forall k :: k in mapUnkIds ==> k >= 0 && mapUnkIds[k] == |Order(m.V().entries, false, k)|
  {
    hide TablesOk, AddressesDistinct, RandomOk, CountsOk, Occupied, Cores, Order, Records;
    ghost var entries := m.V().entries;
    Totals(m);
    CoresAt(m.mapInfo);
    RecordsNone(entries, false);
    mapUnkIds := map[];
    news := [];
    for id := 0 to m.nIdCount
      invariant forall k :: k in mapUnkIds <==> k in m.mapInfo && k < id
      invariant forall k :: k in mapUnkIds ==> k >= 0 && mapUnkIds[k] == |Order(entries, false, k)|
      invariant news == Records(entries, Order(entries, false, id))
    {
      RecordsNext(entries, false, id);
      if id in m.mapInfo {
        mapUnkIds := mapUnkIds[id := |news|];
        m.UntriedIsReferenced(id);
        if m.mapInfo[id].nRefCount != 0 {
          WithinCount(entries, false, id, m.nIdCount);
          assert |news| != m.nNew;
          news := news + [ToRecord(m.mapInfo[id])];
        }
      }
    }
    assert forall k :: k in mapUnkIds <==> k in m.mapInfo;
  }

  /** Second loop: the tried entries. */
  method SaveTrieds(m: Manager) returns (trieds: seq<Record>)
    requires m.Consistent()
    ensures trieds == Records(m.V().entries, Order(m.V().entries, true, m.nIdCount))
  {
    hide TablesOk, AddressesDistinct, RandomOk, CountsOk, Occupied, Cores, Order, Records;
    ghost var entries := m.V().entries;
    Totals(m);
    CoresAt(m.mapInfo);
    RecordsNone(entries, true);
    trieds := [];
    for id := 0 to m.nIdCount
      invariant trieds == Records(entries, Order(entries, true, id))
    {
      RecordsNext(entries, true, id);
      if id in m.mapInfo && m.mapInfo[id].fInTried {
        WithinCount(entries, true, id, m.nIdCount);
        assert |trieds| != m.nTried;
        trieds := trieds + [ToRecord(m.mapInfo[id])];
      }
    }
  }

  /** Third loop: which entries each bucket holds, by number. */
  method SaveBucket(m: Manager, mapUnkIds: map<int, int>, b: int) returns (numbers: seq<int>)
    requires m.Consistent()
    requires mapUnkIds.Keys == m.mapInfo.Keys
    requires forall k :: k in mapUnkIds ==> k >= 0 && mapUnkIds[k] == |Order(m.V().entries, false, k)|
    requires 0 <= b < NEW_BUCKET_COUNT
    ensures numbers == BucketNumbers(m.V(), m.nIdCount, b, BUCKET_SIZE)
  {
    hide TablesOk, AddressesDistinct, RandomOk, CountsOk, Occupied, Cores, Order;
    numbers := [];
    for p := 0 to BUCKET_SIZE
      invariant numbers == BucketNumbers(m.V(), m.nIdCount, b, p)
    {
      if m.vvNew[b, p] != -1 {
        SlotHolder(m, b, p);
        numbers := numbers + [mapUnkIds[m.vvNew[b, p]]];
      } else {
        OccupiedAt(m.vvNew);
      }
    }
  }

  /** Writes the tables out. The counters bound the number of entries written, as the
      program asserts on the way. */
  method Serialize(m: Manager) returns (sv: Saved)
    requires m.Consistent()
    ensures sv == SavedOf(m.h, m.V(), m.nIdCount)
    ensures |sv.news| == m.nNew && |sv.trieds| == m.nTried
  {
    hide TablesOk, AddressesDistinct, RandomOk, CountsOk, Occupied, Cores, Order, BucketNumbers;
    ghost var v := m.V();
    Totals(m);
    var news, mapUnkIds := SaveNews(m);
    var trieds := SaveTrieds(m);
    var buckets: seq<seq<int>> := [];
    for b := 0 to NEW_BUCKET_COUNT
      invariant |buckets| == b
      invariant forall i :: 0 <= i < b ==> buckets[i] == BucketNumbers(v, m.nIdCount, i, BUCKET_SIZE)
    {
      var numbers := SaveBucket(m, mapUnkIds, b);
      buckets := buckets + [numbers];
    }
    sv := Saved(1, 32, m.h.nKey, FlipBit30(NEW_BUCKET_COUNT), news, trieds, buckets);
    assert sv.buckets == SavedOf(m.h, v, m.nIdCount).buckets;
  }

  /** What a consistent manager writes is therefore as SavedIs says. */
  lemma Holders(m: Manager)
    requires m.Consistent()
    ensures m.nIdCount >= 0 && HoldersIn(m.V(), m.nIdCount)
  {
    CoresAt(m.mapInfo);
  }

  lemma SlotHolder(m: Manager, b: int, p: int)
    requires m.Consistent()
    requires 0 <= b < NEW_BUCKET_COUNT && 0 <= p < BUCKET_SIZE && m.vvNew[b, p] != -1
    ensures var t := Slot(b, p);
            && t in m.V().new_ && m.V().new_[t] == m.vvNew[b, p]
            && m.vvNew[b, p] in m.mapInfo && 0 <= m.vvNew[b, p] < m.nIdCount
            && m.vvNew[b, p] in m.V().entries && !m.V().entries[m.vvNew[b, p]].fInTried
  {
    OccupiedAt(m.vvNew);
    CoresAt(m.mapInfo);
  }

  lemma WithinCount(entries: map<int, AddrInfo>, tried: bool, id: nat, n: nat)
    requires id < n && id in entries && entries[id].fInTried == tried
    ensures |Order(entries, tried, id)| < |Order(entries, tried, n)|
  {
    OrderAt(entries, tried, n, id);
  }

  lemma Totals(m: Manager)
    requires m.Consistent()
    ensures |Order(m.V().entries, false, m.nIdCount)| == m.nNew
    ensures |Order(m.V().entries, true, m.nIdCount)| == m.nTried
  {
    OrderCounts(m.V().entries, false, m.nIdCount);
    OrderCounts(m.V().entries, true, m.nIdCount);
    CoresAt(m.mapInfo);
    assert Marked(m.V().entries, false, m.nIdCount) == NewIds(m.V().entries);
    assert Marked(m.V().entries, true, m.nIdCount) == TriedIds(m.V().entries);
  }

  // ---------- what loading makes ----------

  const EMPTY := View(map[], map[], map[])

  /** Entries that are in no table. */
  function Unplaced(v: View): set<int> {
    set id | id in v.entries && !v.entries[id].fInTried && v.entries[id].nRefCount == 0
  }

  /** The untried records become entries 0, 1, ...; when the saved buckets cannot be used, each
      tries the slot its own source gives. */
  function LoadNews(h: Hasher, recs: seq<Record>, useTable: bool): View {
    if recs == [] then EMPTY
    else
      var n := |recs| - 1;
      var info := FromRecord(recs[n]).Core();
      var v := Created(LoadNews(h, recs[..n], useTable), n, info);
      var t := h.NewSlot(info.addr.service, info.source);
      if !useTable && t !in v.new_ then Refer(v, t, n, info) else v
  }

  /** The tried records take the ids that follow; one whose slot is taken is lost. */
  function LoadTrieds(h: Hasher, v: View, next: nat, recs: seq<Record>): (View, nat) {
    if recs == [] then (v, next)
    else
      var n := |recs| - 1;
      var (w, id) := LoadTrieds(h, v, next, recs[..n]);
      var info := FromRecord(recs[n]).Core();
      var t := h.TriedSlot(info.addr.service);
      if t !in w.tried then (Enter(w, t, id, info), id + 1) else (w, id)
  }

  /** The entry numbers of a bucket: each gives its entry a reference there if its slot is free. */
  function LoadBucket(h: Hasher, v: View, b: int, numbers: seq<int>, nNew: int): View {
    if numbers == [] then v
    else
      var n := |numbers| - 1;
      var w := LoadBucket(h, v, b, numbers[..n], nNew);
      var id := numbers[n];
      if 0 <= id < nNew && id in w.entries then
        var t := Slot(b, h.Position(true, b, w.entries[id].addr.service));
        if t !in w.new_ && w.entries[id].nRefCount < NEW_BUCKETS_PER_ADDRESS then Refer(w, t, id, w.entries[id]) else w
      else w
  }

  function LoadBuckets(h: Hasher, v: View, buckets: seq<seq<int>>, nNew: int): View {
    if buckets == [] then v
    else
      var n := |buckets| - 1;
      LoadBucket(h, LoadBuckets(h, v, buckets[..n], nNew), n, buckets[n], nNew)
  }

  /** Entries that no table took are dropped. */
  function Prune(v: View): View {
    v.(entries := v.entries - Unplaced(v))
  }

  function UsesTable(sv: Saved): bool {
    sv.nVersion == 1 && BucketCount(sv) == NEW_BUCKET_COUNT
  }

  function BucketCount(sv: Saved): int {
    if sv.nVersion != 0 then FlipBit30(sv.nUBuckets) else sv.nUBuckets
  }

  /** The saved buckets are used exactly in a file of version 1 that has 1024 of them, as it is written. */
  lemma UsesTableIs(sv: Saved)
    ensures UsesTable(sv) <==> sv.nVersion == 1 && sv.nUBuckets == 0x4000_0400
    ensures sv.nVersion == 0 ==> BucketCount(sv) == sv.nUBuckets
    ensures sv.nVersion != 0 && 0 <= sv.nUBuckets < 0x8000_0000 ==>
      BucketCount(sv) == sv.nUBuckets + if sv.nUBuckets < 0x4000_0000 then 0x4000_0000 else -0x4000_0000
  { }

  /** What is read, before entries without a place are dropped. */
  function Placed(h: Hasher, sv: Saved): View {
    var v := LoadNews(h, sv.news, UsesTable(sv));
    var w := LoadTrieds(h, v, |sv.news|, sv.trieds).0;
    if UsesTable(sv) && |sv.buckets| >= NEW_BUCKET_COUNT
    then LoadBuckets(h, w, sv.buckets[..NEW_BUCKET_COUNT], |sv.news|) else w
  }

  function Loaded(h: Hasher, sv: Saved): View { Prune(Placed(h, sv)) }

  // ---------- loading keeps the tables right ----------

  /** The entries are the records in order, untried, and nothing is tried. */
  ghost predicate NewsLoaded(v: View, recs: seq<Record>, useTable: bool) {
    && v.tried == map[]
    && (forall id :: id in v.entries <==> 0 <= id < |recs|)
    && (forall id :: 0 <= id < |recs| ==>
          v.entries[id] == FromRecord(recs[id]).Core().(nRefCount := v.entries[id].nRefCount))
    && (useTable ==> v.new_ == map[] && forall id :: 0 <= id < |recs| ==> v.entries[id].nRefCount == 0)
  }

  lemma UnplacedCreated(v: View, id: int, info: AddrInfo)
    requires id !in v.entries && info.nRefCount == 0 && !info.fInTried
    ensures Unplaced(Created(v, id, info)) == Unplaced(v) + {id}
  { }

  lemma UnplacedReferred(v: View, t: Slot, id: int)
    requires id in v.entries && v.entries[id].nRefCount >= 0
    ensures Unplaced(Refer(v, t, id, v.entries[id])) == Unplaced(v) - {id}
  { }

  lemma LoadNewsStep(v0: View, recs: seq<Record>, useTable: bool)
    requires recs != []
    requires NewsLoaded(v0, recs[..|recs| - 1], useTable)
    ensures |recs| - 1 !in v0.entries
    ensures NewsLoaded(Created(v0, |recs| - 1, FromRecord(recs[|recs| - 1]).Core()), recs, useTable)
  { }

  lemma EmptyOk(h: Hasher, useTable: bool)
    ensures TablesOk(h, EMPTY, Unplaced(EMPTY)) && NewsLoaded(EMPTY, [], useTable)
  { }

  lemma NewsReferred(v: View, recs: seq<Record>, t: Slot, id: int)
    requires NewsLoaded(v, recs, false) && 0 <= id < |recs|
    ensures NewsLoaded(Refer(v, t, id, v.entries[id]), recs, false)
  { }

  lemma {:induction false} LoadNewsOk(h: Hasher, recs: seq<Record>, useTable: bool)
    ensures NewsLoaded(LoadNews(h, recs, useTable), recs, useTable)
    ensures TablesOk(h, LoadNews(h, recs, useTable), Unplaced(LoadNews(h, recs, useTable)))
  {
    hide TablesOk, Unplaced, NewsLoaded;
    if recs == [] {
      EmptyOk(h, useTable);
    } else {
      var n := |recs| - 1;
      LoadNewsOk(h, recs[..n], useTable);
      var v0 := LoadNews(h, recs[..n], useTable);
      var info := FromRecord(recs[n]).Core();
      var v := Created(v0, n, info);
      LoadNewsStep(v0, recs, useTable);
      CreateKeepsOk(h, v0, n, info, Unplaced(v0));
      UnplacedCreated(v0, n, info);
      var t := h.NewSlot(info.addr.service, info.source);
      if !useTable && t !in v.new_ {
        ReferKeepsOk(h, v, t, n, Unplaced(v));
        UnplacedReferred(v, t, n);
        NewsReferred(v, recs, t, n);
      }
    }
  }

  /** Loading records `recs` as tried entries took `v` to `w` and the next id to `id`. */
  ghost predicate TriedsLoaded(v: View, next: nat, recs: seq<Record>, w: View, id: nat) {
    && next <= id <= next + |recs|
    && w.new_ == v.new_
    && (forall k :: k in v.entries ==> k in w.entries && w.entries[k] == v.entries[k])
    && (forall k :: k in w.entries ==> 0 <= k < id && (k in v.entries || k >= next))
    && (forall k :: k in w.entries && k !in v.entries ==> IsTriedRecord(w.entries[k], recs))
  }

  ghost predicate IsTriedRecord(info: AddrInfo, recs: seq<Record>) {
    exists i :: 0 <= i < |recs| && info == FromRecord(recs[i]).Core().(fInTried := true)
  }

  lemma TriedsLoadedStep(h: Hasher, v: View, next: nat, recs: seq<Record>, w: View, id: nat)
    requires recs != []
    requires TriedsLoaded(v, next, recs[..|recs| - 1], w, id)
    requires next !in v.entries && forall k :: k in v.entries ==> 0 <= k < next
    ensures TriedsLoaded(v, next, recs, w, id)
    ensures id !in w.entries
    ensures TriedsLoaded(v, next, recs,
              Enter(w, h.TriedSlot(recs[|recs| - 1].addr.service), id, FromRecord(recs[|recs| - 1]).Core()), id + 1)
  {
    var n := |recs| - 1;
    forall k | k in w.entries && k !in v.entries
      ensures IsTriedRecord(w.entries[k], recs)
    {
      var i :| 0 <= i < n && w.entries[k] == FromRecord(recs[..n][i]).Core().(fInTried := true);
      assert recs[..n][i] == recs[i];
    }
    var info := FromRecord(recs[n]).Core().(fInTried := true);
    assert IsTriedRecord(info, recs);
  }

  lemma {:induction false} LoadTriedsOk(h: Hasher, v: View, next: nat, recs: seq<Record>)
    requires TablesOk(h, v, Unplaced(v))
    requires forall k :: k in v.entries ==> 0 <= k < next
    ensures var (w, id) := LoadTrieds(h, v, next, recs);
            TriedsLoaded(v, next, recs, w, id) && TablesOk(h, w, Unplaced(w)) && Unplaced(w) == Unplaced(v)
  {
    hide TablesOk, Unplaced, TriedsLoaded;
    if recs == [] {
      TriedsLoadedNone(v, next);
    } else {
      var n := |recs| - 1;
      LoadTriedsOk(h, v, next, recs[..n]);
      var (w, id) := LoadTrieds(h, v, next, recs[..n]);
      var info := FromRecord(recs[n]).Core();
      TriedsLoadedStep(h, v, next, recs, w, id);
      var t := h.TriedSlot(info.addr.service);
      if t !in w.tried {
        CreateKeepsOk(h, w, id, info, Unplaced(w));
        EnterKeepsOk(h, Created(w, id, info), id, Unplaced(w) + {id});
        assert w.entries[id := info][id := info.(fInTried := true)] == w.entries[id := info.(fInTried := true)];
        UnplacedEntered(w, t, id, info);
      }
    }
  }

  lemma TriedsLoadedNone(v: View, next: nat)
    requires forall k :: k in v.entries ==> 0 <= k < next
    ensures TriedsLoaded(v, next, [], v, next)
  { }

  lemma UnplacedEntered(w: View, t: Slot, id: int, info: AddrInfo)
    requires id !in w.entries
    ensures Unplaced(Enter(w, t, id, info)) == Unplaced(w) == Unplaced(w) + {id} - {id}
  { }

  /** Only reference counts and the new table differ. */
  ghost predicate SameButRefs(v: View, w: View) {
    && w.tried == v.tried && w.entries.Keys == v.entries.Keys
    && forall id :: id in v.entries ==> w.entries[id] == v.entries[id].(nRefCount := w.entries[id].nRefCount)
  }

  lemma {:induction false} LoadBucketOk(h: Hasher, v: View, b: int, numbers: seq<int>, nNew: int)
    requires TablesOk(h, v, Unplaced(v))
    requires 0 <= b < NEW_BUCKET_COUNT
    requires forall id :: id in v.entries && 0 <= id < nNew ==> !v.entries[id].fInTried
    ensures TablesOk(h, LoadBucket(h, v, b, numbers, nNew), Unplaced(LoadBucket(h, v, b, numbers, nNew)))
    ensures SameButRefs(v, LoadBucket(h, v, b, numbers, nNew))
  {
    hide TablesOk, Unplaced;
    if numbers != [] {
      var n := |numbers| - 1;
      LoadBucketOk(h, v, b, numbers[..n], nNew);
      var w := LoadBucket(h, v, b, numbers[..n], nNew);
      var id := numbers[n];
      if 0 <= id < nNew && id in w.entries {
        var t := Slot(b, h.Position(true, b, w.entries[id].addr.service));
        if t !in w.new_ && w.entries[id].nRefCount < NEW_BUCKETS_PER_ADDRESS {
          ReferKeepsOk(h, w, t, id, Unplaced(w));
          RefsNonNegative(h, w, id);
          UnplacedReferred(w, t, id);
        }
      }
    }
  }

  lemma RefsNonNegative(h: Hasher, w: View, id: int)
    requires TablesOk(h, w, Unplaced(w)) && id in w.entries
    ensures w.entries[id].nRefCount >= 0
  { }

  lemma {:induction false} LoadBucketsOk(h: Hasher, v: View, buckets: seq<seq<int>>, nNew: int)
    requires TablesOk(h, v, Unplaced(v))
    requires |buckets| <= NEW_BUCKET_COUNT
    requires forall id :: id in v.entries && 0 <= id < nNew ==> !v.entries[id].fInTried
    ensures TablesOk(h, LoadBuckets(h, v, buckets, nNew), Unplaced(LoadBuckets(h, v, buckets, nNew)))
    ensures SameButRefs(v, LoadBuckets(h, v, buckets, nNew))
  {
    hide TablesOk, Unplaced;
    if buckets != [] {
      var n := |buckets| - 1;
      LoadBucketsOk(h, v, buckets[..n], nNew);
      LoadBucketOk(h, LoadBuckets(h, v, buckets[..n], nNew), n, buckets[n], nNew);
    }
  }

  // ---------- files in which an address is repeated ----------

  function Net(info: AddrInfo): NetAddr { info.addr.service.net }

  /** The index by address, as it is filled while records are read: a repeated address points to the last. */
  function IndexNews(recs: seq<Record>): map<NetAddr, int> {
    if recs == [] then map[]
    else IndexNews(recs[..|recs| - 1])[Net(FromRecord(recs[|recs| - 1])) := |recs| - 1]
  }

  function IndexTrieds(h: Hasher, v: View, next: nat, recs: seq<Record>, index: map<NetAddr, int>): map<NetAddr, int> {
    if recs == [] then index
    else
      var n := |recs| - 1;
      var (w, id) := LoadTrieds(h, v, next, recs[..n]);
      var rest := IndexTrieds(h, v, next, recs[..n], index);
      if h.TriedSlot(recs[n].addr.service) !in w.tried then rest[Net(FromRecord(recs[n])) := id] else rest
  }

  /** Every entry's address is in the index, and what is there is the address of an entry. */
  ghost predicate Indexes(index: map<NetAddr, int>, entries: map<int, AddrInfo>) {
    && (forall id :: id in entries ==> Net(entries[id]) in index)
    && (forall a :: a in index ==> index[a] in entries && Net(entries[index[a]]) == a)
  }

  /** As the consistency check demands: the index finds every entry by its address, and nothing else. */
  ghost predicate IndexExact(index: map<NetAddr, int>, entries: map<int, AddrInfo>) {
    && (forall id :: id in entries ==> Net(entries[id]) in index && index[Net(entries[id])] == id)
    && (forall a :: a in index ==> index[a] in entries && Net(entries[index[a]]) == a)
  }

  lemma {:induction false} IndexNewsOk(h: Hasher, recs: seq<Record>, useTable: bool)
    ensures Indexes(IndexNews(recs), LoadNews(h, recs, useTable).entries)
    ensures forall id :: id in LoadNews(h, recs, useTable).entries ==> 0 <= id < |recs|
  {
    if recs != [] {
      var n := |recs| - 1;
      IndexNewsOk(h, recs[..n], useTable);
      hide Indexes;
      IndexAdds(IndexNews(recs[..n]), LoadNews(h, recs[..n], useTable).entries, n, Net(FromRecord(recs[n])),
                LoadNews(h, recs, useTable).entries);
    } else {
      NothingIndexed();
    }
  }

  lemma NothingIndexed()
    ensures Indexes(map[], EMPTY.entries)
  { }

  lemma IndexAdds(index: map<NetAddr, int>, entries: map<int, AddrInfo>, id: int, a: NetAddr, now: map<int, AddrInfo>)
    requires Indexes(index, entries) && id !in entries && now.Keys == entries.Keys + {id}
    requires Net(now[id]) == a && forall k :: k in entries ==> now[k] == entries[k]
    ensures Indexes(index[a := id], now)
  {
    hide Net;
    var index' := index[a := id];
    forall k | k in now ensures Net(now[k]) in index' {
      if k != id { assert k in entries; }
    }
    forall b | b in index' ensures index'[b] in now && Net(now[index'[b]]) == b {
      if b != a {
        var k := index[b];
        assert k in entries && now[k] == entries[k];
      }
    }
  }

  lemma {:induction false} IndexTriedsOk(h: Hasher, v: View, next: nat, recs: seq<Record>, index: map<NetAddr, int>)
    requires Indexes(index, v.entries) && forall id :: id in v.entries ==> 0 <= id < next
    ensures var (w, id) := LoadTrieds(h, v, next, recs);
      Indexes(IndexTrieds(h, v, next, recs, index), w.entries) && forall k :: k in w.entries ==> 0 <= k < id
  {
    if recs != [] { IndexTriedsOk(h, v, next, recs[..|recs| - 1], index); }
  }

  /** The same entries with the same addresses. */
  ghost predicate SameNets(v: View, w: View) {
    w.entries.Keys == v.entries.Keys && forall id :: id in v.entries ==> Net(w.entries[id]) == Net(v.entries[id])
  }

  lemma {:induction false} BucketKeepsNets(h: Hasher, v: View, b: int, numbers: seq<int>, nNew: int)
    ensures SameNets(v, LoadBucket(h, v, b, numbers, nNew))
  {
    if numbers != [] { BucketKeepsNets(h, v, b, numbers[..|numbers| - 1], nNew); }
  }

  lemma {:induction false} BucketsKeepNets(h: Hasher, v: View, buckets: seq<seq<int>>, nNew: int)
    ensures SameNets(v, LoadBuckets(h, v, buckets, nNew))
  {
    if buckets != [] {
      var n := |buckets| - 1;
      BucketsKeepNets(h, v, buckets[..n], nNew);
      BucketKeepsNets(h, LoadBuckets(h, v, buckets[..n], nNew), n, buckets[n], nNew);
    }
  }

  function ReadIndex(h: Hasher, sv: Saved): map<NetAddr, int> {
    IndexTrieds(h, LoadNews(h, sv.news, UsesTable(sv)), |sv.news|, sv.trieds, IndexNews(sv.news))
  }

  lemma ReadIndexOk(h: Hasher, sv: Saved)
    ensures Indexes(ReadIndex(h, sv), Placed(h, sv).entries)
  {
    var v := LoadNews(h, sv.news, UsesTable(sv));
    var w := LoadTrieds(h, v, |sv.news|, sv.trieds).0;
    IndexNewsOk(h, sv.news, UsesTable(sv));
    IndexTriedsOk(h, v, |sv.news|, sv.trieds, IndexNews(sv.news));
    if UsesTable(sv) && |sv.buckets| >= NEW_BUCKET_COUNT {
      BucketsKeepNets(h, w, sv.buckets[..NEW_BUCKET_COUNT], |sv.news|);
    }
    hide LoadNews, LoadTrieds, LoadBuckets, IndexTrieds, IndexNews;
    SameIndex(ReadIndex(h, sv), w, Placed(h, sv));
  }

  lemma SameIndex(index: map<NetAddr, int>, v: View, w: View)
    requires Indexes(index, v.entries) && SameNets(v, w)
    ensures Indexes(index, w.entries)
  {
    hide Net;
    forall id | id in w.entries ensures Net(w.entries[id]) in index { assert id in v.entries; }
    forall a | a in index ensures index[a] in w.entries && Net(w.entries[index[a]]) == a {
      var id := index[a];
      assert id in v.entries && Net(w.entries[id]) == Net(v.entries[id]);
    }
  }

  /** The index once entries without a place are dropped, and with each of them its address. */
  function IndexPruned(index: map<NetAddr, int>, v: View): map<NetAddr, int> {
    index - set id | id in Unplaced(v) :: Net(v.entries[id])
  }

  /** No entry that stays has the address of another one that was read in. */
  ghost predicate Unrepeated(v: View) {
    forall i, j :: i in Prune(v).entries && j in v.entries && i != j ==> Net(v.entries[i]) != Net(v.entries[j])
  }

  /** For every file: after loading the index finds every entry by its address, and nothing else, exactly if no entry
      that stays has the address of another record that was read in. */
  lemma FileIsSound(h: Hasher, sv: Saved)
    ensures IndexExact(IndexPruned(ReadIndex(h, sv), Placed(h, sv)), Loaded(h, sv).entries) <==>
      Unrepeated(Placed(h, sv))
  {
    ReadIndexOk(h, sv);
    hide Placed, ReadIndex, Indexes, IndexExact, IndexPruned, Unrepeated, Prune;
    PrunedIsExact(ReadIndex(h, sv), Placed(h, sv));
  }

  lemma PrunedIsExact(index: map<NetAddr, int>, v: View)
    requires Indexes(index, v.entries)
    ensures IndexExact(IndexPruned(index, v), Prune(v).entries) <==> Unrepeated(v)
  {
    var gone, rest := set id | id in Unplaced(v) :: Net(v.entries[id]), IndexPruned(index, v);
    if IndexExact(rest, Prune(v).entries) {
      forall i, j | i in Prune(v).entries && j in v.entries && i != j ensures Net(v.entries[i]) != Net(v.entries[j]) {
        assert Net(v.entries[i]) in rest;
        if j in Unplaced(v) { assert Net(v.entries[j]) in gone; } else { assert j in Prune(v).entries; }
      }
    }
    if Unrepeated(v) {
      forall a | a in rest ensures rest[a] in Prune(v).entries {
        var id := index[a];
        assert Net(v.entries[id]) == a;
      }
    }
  }

  // ---------- the same, read off the file ----------

  function NetOf(r: Record): NetAddr { r.addr.service.net }

  ghost function NewSlotOf(h: Hasher, r: Record): Slot { h.NewSlot(r.addr.service, r.source) }

  ghost function TriedSlotOf(h: Hasher, r: Record): Slot { h.TriedSlot(r.addr.service) }

  /** No record before the i-th has its slot. */
  ghost predicate FirstNew(h: Hasher, recs: seq<Record>, i: nat)
    requires i < |recs|
  { forall k :: 0 <= k < i ==> NewSlotOf(h, recs[k]) != NewSlotOf(h, recs[i]) }

  ghost predicate FirstTried(h: Hasher, recs: seq<Record>, i: nat)
    requires i < |recs|
  { forall k :: 0 <= k < i ==> TriedSlotOf(h, recs[k]) != TriedSlotOf(h, recs[i]) }

  /** No untried record that stays has the address of another untried record, and no tried one that gets its slot the
      address of any untried record or of another tried one that gets its slot. */
  ghost predicate Clean(h: Hasher, news: seq<Record>, trieds: seq<Record>, stay: set<int>) {
    && (forall i, j :: 0 <= i < |news| && 0 <= j < |news| && i != j && i in stay ==> NetOf(news[i]) != NetOf(news[j]))
    && (forall i, j :: 0 <= i < |trieds| && 0 <= j < |news| && FirstTried(h, trieds, i) ==>
          NetOf(trieds[i]) != NetOf(news[j]))
    && (forall i, j :: 0 <= i < j < |trieds| && FirstTried(h, trieds, i) && FirstTried(h, trieds, j) ==>
          NetOf(trieds[i]) != NetOf(trieds[j]))
  }

  /** The untried records that get a place. */
  ghost function Staying(h: Hasher, sv: Saved): set<int> {
    var v := Placed(h, sv);
    set i | 0 <= i < |sv.news| && i in v.entries && v.entries[i].nRefCount != 0
  }

  /** The untried records that are the first to have their slot. */
  ghost function Firsts(h: Hasher, recs: seq<Record>): set<int> { set i | 0 <= i < |recs| && FirstNew(h, recs, i) }

  ghost predicate TakenNew(h: Hasher, recs: seq<Record>, n: nat, t: Slot)
    requires n <= |recs|
  { exists i :: 0 <= i < n && NewSlotOf(h, recs[i]) == t }

  ghost predicate TakenTried(h: Hasher, recs: seq<Record>, n: nat, t: Slot)
    requires n <= |recs|
  { exists i :: 0 <= i < n && TriedSlotOf(h, recs[i]) == t }

  /** The first n records are in, and the first one to have a slot has it. */
  ghost predicate NewsIn(h: Hasher, v: View, recs: seq<Record>, n: nat)
    requires n <= |recs|
  {
    && (forall t :: t in v.new_ <==> TakenNew(h, recs, n, t))
    && (forall i :: 0 <= i < n ==> i in v.entries && v.entries[i].nRefCount == if FirstNew(h, recs, i) then 1 else 0)
  }

  lemma {:induction false} NewsTakeSlots(h: Hasher, recs: seq<Record>, n: nat)
    requires n <= |recs|
    ensures NewsIn(h, LoadNews(h, recs[..n], false), recs, n)
  {
    hide LoadNews, TablesOk, NewsIn, Unplaced;
    if n == 0 {
      LoadNewsNone(h, recs[..0], false);
      NoNewsIn(h, recs);
    } else {
      NewsTakeSlots(h, recs, n - 1);
      LoadNewsNext(h, recs, n - 1, false);
      LoadNewsOk(h, recs[..n - 1], false);
      NewsInStep(h, LoadNews(h, recs[..n - 1], false), LoadNews(h, recs[..n], false), recs, n - 1);
    }
  }

  lemma NoNewsIn(h: Hasher, recs: seq<Record>)
    ensures NewsIn(h, EMPTY, recs, 0)
  { }

  lemma NewsInStep(h: Hasher, v: View, w: View, recs: seq<Record>, n: nat)
    requires n < |recs| && NewsIn(h, v, recs, n) && n !in v.entries
    requires var info, t := FromRecord(recs[n]).Core(), NewSlotOf(h, recs[n]);
      w == if t !in v.new_ then Refer(Created(v, n, info), t, n, info) else Created(v, n, info)
    ensures NewsIn(h, w, recs, n + 1)
  {
    var t := NewSlotOf(h, recs[n]);
    assert t in v.new_ <==> !FirstNew(h, recs, n);
    forall s ensures s in w.new_ <==> TakenNew(h, recs, n + 1, s) {
      assert TakenNew(h, recs, n + 1, s) <==> TakenNew(h, recs, n, s) || s == t;
    }
  }

  /** Entry k is this tried record. */
  ghost predicate IsTried(w: View, k: int, r: Record) {
    k in w.entries && w.entries[k].fInTried && w.entries[k].addr == r.addr
  }

  ghost predicate HasTried(w: View, r: Record) { exists k :: IsTried(w, k, r) }

  /** Entry k is one of the first n records, and got its slot. */
  ghost predicate WasTried(h: Hasher, w: View, k: int, recs: seq<Record>, n: nat)
    requires n <= |recs|
  { exists i :: 0 <= i < n && FirstTried(h, recs, i) && IsTried(w, k, recs[i]) }

  /** The first n records that are the first to have their slot are in, and they alone. */
  ghost predicate TriedsIn(h: Hasher, old_: set<int>, w: View, recs: seq<Record>, n: nat)
    requires n <= |recs|
  {
    && (forall t :: t in w.tried <==> TakenTried(h, recs, n, t))
    && (forall i :: 0 <= i < n && FirstTried(h, recs, i) ==> HasTried(w, recs[i]))
    && (forall k :: k in w.entries && k !in old_ ==> WasTried(h, w, k, recs, n))
  }

  lemma {:induction false} TriedsTakeSlots(h: Hasher, v: View, next: nat, recs: seq<Record>, n: nat)
    requires n <= |recs| && v.tried == map[]
    requires TablesOk(h, v, Unplaced(v)) && forall k :: k in v.entries ==> 0 <= k < next
    ensures TriedsIn(h, v.entries.Keys, LoadTrieds(h, v, next, recs[..n]).0, recs, n)
  {
    hide LoadTrieds, TablesOk, Unplaced, TriedsIn;
    if n == 0 {
      LoadTriedsNone(h, v, next, recs[..0], map[]);
      NoTriedsIn(h, v, recs);
    } else {
      TriedsTakeSlots(h, v, next, recs, n - 1);
      LoadTriedsNext(h, v, next, recs, n - 1, map[]);
      LoadTriedsOk(h, v, next, recs[..n - 1]);
      var (w, id) := LoadTrieds(h, v, next, recs[..n - 1]);
      TriedsInStep(h, v.entries.Keys, w, id, LoadTrieds(h, v, next, recs[..n]).0, recs, n - 1);
    }
  }

  lemma NoTriedsIn(h: Hasher, v: View, recs: seq<Record>)
    requires v.tried == map[]
    ensures TriedsIn(h, v.entries.Keys, v, recs, 0)
  { }

  /** Record n was entered as `id` if it is the first to have its slot. */
  ghost predicate Entered(h: Hasher, w: View, w': View, id: int, recs: seq<Record>, n: nat)
    requires n < |recs|
  {
    && (forall k, r :: IsTried(w, k, r) ==> IsTried(w', k, r))
    && (FirstTried(h, recs, n) ==> IsTried(w', id, recs[n]))
    && w'.entries.Keys == if FirstTried(h, recs, n) then w.entries.Keys + {id} else w.entries.Keys
  }

  lemma TriedsInStep(h: Hasher, old_: set<int>, w: View, id: int, w': View, recs: seq<Record>, n: nat)
    requires n < |recs| && TriedsIn(h, old_, w, recs, n) && id !in w.entries
    requires var info, t := FromRecord(recs[n]).Core(), TriedSlotOf(h, recs[n]);
      w' == if t !in w.tried then Enter(w, t, id, info) else w
    ensures TriedsIn(h, old_, w', recs, n + 1)
  {
    hide FirstTried, TakenTried, HasTried, WasTried, IsTried, Entered;
    SlotTaken(h, w, id, w', recs, n);
    forall i | 0 <= i < n + 1 && FirstTried(h, recs, i) ensures HasTried(w', recs[i]) {
      StillHas(h, w, w', id, recs, n, i);
    }
    forall k | k in w'.entries && k !in old_ ensures WasTried(h, w', k, recs, n + 1) {
      StillWas(h, w, w', id, recs, n, k);
    }
  }

  lemma SlotTaken(h: Hasher, w: View, id: int, w': View, recs: seq<Record>, n: nat)
    requires n < |recs| && id !in w.entries && forall t :: t in w.tried <==> TakenTried(h, recs, n, t)
    requires var info, t := FromRecord(recs[n]).Core(), TriedSlotOf(h, recs[n]);
      w' == if t !in w.tried then Enter(w, t, id, info) else w
    ensures Entered(h, w, w', id, recs, n)
    ensures forall t :: t in w'.tried <==> TakenTried(h, recs, n + 1, t)
  {
    TakenMore(h, recs, n);
    hide FirstTried, TakenTried;
  }

  lemma StillHas(h: Hasher, w: View, w': View, id: int, recs: seq<Record>, n: nat, i: nat)
    requires i <= n < |recs| && Entered(h, w, w', id, recs, n)
    requires FirstTried(h, recs, i) && (i < n ==> HasTried(w, recs[i]))
    ensures HasTried(w', recs[i])
  {
    hide IsTried, FirstTried;
    if i < n { var k :| IsTried(w, k, recs[i]); } else { assert IsTried(w', id, recs[n]); }
  }

  lemma StillWas(h: Hasher, w: View, w': View, id: int, recs: seq<Record>, n: nat, k: int)
    requires n < |recs| && Entered(h, w, w', id, recs, n)
    requires k in w'.entries && (k in w.entries ==> WasTried(h, w, k, recs, n))
    ensures WasTried(h, w', k, recs, n + 1)
  {
    hide IsTried, FirstTried;
    if k in w.entries {
      var i :| 0 <= i < n && FirstTried(h, recs, i) && IsTried(w, k, recs[i]);
    } else {
      assert IsTried(w', k, recs[n]);
    }
  }

  lemma TakenMore(h: Hasher, recs: seq<Record>, n: nat)
    requires n < |recs|
    ensures FirstTried(h, recs, n) <==> !TakenTried(h, recs, n, TriedSlotOf(h, recs[n]))
    ensures forall t :: TakenTried(h, recs, n + 1, t) <==> TakenTried(h, recs, n, t) || t == TriedSlotOf(h, recs[n])
  {
    forall t ensures TakenTried(h, recs, n + 1, t) <==> TakenTried(h, recs, n, t) || t == TriedSlotOf(h, recs[n]) { }
  }

  /** What was read in is the untried records, each under its number, and the tried ones that are the first to have
      their slot. */
  ghost predicate FromFile(h: Hasher, v: View, news: seq<Record>, trieds: seq<Record>) {
    && (forall k :: 0 <= k < |news| ==>
          k in v.entries && !v.entries[k].fInTried && Net(v.entries[k]) == NetOf(news[k]))
    && (forall k :: k in v.entries && !(0 <= k < |news|) ==> WasTried(h, v, k, trieds, |trieds|))
    && (forall i :: 0 <= i < |trieds| && FirstTried(h, trieds, i) ==> HasTried(v, trieds[i]))
  }

  lemma PlacedIs(h: Hasher, sv: Saved)
    ensures FromFile(h, Placed(h, sv), sv.news, sv.trieds) && TriedTableOk(h, Placed(h, sv))
  {
    var v := LoadNews(h, sv.news, UsesTable(sv));
    var w := LoadTrieds(h, v, |sv.news|, sv.trieds).0;
    BothRead(h, sv);
    BothLoaded(h, sv.news, sv.trieds, UsesTable(sv));
    hide TablesOk, LoadNews, LoadTrieds, LoadBuckets, FromFile, Unplaced;
    if UsesTable(sv) && |sv.buckets| >= NEW_BUCKET_COUNT {
      LoadBucketsOk(h, w, sv.buckets[..NEW_BUCKET_COUNT], |sv.news|);
      SameFile(h, w, Placed(h, sv), sv.news, sv.trieds);
    }
    TriedIsOk(h, Placed(h, sv));
  }

  lemma TriedIsOk(h: Hasher, v: View)
    requires TablesOk(h, v, Unplaced(v))
    ensures TriedTableOk(h, v)
  { }

  lemma BothRead(h: Hasher, sv: Saved)
    ensures FromFile(h, LoadTrieds(h, LoadNews(h, sv.news, UsesTable(sv)), |sv.news|, sv.trieds).0, sv.news, sv.trieds)
  {
    hide TablesOk, LoadNews, LoadTrieds, Unplaced;
    var v := LoadNews(h, sv.news, UsesTable(sv));
    LoadNewsOk(h, sv.news, UsesTable(sv));
    LoadTriedsOk(h, v, |sv.news|, sv.trieds);
    TriedsTakeSlots(h, v, |sv.news|, sv.trieds, |sv.trieds|);
    assert sv.trieds[..|sv.trieds|] == sv.trieds;
  }

  lemma SameFile(h: Hasher, w: View, u: View, news: seq<Record>, trieds: seq<Record>)
    requires FromFile(h, w, news, trieds) && SameButRefs(w, u)
    ensures FromFile(h, u, news, trieds)
  {
    assert forall k, r :: IsTried(w, k, r) ==> IsTried(u, k, r);
  }

  /** For every file: loading gives a consistent manager exactly if the file is clean. */
  lemma CleanIsSound(h: Hasher, sv: Saved)
    ensures Unrepeated(Placed(h, sv)) <==> Clean(h, sv.news, sv.trieds, Staying(h, sv))
  {
    PlacedIs(h, sv);
    hide Placed, TriedTableOk, Unrepeated, FromFile, Clean;
    var v, stay := Placed(h, sv), Staying(h, sv);
    if Clean(h, sv.news, sv.trieds, stay) { CleanIsUnrepeated(h, v, sv.news, sv.trieds, stay); }
    if Unrepeated(v) { UnrepeatedIsClean(h, v, sv.news, sv.trieds, stay); }
  }

  ghost predicate Stays(v: View, n: nat, stay: set<int>) {
    forall i :: i in stay <==> 0 <= i < n && i in v.entries && v.entries[i].nRefCount != 0
  }

  lemma CleanIsUnrepeated(h: Hasher, v: View, news: seq<Record>, trieds: seq<Record>, stay: set<int>)
    requires FromFile(h, v, news, trieds) && TriedTableOk(h, v) && Stays(v, |news|, stay)
    requires Clean(h, news, trieds, stay)
    ensures Unrepeated(v)
  {
    hide FromFile, TriedTableOk, Clean;
    forall i, j | i in Prune(v).entries && j in v.entries && i != j ensures Net(v.entries[i]) != Net(v.entries[j]) {
      if 0 <= i < |news| {
        NewIsUnrepeated(h, v, news, trieds, stay, i, j);
      } else if 0 <= j < |news| {
        TriedIsUnrepeated(h, v, news, trieds, stay, i, j);
      } else {
        TriedsAreUnrepeated(h, v, news, trieds, stay, i, j);
      }
    }
  }

  lemma NewIsUnrepeated(h: Hasher, v: View, news: seq<Record>, trieds: seq<Record>, stay: set<int>, i: int, j: int)
    requires FromFile(h, v, news, trieds) && Clean(h, news, trieds, stay)
    requires 0 <= i < |news| && i in v.entries && (v.entries[i].fInTried || i in stay) && j in v.entries && i != j
    ensures Net(v.entries[i]) != Net(v.entries[j])
  {
    if !(0 <= j < |news|) { TriedIsUnrepeated(h, v, news, trieds, stay, j, i); }
  }

  lemma TriedIsUnrepeated(h: Hasher, v: View, news: seq<Record>, trieds: seq<Record>, stay: set<int>, i: int, j: int)
    requires FromFile(h, v, news, trieds) && Clean(h, news, trieds, stay)
    requires i in v.entries && !(0 <= i < |news|) && 0 <= j < |news|
    ensures Net(v.entries[i]) != Net(v.entries[j])
  {
    hide FirstTried;
    var a :| 0 <= a < |trieds| && FirstTried(h, trieds, a) && IsTried(v, i, trieds[a]);
  }

  lemma TriedsAreUnrepeated(h: Hasher, v: View, news: seq<Record>, trieds: seq<Record>, stay: set<int>, i: int, j: int)
    requires FromFile(h, v, news, trieds) && TriedTableOk(h, v) && Clean(h, news, trieds, stay)
    requires i in v.entries && j in v.entries && !(0 <= i < |news|) && !(0 <= j < |news|) && i != j
    ensures Net(v.entries[i]) != Net(v.entries[j])
  {
    hide FirstTried, TriedTableOk;
    var a :| 0 <= a < |trieds| && FirstTried(h, trieds, a) && IsTried(v, i, trieds[a]);
    var b :| 0 <= b < |trieds| && FirstTried(h, trieds, b) && IsTried(v, j, trieds[b]);
    OneIdEach(h, v, i, j);
  }

  /** Two tried entries do not have the same service. */
  lemma OneIdEach(h: Hasher, v: View, i: int, j: int)
    requires TriedTableOk(h, v) && i in v.entries && j in v.entries && v.entries[i].fInTried && v.entries[j].fInTried
    requires i != j
    ensures v.entries[i].addr.service != v.entries[j].addr.service
  { }

  lemma UnrepeatedIsClean(h: Hasher, v: View, news: seq<Record>, trieds: seq<Record>, stay: set<int>)
    requires FromFile(h, v, news, trieds) && Stays(v, |news|, stay)
    requires Unrepeated(v)
    ensures Clean(h, news, trieds, stay)
  {
    forall i, j | 0 <= i < |trieds| && 0 <= j < |news| && FirstTried(h, trieds, i)
      ensures NetOf(trieds[i]) != NetOf(news[j])
    {
      var k :| IsTried(v, k, trieds[i]);
    }
    forall i, j | 0 <= i < j < |trieds| && FirstTried(h, trieds, i) && FirstTried(h, trieds, j)
      ensures NetOf(trieds[i]) != NetOf(trieds[j])
    {
      var k :| IsTried(v, k, trieds[i]);
      var l :| IsTried(v, l, trieds[j]);
      assert TriedSlotOf(h, trieds[i]) != TriedSlotOf(h, trieds[j]);
    }
  }

  /** Where the saved buckets are not used, the untried records that stay are those that are the first to have their
      slot: whether the file is clean is then a matter of its records and the key alone. */
  lemma FirstsStay(h: Hasher, sv: Saved)
    requires !UsesTable(sv)
    ensures Staying(h, sv) == Firsts(h, sv.news)
    ensures Unrepeated(Placed(h, sv)) <==> Clean(h, sv.news, sv.trieds, Firsts(h, sv.news))
  {
    hide TablesOk, LoadNews, LoadTrieds, Unplaced, Clean, Unrepeated;
    var v := LoadNews(h, sv.news, false);
    NewsTakeSlots(h, sv.news, |sv.news|);
    assert sv.news[..|sv.news|] == sv.news;
    LoadNewsOk(h, sv.news, false);
    LoadTriedsOk(h, v, |sv.news|, sv.trieds);
    assert Staying(h, sv) == Firsts(h, sv.news);
    CleanIsSound(h, sv);
  }

  /** No two records have the same network address. */
  ghost predicate RecordsDistinct(recs: seq<Record>) {
    forall i, j :: 0 <= i < j < |recs| ==> NetOf(recs[i]) != NetOf(recs[j])
  }

  /** Files without a repeated address are clean, so loading them gives a consistent manager. */
  lemma DistinctIsSound(h: Hasher, sv: Saved)
    requires RecordsDistinct(sv.news + sv.trieds)
    ensures Unrepeated(Placed(h, sv))
  {
    hide Placed, Unrepeated;
    DistinctIsClean(h, sv.news, sv.trieds, Staying(h, sv));
    CleanIsSound(h, sv);
  }

  lemma DistinctIsClean(h: Hasher, news: seq<Record>, trieds: seq<Record>, stay: set<int>)
    requires RecordsDistinct(news + trieds)
    ensures Clean(h, news, trieds, stay)
  {
    hide FirstTried, NetOf;
    var all := news + trieds;
    assert forall i :: 0 <= i < |news| ==> all[i] == news[i];
    assert forall i :: 0 <= i < |trieds| ==> all[|news| + i] == trieds[i];
  }

  /** A file that has a record twice: the second finds its slot taken and is dropped, and the address of the first,
      which stays, is no longer found. */
  lemma RepeatedRecordIsLost(h: Hasher, r: Record, nUBuckets: int)
    ensures var sv := Saved(0, 32, h.nKey, nUBuckets, [r, r], [], []);
      Loaded(h, sv).entries.Keys == {0} && IndexPruned(ReadIndex(h, sv), Placed(h, sv)) == map[]
  {
    var sv := Saved(0, 32, h.nKey, nUBuckets, [r, r], [], []);
    var t, info := h.NewSlot(r.addr.service, r.source), FromRecord(r).Core();
    var one := Refer(Created(EMPTY, 0, info), t, 0, info);
    assert [r][..0] == [] && [r, r][..1] == [r];
    assert LoadNews(h, [r], false) == one;
    assert Placed(h, sv) == LoadNews(h, [r, r], false) == Created(one, 1, info);
    assert IndexNews([r]) == map[Net(info) := 0];
    assert IndexNews([r, r]) == map[Net(info) := 1];
    assert ReadIndex(h, sv) == IndexNews(sv.news);
    assert Unplaced(Created(one, 1, info)) == {1};
  }

  // ---------- loading, as the program does it ----------

  /** Reads the untried entries into a fresh manager. */
  method LoadNewEntries(m: Manager, recs: seq<Record>, useTable: bool)
    requires m.Shape() && m.V() == EMPTY && m.mapInfo == map[] && m.mapAddr == map[] && m.vRandom == []
    modifies m`mapInfo, m`mapAddr, m`vRandom, m`nIdCount, m.vvNew
    ensures m.V() == LoadNews(m.h, recs, useTable) && m.mapAddr == IndexNews(recs)
    ensures RandomOk(m.mapInfo, m.vRandom) && IdsOk(m.mapInfo, m.nIdCount) && m.nIdCount == |recs|
    ensures CountsOk(Cores(m.mapInfo), |recs|, 0, 0)
  {
    hide Occupied, NewIds, TriedIds, Cores, RandomOk, IdsOk, LoadNews, IndexNews;
    NoCounts(Cores(m.mapInfo));
    NoIndexes(m.mapInfo, m.vRandom);
    LoadNewsNone(m.h, recs[..0], useTable);
    for n := 0 to |recs|
      invariant m.V() == LoadNews(m.h, recs[..n], useTable) && m.mapAddr == IndexNews(recs[..n])
      invariant RandomOk(m.mapInfo, m.vRandom) && IdsOk(m.mapInfo, n)
      invariant CountsOk(Cores(m.mapInfo), n, 0, 0)
    {
      LoadNewsNext(m.h, recs, n, useTable);
      var info := FromRecord(recs[n]);
      info := info.(nRandomPos := |m.vRandom|);
      m.Append(n, info);
      if !useTable {
        OccupiedAt(m.vvNew);
        var t := m.h.NewSlot(info.addr.service, info.source);
        if m.vvNew[t.b, t.p] == -1 {
          SetSlot(m.vvNew, t, n);
          TouchKeepsIndexes(m.mapInfo, m.vRandom, m.mapAddr, n + 1, n, info.(nRefCount := info.nRefCount + 1));
          m.mapInfo := m.mapInfo[n := info.(nRefCount := info.nRefCount + 1)];
        }
      }
    }
    assert recs[..|recs|] == recs;
    m.nIdCount := |recs|;
  }

  lemma NoCounts(entries: map<int, AddrInfo>)
    requires entries == map[]
    ensures CountsOk(entries, 0, 0, 0)
  {
    assert NewIds(entries) == {} && TriedIds(entries) == {};
  }

  lemma NoIndexes(info: map<int, AddrInfo>, random: seq<int>)
    requires info == map[] && random == []
    ensures RandomOk(info, random) && IdsOk(info, 0) && Cores(info) == map[]
  { }

  lemma LoadNewsNone(h: Hasher, recs: seq<Record>, useTable: bool)
    requires recs == []
    ensures LoadNews(h, recs, useTable) == EMPTY && IndexNews(recs) == map[]
  { }

  lemma LoadNewsNext(h: Hasher, recs: seq<Record>, n: nat, useTable: bool)
    requires n < |recs|
    ensures var v := LoadNews(h, recs[..n], useTable);
            var info := FromRecord(recs[n]).Core();
            var t := h.NewSlot(info.addr.service, info.source);
            LoadNews(h, recs[..n + 1], useTable) ==
            if !useTable && t !in v.new_ then Refer(Created(v, n, info), t, n, info) else Created(v, n, info)
    ensures IndexNews(recs[..n + 1]) == IndexNews(recs[..n])[recs[n].addr.service.net := n]
  {
    assert recs[..n + 1][..n] == recs[..n] && recs[..n + 1][n] == recs[n];
  }

  /** Reads the tried entries; the ones whose slot is taken are counted as lost. */
  method LoadTriedEntries(m: Manager, recs: seq<Record>) returns (nLost: int)
    requires m.Shape()
    requires RandomOk(m.mapInfo, m.vRandom) && IdsOk(m.mapInfo, m.nIdCount)
    requires CountsOk(Cores(m.mapInfo), |NewIds(Cores(m.mapInfo))|, 0, 0)
    modifies m`mapInfo, m`mapAddr, m`vRandom, m`nIdCount, m.vvTried
    ensures m.nIdCount >= 0 && (m.V(), m.nIdCount) == LoadTrieds(m.h, old(m.V()), old(m.nIdCount), recs)
    ensures m.mapAddr == IndexTrieds(m.h, old(m.V()), old(m.nIdCount), recs, old(m.mapAddr))
    ensures RandomOk(m.mapInfo, m.vRandom) && IdsOk(m.mapInfo, m.nIdCount)
    ensures CountsOk(Cores(m.mapInfo), old(|NewIds(Cores(m.mapInfo))|), |recs| - nLost, 0)
  {
    hide Occupied, NewIds, TriedIds, Cores, RandomOk, CountsOk, LoadTrieds, IndexTrieds;
    ghost var v, next, nNew, index := m.V(), m.nIdCount, |NewIds(Cores(m.mapInfo))|, m.mapAddr;
    nLost := 0;
    LoadTriedsNone(m.h, v, next, recs[..0], index);
    for n := 0 to |recs|
      invariant IdsOk(m.mapInfo, m.nIdCount)
      invariant (m.V(), m.nIdCount) == LoadTrieds(m.h, v, next, recs[..n])
      invariant m.mapAddr == IndexTrieds(m.h, v, next, recs[..n], index)
      invariant RandomOk(m.mapInfo, m.vRandom)
      invariant CountsOk(Cores(m.mapInfo), nNew, n - nLost, 0)
    {
      LoadTriedsNext(m.h, v, next, recs, n, index);
      OccupiedAt(m.vvTried);
      var info := FromRecord(recs[n]);
      var t := m.h.TriedSlot(info.addr.service);
      if m.vvTried[t.b, t.p] == -1 {
        info := info.(nRandomPos := |m.vRandom|, fInTried := true);
        m.Append(m.nIdCount, info);
        SetSlot(m.vvTried, t, m.nIdCount);
        m.nIdCount := m.nIdCount + 1;
      } else {
        nLost := nLost + 1;
      }
    }
    assert recs[..|recs|] == recs;
  }

  lemma IdsBelow(m: Manager)
    requires IdsOk(m.mapInfo, m.nIdCount)
    ensures m.nIdCount >= 0
    ensures forall k :: k in m.V().entries ==> 0 <= k < m.nIdCount
  { }

  lemma LoadTriedsNone(h: Hasher, v: View, next: nat, recs: seq<Record>, index: map<NetAddr, int>)
    requires recs == []
    ensures LoadTrieds(h, v, next, recs) == (v, next) && IndexTrieds(h, v, next, recs, index) == index
  { }

  lemma LoadTriedsNext(h: Hasher, v: View, next: nat, recs: seq<Record>, n: nat, index: map<NetAddr, int>)
    requires n < |recs|
    ensures var (w, id) := LoadTrieds(h, v, next, recs[..n]);
            var info := FromRecord(recs[n]).Core();
            var t := h.TriedSlot(info.addr.service);
            var rest := IndexTrieds(h, v, next, recs[..n], index);
            && LoadTrieds(h, v, next, recs[..n + 1]) ==
               (if t !in w.tried then (Enter(w, t, id, info), id + 1) else (w, id))
            && IndexTrieds(h, v, next, recs[..n + 1], index) ==
               (if t !in w.tried then rest[recs[n].addr.service.net := id] else rest)
  {
    assert recs[..n + 1][..n] == recs[..n] && recs[..n + 1][n] == recs[n];
  }

  /** Gives the entries of a bucket their references there. */
  method LoadBucketEntries(m: Manager, b: int, numbers: seq<int>, nNew: int)
    requires m.Shape() && 0 <= b < NEW_BUCKET_COUNT
    requires RandomOk(m.mapInfo, m.vRandom) && IdsOk(m.mapInfo, m.nIdCount)
    requires CountsOk(Cores(m.mapInfo), m.nNew, m.nTried, 0)
    requires forall id :: id in m.V().entries && 0 <= id < nNew ==> !m.V().entries[id].fInTried
    requires forall id :: 0 <= id < nNew ==> id in m.mapInfo
    modifies m`mapInfo, m.vvNew
    ensures m.V() == LoadBucket(m.h, old(m.V()), b, numbers, nNew)
    ensures m.mapInfo.Keys == old(m.mapInfo.Keys)
    ensures RandomOk(m.mapInfo, m.vRandom) && IdsOk(m.mapInfo, m.nIdCount)
    ensures CountsOk(Cores(m.mapInfo), m.nNew, m.nTried, 0)
  {
    hide Occupied, Cores, RandomOk, IdsOk, CountsOk, LoadBucket;
    ghost var v := m.V();
    LoadBucketNone(m.h, v, b, numbers[..0], nNew);
    for n := 0 to |numbers|
      invariant m.V() == LoadBucket(m.h, v, b, numbers[..n], nNew)
      invariant m.mapInfo.Keys == old(m.mapInfo.Keys)
      invariant RandomOk(m.mapInfo, m.vRandom) && IdsOk(m.mapInfo, m.nIdCount)
      invariant CountsOk(Cores(m.mapInfo), m.nNew, m.nTried, 0)
    {
      LoadBucketNext(m.h, v, b, numbers, n, nNew);
      var nIndex := numbers[n];
      if nIndex >= 0 && nIndex < nNew {
        CoresAt(m.mapInfo);
        OccupiedAt(m.vvNew);
        var info := m.mapInfo[nIndex];
        var pos := m.h.Position(true, b, info.addr.service);
        if m.vvNew[b, pos] == -1 && info.nRefCount < NEW_BUCKETS_PER_ADDRESS {
          m.Touch(nIndex, info.(nRefCount := info.nRefCount + 1));
          SetSlot(m.vvNew, Slot(b, pos), nIndex);
        }
      }
    }
    assert numbers[..|numbers|] == numbers;
  }

  lemma LoadBucketNone(h: Hasher, v: View, b: int, numbers: seq<int>, nNew: int)
    requires numbers == []
    ensures LoadBucket(h, v, b, numbers, nNew) == v
  { }

  lemma LoadBucketNext(h: Hasher, v: View, b: int, numbers: seq<int>, n: nat, nNew: int)
    requires n < |numbers|
    ensures var w := LoadBucket(h, v, b, numbers[..n], nNew);
            var id := numbers[n];
            LoadBucket(h, v, b, numbers[..n + 1], nNew) ==
            if 0 <= id < nNew && id in w.entries then
              var t := Slot(b, h.Position(true, b, w.entries[id].addr.service));
              if t !in w.new_ && w.entries[id].nRefCount < NEW_BUCKETS_PER_ADDRESS
                then Refer(w, t, id, w.entries[id]) else w
            else w
  {
    assert numbers[..n + 1][..n] == numbers[..n];
  }

  /** The view while entries without a place are being dropped, those below `n` gone. */
  function Pruning(v: View, n: int): View {
    v.(entries := v.entries - (set id | id in Unplaced(v) && id < n))
  }

  /** The index by address then. */
  function IndexPruning(index: map<NetAddr, int>, v: View, n: int): map<NetAddr, int> {
    index - set id | id in Unplaced(v) && id < n :: Net(v.entries[id])
  }

  /** The entries still to be dropped. */
  ghost function Pending(v: View, n: int): set<int> {
    set id | id in Unplaced(v) && id >= n
  }

  lemma PruningStep(v: View, n: int)
    ensures Pruning(v, n + 1) == if n in Unplaced(v) then Drop(Pruning(v, n), n) else Pruning(v, n)
    ensures n in v.entries <==> n in Pruning(v, n).entries
    ensures n in v.entries ==> Pruning(v, n).entries[n] == v.entries[n]
    ensures Pending(v, n + 1) == if n in Unplaced(v) then Pending(v, n) - {n} else Pending(v, n)
  { }

  lemma IndexPruningStep(index: map<NetAddr, int>, v: View, n: int)
    ensures IndexPruning(index, v, n + 1) ==
      if n in Unplaced(v) then IndexPruning(index, v, n) - {Net(v.entries[n])} else IndexPruning(index, v, n)
  {
    var now, was := set id | id in Unplaced(v) && id < n + 1 :: Net(v.entries[id]),
      set id | id in Unplaced(v) && id < n :: Net(v.entries[id]);
    assert now == if n in Unplaced(v) then was + {Net(v.entries[n])} else was;
  }

  lemma PruningEnds(index: map<NetAddr, int>, v: View, n: int)
    requires forall id :: id in v.entries ==> 0 <= id < n
    ensures Pruning(v, 0) == v && Pruning(v, n) == Prune(v)
    ensures IndexPruning(index, v, 0) == index && IndexPruning(index, v, n) == IndexPruned(index, v)
    ensures Pending(v, 0) == Unplaced(v)
    ensures Pending(v, n) == {}
  {
    assert (set id | id in Unplaced(v) && id < 0) == {};
    assert v.entries - {} == v.entries;
    assert (set id | id in Unplaced(v) && id < n) == Unplaced(v);
    assert (set id | id in Unplaced(v) && id < 0 :: Net(v.entries[id])) == {};
    assert (set id | id in Unplaced(v) && id < n :: Net(v.entries[id])) ==
      set id | id in Unplaced(v) :: Net(v.entries[id]);
  }

  /** Drops the entries that got no place. */
  method PruneEntries(m: Manager)
    requires m.Loose(Unplaced(m.V()), 0)
    modifies m
    ensures m.Loose({}, 0)
    ensures m.V() == Prune(old(m.V())) && m.mapAddr == IndexPruned(old(m.mapAddr), old(m.V()))
  {
    hide TablesOk, Unplaced, Occupied, Cores, RandomOk, CountsOk, Pruning, IndexPruning;
    ghost var v, index := m.V(), m.mapAddr;
    ghost var n := m.nIdCount;
    IdsBelow(m);
    PruningEnds(index, v, m.nIdCount);
    for id := 0 to m.nIdCount
      invariant m.nIdCount == n
      invariant m.Loose(Pending(v, id), 0)
      invariant m.V() == Pruning(v, id) && m.mapAddr == IndexPruning(index, v, id)
    {
      PruningStep(v, id);
      IndexPruningStep(index, v, id);
      CoresAt(m.mapInfo);
      UnplacedIs(v, id);
      if id in m.mapInfo && !m.mapInfo[id].fInTried && m.mapInfo[id].nRefCount == 0 {
        m.Delete(id, Pending(v, id), 0);
      }
    }
  }

  lemma UnplacedIs(v: View, id: int)
    ensures id in Unplaced(v) <==> id in v.entries && !v.entries[id].fInTried && v.entries[id].nRefCount == 0
  { }

  /** After both kinds of records are in, the ids below the number of untried records are the untried entries. */
  lemma BothLoaded(h: Hasher, news: seq<Record>, trieds: seq<Record>, useTable: bool)
    ensures var v := LoadNews(h, news, useTable);
            var w := LoadTrieds(h, v, |news|, trieds).0;
            && TablesOk(h, v, Unplaced(v)) && TablesOk(h, w, Unplaced(w))
            && (forall id :: 0 <= id < |news| ==> id in w.entries)
            && (forall id :: id in w.entries ==> (0 <= id < |news| <==> !w.entries[id].fInTried))
  {
    hide TablesOk, Unplaced, LoadNews, LoadTrieds;
    LoadNewsOk(h, news, useTable);
    var v := LoadNews(h, news, useTable);
    LoadTriedsOk(h, v, |news|, trieds);
    var (w, next) := LoadTrieds(h, v, |news|, trieds);
    forall id | id in w.entries
      ensures 0 <= id < |news| <==> !w.entries[id].fInTried
    {
      if id !in v.entries { RecordIsTried(w.entries[id], trieds); }
    }
  }

  lemma RecordIsTried(info: AddrInfo, recs: seq<Record>)
    requires IsTriedRecord(info, recs)
    ensures info.fInTried
  { }

  /** Third part of loading: the saved buckets, when they can be used. */
  method LoadTable(m: Manager, buckets: seq<seq<int>>, nNew: int)
    requires m.Loose(Unplaced(m.V()), 0) && |buckets| <= NEW_BUCKET_COUNT
    requires forall id :: id in m.V().entries && 0 <= id < nNew ==> !m.V().entries[id].fInTried
    requires forall id :: 0 <= id < nNew ==> id in m.mapInfo
    modifies m`mapInfo, m.vvNew
    ensures m.Loose(Unplaced(m.V()), 0)
    ensures m.V() == LoadBuckets(m.h, old(m.V()), buckets, nNew)
  {
    hide TablesOk, Unplaced, Occupied, Cores, RandomOk, IdsOk, CountsOk;
    ghost var v := m.V();
    for b := 0 to |buckets|
      invariant m.Loose(Unplaced(m.V()), 0)
      invariant m.V() == LoadBuckets(m.h, v, buckets[..b], nNew)
      invariant m.mapInfo.Keys == old(m.mapInfo.Keys)
    {
      LoadBucketsOk(m.h, v, buckets[..b], nNew);
      LoadBucketsOk(m.h, v, buckets[..b + 1], nNew);
      assert buckets[..b + 1][..b] == buckets[..b];
      LoadBucketEntries(m, b, buckets[b], nNew);
    }
    assert buckets[..|buckets|] == buckets;
  }

  /** Reads a manager back. A wrong key size, too many entries or missing buckets are rejected; anything else gives a
      manager whose tables, counts and shuffled vector are right, and which is consistent exactly if no entry that
      stays has the address of another one that was read in. */
  method Unserialize(h: Hasher, sv: Saved) returns (ok: bool, m: Manager)
    ensures ok <==>
              && sv.nKeySize == 32
              && |sv.news| <= NEW_BUCKET_COUNT * BUCKET_SIZE && |sv.trieds| <= TRIED_BUCKET_COUNT * BUCKET_SIZE
              && BucketCount(sv) <= |sv.buckets|
    ensures ok ==> m.h == h.(nKey := sv.nKey) && m.V() == Loaded(m.h, sv) && m.Loose({}, 0)
    ensures ok ==> m.mapAddr == IndexPruned(ReadIndex(m.h, sv), Placed(m.h, sv))
    ensures ok ==> (m.Consistent() <==> Unrepeated(Placed(m.h, sv)))
  {
    hide TablesOk, Unplaced, Occupied, Cores, RandomOk, NewIds, TriedIds, LoadNews, LoadTrieds, LoadBuckets, Prune,
      IndexPruned, IndexNews, IndexTrieds, Unrepeated, AddrOk, AddressesDistinct;
    m := new Manager(h.(nKey := sv.nKey));
    if sv.nKeySize != 32 { return false, m; }
    var nUBuckets := BucketCount(sv);
    if |sv.news| > NEW_BUCKET_COUNT * BUCKET_SIZE { return false, m; }
    if |sv.trieds| > TRIED_BUCKET_COUNT * BUCKET_SIZE { return false, m; }
    m.nNew := |sv.news|;
    BothLoaded(m.h, sv.news, sv.trieds, UsesTable(sv));
    LoadNewEntries(m, sv.news, UsesTable(sv));
    var nLost := LoadTriedEntries(m, sv.trieds);
    m.nTried := |sv.trieds| - nLost;
    if nUBuckets > |sv.buckets| { return false, m; }
    if UsesTable(sv) {
      CoresAt(m.mapInfo);
      LoadTable(m, sv.buckets[..nUBuckets], m.nNew);
    }
    PruneEntries(m);
    FileIsSound(m.h, sv);
    ExactIsConsistent(m);
    ok := true;
  }

  /** What is right but for the index by address is consistent exactly if that is exact. */
  lemma ExactIsConsistent(m: Manager)
    requires m.Loose({}, 0)
    ensures m.Consistent() <==> IndexExact(m.mapAddr, m.V().entries)
  {
    CoresAt(m.mapInfo);
    hide TablesOk, Occupied, RandomOk, CountsOk, Cores;
  }
}
