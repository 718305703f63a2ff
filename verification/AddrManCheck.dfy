/** The address manager's own debug check, which accepts exactly the managers that are consistent. */
module AddrManCheck {
  import opened Wrappers
  import opened AddrMan
  import opened AddrManager

  // ----- What the check looks for -----

  /** One entry: times, reference count, and its places in the two indexes. */
  ghost predicate EntryOk(m: Manager, n: int)
    requires n in m.mapInfo
    reads m
  {
    var info := m.mapInfo[n];
    && info.TimesOk()
    && (if info.fInTried then info.nRefCount == 0 else 0 < info.nRefCount <= NEW_BUCKETS_PER_ADDRESS)
    && Back(m, info.addr.service.net) == n
    && 0 <= info.nRandomPos < |m.vRandom| && m.vRandom[info.nRandomPos] == n
  }

  /** Looking an address up; one that is missing gives 0. */
  function Back(m: Manager, net: NetAddr): int
    reads m
  { if net in m.mapAddr then m.mapAddr[net] else 0 }

  ghost predicate NewExact(h: Hasher, v: View) {
    NewTableOk(h, v) && forall id :: id in NewIds(v.entries) ==> v.entries[id].nRefCount == |RefSlots(v, id)|
  }

  /** Everything the check looks for. */
  ghost predicate Passes(m: Manager)
    reads m, m.vvNew, m.vvTried
  {
    && |m.vRandom| == m.nTried + m.nNew
    && (forall n :: n in m.mapInfo ==> EntryOk(m, n))
    && m.nTried == |TriedIds(m.V().entries)| && m.nNew == |NewIds(m.V().entries)|
    && TriedTableOk(m.h, m.V()) && NewExact(m.h, m.V()) && m.h.nKey != 0
  }

  // ----- Progress through a table, bucket by bucket -----

  predicate Before(t: Slot, n: int, i: int) { t.b < n || (t.b == n && t.p < i) }

  ghost predicate InBounds(table: map<Slot, int>, buckets: int) { forall t :: t in table ==> InTable(t, buckets) }

  ghost predicate TriedFine(h: Hasher, v: View, t: Slot)
    requires t in v.tried
  {
    v.tried[t] in v.entries && v.entries[v.tried[t]].fInTried && t == h.TriedSlot(v.entries[v.tried[t]].addr.service)
  }

  ghost predicate HasSlot(h: Hasher, v: View, id: int)
    requires id in v.entries
  {
    var t := h.TriedSlot(v.entries[id].addr.service);
    t in v.tried && v.tried[t] == id
  }

  ghost predicate Found(h: Hasher, v: View, id: int, n: int, i: int)
    requires id in v.entries
  {
    HasSlot(h, v, id) && Before(h.TriedSlot(v.entries[id].addr.service), n, i)
  }

  /** The slots passed are fine, and left are the tried ids not found in one of them. */
  ghost predicate TriedSoFar(h: Hasher, v: View, left: set<int>, n: int, i: int) {
    && (forall t :: t in v.tried && Before(t, n, i) ==> TriedFine(h, v, t))
    && (forall id :: id in left ==> id in v.entries && v.entries[id].fInTried)
    && (forall id :: id in v.entries && v.entries[id].fInTried ==> (id in left <==> !Found(h, v, id, n, i)))
  }

  lemma TriedStart(h: Hasher, v: View)
    requires InBounds(v.tried, TRIED_BUCKET_COUNT)
    ensures TriedSoFar(h, v, TriedIds(v.entries), 0, 0)
  { }

  /** What is in a slot must be a tried id that was not found before and belongs there. */
  lemma TriedStep(h: Hasher, v: View, left: set<int>, n: int, i: int)
    requires TriedSoFar(h, v, left, n, i)
    ensures var s := Slot(n, i);
      if s !in v.tried then TriedSoFar(h, v, left, n, i + 1)
      else if v.tried[s] in left && v.tried[s] in v.entries && h.TriedSlot(v.entries[v.tried[s]].addr.service) == s then
        TriedSoFar(h, v, left - {v.tried[s]}, n, i + 1)
      else !TriedTableOk(h, v)
  {
    var s := Slot(n, i);
    forall t | Before(t, n, i + 1) ensures t == s || Before(t, n, i) { }
    forall id | id in v.entries && v.entries[id].fInTried
      ensures Found(h, v, id, n, i + 1) <==>
        Found(h, v, id, n, i) || (s in v.tried && v.tried[s] == id && h.TriedSlot(v.entries[id].addr.service) == s)
    { }
    if s in v.tried {
      var id := v.tried[s];
      assert !Before(s, n, i);
      if id in v.entries && v.entries[id].fInTried { assert id in left <==> !Found(h, v, id, n, i); }
      if id in left && h.TriedSlot(v.entries[id].addr.service) == s {
        assert TriedFine(h, v, s);
        forall t | t in v.tried && Before(t, n, i + 1) ensures TriedFine(h, v, t) { }
        forall k | k in v.entries && v.entries[k].fInTried ensures k in left - {id} <==> !Found(h, v, k, n, i + 1) {
          assert k in left <==> !Found(h, v, k, n, i);
        }
      } else {
        assert !TriedFine(h, v, s);
      }
    }
  }

  lemma TriedNextBucket(h: Hasher, v: View, left: set<int>, n: int)
    requires TriedSoFar(h, v, left, n, BUCKET_SIZE) && InBounds(v.tried, TRIED_BUCKET_COUNT)
    ensures TriedSoFar(h, v, left, n + 1, 0)
  {
    forall t | InTable(t, TRIED_BUCKET_COUNT) ensures Before(t, n, BUCKET_SIZE) <==> Before(t, n + 1, 0) { }
  }

  lemma TriedEnd(h: Hasher, v: View, left: set<int>)
    requires TriedSoFar(h, v, left, TRIED_BUCKET_COUNT, 0) && InBounds(v.tried, TRIED_BUCKET_COUNT)
    ensures left == {} <==> TriedTableOk(h, v)
  {
    forall t | InTable(t, TRIED_BUCKET_COUNT) ensures Before(t, TRIED_BUCKET_COUNT, 0) { }
    if left == {} {
      forall id | id in v.entries && v.entries[id].fInTried ensures HasSlot(h, v, id) { assert id !in left; }
      forall t | t in v.tried ensures TriedFine(h, v, t) { }
    }
    if TriedTableOk(h, v) {
      forall id ensures id !in left {
        if id in left { assert Found(h, v, id, TRIED_BUCKET_COUNT, 0); }
      }
    }
  }

  /** The slots passed that hold an id. */
  ghost function Met(v: View, id: int, n: int, i: int): set<Slot> {
    set t | t in v.new_ && v.new_[t] == id && Before(t, n, i)
  }

  ghost predicate NewFine(h: Hasher, v: View, t: Slot)
    requires t in v.new_
  {
    && v.new_[t] in v.entries && !v.entries[v.new_[t]].fInTried
    && t.p == h.Position(true, t.b, v.entries[v.new_[t]].addr.service)
  }

  ghost predicate LeftOf(v: View, left: map<int, int>, id: int, n: int, i: int)
    requires id in v.entries
  {
    && |Met(v, id, n, i)| <= v.entries[id].nRefCount
    && (id in left <==> |Met(v, id, n, i)| < v.entries[id].nRefCount)
    && (id in left ==> left[id] == v.entries[id].nRefCount - |Met(v, id, n, i)|)
  }

  /** The slots passed are fine, and left has what is missing of each new id's count. */
  ghost predicate NewSoFar(h: Hasher, v: View, left: map<int, int>, n: int, i: int) {
    && (forall t :: t in v.new_ && Before(t, n, i) ==> NewFine(h, v, t))
    && left.Keys <= NewIds(v.entries)
    && (forall id :: id in NewIds(v.entries) ==> LeftOf(v, left, id, n, i))
  }

  lemma NewStart(h: Hasher, v: View, left: map<int, int>)
    requires InBounds(v.new_, NEW_BUCKET_COUNT) && left.Keys == NewIds(v.entries)
    requires forall id :: id in left ==> left[id] == v.entries[id].nRefCount > 0
    ensures NewSoFar(h, v, left, 0, 0)
  {
    forall id | id in NewIds(v.entries) ensures Met(v, id, 0, 0) == {} { }
  }

  /** Passing a slot adds it to its own id's slots and leaves the others'. */
  lemma MetStep(v: View, id: int, n: int, i: int)
    ensures var s := Slot(n, i);
      if s in v.new_ && v.new_[s] == id
      then |Met(v, id, n, i + 1)| == |Met(v, id, n, i)| + 1 && Met(v, id, n, i) + {s} <= RefSlots(v, id) &&
        s !in Met(v, id, n, i)
      else Met(v, id, n, i + 1) == Met(v, id, n, i)
  {
    var s := Slot(n, i);
    forall t | Before(t, n, i + 1) ensures t == s || Before(t, n, i) { }
    if s in v.new_ && v.new_[s] == id {
      assert Met(v, id, n, i + 1) == Met(v, id, n, i) + {s};
    } else {
      assert Met(v, id, n, i + 1) == Met(v, id, n, i);
    }
  }

  /** The counts after a slot: one less for its id, which goes with its last one. */
  function Passed(left: map<int, int>, id: int): map<int, int>
    requires id in left
  {
    if left[id] == 1 then left - {id} else left[id := left[id] - 1]
  }

  /** What is in a slot must be a new id of which some are missing, at its position. */
  lemma NewStep(h: Hasher, v: View, left: map<int, int>, n: int, i: int)
    requires NewSoFar(h, v, left, n, i)
    ensures var s := Slot(n, i);
      if s !in v.new_ then NewSoFar(h, v, left, n, i + 1)
      else if v.new_[s] in left && h.Position(true, n, v.entries[v.new_[s]].addr.service) == i then
        NewSoFar(h, v, Passed(left, v.new_[s]), n, i + 1)
      else !NewExact(h, v)
  {
    var s := Slot(n, i);
    forall t | Before(t, n, i + 1) ensures t == s || Before(t, n, i) { }
    if s in v.new_ && v.new_[s] !in left {
      TooMany(h, v, left, n, i);
    } else if s in v.new_ && h.Position(true, n, v.entries[v.new_[s]].addr.service) == i {
      forall id | id in NewIds(v.entries) ensures LeftOf(v, Passed(left, v.new_[s]), id, n, i + 1) {
        assert LeftOf(v, left, id, n, i);
        MetStep(v, id, n, i);
      }
    } else if s !in v.new_ {
      forall id | id in NewIds(v.entries) ensures LeftOf(v, left, id, n, i + 1) {
        assert LeftOf(v, left, id, n, i);
        MetStep(v, id, n, i);
      }
    }
  }

  lemma TooMany(h: Hasher, v: View, left: map<int, int>, n: int, i: int)
    requires NewSoFar(h, v, left, n, i) && Slot(n, i) in v.new_ && v.new_[Slot(n, i)] !in left
    ensures !NewExact(h, v)
  {
    var s, id := Slot(n, i), v.new_[Slot(n, i)];
    if id in NewIds(v.entries) {
      assert LeftOf(v, left, id, n, i);
      MetStep(v, id, n, i);
      SubsetSize(Met(v, id, n, i) + {s}, RefSlots(v, id));
    }
  }

  lemma NewNextBucket(h: Hasher, v: View, left: map<int, int>, n: int)
    requires NewSoFar(h, v, left, n, BUCKET_SIZE) && InBounds(v.new_, NEW_BUCKET_COUNT)
    ensures NewSoFar(h, v, left, n + 1, 0)
  {
    forall t | InTable(t, NEW_BUCKET_COUNT) ensures Before(t, n, BUCKET_SIZE) <==> Before(t, n + 1, 0) { }
    forall id | id in NewIds(v.entries) ensures LeftOf(v, left, id, n + 1, 0) {
      assert LeftOf(v, left, id, n, BUCKET_SIZE);
      assert Met(v, id, n, BUCKET_SIZE) == Met(v, id, n + 1, 0);
    }
  }

  lemma NewEnd(h: Hasher, v: View, left: map<int, int>)
    requires NewSoFar(h, v, left, NEW_BUCKET_COUNT, 0) && InBounds(v.new_, NEW_BUCKET_COUNT)
    ensures left == map[] <==> NewExact(h, v)
  {
    forall t | InTable(t, NEW_BUCKET_COUNT) ensures Before(t, NEW_BUCKET_COUNT, 0) { }
    forall id | id in NewIds(v.entries) ensures id !in left <==> v.entries[id].nRefCount == |RefSlots(v, id)| {
      assert LeftOf(v, left, id, NEW_BUCKET_COUNT, 0);
      assert Met(v, id, NEW_BUCKET_COUNT, 0) == RefSlots(v, id);
    }
    forall t | t in v.new_ ensures NewFine(h, v, t) { }
    assert NewTableOk(h, v);
    if left.Keys == {} {
      assert NewExact(h, v);
    }
    if NewExact(h, v) {
      forall id | id in left ensures false { }
      assert left.Keys == {};
    }
    assert left == map[] <==> left.Keys == {};
  }

  // ----- The check -----

  /** One entry: the code of the first thing wrong with it, or 0. */
  method CheckEntry(m: Manager, n: int) returns (err: int)
    requires n in m.mapInfo
    ensures err == 0 <==> EntryOk(m, n)
  {
    var info := m.mapInfo[n];
    if info.fInTried {
      if info.nLastSuccess == 0 { return -1; }
      if info.nRefCount != 0 { return -2; }
    } else {
      if info.nRefCount < 0 || info.nRefCount > NEW_BUCKETS_PER_ADDRESS { return -3; }
      if info.nRefCount == 0 { return -4; }
    }
    if Back(m, info.addr.service.net) != n { return -5; }
    if info.nRandomPos < 0 || info.nRandomPos >= |m.vRandom| || m.vRandom[info.nRandomPos] != n { return -14; }
    if info.nLastTry < 0 { return -6; }
    if info.nLastSuccess < 0 { return -8; }
    err := 0;
  }

  /** The ids of each kind, and the new ones' reference counts. */
  ghost predicate SortedIds(m: Manager, setTried: set<int>, mapNew: map<int, int>)
    reads m, m.vvNew, m.vvTried
  {
    && setTried == TriedIds(m.V().entries) && mapNew.Keys == NewIds(m.V().entries)
    && (forall id :: id in mapNew ==> mapNew[id] == m.V().entries[id].nRefCount)
  }

  /** The first pass, over the entries: sorts ids into tried and new. */
  method CheckEntries(m: Manager) returns (err: int, setTried: set<int>, mapNew: map<int, int>)
    ensures err == 0 <==> forall n :: n in m.mapInfo ==> EntryOk(m, n)
    ensures err == 0 ==> SortedIds(m, setTried, mapNew)
  {
    hide EntryOk;
    err, setTried, mapNew := 0, {}, map[];
    var todo := m.mapInfo.Keys;
    while todo != {}
      invariant todo <= m.mapInfo.Keys && err == 0
      invariant forall n :: n in m.mapInfo && n !in todo ==> EntryOk(m, n)
      invariant setTried == set id | id in m.mapInfo && id !in todo && m.mapInfo[id].fInTried
      invariant mapNew.Keys == set id | id in m.mapInfo && id !in todo && !m.mapInfo[id].fInTried
      invariant forall id :: id in mapNew ==> mapNew[id] == m.mapInfo[id].nRefCount
      decreases |todo|
    {
      var n := PickOne(todo);
      todo := todo - {n};
      err := CheckEntry(m, n);
      if err != 0 { return; }
      if m.mapInfo[n].fInTried {
        setTried := setTried + {n};
      } else {
        mapNew := mapNew[n := m.mapInfo[n].nRefCount];
      }
    }
    CoresAt(m.mapInfo);
  }

  /** The tried table: each slot holds a tried id, where it belongs, and none twice. */
  method CheckTried(m: Manager, setTried: set<int>) returns (err: int, left: set<int>)
    requires m.Shape() && setTried == TriedIds(m.V().entries)
    ensures err == 0 && left == {} <==> TriedTableOk(m.h, m.V())
  {
    hide TriedSoFar, TriedTableOk, TriedIds;
    left := setTried;
    InArray(m.vvTried);
    TriedStart(m.h, m.V());
    for n := 0 to TRIED_BUCKET_COUNT
      invariant TriedSoFar(m.h, m.V(), left, n, 0)
    {
      for i := 0 to BUCKET_SIZE
        invariant TriedSoFar(m.h, m.V(), left, n, i)
      {
        err, left := CheckTriedSlot(m, n, i, left);
        if err != 0 { return; }
      }
      TriedNextBucket(m.h, m.V(), left, n);
    }
    TriedEnd(m.h, m.V(), left);
    err := 0;
  }

  method CheckTriedSlot(m: Manager, n: int, i: int, setTried: set<int>) returns (err: int, left: set<int>)
    requires m.Shape() && 0 <= n < TRIED_BUCKET_COUNT && 0 <= i < BUCKET_SIZE && TriedSoFar(m.h, m.V(), setTried, n, i)
    ensures err == 0 ==> TriedSoFar(m.h, m.V(), left, n, i + 1)
    ensures err != 0 ==> !TriedTableOk(m.h, m.V())
  {
    left := setTried;
    TriedStep(m.h, m.V(), left, n, i);
    OccupiedAt(m.vvTried);
    CoresAt(m.mapInfo);
    forall id | id in left ensures id in m.mapInfo { assert id in m.V().entries; }
    hide TriedSoFar, TriedTableOk, Occupied, Cores;
    var id := m.vvTried[n, i];
    if id != -1 {
      if id !in left { return -11, left; }
      if m.h.TriedBucket(m.mapInfo[id].addr.service) != n { return -17, left; }
      if m.h.Position(false, n, m.mapInfo[id].addr.service) != i { return -18, left; }
      left := left - {id};
    }
    err := 0;
  }

  lemma InArray(a: array2<int>)
    requires a.Length1 == BUCKET_SIZE
    ensures InBounds(Occupied(a), a.Length0)
  { }

  /** The new table: each slot holds a new id at its position, as often as its count says. */
  method CheckNew(m: Manager, mapNew: map<int, int>) returns (err: int, left: map<int, int>)
    requires m.Shape() && NewSoFar(m.h, m.V(), mapNew, 0, 0)
    ensures err == 0 && left == map[] <==> NewExact(m.h, m.V())
  {
    hide NewSoFar, NewExact;
    left := mapNew;
    InArray(m.vvNew);
    for n := 0 to NEW_BUCKET_COUNT
      invariant NewSoFar(m.h, m.V(), left, n, 0)
    {
      for i := 0 to BUCKET_SIZE
        invariant NewSoFar(m.h, m.V(), left, n, i)
      {
        err, left := CheckNewSlot(m, n, i, left);
        if err != 0 { return; }
      }
      NewNextBucket(m.h, m.V(), left, n);
    }
    NewEnd(m.h, m.V(), left);
    err := 0;
  }

  method CheckNewSlot(m: Manager, n: int, i: int, mapNew: map<int, int>) returns (err: int, left: map<int, int>)
    requires m.Shape() && 0 <= n < NEW_BUCKET_COUNT && 0 <= i < BUCKET_SIZE && NewSoFar(m.h, m.V(), mapNew, n, i)
    ensures err == 0 ==> NewSoFar(m.h, m.V(), left, n, i + 1)
    ensures err != 0 ==> !NewExact(m.h, m.V())
  {
    left := mapNew;
    NewStep(m.h, m.V(), left, n, i);
    assert left.Keys <= m.mapInfo.Keys;
    OccupiedAt(m.vvNew);
    CoresAt(m.mapInfo);
    hide NewSoFar, NewExact, Occupied, Cores;
    var id := m.vvNew[n, i];
    if id != -1 {
      if id !in left { return -12, left; }
      if m.h.Position(true, n, m.mapInfo[id].addr.service) != i { return -19, left; }
      ghost var before := left;
      left := left[id := left[id] - 1];
      if left[id] == 0 { left := left - {id}; }
      assert left == Passed(before, id);
    }
    err := 0;
  }

  /** The whole check: 0 exactly if all it looks for is there. */
  method Check(m: Manager) returns (err: int)
    requires m.Shape()
    ensures err == 0 <==> Passes(m)
  {
    if |m.vRandom| != m.nTried + m.nNew { return -7; }
    var setTried, mapNew;
    err, setTried, mapNew := CheckEntries(m);
    if err != 0 { return; }
    assert |mapNew| == |mapNew.Keys|;
    if |setTried| != m.nTried { return -9; }
    if |mapNew| != m.nNew { return -10; }
    StartNew(m, setTried, mapNew);
    hide TriedTableOk, NewExact, EntryOk, NewSoFar;
    err, setTried := CheckTried(m, setTried);
    if err != 0 { return; }
    err, mapNew := CheckNew(m, mapNew);
    if err != 0 { return; }
    if |setTried| != 0 { return -13; }
    if |mapNew| != 0 { return -15; }
    if m.h.nKey == 0 { return -16; }
  }

  lemma StartNew(m: Manager, setTried: set<int>, mapNew: map<int, int>)
    requires m.Shape() && SortedIds(m, setTried, mapNew) && forall n :: n in m.mapInfo ==> EntryOk(m, n)
    ensures NewSoFar(m.h, m.V(), mapNew, 0, 0)
  {
    CoresAt(m.mapInfo);
    InArray(m.vvNew);
    forall id | id in mapNew ensures mapNew[id] > 0 { assert EntryOk(m, id); }
    NewStart(m.h, m.V(), mapNew);
  }

  // ----- What passing means -----

  /** Each entry's address leads back to it. Unlike the manager's invariant, this allows for more addresses
      than entries and says nothing of the id counter. */
  ghost predicate AddressesLeadBack(m: Manager)
    reads m
  { forall id :: id in m.mapInfo ==> Back(m, m.mapInfo[id].addr.service.net) == id }

  ghost predicate Sane(m: Manager)
    reads m, m.vvNew, m.vvTried
  {
    && RandomOk(m.mapInfo, m.vRandom) && AddressesLeadBack(m) && CountsOk(m.V().entries, m.nNew, m.nTried, 0)
    && Inv(m.h, m.V(), {}) && TimesOk(m.V()) && m.h.nKey != 0
  }

  /** The check passes exactly the managers whose indexes and tables all agree. */
  lemma PassesIsSane(m: Manager)
    requires m.Shape()
    ensures Passes(m) <==> Sane(m)
  {
    if Passes(m) {
      PassedRandom(m);
      PassedTables(m);
    }
    if Sane(m) {
      SizeIsCount(m.mapInfo, m.vRandom, m.nNew, m.nTried);
      forall n | n in m.mapInfo ensures EntryOk(m, n) { SaneEntry(m, n); }
    }
  }

  /** A consistent manager with sane times and a key passes. */
  lemma ConsistentPasses(m: Manager)
    requires m.Consistent() && TimesOk(m.V()) && m.h.nKey != 0
    ensures Passes(m)
  {
    PassesIsSane(m);
  }

  lemma SaneEntry(m: Manager, n: int)
    requires Sane(m) && n in m.mapInfo
    ensures EntryOk(m, n)
  {
    var v := m.V();
    CoresAt(m.mapInfo);
    assert n in v.entries && v.entries[n] == m.mapInfo[n].Core();
    if v.entries[n].fInTried { assert RefSlots(v, n) == {}; }
  }

  lemma PassedTables(m: Manager)
    requires m.Shape() && Passes(m)
    ensures Inv(m.h, m.V(), {}) && TimesOk(m.V()) && AddressesLeadBack(m)
  {
    var v := m.V();
    CoresAt(m.mapInfo);
    OccupiedAt(m.vvTried);
    OccupiedAt(m.vvNew);
    forall id | id in v.entries
      ensures id != -1 && v.entries[id].TimesOk()
      ensures v.entries[id].nRefCount == |RefSlots(v, id)| <= NEW_BUCKETS_PER_ADDRESS
      ensures v.entries[id].fInTried || v.entries[id].nRefCount != 0
    {
      assert EntryOk(m, id);
      PassedEntry(m, id);
    }
    forall i, j | i in v.entries && j in v.entries && i != j
      ensures v.entries[i].addr.service.net != v.entries[j].addr.service.net
    {
      assert EntryOk(m, i) && EntryOk(m, j);
    }
    forall id | id in m.mapInfo ensures Back(m, m.mapInfo[id].addr.service.net) == id { assert EntryOk(m, id); }
  }

  lemma PassedEntry(m: Manager, id: int)
    requires m.Shape() && Passes(m) && id in m.mapInfo && EntryOk(m, id)
    ensures id != -1 && id in m.V().entries && m.V().entries[id].nRefCount == |RefSlots(m.V(), id)|
  {
    var v := m.V();
    CoresAt(m.mapInfo);
    if v.entries[id].fInTried {
      assert RefSlots(v, id) == {};
      assert v.tried[m.h.TriedSlot(v.entries[id].addr.service)] == id;
    } else {
      assert id in NewIds(v.entries);
      assert RefSlots(v, id) != {};
      var t :| t in RefSlots(v, id);
    }
  }

  lemma PassedRandom(m: Manager)
    requires Passes(m)
    ensures RandomOk(m.mapInfo, m.vRandom)
  {
    CoresAt(m.mapInfo);
    var entries := m.V().entries;
    assert NewIds(entries) + TriedIds(entries) == m.mapInfo.Keys && NewIds(entries) !! TriedIds(entries);
    forall id | id in m.mapInfo ensures Placed(m.mapInfo, m.vRandom, id) { assert EntryOk(m, id); }
    assert |m.mapInfo.Keys| == |m.vRandom|;
    hide Passes, EntryOk;
    AllPlaces(m.mapInfo, m.vRandom);
  }

  ghost predicate Placed(info: map<int, AddrInfo>, random: seq<int>, id: int)
    requires id in info
  { 0 <= info[id].nRandomPos < |random| && random[info[id].nRandomPos] == id }

  /** Every place of the shuffled vector is some entry's, for there are as many as entries. */
  lemma AllPlaces(info: map<int, AddrInfo>, random: seq<int>)
    requires (forall id :: id in info ==> Placed(info, random, id)) && |info.Keys| == |random|
    ensures RandomOk(info, random)
  {
    var taken := Places(info, info.Keys);
    PlacesTaken(info, random, info.Keys);
    RangeIs(|random|);
    forall i | i in taken ensures i in Range(|random|) {
      var id :| id in info && info[id].nRandomPos == i;
      assert Placed(info, random, id);
    }
    SameSizeSubset(taken, Range(|random|));
    forall i | 0 <= i < |random| ensures random[i] in info && info[random[i]].nRandomPos == i {
      assert i in taken;
      var id :| id in info && info[id].nRandomPos == i;
      assert Placed(info, random, id);
    }
  }

  ghost function Places(info: map<int, AddrInfo>, ids: set<int>): set<int>
    requires ids <= info.Keys
  { set id | id in ids :: info[id].nRandomPos }

  lemma {:induction false} PlacesTaken(info: map<int, AddrInfo>, random: seq<int>, ids: set<int>)
    requires ids <= info.Keys && forall id :: id in info ==> Placed(info, random, id)
    ensures |Places(info, ids)| == |ids|
  {
    if ids != {} {
      var x := AnElement(ids);
      var rest := ids - {x};
      PlacesTaken(info, random, rest);
      assert Places(info, ids) == Places(info, rest) + {info[x].nRandomPos};
      assert info[x].nRandomPos !in Places(info, rest) by { assert Placed(info, random, x); }
    }
  }

  ghost function Range(n: nat): set<int> { if n == 0 then {} else Range(n - 1) + {n - 1} }

  lemma {:induction false} RangeIs(n: nat)
    ensures |Range(n)| == n && forall i :: i in Range(n) <==> 0 <= i < n
  {
    if n > 0 { RangeIs(n - 1); }
  }

  lemma SameSizeSubset(a: set<int>, b: set<int>)
    requires a <= b && |a| == |b|
    ensures a == b
  {
    assert |b - a| == |b| - |a|;
  }
}
