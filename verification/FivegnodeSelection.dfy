/** Ranks among the network's service nodes and the choice of the next one to be paid: the result does not
    depend on the order in which a node happens to keep its list. */
module FivegnodeSelection {
  import opened Wrappers

  /** A node as the selection sees it. The collateral input `vin` tells nodes apart and is ordered; score
      and compact score are taken for the block hash in question. */
  datatype Node = Node(vin: int, lastPaid: int, score: nat, compactScore: int, protocol: int,
                       enabled: bool, validForPayment: bool, notQualified: bool, tooNew: bool)

  datatype Keyed = Keyed(key: int, node: Node)

  predicate Less(a: Keyed, b: Keyed) {
    if a.key != b.key then a.key < b.key else a.node.vin < b.node.vin
  }

  // ----- Sorting -----

  ghost predicate Sorted(s: seq<Keyed>) { forall i, j :: 0 <= i < j < |s| ==> Less(s[i], s[j]) }

  /** No two nodes have the same collateral. */
  ghost predicate DistinctVins(s: seq<Node>) { forall i, j :: 0 <= i < j < |s| ==> s[i].vin != s[j].vin }

  ghost predicate DistinctEntries(s: seq<Keyed>) { forall i, j :: 0 <= i < j < |s| ==> s[i].node.vin != s[j].node.vin }

  function Insert(e: Keyed, s: seq<Keyed>): seq<Keyed> {
    if s == [] || Less(e, s[0]) then [e] + s else [s[0]] + Insert(e, s[1..])
  }

  function Sort(s: seq<Keyed>): seq<Keyed> {
    if s == [] then [] else Insert(s[0], Sort(s[1..]))
  }

  lemma {:induction false} InsertIs(e: Keyed, s: seq<Keyed>)
    requires Sorted(s) && forall i :: 0 <= i < |s| ==> s[i].node.vin != e.node.vin
    ensures Sorted(Insert(e, s)) && multiset(Insert(e, s)) == multiset(s) + multiset{e}
  {
    if s != [] {
      assert s == [s[0]] + s[1..];
      if Less(e, s[0]) {
        Consed(e, s);
      } else {
        InsertIs(e, s[1..]);
        var r := Insert(e, s[1..]);
        hide Insert;
        forall i | 0 <= i < |r| ensures Less(s[0], r[i]) {
          assert r[i] in multiset(r);
        }
        Consed(s[0], r);
      }
    }
  }

  lemma Consed(e: Keyed, s: seq<Keyed>)
    requires Sorted(s) && (s != [] ==> Less(e, s[0]))
    ensures Sorted([e] + s) && multiset([e] + s) == multiset(s) + multiset{e}
  { }

  lemma {:induction false} SortIs(s: seq<Keyed>)
    requires DistinctEntries(s)
    ensures Sorted(Sort(s)) && multiset(Sort(s)) == multiset(s)
  {
    if s != [] {
      SortIs(s[1..]);
      assert s == [s[0]] + s[1..];
      var r := Sort(s[1..]);
      forall i | 0 <= i < |r| ensures r[i].node.vin != s[0].node.vin {
        assert r[i] in multiset(r);
        assert r[i] in s[1..];
      }
      InsertIs(s[0], r);
    }
  }

  /** There is only one way to sort. */
  lemma {:induction false} SortedUnique(s: seq<Keyed>, t: seq<Keyed>)
    requires Sorted(s) && Sorted(t) && multiset(s) == multiset(t)
    ensures s == t
  {
    assert |s| == |multiset(s)| == |multiset(t)| == |t|;
    if s != [] {
      FirstIsLeast(s, t);
      assert s == [s[0]] + s[1..] && t == [t[0]] + t[1..];
      assert multiset(s[1..]) == multiset(s) - multiset{s[0]};
      assert multiset(t[1..]) == multiset(t) - multiset{t[0]};
      SortedUnique(s[1..], t[1..]);
    }
  }

  lemma HeadIsLeast(s: seq<Keyed>, e: Keyed)
    requires Sorted(s) && e in multiset(s)
    ensures s != [] && (e == s[0] || Less(s[0], e))
  {
    var i :| 0 <= i < |s| && s[i] == e;
  }

  lemma FirstIsLeast(s: seq<Keyed>, t: seq<Keyed>)
    requires Sorted(s) && Sorted(t) && multiset(s) == multiset(t) && s != [] && t != []
    ensures s[0] == t[0]
  {
    assert s[0] in multiset(s) && t[0] in multiset(t);
    HeadIsLeast(s, t[0]);
    HeadIsLeast(t, s[0]);
  }

  // ----- Collecting -----

  /** The nodes that are kept, each with its key, in list order. */
  function Collect(nodes: seq<Node>, keep: Node -> bool, key: Node -> int): seq<Keyed> {
    if nodes == [] then []
    else
      var n := nodes[|nodes| - 1];
      Collect(nodes[..|nodes| - 1], keep, key) + (if keep(n) then [Keyed(key(n), n)] else [])
  }

  lemma {:induction false} CollectCount(nodes: seq<Node>, keep: Node -> bool, key: Node -> int, e: Keyed)
    ensures multiset(Collect(nodes, keep, key))[e] ==
      if keep(e.node) && e.key == key(e.node) then multiset(nodes)[e.node] else 0
  {
    if nodes != [] {
      var n, rest := nodes[|nodes| - 1], nodes[..|nodes| - 1];
      CollectCount(rest, keep, key, e);
      assert nodes == rest + [n];
    }
  }

  lemma {:induction false} CollectFrom(nodes: seq<Node>, keep: Node -> bool, key: Node -> int)
    requires DistinctVins(nodes)
    ensures DistinctEntries(Collect(nodes, keep, key))
    ensures forall e :: e in Collect(nodes, keep, key) ==> e.node in nodes && keep(e.node) && e.key == key(e.node)
    ensures forall n :: n in nodes && keep(n) ==> Keyed(key(n), n) in Collect(nodes, keep, key)
  {
    if nodes != [] {
      var n, rest := nodes[|nodes| - 1], nodes[..|nodes| - 1];
      CollectFrom(rest, keep, key);
      assert nodes == rest + [n];
      var c := Collect(rest, keep, key);
      forall i | 0 <= i < |c| ensures c[i].node.vin != n.vin {
        assert c[i] in c;
        var j :| 0 <= j < |rest| && rest[j] == c[i].node;
        assert nodes[j].vin != nodes[|rest|].vin;
      }
    }
  }

  /** Two lists of the same nodes are sorted into one. */
  lemma SortOfPermutation(a: seq<Node>, b: seq<Node>, keep: Node -> bool, key: Node -> int)
    requires DistinctVins(a) && DistinctVins(b) && multiset(a) == multiset(b)
    ensures Sort(Collect(a, keep, key)) == Sort(Collect(b, keep, key))
    ensures |Collect(a, keep, key)| == |Collect(b, keep, key)|
  {
    var x, y := Collect(a, keep, key), Collect(b, keep, key);
    forall e ensures multiset(x)[e] == multiset(y)[e] {
      CollectCount(a, keep, key, e);
      CollectCount(b, keep, key, e);
    }
    assert multiset(x) == multiset(y);
    assert |x| == |multiset(x)| == |multiset(y)| == |y|;
    CollectFrom(a, keep, key);
    CollectFrom(b, keep, key);
    SortIs(x);
    SortIs(y);
    SortedUnique(Sort(x), Sort(y));
  }

  // ----- The next payee -----

  function Qualified(filter: bool): Node -> bool { (n: Node) => !n.notQualified && !(filter && n.tooNew) }

  function LastPaid(): Node -> int { (n: Node) => n.lastPaid }

  function Enabled(minProtocol: int): Node -> bool { (n: Node) => n.protocol >= minProtocol && n.enabled }

  function CompactScore(): Node -> int { (n: Node) => n.compactScore }

  function CountEnabled(nodes: seq<Node>, minProtocol: int): nat {
    |Collect(nodes, Enabled(minProtocol), CompactScore())|
  }

  /** Qualified nodes, the one that has waited longest first. */
  function Queue(nodes: seq<Node>, filter: bool): seq<Keyed> { Sort(Collect(nodes, Qualified(filter), LastPaid())) }

  /** Too few nodes pass the age filter: it is dropped. */
  predicate FilterStays(nodes: seq<Node>, filter: bool, count: nat) {
    filter && |Collect(nodes, Qualified(true), LastPaid())| >= count / 3
  }

  /** The tenth of the network, but at least one, at the head of the queue. */
  function Window(q: seq<Keyed>, count: nat): seq<Keyed> {
    var n := if count / 10 > 1 then count / 10 else 1;
    if |q| <= n then q else q[..n]
  }

  /** r is the first node with the highest score, if that is not zero. */
  ghost predicate IsBest(w: seq<Keyed>, r: Option<Node>) {
    match r
    case None => forall i :: 0 <= i < |w| ==> w[i].node.score == 0
    case Some(n) => exists i :: 0 <= i < |w| && w[i].node == n && BestAt(w, i)
  }

  ghost predicate BestAt(w: seq<Keyed>, i: nat)
    requires i < |w|
  {
    w[i].node.score > 0 &&
    forall j :: 0 <= j < |w| ==> w[j].node.score <= w[i].node.score && (j < i ==> w[j].node.score < w[i].node.score)
  }

  lemma BestIsOne(w: seq<Keyed>, r: Option<Node>, r': Option<Node>)
    requires IsBest(w, r) && IsBest(w, r')
    ensures r == r'
  {
    if r.Some? && r'.Some? {
      var i :| 0 <= i < |w| && w[i].node == r.value && BestAt(w, i);
      var j :| 0 <= j < |w| && w[j].node == r'.value && BestAt(w, j);
      assert w[j].node.score <= w[i].node.score && w[i].node.score <= w[j].node.score;
    }
  }

  ghost predicate PayeeIs(nodes: seq<Node>, filter: bool, minProtocol: int, haveHash: bool, r: Option<Node>) {
    var count := CountEnabled(nodes, minProtocol);
    if haveHash then IsBest(Window(Queue(nodes, FilterStays(nodes, filter, count)), count), r) else r == None
  }

  // ----- The next payee, without a queue -----

  ghost function EnabledNodes(nodes: seq<Node>, minProtocol: int): set<Node> {
    set n | n in nodes && n.protocol >= minProtocol && n.enabled
  }

  ghost function QualifiedNodes(nodes: seq<Node>, filter: bool): set<Node> {
    set n | n in nodes && !n.notQualified && !(filter && n.tooNew)
  }

  /** The nodes that were paid before n, or at the same height and have a lower collateral. */
  ghost function WaitedLonger(q: set<Node>, n: Node): set<Node> {
    set m | m in q && (m.lastPaid < n.lastPaid || (m.lastPaid == n.lastPaid && m.vin < n.vin))
  }

  /** Among the qualified nodes that fewer than a tenth of the enabled ones, or than one, waited longer than, r has the
      highest score, and those that waited longer have lower ones; there is none if all these scores are zero. */
  ghost predicate IsPayee(q: set<Node>, nEnabled: nat, r: Option<Node>) {
    var tenth := if nEnabled / 10 > 1 then nEnabled / 10 else 1;
    match r
    case None => forall m :: m in q && |WaitedLonger(q, m)| < tenth ==> m.score == 0
    case Some(n) =>
      && n in q && |WaitedLonger(q, n)| < tenth && n.score > 0
      && (forall m :: m in WaitedLonger(q, n) ==> m.score < n.score)
      && (forall m :: m in q && |WaitedLonger(q, m)| < tenth ==> m.score <= n.score)
  }

  ghost predicate Members(s: seq<Keyed>, q: set<Node>) {
    && (forall i :: 0 <= i < |s| ==> s[i].node in q)
    && (forall n :: n in q ==> exists i :: 0 <= i < |s| && s[i].node == n)
  }

  /** A queue has each of these nodes once, and each at the place that says how many waited longer. */
  ghost predicate IsQueue(s: seq<Keyed>, q: set<Node>) {
    && |s| == |q| && Members(s, q)
    && (forall i :: 0 <= i < |s| ==> |WaitedLonger(q, s[i].node)| == i)
    && (forall i, j :: 0 <= i < |s| && 0 <= j < |s| ==> (s[j].node in WaitedLonger(q, s[i].node) <==> j < i))
  }

  lemma SortedIsQueue(nodes: seq<Node>, filter: bool)
    requires DistinctVins(nodes)
    ensures IsQueue(Queue(nodes, filter), QualifiedNodes(nodes, filter))
  {
    var c, s := Collect(nodes, Qualified(filter), LastPaid()), Queue(nodes, filter);
    CollectFrom(nodes, Qualified(filter), LastPaid());
    SortIs(c);
    hide Sort, Collect, DistinctEntries, Sorted, DistinctVins, Members, IsQueue;
    QueueMembers(nodes, filter, c, s);
    DistinctSorted(nodes, s);
    QueuePlaces(s, QualifiedNodes(nodes, filter));
  }

  lemma QueueMembers(nodes: seq<Node>, filter: bool, c: seq<Keyed>, s: seq<Keyed>)
    requires multiset(s) == multiset(c)
    requires forall e :: e in c ==> e.node in nodes && Qualified(filter)(e.node) && e.key == e.node.lastPaid
    requires forall n :: n in nodes && Qualified(filter)(n) ==> Keyed(n.lastPaid, n) in c
    ensures Members(s, QualifiedNodes(nodes, filter))
    ensures forall i :: 0 <= i < |s| ==> s[i].node in nodes && s[i].key == s[i].node.lastPaid
  {
    forall i | 0 <= i < |s| ensures s[i] in c { assert s[i] in multiset(c); }
    forall n | n in QualifiedNodes(nodes, filter) ensures exists i :: 0 <= i < |s| && s[i].node == n {
      assert Keyed(n.lastPaid, n) in multiset(s);
      var i :| 0 <= i < |s| && s[i] == Keyed(n.lastPaid, n);
    }
  }

  lemma DistinctSorted(nodes: seq<Node>, s: seq<Keyed>)
    requires DistinctVins(nodes) && Sorted(s) && forall k :: 0 <= k < |s| ==>
      s[k].node in nodes && s[k].key == s[k].node.lastPaid
    ensures DistinctEntries(s)
  {
    forall i, j | 0 <= i < j < |s| ensures s[i].node.vin != s[j].node.vin {
      assert Less(s[i], s[j]);
      SameNode(nodes, s[i].node, s[j].node);
    }
  }

  lemma QueuePlaces(s: seq<Keyed>, q: set<Node>)
    requires Sorted(s) && DistinctEntries(s) && Members(s, q)
    requires forall i :: 0 <= i < |s| ==> s[i].key == s[i].node.lastPaid
    ensures IsQueue(s, q)
  {
    hide WaitedLonger, Sorted, DistinctEntries, FirstNodes;
    forall i, j | 0 <= i < |s| && 0 <= j < |s| ensures s[j].node in WaitedLonger(q, s[i].node) <==> j < i {
      QueueOrder(s, q, i, j);
    }
    QueueSize(s, q);
    hide Members;
    forall i | 0 <= i < |s| ensures |WaitedLonger(q, s[i].node)| == i {
      QueuePlace(s, q, i);
    }
  }

  lemma QueueSize(s: seq<Keyed>, q: set<Node>)
    requires DistinctEntries(s) && Members(s, q)
    ensures |s| == |q|
  {
    FirstNodesAre(s, |s|);
    assert FirstNodes(s, |s|) == q;
    FirstNodesCount(s, |s|);
  }

  lemma QueueOrder(s: seq<Keyed>, q: set<Node>, i: nat, j: nat)
    requires i < |s| && j < |s| && Sorted(s) && s[i].key == s[i].node.lastPaid && s[j].key == s[j].node.lastPaid
    requires s[j].node in q
    ensures s[j].node in WaitedLonger(q, s[i].node) <==> j < i
  {
    if i < j { assert Less(s[i], s[j]); } else if j < i { assert Less(s[j], s[i]); }
  }

  lemma QueuePlace(s: seq<Keyed>, q: set<Node>, i: nat)
    requires i < |s| && DistinctEntries(s) && Members(s, q)
    requires forall j :: 0 <= j < |s| ==> (s[j].node in WaitedLonger(q, s[i].node) <==> j < i)
    ensures |WaitedLonger(q, s[i].node)| == i
  {
    FirstNodesAre(s, i);
    var w := WaitedLonger(q, s[i].node);
    assert w <= q;
    hide WaitedLonger;
    forall n ensures n in FirstNodes(s, i) <==> n in w {
      if n in w { var j :| 0 <= j < |s| && s[j].node == n; }
    }
    assert FirstNodes(s, i) == w;
    FirstNodesCount(s, i);
  }

  lemma BestIsPayee(s: seq<Keyed>, q: set<Node>, count: nat, r: Option<Node>)
    requires IsQueue(s, q) && IsBest(Window(s, count), r)
    ensures IsPayee(q, count, r)
  {
    hide WaitedLonger;
    var w := Window(s, count);
    var tenth := if count / 10 > 1 then count / 10 else 1;
    forall m | m in q && |WaitedLonger(q, m)| < tenth ensures exists i :: 0 <= i < |w| && w[i].node == m {
      var i :| 0 <= i < |s| && s[i].node == m;
      assert w[i].node == m;
    }
    if r.Some? {
      var i :| 0 <= i < |w| && w[i].node == r.value && BestAt(w, i);
      assert s[i].node == r.value;
      LongerInQueue(q, r.value);
      forall m | m in WaitedLonger(q, r.value) ensures m.score < r.value.score {
        var j :| 0 <= j < |s| && s[j].node == m;
        assert w[j].node == m;
      }
    }
  }

  lemma LongerInQueue(q: set<Node>, n: Node)
    ensures WaitedLonger(q, n) <= q
  { }

  /** The number of nodes kept. */
  lemma CollectSize(nodes: seq<Node>, keep: Node -> bool, key: Node -> int, kept: set<Node>)
    requires DistinctVins(nodes) && forall n :: n in kept <==> n in nodes && keep(n)
    ensures |Collect(nodes, keep, key)| == |kept|
  {
    var c := Collect(nodes, keep, key);
    CollectFrom(nodes, keep, key);
    hide Collect;
    FirstNodesAre(c, |c|);
    FirstNodesCount(c, |c|);
    forall n | n in kept ensures n in FirstNodes(c, |c|) {
      var i :| 0 <= i < |c| && c[i] == Keyed(key(n), n);
    }
    assert FirstNodes(c, |c|) == kept;
  }

  /** The payee, told from the nodes alone: the age filter is dropped if it leaves fewer than a third as many nodes as
      are enabled. */
  lemma PayeeIsRight(nodes: seq<Node>, filter: bool, minProtocol: int, r: Option<Node>)
    requires DistinctVins(nodes) && PayeeIs(nodes, filter, minProtocol, true, r)
    ensures var nEnabled := |EnabledNodes(nodes, minProtocol)|;
      IsPayee(QualifiedNodes(nodes, filter && |QualifiedNodes(nodes, true)| >= nEnabled / 3), nEnabled, r)
  {
    hide Sort, Collect, IsBest, IsPayee, IsQueue, Queue;
    CollectSize(nodes, Enabled(minProtocol), CompactScore(), EnabledNodes(nodes, minProtocol));
    CollectSize(nodes, Qualified(true), LastPaid(), QualifiedNodes(nodes, true));
    var count := CountEnabled(nodes, minProtocol);
    var stays := FilterStays(nodes, filter, count);
    SortedIsQueue(nodes, stays);
    BestIsPayee(Queue(nodes, stays), QualifiedNodes(nodes, stays), count, r);
  }

  /** The payee does not depend on the order of the list. */
  lemma PayeeOrderFree(a: seq<Node>, b: seq<Node>, filter: bool, minProtocol: int, haveHash: bool, r: Option<Node>,
                       r': Option<Node>)
    requires DistinctVins(a) && DistinctVins(b) && multiset(a) == multiset(b)
    requires PayeeIs(a, filter, minProtocol, haveHash, r) && PayeeIs(b, filter, minProtocol, haveHash, r')
    ensures r == r'
  {
    hide Sort, Collect, IsBest;
    SortOfPermutation(a, b, Enabled(minProtocol), CompactScore());
    SortOfPermutation(a, b, Qualified(true), LastPaid());
    SortOfPermutation(a, b, Qualified(false), LastPaid());
    var count := CountEnabled(a, minProtocol);
    if haveHash { BestIsOne(Window(Queue(a, FilterStays(a, filter, count)), count), r, r'); }
  }

  /** The nodes that are kept, by the loop that looks at each in turn. */
  method Gather(nodes: seq<Node>, keep: Node -> bool, key: Node -> int) returns (v: seq<Keyed>)
    ensures v == Collect(nodes, keep, key)
  {
    v := [];
    for i := 0 to |nodes|
      invariant v == Collect(nodes[..i], keep, key)
    {
      assert nodes[..i + 1][..i] == nodes[..i];
      if keep(nodes[i]) { v := v + [Keyed(key(nodes[i]), nodes[i])]; }
    }
    assert nodes[..|nodes|] == nodes;
  }

  /** The node to be paid next, and how many were qualified; at most one retry, without the age filter. */
  method GetNextInQueueForPayment(nodes: seq<Node>, filter: bool, minProtocol: int, haveHash: bool)
    returns (r: Option<Node>, nCount: nat)
    ensures PayeeIs(nodes, filter, minProtocol, haveHash, r)
    ensures nCount ==
      |Collect(nodes, Qualified(FilterStays(nodes, filter, CountEnabled(nodes, minProtocol))), LastPaid())|
    ensures DistinctVins(nodes) ==>
      var nEnabled := |EnabledNodes(nodes, minProtocol)|;
      var q := QualifiedNodes(nodes, filter && |QualifiedNodes(nodes, true)| >= nEnabled / 3);
      nCount == |q| && if haveHash then IsPayee(q, nEnabled, r) else r == None
    decreases filter
  {
    r, nCount := NextInQueue(nodes, filter, minProtocol, haveHash);
    hide Sort, Collect, IsPayee, PayeeIs, DistinctVins;
    if DistinctVins(nodes) {
      CollectSize(nodes, Enabled(minProtocol), CompactScore(), EnabledNodes(nodes, minProtocol));
      CollectSize(nodes, Qualified(true), LastPaid(), QualifiedNodes(nodes, true));
      ghost var stays := FilterStays(nodes, filter, CountEnabled(nodes, minProtocol));
      CollectSize(nodes, Qualified(stays), LastPaid(), QualifiedNodes(nodes, stays));
      if haveHash { PayeeIsRight(nodes, filter, minProtocol, r); }
    }
  }

  method NextInQueue(nodes: seq<Node>, filter: bool, minProtocol: int, haveHash: bool)
    returns (r: Option<Node>, nCount: nat)
    ensures PayeeIs(nodes, filter, minProtocol, haveHash, r) && (!haveHash ==> r == None)
    ensures nCount ==
      |Collect(nodes, Qualified(FilterStays(nodes, filter, CountEnabled(nodes, minProtocol))), LastPaid())|
    decreases filter
  {
    hide Sort, Collect;
    var enabled := Gather(nodes, Enabled(minProtocol), CompactScore());
    var nMnCount := |enabled|;
    var lastPaid := Gather(nodes, Qualified(filter), LastPaid());
    nCount := |lastPaid|;
    if filter && nCount < nMnCount / 3 {
      r, nCount := NextInQueue(nodes, false, minProtocol, haveHash);
      return;
    }
    var sorted := Sort(lastPaid);
    if !haveHash { return None, nCount; }
    r := Best(sorted, nMnCount);
  }

  method Best(sorted: seq<Keyed>, nMnCount: nat) returns (r: Option<Node>)
    ensures IsBest(Window(sorted, nMnCount), r)
  {
    var nTenthNetwork := nMnCount / 10;
    var nCountTenth, nHighest := 0, 0;
    r := None;
    ghost var at := 0;
    ghost var w := Window(sorted, nMnCount);
    while nCountTenth < |sorted|
      invariant 0 <= nCountTenth <= |w| && (r.None? <==> nHighest == 0)
      invariant forall j :: 0 <= j < nCountTenth ==> w[j].node.score <= nHighest
      invariant r.Some? ==> 0 <= at < nCountTenth && w[at].node == r.value && nHighest == w[at].node.score
      invariant r.Some? ==> forall j :: 0 <= j < at ==> w[j].node.score < nHighest
      invariant nCountTenth < |sorted| ==> nCountTenth < |w|
      decreases |sorted| - nCountTenth
    {
      var nScore := sorted[nCountTenth].node.score;
      if nScore > nHighest {
        nHighest := nScore;
        r := Some(sorted[nCountTenth].node);
        at := nCountTenth;
      }
      nCountTenth := nCountTenth + 1;
      if nCountTenth >= nTenthNetwork { break; }
    }
    if r.Some? { assert BestAt(w, at); }
  }

  // ----- Ranks -----

  function Reversed(s: seq<Keyed>): seq<Keyed> { seq(|s|, i requires 0 <= i < |s| => s[|s| - 1 - i]) }

  /** Nodes by falling compact score. */
  function Ranking(nodes: seq<Node>, keep: Node -> bool): seq<Keyed> {
    Reversed(Sort(Collect(nodes, keep, CompactScore())))
  }

  /** Ranks do not depend on the order of the list. */
  lemma RankingOrderFree(a: seq<Node>, b: seq<Node>, keep: Node -> bool)
    requires DistinctVins(a) && DistinctVins(b) && multiset(a) == multiset(b)
    ensures Ranking(a, keep) == Ranking(b, keep)
  {
    SortOfPermutation(a, b, keep, CompactScore());
  }

  /** Every node of the list that is kept is in s, once, and no other. */
  ghost predicate Lists(s: seq<Keyed>, nodes: seq<Node>, keep: Node -> bool) {
    && DistinctEntries(s)
    && (forall n :: n in nodes && keep(n) ==> exists k :: 0 <= k < |s| && s[k].node == n)
    && (forall k :: 0 <= k < |s| ==> s[k].node in nodes && keep(s[k].node))
  }

  lemma SortLists(nodes: seq<Node>, keep: Node -> bool)
    requires DistinctVins(nodes)
    ensures Sorted(Sort(Collect(nodes, keep, CompactScore())))
    ensures Lists(Sort(Collect(nodes, keep, CompactScore())), nodes, keep)
  {
    var c := Collect(nodes, keep, CompactScore());
    CollectFrom(nodes, keep, CompactScore());
    SortIs(c);
    hide Sort, Collect;
    ListsSame(nodes, keep, c, Sort(c));
  }

  /** A sorted rearrangement of the kept nodes still lists them. */
  lemma ListsSame(nodes: seq<Node>, keep: Node -> bool, c: seq<Keyed>, s: seq<Keyed>)
    requires DistinctVins(nodes) && Sorted(s) && multiset(s) == multiset(c)
    requires forall e :: e in c ==> e.node in nodes && keep(e.node) && e.key == CompactScore()(e.node)
    requires forall n :: n in nodes && keep(n) ==> Keyed(CompactScore()(n), n) in c
    ensures Lists(s, nodes, keep)
  {
    forall n | n in nodes && keep(n) ensures exists k :: 0 <= k < |s| && s[k].node == n {
      assert Keyed(n.compactScore, n) in multiset(s);
      var k :| 0 <= k < |s| && s[k] == Keyed(n.compactScore, n);
    }
    forall k | 0 <= k < |s| ensures s[k].node in nodes && keep(s[k].node) && s[k] in c { assert s[k] in multiset(c); }
    StrictlySorted(nodes, s);
  }

  lemma StrictlySorted(nodes: seq<Node>, s: seq<Keyed>)
    requires DistinctVins(nodes) && Sorted(s) && forall k :: 0 <= k < |s| ==>
      s[k].node in nodes && s[k].key == s[k].node.compactScore
    ensures DistinctEntries(s)
  {
    forall i, j | 0 <= i < j < |s| ensures s[i].node.vin != s[j].node.vin {
      assert Less(s[i], s[j]);
      SameNode(nodes, s[i].node, s[j].node);
    }
  }

  lemma SameNode(nodes: seq<Node>, a: Node, b: Node)
    requires DistinctVins(nodes) && a in nodes && b in nodes
    ensures a.vin == b.vin ==> a == b
  { }

  /** Every node that is kept has one place, higher scores first. */
  lemma RankingIs(nodes: seq<Node>, keep: Node -> bool)
    requires DistinctVins(nodes)
    ensures forall i, j :: 0 <= i < j < |Ranking(nodes, keep)| ==>
      Less(Ranking(nodes, keep)[j], Ranking(nodes, keep)[i])
    ensures forall i, j :: 0 <= i < j < |Ranking(nodes, keep)| ==>
      Ranking(nodes, keep)[i].node.compactScore >= Ranking(nodes, keep)[j].node.compactScore
    ensures Lists(Ranking(nodes, keep), nodes, keep)
  {
    RankingKeys(nodes, keep);
    hide Sort, Collect;
    SortLists(nodes, keep);
    ReversedLists(Sort(Collect(nodes, keep, CompactScore())), nodes, keep);
  }

  lemma ReversedLists(s: seq<Keyed>, nodes: seq<Node>, keep: Node -> bool)
    requires Lists(s, nodes, keep)
    ensures Lists(Reversed(s), nodes, keep)
  {
    var r := Reversed(s);
    forall n | n in nodes && keep(n) ensures exists k :: 0 <= k < |r| && r[k].node == n {
      var k :| 0 <= k < |s| && s[k].node == n;
      assert r[|s| - 1 - k].node == n;
    }
  }

  /** The rank of the node with a collateral, or -1. */
  method GetRank(nodes: seq<Node>, vin: int, keep: Node -> bool, haveHash: bool) returns (nRank: int)
    ensures !haveHash ==> nRank == -1
    ensures haveHash ==> nRank == -1 || 1 <= nRank <= |Ranking(nodes, keep)|
    ensures haveHash && nRank == -1 ==> forall i :: 0 <= i < |Ranking(nodes, keep)| ==>
      Ranking(nodes, keep)[i].node.vin != vin
    ensures haveHash && nRank >= 1 ==> Ranking(nodes, keep)[nRank - 1].node.vin == vin
  {
    hide Sort, Collect;
    if !haveHash { return -1; }
    var scores := Gather(nodes, keep, CompactScore());
    var ranking := Reversed(Sort(scores));
    nRank := 0;
    while nRank < |ranking|
      invariant 0 <= nRank <= |ranking| && forall i :: 0 <= i < nRank ==> ranking[i].node.vin != vin
    {
      nRank := nRank + 1;
      if ranking[nRank - 1].node.vin == vin { return; }
    }
    nRank := -1;
  }

  /** The node at a rank. */
  method GetByRank(nodes: seq<Node>, nRank: int, keep: Node -> bool, haveHash: bool) returns (r: Option<Node>)
    ensures r ==
      if haveHash && 1 <= nRank <= |Ranking(nodes, keep)| then Some(Ranking(nodes, keep)[nRank - 1].node) else None
  {
    hide Sort, Collect;
    if !haveHash { return None; }
    var scores := Gather(nodes, keep, CompactScore());
    var ranking := Reversed(Sort(scores));
    var rank := 0;
    while rank < |ranking|
      invariant 0 <= rank <= |ranking| && (rank > 0 ==> rank < nRank || nRank < 1)
    {
      rank := rank + 1;
      if rank == nRank { return Some(ranking[rank - 1].node); }
    }
    r := None;
  }

  /** Which nodes have a rank. */
  function Ranked(minProtocol: int, onlyActive: bool): Node -> bool {
    if onlyActive then Enabled(minProtocol) else (n: Node) => n.protocol >= minProtocol && n.validForPayment
  }

  /** Which nodes are found by rank: if not only active ones are asked for, all of them. */
  function Findable(minProtocol: int, onlyActive: bool): Node -> bool {
    if onlyActive then Enabled(minProtocol) else (n: Node) => n.protocol >= minProtocol
  }

  function Score(n: Node): Keyed { Keyed(n.compactScore, n) }

  /** The kept nodes that come before n: those with a higher score, or the same and a higher collateral. */
  ghost function Before(nodes: seq<Node>, keep: Node -> bool, n: Node): set<Node> {
    set m | m in nodes && keep(m) &&
      (m.compactScore > n.compactScore || (m.compactScore == n.compactScore && m.vin > n.vin))
  }

  /** A node that can be found by rank but has none comes before n. */
  ghost predicate Hidden(nodes: seq<Node>, minProtocol: int, onlyActive: bool, n: Node) {
    exists m :: m in nodes && Findable(minProtocol, onlyActive)(m) && !Ranked(minProtocol, onlyActive)(m) &&
      (m.compactScore > n.compactScore || (m.compactScore == n.compactScore && m.vin > n.vin))
  }

  ghost function FirstNodes(s: seq<Keyed>, k: nat): set<Node>
    requires k <= |s|
  {
    if k == 0 then {} else FirstNodes(s, k - 1) + {s[k - 1].node}
  }

  lemma {:induction false} FirstNodesAre(s: seq<Keyed>, k: nat)
    requires k <= |s|
    ensures forall m :: m in FirstNodes(s, k) <==> exists i :: 0 <= i < k && s[i].node == m
  {
    if k > 0 {
      FirstNodesAre(s, k - 1);
      forall m | m in FirstNodes(s, k) ensures exists i :: 0 <= i < k && s[i].node == m {
        if m in FirstNodes(s, k - 1) { var i :| 0 <= i < k - 1 && s[i].node == m; }
      }
    }
  }

  lemma {:induction false} FirstNodesCount(s: seq<Keyed>, k: nat)
    requires k <= |s| && DistinctEntries(s)
    ensures |FirstNodes(s, k)| == k
  {
    if k > 0 {
      FirstNodesCount(s, k - 1);
      FirstNodesAre(s, k - 1);
    }
  }

  /** As many kept nodes come before the one at a place as the place says. */
  lemma PlaceIs(nodes: seq<Node>, keep: Node -> bool, k: nat)
    requires DistinctVins(nodes) && k < |Ranking(nodes, keep)|
    ensures k == |Before(nodes, keep, Ranking(nodes, keep)[k].node)|
  {
    RankingIs(nodes, keep);
    RankingKeys(nodes, keep);
    hide Ranking, Less, FirstNodes, DistinctEntries, Before;
    var s := Ranking(nodes, keep);
    FirstNodesCount(s, k);
    forall m ensures m in FirstNodes(s, k) <==> m in Before(nodes, keep, s[k].node) {
      FirstIsBefore(nodes, keep, s, k, m);
    }
    assert FirstNodes(s, k) == Before(nodes, keep, s[k].node);
  }

  lemma FirstIsBefore(nodes: seq<Node>, keep: Node -> bool, s: seq<Keyed>, k: nat, m: Node)
    requires k < |s| && Lists(s, nodes, keep) && forall i, j :: 0 <= i < j < |s| ==> Less(s[j], s[i])
    requires forall i :: 0 <= i < |s| ==> s[i] == Score(s[i].node)
    ensures m in FirstNodes(s, k) <==> m in Before(nodes, keep, s[k].node)
  {
    hide Less, FirstNodes, DistinctEntries;
    FirstNodesAre(s, k);
    if m in nodes { LessScore(s[k].node, m); }
    if m in Before(nodes, keep, s[k].node) {
      var i :| 0 <= i < |s| && s[i].node == m;
      if i >= k { NotBefore(s, i, k); }
    }
    if m in FirstNodes(s, k) {
      var i :| 0 <= i < k && s[i].node == m;
      assert Less(s[k], s[i]);
    }
  }

  lemma LessScore(n: Node, m: Node)
    ensures Less(Score(n), Score(m)) <==>
      m.compactScore > n.compactScore || (m.compactScore == n.compactScore && m.vin > n.vin)
  { }

  lemma NotBefore(s: seq<Keyed>, i: nat, k: nat)
    requires k <= i < |s| && forall i, j :: 0 <= i < j < |s| ==> Less(s[j], s[i])
    ensures !Less(s[k], s[i])
  { }

  lemma RankingKeys(nodes: seq<Node>, keep: Node -> bool)
    requires DistinctVins(nodes)
    ensures forall k :: 0 <= k < |Ranking(nodes, keep)| ==>
      Ranking(nodes, keep)[k] == Score(Ranking(nodes, keep)[k].node)
  {
    var c := Collect(nodes, keep, CompactScore());
    CollectFrom(nodes, keep, CompactScore());
    SortIs(c);
    hide Sort, Collect;
    forall k | 0 <= k < |Sort(c)| ensures Sort(c)[k] in c { assert Sort(c)[k] in multiset(c); }
  }

  /** If more can be found than are ranked, a node has the same place among both exactly if no other comes before it. */
  lemma SamePlace(nodes: seq<Node>, minProtocol: int, onlyActive: bool, n: Node)
    ensures var few, all := Before(nodes, Ranked(minProtocol, onlyActive), n),
      Before(nodes, Findable(minProtocol, onlyActive), n);
      few <= all && |few| <= |all| && (|few| == |all| <==> !Hidden(nodes, minProtocol, onlyActive, n))
  {
    var few, all := Before(nodes, Ranked(minProtocol, onlyActive), n),
      Before(nodes, Findable(minProtocol, onlyActive), n);
    assert all == few + (all - few);
    if Hidden(nodes, minProtocol, onlyActive, n) {
      var m :| m in nodes && Findable(minProtocol, onlyActive)(m) && !Ranked(minProtocol, onlyActive)(m) &&
        (m.compactScore > n.compactScore || (m.compactScore == n.compactScore && m.vin > n.vin));
      assert m in all - few;
    } else {
      assert all - few == {};
    }
  }

  /** Looking a ranked node up by its rank gives the node exactly if no node without a rank comes before it. That is
      so if only active nodes are asked for; otherwise ranks are given to those valid for payment, but looked up
      among all. */
  method RankAndBack(nodes: seq<Node>, n: Node, minProtocol: int, onlyActive: bool)
    returns (nRank: int, r: Option<Node>)
    requires DistinctVins(nodes) && n in nodes
    ensures nRank ==
      if Ranked(minProtocol, onlyActive)(n) then |Before(nodes, Ranked(minProtocol, onlyActive), n)| + 1 else -1
    ensures nRank != -1 <==> n.protocol >= minProtocol && if onlyActive then n.enabled else n.validForPayment
    ensures nRank <= |Collect(nodes, Ranked(minProtocol, onlyActive), CompactScore())|
    ensures nRank == -1 ==> r == None
    ensures nRank >= 1 ==> r.Some? && r.value in nodes && (r.value == n <==> !Hidden(nodes, minProtocol, onlyActive, n))
    ensures onlyActive ==> !Hidden(nodes, minProtocol, onlyActive, n)
  {
    hide Sort, Collect, Ranking, Less, Before, Hidden;
    var ranked, findable := Ranked(minProtocol, onlyActive), Findable(minProtocol, onlyActive);
    RankingIs(nodes, ranked);
    RankingIs(nodes, findable);
    RankingSize(nodes, ranked);
    nRank := GetRank(nodes, n.vin, ranked, true);
    r := GetByRank(nodes, nRank, findable, true);
    NoneHidden(nodes, minProtocol, n);
    if nRank >= 1 {
      SameNode(nodes, Ranking(nodes, ranked)[nRank - 1].node, n);
      PlaceIs(nodes, ranked, nRank - 1);
      SamePlace(nodes, minProtocol, onlyActive, n);
      RankFound(nodes, findable, n, nRank - 1);
    }
  }

  lemma NoneHidden(nodes: seq<Node>, minProtocol: int, n: Node)
    ensures !Hidden(nodes, minProtocol, true, n)
  { }

  /** What is at a place not beyond that of n. */
  lemma RankFound(nodes: seq<Node>, keep: Node -> bool, n: Node, k: nat)
    requires DistinctVins(nodes) && n in nodes && keep(n) && k <= |Before(nodes, keep, n)|
    ensures k < |Ranking(nodes, keep)| && Ranking(nodes, keep)[k].node in nodes
    ensures Ranking(nodes, keep)[k].node == n <==> k == |Before(nodes, keep, n)|
  {
    hide Ranking, Before;
    RankingIs(nodes, keep);
    var i :| 0 <= i < |Ranking(nodes, keep)| && Ranking(nodes, keep)[i].node == n;
    PlaceIs(nodes, keep, i);
    PlaceIs(nodes, keep, k);
  }

  /** The other way round: the rank of the node at a rank is that rank exactly if it has one and no node without a
      rank comes before it. */
  method BackAndRank(nodes: seq<Node>, k: int, minProtocol: int, onlyActive: bool) returns (r: Option<Node>, nRank: int)
    requires DistinctVins(nodes)
    ensures r.Some? <==> 1 <= k <= |set n | n in nodes && n.protocol >= minProtocol && (onlyActive ==> n.enabled)|
    ensures r.Some? ==> r.value in nodes && r.value.protocol >= minProtocol && (onlyActive ==> r.value.enabled)
    ensures r.Some? ==>
      (nRank == k <==> Ranked(minProtocol, onlyActive)(r.value) && !Hidden(nodes, minProtocol, onlyActive, r.value))
  {
    hide Sort, Collect, Ranking, Less, Before, Hidden;
    nRank := -1;
    var ranked, findable := Ranked(minProtocol, onlyActive), Findable(minProtocol, onlyActive);
    RankingIs(nodes, ranked);
    RankingIs(nodes, findable);
    RankingSize(nodes, findable);
    CollectSize(nodes, findable, CompactScore(),
      set n | n in nodes && n.protocol >= minProtocol && (onlyActive ==> n.enabled));
    r := GetByRank(nodes, k, findable, true);
    if r.Some? {
      nRank := GetRank(nodes, r.value.vin, ranked, true);
      PlaceIs(nodes, findable, k - 1);
      SamePlace(nodes, minProtocol, onlyActive, r.value);
      if nRank >= 1 {
        SameNode(nodes, Ranking(nodes, ranked)[nRank - 1].node, r.value);
        PlaceIs(nodes, ranked, nRank - 1);
      }
    }
  }

  /** A node that may not be paid, with a higher score, stands at the rank that the other one has. */
  method RankOfAnother() returns (nRank: int, r: Option<Node>)
    ensures nRank == 1 && r.Some? && r.value.vin == 7
  {
    var a := Node(7, 0, 2, 2, 0, false, false, false, false);
    var b := Node(8, 0, 1, 1, 0, true, true, false, false);
    nRank, r := RankAndBack([a, b], b, 0, false);
    assert Findable(0, false)(a) && !Ranked(0, false)(a) && a in [a, b] && a.compactScore > b.compactScore;
    assert Hidden([a, b], 0, false, b);
    assert Before([a, b], Ranked(0, false), b) == {};
  }

  lemma RankingSize(nodes: seq<Node>, keep: Node -> bool)
    requires DistinctVins(nodes)
    ensures |Ranking(nodes, keep)| == |Collect(nodes, keep, CompactScore())|
  {
    var c := Collect(nodes, keep, CompactScore());
    CollectFrom(nodes, keep, CompactScore());
    SortIs(c);
    assert |Sort(c)| == |multiset(Sort(c))| == |multiset(c)| == |c|;
  }
}
