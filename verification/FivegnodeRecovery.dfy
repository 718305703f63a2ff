/** The recovery protocol: when a service node seems gone, ask up to ten others for its broadcast, and take
    it back only if at least six of those asked answered in time with a good one. */
module FivegnodeRecovery {
  import opened Wrappers

  const QUORUM_TOTAL := 10
  const QUORUM_REQUIRED := 6
  const MAX_ASK_ENTRIES := 10
  const WAIT_SECONDS := 60
  const RETRY_SECONDS := 3 * 60 * 60

  type Hash = nat
  type Addr = int

  datatype Broadcast = Broadcast(vin: int, hash: Hash, pingTime: int)

  datatype Request = Request(deadline: int, waiting: set<Addr>)

  /** A node of the list: the hash of its broadcast, and what its state calls for. */
  datatype Node = Node(vin: int, hash: Hash, spent: bool, newStartRequired: bool)

  /** What the checks of a new broadcast come to: whether it is well formed, whether the node it is about is updated
      and what becomes of that node in any case, and what is found out about its collateral. */
  datatype Checks = Checks(simple: bool, updated: bool, after: Node -> Node, outpoint: Outpoint)

  datatype Outpoint = Good | Bad | CheckLater

  /** A broadcast that was taken back: when, who had answered when, and what its checks came to. */
  datatype Event = Event(hash: Hash, time: int, deadline: int, asked: set<Addr>, answers: seq<Answer>,
                         mnb: Broadcast, checks: Checks)

  datatype Answer = Answer(from: Addr, time: int)

  ghost predicate DistinctSenders(s: seq<Answer>) { forall i, j :: 0 <= i < j < |s| ==> s[i].from != s[j].from }

  /** Answers of different nodes that were asked, are not waited for any more, and were in time. */
  ghost predicate AnswersOk(s: seq<Answer>, asked: set<Addr>, r: Request) {
    && DistinctSenders(s)
    && (forall i :: 0 <= i < |s| ==> s[i].from in asked && s[i].from !in r.waiting && s[i].time < r.deadline)
  }

  lemma Struck(s: seq<Answer>, asked: set<Addr>, r: Request, from: Addr)
    requires AnswersOk(s, asked, r) && from in r.waiting
    ensures AnswersOk(s, asked, r.(waiting := r.waiting - {from}))
    ensures forall i :: 0 <= i < |s| ==> s[i].from != from
  { }

  lemma HasEvent(e: Event, r: Request)
    requires AnswersOk(e.answers, e.asked, r) && r.deadline == e.deadline < e.time && e.mnb.hash == e.hash
    requires |e.answers| >= QUORUM_REQUIRED && |e.asked| <= QUORUM_TOTAL
    ensures EventOk(e)
  { }

  lemma AnswerAdded(s: seq<Answer>, asked: set<Addr>, r: Request, from: Addr, now: int)
    requires from in asked && from !in r.waiting && now < r.deadline
    requires s == [] || AnswersOk(s, asked, r)
    requires forall i :: 0 <= i < |s| ==> s[i].from != from
    ensures AnswersOk(s + [Answer(from, now)], asked, r)
  { }

  /** A broadcast is taken back only after its deadline, on the word of six or more of up to ten nodes that were asked,
      and it is the one that they were asked for. */
  ghost predicate EventOk(e: Event) {
    && e.deadline < e.time && |e.answers| >= 6 && |e.asked| <= 10 && e.mnb.hash == e.hash
    && AnswersOk(e.answers, e.asked, Request(e.deadline, {}))
  }

  ghost function Senders(s: seq<Answer>): set<Addr> { set i | 0 <= i < |s| :: s[i].from }

  lemma {:induction false} SendersCount(s: seq<Answer>)
    requires DistinctSenders(s)
    ensures |Senders(s)| == |s|
  {
    if s != [] {
      var n := |s| - 1;
      SendersCount(s[..n]);
      assert Senders(s) == Senders(s[..n]) + {s[n].from};
      assert s[n].from !in Senders(s[..n]);
    }
  }

  /** Answers and nodes still waited for are together no more than were asked. */
  lemma QuorumBound(s: seq<Answer>, asked: set<Addr>, r: Request)
    requires AnswersOk(s, asked, r) && r.waiting <= asked && |asked| <= QUORUM_TOTAL
    ensures |s| + |r.waiting| <= 10
  {
    SendersCount(s);
    var both := Senders(s) + r.waiting;
    assert Senders(s) !! r.waiting;
    assert |both| == |Senders(s)| + |r.waiting|;
    SubsetSize(both, asked);
  }

  /** The hashes of the events from the n-th on. */
  ghost function TakenSince(log: seq<Event>, n: nat): set<Hash> { set i | n <= i < |log| :: log[i].hash }

  lemma TakenOneMore(log: seq<Event>, n: nat, e: Event)
    requires n <= |log|
    ensures TakenSince(log + [e], n) == TakenSince(log, n) + {e.hash}
  {
    var s := log + [e];
    forall h | h in TakenSince(log, n) + {e.hash} ensures h in TakenSince(s, n) {
      if h == e.hash {
        assert s[|log|].hash == h;
      } else {
        var i :| n <= i < |log| && log[i].hash == h;
        assert s[i].hash == h;
      }
    }
  }

  type Replies = map<Hash, seq<Broadcast>>

  /** The events from the n-th on are about different requests; each takes back the first of the replies, which are six
      or more, with what its own checks come to. */
  ghost predicate Taken(log: seq<Event>, n: nat, was: Replies, checks: Broadcast -> Checks, now: int) {
    && (forall i :: n <= i < |log| ==>
          && log[i].hash in was && |was[log[i].hash]| >= 6 && log[i].time == now
          && log[i].mnb == was[log[i].hash][0] && log[i].checks == checks(log[i].mnb))
    && (forall i, j :: n <= i < j < |log| ==> log[i].hash != log[j].hash)
  }

  lemma TakenMore(log: seq<Event>, n: nat, was: Replies, checks: Broadcast -> Checks, now: int, e: Event)
    requires Taken(log, n, was, checks, now) && e.hash !in TakenSince(log, n)
    requires e.hash in was && |was[e.hash]| >= 6 && e.time == now
    requires e.mnb == was[e.hash][0] && e.checks == checks(e.mnb)
    ensures Taken(log + [e], n, was, checks, now)
  {
    forall i | n <= i < |log| ensures log[i].hash != e.hash { assert log[i].hash in TakenSince(log, n); }
  }

  /** The replies whose deadline is over, leaving out some. */
  ghost function Due(replies: Replies, requests: map<Hash, Request>, now: int, but: set<Hash>): set<Hash> {
    set h | h in replies && h !in but && h in requests && requests[h].deadline < now
  }

  /** The requests long past their deadline, leaving out some. */
  ghost function Old(requests: map<Hash, Request>, now: int, but: set<Hash>): set<Hash> {
    set h | h in requests && h !in but && now - requests[h].deadline > RETRY_SECONDS
  }

  lemma NoneOld(requests: map<Hash, Request>, now: int)
    ensures requests - Old(requests, now, requests.Keys) == requests
  {
    assert Old(requests, now, requests.Keys) == {};
  }

  lemma OldStep(requests: map<Hash, Request>, now: int, but: set<Hash>, h: Hash)
    requires h in requests && h in but
    ensures h in requests - Old(requests, now, but)
    ensures requests - Old(requests, now, but - {h}) ==
      requests - Old(requests, now, but) - (if now - requests[h].deadline > RETRY_SECONDS then {h} else {})
  {
    assert Old(requests, now, but - {h}) ==
      Old(requests, now, but) + (if now - requests[h].deadline > RETRY_SECONDS then {h} else {});
  }

  lemma AllOld(requests: map<Hash, Request>, now: int)
    ensures forall h :: h in requests ==>
      (h in requests - Old(requests, now, {}) <==> now - requests[h].deadline <= RETRY_SECONDS)
  { }

  ghost predicate HasQuorum(replies: Replies, h: Hash) { h in replies && |replies[h]| >= QUORUM_REQUIRED }

  /** They are all this broadcast. */
  ghost predicate AllOf(s: seq<Broadcast>, h: Hash) { forall i :: 0 <= i < |s| ==> s[i].hash == h }

  ghost function WithQuorum(replies: Replies, s: set<Hash>): set<Hash> { set h | h in s && HasQuorum(replies, h) }

  lemma DueStep(replies: Replies, requests: map<Hash, Request>, now: int, but: set<Hash>, h: Hash)
    requires h in replies && h in but && h in requests
    ensures Due(replies, requests, now, but - {h}) ==
      if requests[h].deadline < now then Due(replies, requests, now, but) + {h} else Due(replies, requests, now, but)
  { }

  lemma QuorumStep(replies: Replies, s: set<Hash>, h: Hash)
    ensures WithQuorum(replies, s + {h}) == WithQuorum(replies, s) + (if HasQuorum(replies, h) then {h} else {})
    ensures replies - s - {h} == replies - (s + {h})
  { }

  lemma StillThere(replies: Replies, requests: map<Hash, Request>, now: int, but: set<Hash>, h: Hash)
    requires h in replies && h in but
    ensures h in replies - Due(replies, requests, now, but)
    ensures h !in WithQuorum(replies, Due(replies, requests, now, but))
  { }

  lemma SameQuorum(was: Replies, replies: Replies, h: Hash)
    requires h in was && h in replies && was[h] == replies[h]
    ensures HasQuorum(was, h) <==> HasQuorum(replies, h)
  { }

  lemma DueStart(replies: Replies, requests: map<Hash, Request>, now: int, log: seq<Event>,
                 checks: Broadcast -> Checks)
    ensures Due(replies, requests, now, replies.Keys) == {} && WithQuorum(replies, {}) == {} && replies - {} == replies
    ensures TakenSince(log, |log|) == {} && Taken(log, |log|, replies, checks, now)
  { }

  /** The nodes among the first n by rank that were not asked recently. */
  ghost function Askable(ranks: seq<Addr>, n: nat, askedRecently: (int, Addr) -> bool, vin: int): set<Addr>
    requires n <= |ranks|
  {
    set i | 0 <= i < n && !askedRecently(vin, ranks[i]) :: ranks[i]
  }

  /** Those and no others, up to ten. */
  ghost predicate FirstAskable(ranks: seq<Addr>, askedRecently: (int, Addr) -> bool, vin: int, s: set<Addr>) {
    exists n :: 0 <= n <= |ranks| && Askable(ranks, n, askedRecently, vin) == s && |s| <= 10 &&
      (n == |ranks| || |s| == 10)
  }

  /** Whom to ask, with every node ranked once: nodes not asked recently about this one, none left out before another,
      at most ten, and all of them if they are fewer. */
  lemma ChosenAre(ranks: seq<Addr>, askedRecently: (int, Addr) -> bool, vin: int, s: set<Addr>)
    requires FirstAskable(ranks, askedRecently, vin, s)
    requires forall i, j :: 0 <= i < j < |ranks| ==> ranks[i] != ranks[j]
    ensures |s| <= 10 && forall a :: a in s ==> a in ranks && !askedRecently(vin, a)
    ensures forall i, j :: 0 <= i < j < |ranks| && ranks[j] in s && !askedRecently(vin, ranks[i]) ==> ranks[i] in s
    ensures |s| < 10 ==> forall i :: 0 <= i < |ranks| && !askedRecently(vin, ranks[i]) ==> ranks[i] in s
  { }

  /** Connections to each of s, and to no one else, about one broadcast. */
  ghost predicate AsksFor(asks: seq<(Addr, Hash)>, hash: Hash, s: set<Addr>) {
    forall a, h :: (a, h) in asks <==> h == hash && a in s
  }

  lemma AsksMore(asks: seq<(Addr, Hash)>, hash: Hash, s: set<Addr>, a: Addr)
    requires AsksFor(asks, hash, s)
    ensures AsksFor(asks + [(a, hash)], hash, s + {a})
  { }

  /** Connections to each node waited for by a new request, and to no one else. */
  ghost predicate AsksForNew(asks: seq<(Addr, Hash)>, was: map<Hash, Request>, requests: map<Hash, Request>) {
    forall a, h :: (a, h) in asks <==> h in requests && h !in was && a in requests[h].waiting
  }

  lemma NoneAsksForNew(was: map<Hash, Request>)
    ensures AsksForNew([], was, was)
  { }

  lemma AsksForOneMore(asks: seq<(Addr, Hash)>, more: seq<(Addr, Hash)>, was: map<Hash, Request>,
                       requests: map<Hash, Request>, hash: Hash, r: Request)
    requires AsksForNew(asks, was, requests) && AsksFor(more, hash, r.waiting) && hash !in requests && hash !in was
    ensures AsksForNew(asks + more, was, requests[hash := r])
  {
    var now := requests[hash := r];
    forall a, h ensures (a, h) in asks + more <==> h in now && h !in was && a in now[h].waiting {
      assert (a, h) in asks + more <==> (a, h) in asks || (a, h) in more;
    }
  }

  /** New requests that someone was asked about. */
  ghost function NewlyAsked(was: map<Hash, Request>, requests: map<Hash, Request>): set<Hash> {
    set h | h in requests && h !in was && requests[h].waiting != {}
  }

  lemma NoneAsked(requests: map<Hash, Request>)
    ensures NewlyAsked(requests, requests) == {}
  { }

  lemma AskedOneMore(was: map<Hash, Request>, requests: map<Hash, Request>, h: Hash, r: Request)
    requires h !in was && h !in requests
    ensures |NewlyAsked(was, requests[h := r])| == |NewlyAsked(was, requests)| + (if r.waiting != {} then 1 else 0)
  {
    assert NewlyAsked(was, requests[h := r]) == NewlyAsked(was, requests) + (if r.waiting != {} then {h} else {});
  }

  // ----- The list of nodes and the broadcasts seen -----

  datatype Book = Book(nodes: seq<Node>, seen: map<Hash, Broadcast>)

  /** The first node with a collateral, or the end of the list. */
  function First(nodes: seq<Node>, vin: int): (i: nat)
    ensures i <= |nodes| && (i < |nodes| ==> nodes[i].vin == vin) && forall k :: 0 <= k < i ==> nodes[k].vin != vin
  {
    if nodes == [] || nodes[0].vin == vin then 0
    else
      var i := First(nodes[1..], vin);
      assert forall k :: 0 < k < |nodes| ==> nodes[k] == nodes[1..][k - 1];
      1 + i
  }

  method Find(nodes: seq<Node>, vin: int) returns (i: nat)
    ensures i == First(nodes, vin)
  {
    i := 0;
    while i < |nodes| && nodes[i].vin != vin
      invariant i <= |nodes| && forall k :: 0 <= k < i ==> nodes[k].vin != vin
    {
      i := i + 1;
    }
  }

  /** What noting a broadcast and then updating the node it is about leaves; the second part says whether to go on. */
  function Updated(b: Book, mnb: Broadcast, checks: Checks, blank: Broadcast): (Book, bool) {
    var seen := if mnb.hash in b.seen then b.seen else b.seen[mnb.hash := mnb];
    var i := First(b.nodes, mnb.vin);
    if !checks.simple then (Book(b.nodes, seen), false)
    else if i == |b.nodes| then (Book(b.nodes, seen), true)
    else
      var hash := b.nodes[i].hash;
      var seen' := if hash in seen then seen else seen[hash := blank];
      var old_ := seen'[hash].hash;
      var nodes := b.nodes[i := checks.after(b.nodes[i]).(vin := b.nodes[i].vin)];
      (Book(nodes, if checks.updated && mnb.hash != old_ then seen' - {old_} else seen'), checks.updated)
  }

  /** What handling a new broadcast leaves. */
  function Admitted(b: Book, mnb: Broadcast, checks: Checks, blank: Broadcast): Book {
    var (b', on) := Updated(b, mnb, checks, blank);
    if !on then b'
    else
      match checks.outpoint
      case Good =>
        if First(b'.nodes, mnb.vin) < |b'.nodes| then b'
        else b'.(nodes := b'.nodes + [Node(mnb.vin, mnb.hash, false, false)])
      case Bad => b'
      case CheckLater => b'.(seen := b'.seen - {mnb.hash})
  }

  /** No collateral is listed twice. */
  ghost predicate DistinctVins(nodes: seq<Node>) {
    forall i, j :: 0 <= i < j < |nodes| ==> nodes[i].vin != nodes[j].vin
  }

  lemma NoVins()
    ensures DistinctVins([])
  { }

  /** Handling a broadcast loses no node and keeps the order; it changes no node but the one it is about, and that one
      as its check says if the broadcast is well formed; it adds that one at the end if it was not listed and passes
      its checks, and never lists a collateral twice. */
  lemma AdmitKeeps(b: Book, mnb: Broadcast, checks: Checks, blank: Broadcast)
    requires DistinctVins(b.nodes)
    ensures var b' := Admitted(b, mnb, checks, blank);
      && DistinctVins(b'.nodes) && |b.nodes| <= |b'.nodes| <= |b.nodes| + 1
      && (forall i :: 0 <= i < |b.nodes| ==> b'.nodes[i].vin == b.nodes[i].vin)
      && (forall i :: 0 <= i < |b.nodes| ==>
            b'.nodes[i] == if b.nodes[i].vin == mnb.vin && checks.simple
                           then checks.after(b.nodes[i]).(vin := b.nodes[i].vin) else b.nodes[i])
      && (|b'.nodes| > |b.nodes| <==>
            (forall i :: 0 <= i < |b.nodes| ==> b.nodes[i].vin != mnb.vin) && checks.simple && checks.outpoint == Good)
      && (|b'.nodes| > |b.nodes| ==> b'.nodes[|b.nodes|] == Node(mnb.vin, mnb.hash, false, false))
  {
    assert First(b.nodes, mnb.vin) < |b.nodes| ==>
      forall i :: 0 <= i < |b.nodes| && b.nodes[i].vin == mnb.vin ==> i == First(b.nodes, mnb.vin);
    hide DistinctVins;
    var (u, on) := Updated(b, mnb, checks, blank);
    assert |u.nodes| == |b.nodes| && forall i :: 0 <= i < |b.nodes| ==> u.nodes[i].vin == b.nodes[i].vin;
    SameVins(b.nodes, u.nodes);
    if First(u.nodes, mnb.vin) == |u.nodes| { OneMoreVin(u.nodes, Node(mnb.vin, mnb.hash, false, false)); }
  }

  lemma SameVins(a: seq<Node>, b: seq<Node>)
    requires |a| == |b| && DistinctVins(a) && forall i :: 0 <= i < |a| ==> a[i].vin == b[i].vin
    ensures DistinctVins(b)
  { }

  lemma OneMoreVin(a: seq<Node>, n: Node)
    requires DistinctVins(a) && First(a, n.vin) == |a|
    ensures DistinctVins(a + [n])
  { }

  /** A broadcast about a node that is not listed, or one that is not well formed, is noted, unless its outpoint is to
      be checked later; nothing else that was noted changes. */
  lemma UnknownIsNoted(b: Book, mnb: Broadcast, checks: Checks, blank: Broadcast)
    requires !checks.simple || forall i :: 0 <= i < |b.nodes| ==> b.nodes[i].vin != mnb.vin
    ensures var seen := Admitted(b, mnb, checks, blank).seen;
      && (mnb.hash in seen <==> !(checks.simple && checks.outpoint == CheckLater))
      && (mnb.hash in seen ==> seen[mnb.hash] == if mnb.hash in b.seen then b.seen[mnb.hash] else mnb)
      && forall h :: h != mnb.hash ==> (h in seen <==> h in b.seen) && (h in seen ==> seen[h] == b.seen[h])
  { }

  /** If the update of a node fails, the broadcast is noted and the former one is kept. */
  lemma FormerIsKept(b: Book, mnb: Broadcast, checks: Checks, blank: Broadcast)
    requires First(b.nodes, mnb.vin) < |b.nodes| && b.nodes[First(b.nodes, mnb.vin)].hash in b.seen && !checks.updated
    ensures Admitted(b, mnb, checks, blank).seen == if mnb.hash in b.seen then b.seen else b.seen[mnb.hash := mnb]
  { }

  /** The former broadcast of a node that is updated is forgotten, and nothing else that was noted. */
  lemma FormerIsForgotten(b: Book, mnb: Broadcast, checks: Checks, blank: Broadcast)
    requires First(b.nodes, mnb.vin) < |b.nodes| && checks.simple && checks.updated
    requires var former := b.nodes[First(b.nodes, mnb.vin)].hash;
      former in b.seen && b.seen[former].hash == former != mnb.hash
    ensures var b', former := Admitted(b, mnb, checks, blank), b.nodes[First(b.nodes, mnb.vin)].hash;
      && former !in b'.seen && (mnb.hash in b'.seen <==> checks.outpoint != CheckLater)
      && forall h :: h != mnb.hash && h != former ==>
           (h in b'.seen <==> h in b.seen) && (h in b'.seen ==> b'.seen[h] == b.seen[h])
  { }

  /** If it was forgotten already, a blank one is noted for it instead, and stays. */
  lemma BlankIsNoted(b: Book, mnb: Broadcast, checks: Checks, blank: Broadcast)
    requires First(b.nodes, mnb.vin) < |b.nodes| && checks.simple
    requires var former := b.nodes[First(b.nodes, mnb.vin)].hash; former !in b.seen && former != mnb.hash
    ensures var b', former := Admitted(b, mnb, checks, blank), b.nodes[First(b.nodes, mnb.vin)].hash;
      former != blank.hash || !checks.updated ==> former in b'.seen && b'.seen[former] == blank
  { }

  /** What taking back the broadcasts of the events from the n-th on leaves. */
  ghost function Replayed(b: Book, log: seq<Event>, n: nat, blank: Broadcast): Book {
    if |log| <= n then b
    else
      var e := log[|log| - 1];
      Admitted(Replayed(b, log[..|log| - 1], n, blank), e.mnb, e.checks, blank)
  }

  lemma NoneReplayed(b: Book, log: seq<Event>, blank: Broadcast)
    ensures Replayed(b, log, |log|, blank) == b
  { }

  lemma ReplayedOneMore(b: Book, log: seq<Event>, n: nat, e: Event, blank: Broadcast)
    requires n <= |log|
    ensures Replayed(b, log + [e], n, blank) == Admitted(Replayed(b, log, n, blank), e.mnb, e.checks, blank)
  {
    assert (log + [e])[..|log|] == log;
  }

  /** Taking broadcasts back handles them one after the other, each like a new one. */
  lemma {:induction false} ReplayedInTurn(b: Book, log: seq<Event>, n: nat, blank: Broadcast)
    ensures n >= |log| ==> Replayed(b, log, n, blank) == b
    ensures n < |log| ==>
      Replayed(b, log, n, blank) == Replayed(Admitted(b, log[n].mnb, log[n].checks, blank), log, n + 1, blank)
  {
    hide Admitted;
    if n < |log| - 1 {
      var rest := log[..|log| - 1];
      ReplayedInTurn(b, rest, n, blank);
      assert rest[n] == log[n];
    } else if n == |log| - 1 {
      assert Replayed(b, log[..n], n, blank) == b;
    }
  }

  ghost predicate Listed(nodes: seq<Node>, vin: int) { exists k :: 0 <= k < |nodes| && nodes[k].vin == vin }

  /** A broadcast taken back that passes its checks has its collateral in the list in the end. */
  lemma {:induction false} TakenBackIsListed(b: Book, log: seq<Event>, n: nat, blank: Broadcast, i: nat)
    requires DistinctVins(b.nodes) && n <= i < |log| && log[i].checks.simple && log[i].checks.outpoint == Good
    ensures Listed(Replayed(b, log, n, blank).nodes, log[i].mnb.vin)
  {
    hide DistinctVins, Admitted;
    var m := |log| - 1;
    var was, e := Replayed(b, log[..m], n, blank), log[m];
    ReplayKeepsVins(b, log[..m], n, blank);
    AdmitKeeps(was, e.mnb, e.checks, blank);
    var now := Admitted(was, e.mnb, e.checks, blank);
    assert now == Replayed(b, log, n, blank);
    if i < m {
      TakenBackIsListed(b, log[..m], n, blank, i);
      var k :| 0 <= k < |was.nodes| && was.nodes[k].vin == log[i].mnb.vin;
      assert now.nodes[k].vin == log[i].mnb.vin;
    } else if |now.nodes| > |was.nodes| {
      assert now.nodes[|was.nodes|].vin == log[i].mnb.vin;
    } else {
      assert Listed(was.nodes, e.mnb.vin);
      var k :| 0 <= k < |was.nodes| && was.nodes[k].vin == e.mnb.vin;
      assert now.nodes[k].vin == log[i].mnb.vin;
    }
  }

  lemma {:induction false} ReplayKeepsVins(b: Book, log: seq<Event>, n: nat, blank: Broadcast)
    requires DistinctVins(b.nodes)
    ensures DistinctVins(Replayed(b, log, n, blank).nodes)
  {
    hide DistinctVins, Admitted;
    if |log| > n {
      var e := log[|log| - 1];
      ReplayKeepsVins(b, log[..|log| - 1], n, blank);
      AdmitKeeps(Replayed(b, log[..|log| - 1], n, blank), e.mnb, e.checks, blank);
    }
  }

  /** Finding out states and dropping spent nodes lists no collateral twice. */
  lemma RoundKeepsVins(nodes: seq<Node>, states: Node -> Node)
    requires DistinctVins(nodes)
    ensures DistinctVins(Unspent(Checked(nodes, states)))
  {
    UnspentKeepsVins(Checked(nodes, states));
  }

  lemma {:induction false} UnspentKeepsVins(nodes: seq<Node>)
    requires DistinctVins(nodes)
    ensures DistinctVins(Unspent(nodes)) && forall i :: 0 <= i < |Unspent(nodes)| ==> Unspent(nodes)[i] in nodes
  {
    if nodes != [] {
      var n := |nodes| - 1;
      UnspentKeepsVins(nodes[..n]);
      var rest := Unspent(nodes[..n]);
      forall i | 0 <= i < |rest| ensures rest[i].vin != nodes[n].vin && rest[i] in nodes {
        var k :| 0 <= k < n && nodes[..n][k] == rest[i];
        assert nodes[k] == rest[i];
      }
    }
  }

  /** The hashes of nodes whose collateral is spent. */
  ghost function SpentHashes(nodes: seq<Node>): set<Hash> {
    set i | 0 <= i < |nodes| && nodes[i].spent :: nodes[i].hash
  }

  /** A round drops the broadcast of every spent node, and no other, from the ones seen. */
  lemma SpentIs(nodes: seq<Node>, seen: map<Hash, Broadcast>, h: Hash)
    ensures h in seen - SpentHashes(nodes) <==> h in seen && forall mn :: mn in nodes && mn.hash == h ==> !mn.spent
  {
    if h in SpentHashes(nodes) {
      var i :| 0 <= i < |nodes| && nodes[i].spent && nodes[i].hash == h;
      assert nodes[i] in nodes;
    }
  }

  lemma NoneSpent(nodes: seq<Node>)
    requires nodes == []
    ensures SpentHashes(nodes) == {} && Unspent(nodes) == []
  { }

  lemma SpentOneMore(nodes: seq<Node>, i: nat)
    requires i < |nodes|
    ensures nodes[..i + 1][..i] == nodes[..i] && nodes[..i + 1] != [] && nodes[..i + 1][i] == nodes[i]
    ensures SpentHashes(nodes[..i + 1]) == SpentHashes(nodes[..i]) + (if nodes[i].spent then {nodes[i].hash} else {})
  {
    var s := nodes[..i + 1];
    assert s == nodes[..i] + [nodes[i]];
    forall h | h in SpentHashes(nodes[..i]) ensures h in SpentHashes(s) {
      var k :| 0 <= k < i && nodes[..i][k].spent && nodes[..i][k].hash == h;
      assert s[k].spent && s[k].hash == h;
    }
    if nodes[i].spent { assert s[i].hash in SpentHashes(s); }
  }

  class Manager {
    var requests: map<Hash, Request>
    var replies: map<Hash, seq<Broadcast>>
    var seen: map<Hash, Broadcast>
    var nodes: seq<Node>
    var scheduled: seq<(Addr, Hash)>
    const blank: Broadcast
    ghost var asked: map<Hash, set<Addr>>
    ghost var answers: map<Hash, seq<Answer>>
    ghost var log: seq<Event>

    /** Stored replies belong to a live request, and each to a different node that was asked and answered
        in time; everything taken back so far had its quorum. */
    ghost predicate Valid()
      reads this`requests, this`replies, this`asked, this`answers, this`log
    {
      && asked.Keys == requests.Keys && answers.Keys == replies.Keys && replies.Keys <= requests.Keys
      && (forall h :: h in requests ==> RequestOk(h))
      && (forall h :: h in replies ==> ReplyOk(h))
      && (forall i :: 0 <= i < |log| ==> EventOk(log[i]))
    }

    ghost predicate RequestOk(h: Hash)
      requires h in requests && h in asked
      reads this`requests, this`asked
    { requests[h].waiting <= asked[h] && |asked[h]| <= 10 }

    ghost predicate ReplyOk(h: Hash)
      requires h in requests && h in asked && h in replies && h in answers
      reads this`requests, this`replies, this`asked, this`answers
    { |replies[h]| == |answers[h]| > 0 && AllOf(replies[h], h) && AnswersOk(answers[h], asked[h], requests[h]) }

    constructor (blank: Broadcast)
      ensures Valid() && requests == map[] && replies == map[] && log == [] && nodes == []
    {
      this.blank := blank;
      nodes := [];
      requests, replies, seen, scheduled := map[], map[], map[], [];
      asked, answers, log := map[], map[], [];
    }

    /** Replies stored and nodes still waited for never come to more than were asked. */
    lemma NeverTooMany(h: Hash)
      requires Valid() && h in requests
      ensures (if h in replies then |replies[h]| else 0) + |requests[h].waiting| <= 10
    {
      assert RequestOk(h);
      if h in replies {
        assert ReplyOk(h);
        QuorumBound(answers[h], asked[h], requests[h]);
      } else {
        SubsetSize(requests[h].waiting, asked[h]);
      }
    }

    /** Asks the first nodes by rank that were not asked recently about this node, and gives them a minute. */
    method Ask(mn: Node, ranks: seq<Addr>, askedRecently: (int, Addr) -> bool, now: int)
      returns (any: bool, ghost asks: seq<(Addr, Hash)>)
      requires Valid() && mn.hash !in requests
      modifies this
      ensures Valid() && replies == old(replies) && log == old(log) && seen == old(seen) && nodes == old(nodes)
      ensures mn.hash in requests && requests == old(requests)[mn.hash := Request(now + 60, requests[mn.hash].waiting)]
      ensures any <==> requests[mn.hash].waiting != {}
      ensures FirstAskable(ranks, askedRecently, mn.vin, requests[mn.hash].waiting)
      ensures scheduled == old(scheduled) + asks && AsksFor(asks, mn.hash, requests[mn.hash].waiting)
    {
      hide FirstAskable, AsksFor;
      var setRequested;
      setRequested, asks := Choose(mn, ranks, askedRecently);
      any := setRequested != {};
      Register(mn.hash, Request(now + WAIT_SECONDS, setRequested));
    }

    /** The nodes to ask, each scheduled for a connection. */
    method Choose(mn: Node, ranks: seq<Addr>, askedRecently: (int, Addr) -> bool)
      returns (setRequested: set<Addr>, ghost asks: seq<(Addr, Hash)>)
      modifies this`scheduled
      ensures FirstAskable(ranks, askedRecently, mn.vin, setRequested) && |setRequested| <= 10
      ensures scheduled == old(scheduled) + asks && AsksFor(asks, mn.hash, setRequested)
    {
      setRequested := {};
      asks := [];
      var i := 0;
      while |setRequested| < QUORUM_TOTAL && i < |ranks|
        invariant 0 <= i <= |ranks| && |setRequested| <= QUORUM_TOTAL
        invariant setRequested == Askable(ranks, i, askedRecently, mn.vin)
        invariant scheduled == old(scheduled) + asks && AsksFor(asks, mn.hash, setRequested)
        decreases |ranks| - i
      {
        if !askedRecently(mn.vin, ranks[i]) {
          AsksMore(asks, mn.hash, setRequested, ranks[i]);
          setRequested := setRequested + {ranks[i]};
          asks := asks + [(ranks[i], mn.hash)];
          scheduled := scheduled + [(ranks[i], mn.hash)];
        }
        i := i + 1;
      }
      assert Askable(ranks, i, askedRecently, mn.vin) == setRequested;
    }

    method Register(hash: Hash, r: Request)
      requires Valid() && hash !in requests && |r.waiting| <= 10
      modifies this`requests, this`asked
      ensures Valid() && requests == old(requests)[hash := r]
    {
      requests := requests[hash := r];
      asked := asked[hash := r.waiting];
      forall h | h in requests ensures RequestOk(h) {
        if h != hash { assert old(RequestOk(h)); }
      }
      KeepsReplies(old(requests), old(asked), hash);
    }

    lemma KeepsReplies(was: map<Hash, Request>, wasAsked: map<Hash, set<Addr>>, hash: Hash)
      requires replies.Keys <= was.Keys && answers.Keys == replies.Keys && was.Keys == wasAsked.Keys && hash !in was
      requires requests.Keys == was.Keys + {hash} && asked.Keys == requests.Keys
      requires forall h :: h in was ==> requests[h] == was[h] && asked[h] == wasAsked[h]
      requires forall h :: h in replies ==>
        |replies[h]| == |answers[h]| > 0 && AllOf(replies[h], h) && AnswersOk(answers[h], wasAsked[h], was[h])
      ensures forall h :: h in replies ==> ReplyOk(h)
    { }

    /** A broadcast arrives. If it was asked for, is in time and comes from a node that is waited for, that
        node has had its say; a good answer is kept. One that was not seen before is checked and admitted. */
    method Receive(from: Option<Addr>, mnb: Broadcast, now: int, goodState: bool, checks: Checks)
      returns (wasSeen: bool)
      requires Valid()
      modifies this
      ensures Valid() && wasSeen == (mnb.hash in old(seen)) && log == old(log)
      ensures Book(nodes, seen) ==
        if wasSeen then Book(old(nodes), old(seen)) else Admitted(Book(old(nodes), old(seen)), mnb, checks, blank)
      ensures var h, was := mnb.hash, old(requests);
        var awaited := from.Some? && wasSeen && h in was && now < was[h].deadline && from.value in was[h].waiting;
        && requests == (if awaited then was[h := Request(was[h].deadline, was[h].waiting - {from.value})] else was)
        && replies ==
             if awaited && mnb.pingTime > old(seen)[h].pingTime && goodState
             then old(replies)[h := (if h in old(replies) then old(replies)[h] else []) + [mnb]] else old(replies)
    {
      var hash := mnb.hash;
      wasSeen := hash in seen;
      if wasSeen {
        if from.Some? && hash in requests && now < requests[hash].deadline && from.value in requests[hash].waiting {
          Answered(hash, from.value, now, mnb, mnb.pingTime > seen[hash].pingTime && goodState);
        }
      } else {
        Admit(mnb, checks);
      }
    }

    /** Strikes a node off the ones waited for, and keeps its answer if it is good. */
    method Answered(hash: Hash, from: Addr, now: int, mnb: Broadcast, good: bool)
      requires Valid() && hash in requests && now < requests[hash].deadline && from in requests[hash].waiting
      requires mnb.hash == hash
      modifies this`requests, this`replies, this`answers
      ensures Valid()
      ensures requests == old(requests)[hash := old(requests)[hash].(waiting := old(requests)[hash].waiting - {from})]
      ensures replies ==
        if good then old(replies)[hash := (if hash in old(replies) then old(replies)[hash] else []) + [mnb]]
        else old(replies)
    {
      StrikeOff(hash, from);
      if good { KeepReply(hash, from, now, mnb); }
    }

    method StrikeOff(hash: Hash, from: Addr)
      requires Valid() && hash in requests && from in requests[hash].waiting
      modifies this`requests
      ensures Valid() && from in asked[hash]
      ensures requests == old(requests)[hash := old(requests)[hash].(waiting := old(requests)[hash].waiting - {from})]
      ensures hash in replies ==> forall i :: 0 <= i < |answers[hash]| ==> answers[hash][i].from != from
    {
      hide AnswersOk;
      assert RequestOk(hash);
      if hash in replies {
        assert ReplyOk(hash);
        Struck(answers[hash], asked[hash], requests[hash], from);
      }
      requests := requests[hash := requests[hash].(waiting := requests[hash].waiting - {from})];
      forall h | h in replies ensures ReplyOk(h) {
        if h != hash { assert old(ReplyOk(h)); }
      }
      forall h | h in requests ensures RequestOk(h) {
        if h != hash { assert old(RequestOk(h)); }
      }
    }

    method KeepReply(hash: Hash, from: Addr, now: int, mnb: Broadcast)
      requires Valid() && hash in requests && now < requests[hash].deadline
      requires from in asked[hash] && from !in requests[hash].waiting && mnb.hash == hash
      requires hash in replies ==> forall i :: 0 <= i < |answers[hash]| ==> answers[hash][i].from != from
      modifies this`replies, this`answers
      ensures Valid()
      ensures replies == old(replies)[hash := (if hash in old(replies) then old(replies)[hash] else []) + [mnb]]
    {
      hide AnswersOk;
      if hash in replies { assert ReplyOk(hash); }
      AnswerAdded(if hash in answers then answers[hash] else [], asked[hash], requests[hash], from, now);
      replies := replies[hash := (if hash in replies then replies[hash] else []) + [mnb]];
      answers := answers[hash := (if hash in answers then answers[hash] else []) + [Answer(from, now)]];
      forall h | h in replies ensures ReplyOk(h) {
        if h != hash { assert old(ReplyOk(h)); }
      }
      assert forall h :: h in requests ==> old(RequestOk(h));
    }

    /** The replies in was that are due, but for some, are dealt with, and the log has the ones with a quorum. */
    ghost predicate Processed(was: Replies, checks: Broadcast -> Checks, now: int, but: set<Hash>, n: nat)
      reads this
    {
      && replies == was - Due(was, requests, now, but)
      && TakenSince(log, n) == WithQuorum(was, Due(was, requests, now, but))
      && Taken(log, n, was, checks, now)
    }

    lemma RepliesAsked()
      requires Valid()
      ensures replies.Keys <= requests.Keys
    { }

    /** After the deadline of a request: takes the first of six or more replies back, and drops them. */
    method ProcessReplies(now: int, checks: Broadcast -> Checks)
      requires Valid()
      modifies this`replies, this`answers, this`log, this`seen, this`nodes
      ensures Valid() && old(log) <= log && Taken(log, |old(log)|, old(replies), checks, now)
      ensures forall h :: h in replies <==> h in old(replies) && requests[h].deadline >= now
      ensures forall h :: h in replies ==> replies[h] == old(replies)[h]
      ensures forall h :: h in TakenSince(log, |old(log)|) <==>
        h in old(replies) && requests[h].deadline < now && |old(replies)[h]| >= 6
      ensures Book(nodes, seen) == Replayed(Book(old(nodes), old(seen)), log, |old(log)|, blank)
    {
      hide Due, WithQuorum, TakenSince, Replayed, Valid, Taken;
      RepliesAsked();
      var todo := replies.Keys;
      ghost var was, log0, book := replies, log, Book(nodes, seen);
      NoneReplayed(book, log, blank);
      DueStart(was, requests, now, log, checks);
      assert Processed(was, checks, now, todo, |log0|);
      hide Processed;
      while todo != {}
        invariant Valid() && todo <= was.Keys <= requests.Keys && log0 <= log
        invariant Processed(was, checks, now, todo, |log0|)
        invariant Book(nodes, seen) == Replayed(book, log, |log0|, blank)
        decreases |todo|
      {
        var h := PickOne(todo);
        ProcessOne(h, now, checks, was, todo, |log0|, book);
        todo := todo - {h};
      }
      AllProcessed(was, checks, now, |log0|);
    }

    lemma AllProcessed(was: Replies, checks: Broadcast -> Checks, now: int, n: nat)
      requires Processed(was, checks, now, {}, n) && was.Keys <= requests.Keys
      ensures forall h :: h in replies <==> h in was && requests[h].deadline >= now
      ensures forall h :: h in replies ==> replies[h] == was[h]
      ensures forall h :: h in TakenSince(log, n) <==> h in was && requests[h].deadline < now && |was[h]| >= 6
      ensures Taken(log, n, was, checks, now)
    { }

    method ProcessOne(h: Hash, now: int, checks: Broadcast -> Checks, ghost was: Replies, ghost todo: set<Hash>,
                      ghost n: nat, ghost book: Book)
      requires Valid() && Processed(was, checks, now, todo, n) && h in todo && h in was && h in requests && n <= |log|
      requires Book(nodes, seen) == Replayed(book, log, n, blank)
      modifies this`replies, this`answers, this`log, this`seen, this`nodes
      ensures Valid() && old(log) <= log && Processed(was, checks, now, todo - {h}, n)
      ensures Book(nodes, seen) == Replayed(book, log, n, blank)
    {
      hide Valid, Due, WithQuorum, TakenSince, HasQuorum, Replayed, Taken;
      DueStep(was, requests, now, todo, h);
      if requests[h].deadline < now {
        StillThere(was, requests, now, todo, h);
        QuorumStep(was, Due(was, requests, now, todo), h);
        SameQuorum(was, replies, h);
        Conclude(h, now, checks, n, book, was);
      }
    }

    /** The end of one request. */
    method Conclude(h: Hash, now: int, checks: Broadcast -> Checks, ghost n: nat, ghost book: Book, ghost was: Replies)
      requires Valid() && h in replies && requests[h].deadline < now && n <= |log|
      requires Book(nodes, seen) == Replayed(book, log, n, blank)
      requires Taken(log, n, was, checks, now) && h in was && was[h] == replies[h] && h !in TakenSince(log, n)
      modifies this`replies, this`answers, this`log, this`seen, this`nodes
      ensures Valid() && replies == old(replies) - {h} && old(log) <= log && Taken(log, n, was, checks, now)
      ensures Book(nodes, seen) == Replayed(book, log, n, blank)
      ensures TakenSince(log, n) == old(TakenSince(log, n)) + (if HasQuorum(old(replies), h) then {h} else {})
    {
      hide TakenSince, AnswersOk, Replayed, Admitted, Taken;
      assert ReplyOk(h) && RequestOk(h);
      if |replies[h]| >= QUORUM_REQUIRED {
        var mnb := replies[h][0];
        Admit(mnb, checks(mnb));
        ghost var e := Event(h, now, requests[h].deadline, asked[h], answers[h], mnb, checks(mnb));
        TakenOneMore(log, n, e);
        TakenMore(log, n, was, checks, now, e);
        ReplayedOneMore(book, log, n, e, blank);
        HasEvent(e, requests[h]);
        log := log + [e];
      }
      DropReplies(h);
    }

    method DropReplies(h: Hash)
      requires Valid() && h in replies
      modifies this`replies, this`answers
      ensures Valid() && replies == old(replies) - {h}
    {
      replies := replies - {h};
      answers := answers - {h};
      forall g | g in replies ensures ReplyOk(g) { assert old(ReplyOk(g)); }
      forall g | g in requests ensures RequestOk(g) { assert old(RequestOk(g)); }
    }

    /** Handles a broadcast that is new, or is to be taken as new: notes it, updates the node it is about, forgetting
        that node's former broadcast, and puts a node that is not in the list there. */
    method Admit(mnb: Broadcast, checks: Checks)
      modifies this`seen, this`nodes
      ensures Book(nodes, seen) == Admitted(Book(old(nodes), old(seen)), mnb, checks, blank)
    {
      hide Updated;
      var on := UpdateKnown(mnb, checks);
      if !on { return; }
      match checks.outpoint {
        case Good =>
          var i := Find(nodes, mnb.vin);
          if i == |nodes| { nodes := nodes + [Node(mnb.vin, mnb.hash, false, false)]; }
        case Bad =>
        case CheckLater => seen := seen - {mnb.hash};
      }
    }

    method UpdateKnown(mnb: Broadcast, checks: Checks) returns (on: bool)
      modifies this`seen, this`nodes
      ensures (Book(nodes, seen), on) == Updated(Book(old(nodes), old(seen)), mnb, checks, blank)
    {
      if mnb.hash !in seen { seen := seen[mnb.hash := mnb]; }
      if !checks.simple { return false; }
      var i := Find(nodes, mnb.vin);
      if i < |nodes| {
        var hash := nodes[i].hash;
        if hash !in seen { seen := seen[hash := blank]; }
        var mnbOld := seen[hash];
        nodes := nodes[i := checks.after(nodes[i]).(vin := nodes[i].vin)];
        if !checks.updated { return false; }
        if mnb.hash != mnbOld.hash { seen := seen - {mnbOld.hash}; }
      }
      on := true;
    }

    /** Forgets requests long past their deadline, so that they can be made again. */
    method ExpireRequests(now: int)
      requires Valid() && forall h :: h in replies ==> requests[h].deadline >= now
      modifies this`requests, this`asked
      ensures Valid()
      ensures forall h :: h in requests <==> h in old(requests) && now - old(requests)[h].deadline <= 10800
      ensures forall h :: h in requests ==> requests[h] == old(requests)[h]
    {
      assert replies.Keys <= requests.Keys;
      hide Valid, Old;
      var todo := requests.Keys;
      ghost var was := requests;
      NoneOld(was, now);
      while todo != {}
        invariant Valid() && todo <= was.Keys && requests == was - Old(was, now, todo)
        decreases |todo|
      {
        var h := PickOne(todo);
        ExpireOne(h, now, was, todo);
        todo := todo - {h};
      }
      AllOld(was, now);
    }

    method ExpireOne(h: Hash, now: int, ghost was: map<Hash, Request>, ghost todo: set<Hash>)
      requires Valid() && requests == was - Old(was, now, todo) && h in todo && h in was
      requires h in replies ==> was[h].deadline >= now
      modifies this`requests, this`asked
      ensures Valid() && requests == was - Old(was, now, todo - {h})
    {
      hide Valid, Old;
      OldStep(was, now, todo, h);
      if now - requests[h].deadline > RETRY_SECONDS { Forget(h); }
    }

    method Forget(h: Hash)
      requires Valid() && h in requests && h !in replies
      modifies this`requests, this`asked
      ensures Valid() && requests == old(requests) - {h}
    {
      requests := requests - {h};
      asked := asked - {h};
      forall g | g in replies ensures ReplyOk(g) { assert old(ReplyOk(g)); }
      forall g | g in requests ensures RequestOk(g) { assert old(RequestOk(g)); }
    }

    /** Drops nodes whose collateral is spent, and asks about nodes that seem gone: about all of them, unless
        ten were asked about. */
    method AskAround(ranks: seq<Addr>, askedRecently: (int, Addr) -> bool, mayAsk: bool, now: int)
      returns (ghost asks: seq<(Addr, Hash)>)
      requires Valid()
      modifies this
      ensures Valid() && replies == old(replies) && log == old(log) && nodes == Unspent(old(nodes))
      ensures seen == old(seen) - SpentHashes(old(nodes))
      ensures old(requests).Keys <= requests.Keys && forall h :: h in old(requests) ==> requests[h] == old(requests)[h]
      ensures forall h :: h in requests && h !in old(requests) ==>
        Asked(requests[h], h, ranks, askedRecently, mayAsk, now, nodes)
      ensures scheduled == old(scheduled) + asks && AsksForNew(asks, old(requests), requests)
      ensures |NewlyAsked(old(requests), requests)| <= 10
      ensures mayAsk && |NewlyAsked(old(requests), requests)| < 10 ==> AllAsked(nodes, requests)
    {
      hide SpentHashes, Asked, NewlyAsked, AsksForNew, Valid;
      var all, left := nodes, [];
      var nAskForMnbRecovery := MAX_ASK_ENTRIES;
      asks := [];
      NoneAsked(requests);
      NoneSpent(all[..0]);
      NoneAsksForNew(requests);
      for i := 0 to |all|
        invariant Valid() && left == Unspent(all[..i]) && replies == old(replies) && log == old(log)
        invariant nodes == all && seen == old(seen) - SpentHashes(all[..i])
        invariant old(requests).Keys <= requests.Keys
        invariant forall h :: h in old(requests) ==> requests[h] == old(requests)[h]
        invariant forall h :: h in requests && h !in old(requests) ==>
          Asked(requests[h], h, ranks, askedRecently, mayAsk, now, left)
        invariant scheduled == old(scheduled) + asks && AsksForNew(asks, old(requests), requests)
        invariant 0 <= nAskForMnbRecovery
        invariant |NewlyAsked(old(requests), requests)| == MAX_ASK_ENTRIES - nAskForMnbRecovery
        invariant mayAsk && nAskForMnbRecovery > 0 ==> AllAsked(left, requests)
      {
        SpentOneMore(all, i);
        if all[i].spent {
          seen := seen - {all[i].hash};
        } else {
          nAskForMnbRecovery, asks := AskAbout(all[i], ranks, askedRecently, mayAsk, now, nAskForMnbRecovery, left,
            old(requests), asks, old(scheduled));
          left := left + [all[i]];
        }
      }
      assert all[..|all|] == all;
      nodes := left;
    }

    method AskAbout(mn: Node, ranks: seq<Addr>, askedRecently: (int, Addr) -> bool, mayAsk: bool, now: int, quota: nat,
                    ghost left: seq<Node>, ghost was: map<Hash, Request>, ghost asks: seq<(Addr, Hash)>,
                    ghost scheduled0: seq<(Addr, Hash)>)
      returns (quota': nat, ghost asks': seq<(Addr, Hash)>)
      requires Valid() && !mn.spent && was.Keys <= requests.Keys
      requires forall h :: h in requests && h !in was ==>
        Asked(requests[h], h, ranks, askedRecently, mayAsk, now, left)
      requires scheduled == scheduled0 + asks && AsksForNew(asks, was, requests)
      modifies this
      ensures Valid() && replies == old(replies) && log == old(log) && quota' <= quota
      ensures seen == old(seen) && nodes == old(nodes)
      ensures old(requests).Keys <= requests.Keys && forall h :: h in old(requests) ==> requests[h] == old(requests)[h]
      ensures forall h :: h in requests && h !in was ==>
        Asked(requests[h], h, ranks, askedRecently, mayAsk, now, left + [mn])
      ensures scheduled == scheduled0 + asks' && AsksForNew(asks', was, requests)
      ensures |NewlyAsked(was, requests)| == old(|NewlyAsked(was, requests)|) + (quota - quota')
      ensures mayAsk && quota > 0 && mn.newStartRequired ==> mn.hash in requests
    {
      hide NewlyAsked, FirstAskable, AsksFor, AsksForNew, Wanted, Valid;
      quota', asks' := quota, asks;
      ghost var before := requests;
      if mayAsk && quota > 0 && mn.newStartRequired && mn.hash !in requests {
        var any;
        ghost var more;
        any, more := Ask(mn, ranks, askedRecently, now);
        AskedOneMore(was, before, mn.hash, requests[mn.hash]);
        AsksForOneMore(asks, more, was, before, mn.hash, requests[mn.hash]);
        asks' := asks + more;
        if any { quota' := quota - 1; }
      }
      forall h | h in requests && h !in was
        ensures Asked(requests[h], h, ranks, askedRecently, mayAsk, now, left + [mn])
      {
        WantedMore(left, mn, h, ranks, askedRecently, requests[h].waiting);
      }
    }

    /** One round: finds out the state of every node, drops nodes whose collateral is spent, asks about nodes that seem
        gone, deals with replies that are due, taking back what has its quorum, and forgets old requests. */
    method CheckAndRemove(states: Node -> Node, ranks: seq<Addr>, askedRecently: (int, Addr) -> bool, mayAsk: bool,
                          checks: Broadcast -> Checks, now: int)
      returns (ghost asks: seq<(Addr, Hash)>)
      requires Valid()
      modifies this
      ensures Valid() && old(log) <= log && Taken(log, |old(log)|, old(replies), checks, now)
      ensures forall h :: h in old(replies) ==> h in old(requests)
      ensures forall h :: h in replies <==> h in old(replies) && old(requests)[h].deadline >= now
      ensures forall h :: h in replies ==> replies[h] == old(replies)[h]
      ensures forall h :: h in TakenSince(log, |old(log)|) <==>
        h in old(replies) && old(requests)[h].deadline < now && |old(replies)[h]| >= 6
      ensures var list := Checked(old(nodes), states);
        Book(nodes, seen) == Replayed(Book(Unspent(list), old(seen) - SpentHashes(list)), log, |old(log)|, blank)
      ensures forall h :: h in old(requests) ==>
        && (h in requests <==> now - old(requests)[h].deadline <= 10800)
        && (h in requests ==> requests[h] == old(requests)[h])
      ensures forall h :: h in requests && h !in old(requests) ==>
        Asked(requests[h], h, ranks, askedRecently, mayAsk, now, Unspent(Checked(old(nodes), states)))
      ensures scheduled == old(scheduled) + asks && AsksForNew(asks, old(requests), requests)
      ensures |NewlyAsked(old(requests), requests)| <= 10
      ensures mayAsk && |NewlyAsked(old(requests), requests)| < 10 ==>
        forall mn :: mn in Unspent(Checked(old(nodes), states)) && mn.newStartRequired ==>
          mn.hash in requests || mn.hash in old(requests)
    {
      hide TakenSince, Taken, Asked, Replayed, Unspent, SpentHashes, Checked, Valid, AsksForNew, NewlyAsked, AllAsked;
      RepliesAsked();
      CheckAll(states);
      asks := AskAround(ranks, askedRecently, mayAsk, now);
      ghost var after, list := requests, nodes;
      Settle(checks, now);
      RoundRequests(old(requests), after, requests, asks, now, ranks, askedRecently, mayAsk, list);
    }

    /** Finds out the state of every node. */
    method CheckAll(states: Node -> Node)
      modifies this`nodes
      ensures nodes == Checked(old(nodes), states)
      ensures |nodes| == |old(nodes)|
      ensures forall i :: 0 <= i < |nodes| ==>
        nodes[i] == states(old(nodes)[i]).(vin := old(nodes)[i].vin, hash := old(nodes)[i].hash)
    {
      for k := 0 to |nodes|
        invariant |nodes| == |old(nodes)|
        invariant forall i :: 0 <= i < k ==>
          nodes[i] == states(old(nodes)[i]).(vin := old(nodes)[i].vin, hash := old(nodes)[i].hash)
        invariant forall i :: k <= i < |nodes| ==> nodes[i] == old(nodes)[i]
      {
        nodes := nodes[k := states(nodes[k]).(vin := nodes[k].vin, hash := nodes[k].hash)];
      }
    }

    /** The rest of a round: replies that are due, and old requests. */
    method Settle(checks: Broadcast -> Checks, now: int)
      requires Valid()
      modifies this`replies, this`answers, this`log, this`seen, this`nodes, this`requests, this`asked
      ensures Valid() && old(log) <= log && Taken(log, |old(log)|, old(replies), checks, now)
      ensures forall h :: h in old(replies) ==> h in old(requests)
      ensures forall h :: h in replies <==> h in old(replies) && old(requests)[h].deadline >= now
      ensures forall h :: h in replies ==> replies[h] == old(replies)[h]
      ensures forall h :: h in TakenSince(log, |old(log)|) <==>
        h in old(replies) && old(requests)[h].deadline < now && |old(replies)[h]| >= 6
      ensures Book(nodes, seen) == Replayed(Book(old(nodes), old(seen)), log, |old(log)|, blank)
      ensures forall h :: h in requests <==> h in old(requests) && now - old(requests)[h].deadline <= 10800
      ensures forall h :: h in requests ==> requests[h] == old(requests)[h]
    {
      hide TakenSince, Taken, Replayed, Valid;
      RepliesAsked();
      ProcessReplies(now, checks);
      RepliesAsked();
      ExpireRequests(now);
    }
  }

  /** Requests before a round, after asking around, and at its end. */
  lemma RoundRequests(was: map<Hash, Request>, after: map<Hash, Request>, requests: map<Hash, Request>,
                      asks: seq<(Addr, Hash)>, now: int, ranks: seq<Addr>, askedRecently: (int, Addr) -> bool,
                      mayAsk: bool, list: seq<Node>)
    requires was.Keys <= after.Keys && forall h :: h in was ==> after[h] == was[h]
    requires forall h :: h in after && h !in was ==>
      Asked(after[h], h, ranks, askedRecently, mayAsk, now, list)
    requires forall h :: h in requests <==> h in after && now - after[h].deadline <= 10800
    requires forall h :: h in requests ==> requests[h] == after[h]
    requires AsksForNew(asks, was, after)
    ensures forall h :: h in after && h !in was ==> h in requests
    ensures AsksForNew(asks, was, requests) && NewlyAsked(was, requests) == NewlyAsked(was, after)
    ensures AllAsked(list, after) ==>
      forall mn :: mn in list && mn.newStartRequired ==> mn.hash in requests || mn.hash in was
  {
    hide Wanted;
    forall h | h in after && h !in was ensures h in requests {
      assert Asked(after[h], h, ranks, askedRecently, mayAsk, now, list);
    }
    hide Asked;
    assert forall h :: h !in was ==> (h in requests <==> h in after);
  }

  /** Every node that seems gone has a request. */
  ghost predicate AllAsked(list: seq<Node>, requests: map<Hash, Request>) {
    forall i :: 0 <= i < |list| && list[i].newStartRequired ==> list[i].hash in requests
  }

  /** A request that was made now, to the right nodes and for one that seems gone. */
  ghost predicate Asked(r: Request, h: Hash, ranks: seq<Addr>, askedRecently: (int, Addr) -> bool, mayAsk: bool,
                        now: int, list: seq<Node>) {
    mayAsk && r.deadline == now + 60 && Wanted(list, h, ranks, askedRecently, r.waiting)
  }

  /** The list has a node with that broadcast that seems gone, and these are the ones to ask about it. */
  ghost predicate Wanted(nodes: seq<Node>, h: Hash, ranks: seq<Addr>, askedRecently: (int, Addr) -> bool,
                         s: set<Addr>) {
    exists i :: 0 <= i < |nodes| && IsWanted(nodes[i], h, ranks, askedRecently, s)
  }

  ghost predicate IsWanted(mn: Node, h: Hash, ranks: seq<Addr>, askedRecently: (int, Addr) -> bool, s: set<Addr>) {
    mn.hash == h && mn.newStartRequired && !mn.spent && FirstAskable(ranks, askedRecently, mn.vin, s)
  }

  lemma WantedMore(nodes: seq<Node>, mn: Node, h: Hash, ranks: seq<Addr>, askedRecently: (int, Addr) -> bool,
                   s: set<Addr>)
    ensures Wanted(nodes, h, ranks, askedRecently, s) ==> Wanted(nodes + [mn], h, ranks, askedRecently, s)
    ensures IsWanted(mn, h, ranks, askedRecently, s) ==> Wanted(nodes + [mn], h, ranks, askedRecently, s)
  {
    hide IsWanted;
    var all := nodes + [mn];
    if Wanted(nodes, h, ranks, askedRecently, s) {
      var i :| 0 <= i < |nodes| && IsWanted(nodes[i], h, ranks, askedRecently, s);
      assert all[i] == nodes[i];
    }
    assert all[|nodes|] == mn;
  }

  /** The list with the state of every node found out. */
  function Checked(nodes: seq<Node>, states: Node -> Node): seq<Node> {
    seq(|nodes|, i requires 0 <= i < |nodes| => states(nodes[i]).(vin := nodes[i].vin, hash := nodes[i].hash))
  }

  function Unspent(nodes: seq<Node>): seq<Node> {
    if nodes == [] then []
    else Unspent(nodes[..|nodes| - 1]) + (if nodes[|nodes| - 1].spent then [] else [nodes[|nodes| - 1]])
  }

  ghost predicate InOrder(nodes: seq<Node>, x: Node, y: Node) {
    exists a, b :: 0 <= a < b < |nodes| && nodes[a] == x && nodes[b] == y
  }

  /** What is left are the nodes that are not spent, in the same order. */
  lemma {:induction false} UnspentIs(nodes: seq<Node>)
    ensures forall mn :: mn in Unspent(nodes) <==> mn in nodes && !mn.spent
    ensures forall i, j :: 0 <= i < j < |Unspent(nodes)| ==> InOrder(nodes, Unspent(nodes)[i], Unspent(nodes)[j])
  {
    if nodes != [] {
      var n := |nodes| - 1;
      var front, s := nodes[..n], Unspent(nodes);
      UnspentIs(front);
      assert nodes == front + [nodes[n]];
      forall i, j | 0 <= i < j < |s| ensures InOrder(nodes, s[i], s[j]) {
        assert s[i] == Unspent(front)[i];
        if j < |Unspent(front)| {
          assert InOrder(front, s[i], Unspent(front)[j]);
          var a, b :| 0 <= a < b < n && front[a] == s[i] && front[b] == s[j];
          assert nodes[a] == s[i] && nodes[b] == s[j];
        } else {
          assert s[i] in front;
          var a :| 0 <= a < n && front[a] == s[i];
          assert nodes[a] == s[i] && nodes[n] == s[j];
        }
      }
    }
  }

  // ----- Whole runs -----

  datatype Op =
    | Round(states: Node -> Node, ranks: seq<Addr>, askedRecently: (int, Addr) -> bool, mayAsk: bool,
            checks: Broadcast -> Checks)
    | Message(from: Option<Addr>, mnb: Broadcast, goodState: bool, verdict: Checks)

  /** Any run of rounds and messages, whatever the clock says: only quorums that were met in time bring a
      broadcast back, and no collateral is ever listed twice. */
  method Run(ops: seq<(Op, int)>, blank: Broadcast) returns (m: Manager)
    ensures fresh(m) && m.Valid() && DistinctVins(m.nodes)
    ensures forall i :: 0 <= i < |m.log| ==> EventOk(m.log[i])
    ensures forall h :: h in m.requests ==>
      (if h in m.replies then |m.replies[h]| else 0) + |m.requests[h].waiting| <= 10
  {
    hide Replayed, Admitted, Unspent, Checked, DistinctVins;
    m := new Manager(blank);
    NoVins();
    for i := 0 to |ops|
      invariant fresh(m) && m.Valid() && DistinctVins(m.nodes)
    {
      var (op, now) := ops[i];
      ghost var nodes, seen, n := m.nodes, m.seen, |m.log|;
      match op
      case Round(states, ranks, askedRecently, mayAsk, checks) =>
        ghost var _ := m.CheckAndRemove(states, ranks, askedRecently, mayAsk, checks, now);
        RoundKeepsVins(nodes, states);
        ghost var checked := Checked(nodes, states);
        ReplayKeepsVins(Book(Unspent(checked), seen - SpentHashes(checked)), m.log, n, m.blank);
      case Message(from, mnb, goodState, verdict) =>
        var wasSeen := m.Receive(from, mnb, now, goodState, verdict);
        AdmitKeeps(Book(nodes, seen), mnb, verdict, m.blank);
    }
    forall h | h in m.requests
      ensures (if h in m.replies then |m.replies[h]| else 0) + |m.requests[h].waiting| <= 10
    {
      m.NeverTooMany(h);
    }
  }
}
