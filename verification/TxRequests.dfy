/**
 * Asking peers for announced transactions (node.cc:1272-1307, node.cc:1346-1360,
 * node.cc:1403-1460): one timer and a queue of deadlines stand in for a timer per
 * request. Which announcer is retried is an arbitrary choice.
 */
module TxRequests {
  import opened Orders
  import opened TxIdSets

  type Tx = nat
  type Peer = nat

  // The front announcer is the one being asked.
  datatype Request = Request(announcers: seq<Peer>, deadline: nat)

  datatype Entry = Entry(deadline: nat, tx: Tx)

  datatype Ask = Ask(tx: Tx, peer: Peer)

  // ---------------------------------------------------------------------
  // Invariants
  // ---------------------------------------------------------------------

  // Deadlines rise along the queue, lie between now and now + timeout, and no
  // transaction is queued twice.
  ghost predicate Queued(fifo: seq<Entry>, now: nat, timeout: nat) {
    && (forall i :: 0 <= i < |fifo| ==> now <= fifo[i].deadline <= now + timeout)
    && (forall i, j :: 0 <= i < j < |fifo| ==> fifo[i].deadline <= fifo[j].deadline && fifo[i].tx != fifo[j].tx)
  }

  // Every outstanding request has its deadline in the queue; every queued deadline is
  // that of a request, or of a transaction received since.
  ghost predicate Matched(known: set<Tx>, requests: map<Tx, Request>, fifo: seq<Entry>) {
    && (forall tx :: tx in requests ==> requests[tx].announcers != [] && Entry(requests[tx].deadline, tx) in fifo)
    && (forall e :: e in fifo ==> if e.tx in requests then requests[e.tx].deadline == e.deadline else e.tx in known)
  }

  // Announcers that have not been asked.
  ghost function Waiting(requests: map<Tx, Request>, tx: Tx): multiset<Peer> {
    if tx in requests && requests[tx].announcers != [] then multiset(requests[tx].announcers[1..]) else multiset{}
  }

  // An announcement is used for one request at most; and for one exactly, or waits to
  // be, while the transaction is unknown or still being asked for.
  ghost predicate Balanced(known: set<Tx>, requests: map<Tx, Request>, announced: multiset<Ask>, asked: multiset<Ask>) {
    forall tx, peer :: BalancedAt(known, requests, announced, asked, tx, peer)
  }

  ghost predicate BalancedAt(known: set<Tx>, requests: map<Tx, Request>, announced: multiset<Ask>, asked: multiset<Ask>, tx: Tx, peer: Peer) {
    && asked[Ask(tx, peer)] + Waiting(requests, tx)[peer] <= announced[Ask(tx, peer)]
    && (tx !in known || tx in requests ==> asked[Ask(tx, peer)] + Waiting(requests, tx)[peer] == announced[Ask(tx, peer)])
  }

  // The timer runs exactly when something is queued, and then for the front deadline.
  ghost predicate Armed(fifo: seq<Entry>, timer: Option<nat>) {
    timer == if fifo == [] then None else Some(fifo[0].deadline)
  }

  // ---------------------------------------------------------------------
  // Announcers left
  // ---------------------------------------------------------------------

  ghost function TotalAnnouncers(requests: map<Tx, Request>): nat
    decreases |requests|
  {
    if requests == map[] then 0
    else
      var tx :| tx in requests;
      |requests[tx].announcers| + TotalAnnouncers(requests - {tx})
  }

  lemma {:induction false} TotalMinus(requests: map<Tx, Request>, tx: Tx)
    requires tx in requests
    ensures TotalAnnouncers(requests) == |requests[tx].announcers| + TotalAnnouncers(requests - {tx})
    decreases |requests|
  {
    var x :| x in requests && TotalAnnouncers(requests) == |requests[x].announcers| + TotalAnnouncers(requests - {x});
    if x != tx {
      TotalMinus(requests - {x}, tx);
      TotalMinus(requests - {tx}, x);
      assert requests - {x} - {tx} == requests - {tx} - {x};
    }
  }

  lemma TotalDrops(requests: map<Tx, Request>, tx: Tx, r: Request)
    requires tx in requests && |r.announcers| < |requests[tx].announcers|
    ensures TotalAnnouncers(requests[tx := r]) < TotalAnnouncers(requests)
    ensures TotalAnnouncers(requests - {tx}) < TotalAnnouncers(requests)
  {
    TotalMinus(requests, tx);
    TotalMinus(requests[tx := r], tx);
    assert requests[tx := r] - {tx} == requests - {tx};
  }

  // ---------------------------------------------------------------------
  // Steps
  // ---------------------------------------------------------------------

  // Only transaction tx is touched.
  ghost predicate OnlyAt(tx: Tx, requests: map<Tx, Request>, requests': map<Tx, Request>,
                         announced: multiset<Ask>, announced': multiset<Ask>, asked: multiset<Ask>, asked': multiset<Ask>) {
    && (forall t :: t != tx ==> Waiting(requests', t) == Waiting(requests, t) && (t in requests' <==> t in requests))
    && (forall a: Ask :: a.tx != tx ==> announced'[a] == announced[a] && asked'[a] == asked[a])
  }

  lemma BalancedStep(known: set<Tx>, requests: map<Tx, Request>, announced: multiset<Ask>, asked: multiset<Ask>,
                     known': set<Tx>, requests': map<Tx, Request>, announced': multiset<Ask>, asked': multiset<Ask>, tx: Tx)
    requires Balanced(known, requests, announced, asked) && OnlyAt(tx, requests, requests', announced, announced', asked, asked')
    requires known <= known' <= known + {tx}
    requires forall p :: BalancedAt(known', requests', announced', asked', tx, p)
    ensures Balanced(known', requests', announced', asked')
  {
    hide Waiting;
    forall t, p
      ensures BalancedAt(known', requests', announced', asked', t, p)
    {
      assert BalancedAt(known, requests, announced, asked, t, p);
      assert BalancedAt(known', requests', announced', asked', tx, p);
      assert t != tx ==> (t in known <==> t in known');
    }
  }

  // The first announcement of a transaction: it is asked for at once.
  lemma FirstAnnouncement(known: set<Tx>, requests: map<Tx, Request>, fifo: seq<Entry>, announced: multiset<Ask>, asked: multiset<Ask>,
                          now: nat, timeout: nat, tx: Tx, peer: Peer)
    requires Queued(fifo, now, timeout) && Matched(known, requests, fifo) && Balanced(known, requests, announced, asked)
    requires tx !in known && tx !in requests
    ensures var r := Request([peer], now + timeout);
      && Queued(fifo + [Entry(now + timeout, tx)], now, timeout)
      && Matched(known, requests[tx := r], fifo + [Entry(now + timeout, tx)])
      && Balanced(known, requests[tx := r], announced + multiset{Ask(tx, peer)}, asked + multiset{Ask(tx, peer)})
  {
    hide Balanced, OnlyAt;
    FirstBalanced(known, requests, announced, asked, now + timeout, tx, peer);
  }

  lemma FirstBalanced(known: set<Tx>, requests: map<Tx, Request>, announced: multiset<Ask>, asked: multiset<Ask>, deadline: nat, tx: Tx, peer: Peer)
    requires Balanced(known, requests, announced, asked) && tx !in known && tx !in requests
    ensures Balanced(known, requests[tx := Request([peer], deadline)], announced + multiset{Ask(tx, peer)}, asked + multiset{Ask(tx, peer)})
  {
    hide *;
    var requests' := requests[tx := Request([peer], deadline)];
    var one := multiset{Ask(tx, peer)};
    NoneWaiting(requests, tx);
    NoneWaiting(requests', tx);
    forall p
      ensures BalancedAt(known, requests', announced + one, asked + one, tx, p)
    {
      AtBalanced(known, requests, announced, asked, tx, p);
      OneMore(announced, tx, peer, p);
      OneMore(asked, tx, peer, p);
      CountsGive(known, requests', announced + one, asked + one, tx, p);
    }
    OneChanges(tx, requests, requests', announced, announced + one, asked, asked + one, peer);
    BalancedStep(known, requests, announced, asked, known, requests', announced + one, asked + one, tx);
  }

  lemma NoneWaiting(requests: map<Tx, Request>, tx: Tx)
    ensures tx !in requests || |requests[tx].announcers| <= 1 ==> Waiting(requests, tx) == multiset{}
  {
  }

  lemma OneMoreWaits(requests: map<Tx, Request>, tx: Tx, peer: Peer)
    requires tx in requests && requests[tx].announcers != []
    ensures var r := Request(requests[tx].announcers + [peer], requests[tx].deadline);
      Waiting(requests[tx := r], tx) == Waiting(requests, tx) + multiset{peer}
  {
    var r := Request(requests[tx].announcers + [peer], requests[tx].deadline);
    assert r.announcers[1..] == requests[tx].announcers[1..] + [peer];
  }

  lemma OneFewerWaits(requests: map<Tx, Request>, tx: Tx, idx: nat, deadline: nat)
    requires tx in requests && idx < |requests[tx].announcers| - 1
    ensures var next := Swapped(requests[tx].announcers[1..], idx);
      next != [] && Waiting(requests[tx := Request(next, deadline)], tx) + multiset{next[0]} == Waiting(requests, tx)
  {
    hide Swapped;
    SwappedKeeps(requests[tx].announcers[1..], idx);
  }

  lemma OneMore(asks: multiset<Ask>, tx: Tx, peer: Peer, p: Peer)
    ensures (asks + multiset{Ask(tx, peer)})[Ask(tx, p)] == asks[Ask(tx, p)] + if p == peer then 1 else 0
  {
  }

  lemma OneMorePeer(peers: multiset<Peer>, peer: Peer, p: Peer)
    ensures (peers + multiset{peer})[p] == peers[p] + if p == peer then 1 else 0
  {
  }

  // A change to one request, counted by one ask of the same transaction at most.
  lemma OneChanges(tx: Tx, requests: map<Tx, Request>, requests': map<Tx, Request>,
                   announced: multiset<Ask>, announced': multiset<Ask>, asked: multiset<Ask>, asked': multiset<Ask>, peer: Peer)
    requires requests' - {tx} == requests - {tx}
    requires announced' == announced || announced' == announced + multiset{Ask(tx, peer)}
    requires asked' == asked || asked' == asked + multiset{Ask(tx, peer)}
    ensures OnlyAt(tx, requests, requests', announced, announced', asked, asked')
  {
    forall t | t != tx
      ensures Waiting(requests', t) == Waiting(requests, t) && (t in requests' <==> t in requests)
    {
      assert t in requests' <==> t in requests' - {tx};
      assert t in requests <==> t in requests - {tx};
      assert t in requests ==> (requests - {tx})[t] == requests[t] && (requests' - {tx})[t] == requests'[t];
    }
  }

  lemma AtBalanced(known: set<Tx>, requests: map<Tx, Request>, announced: multiset<Ask>, asked: multiset<Ask>, tx: Tx, p: Peer)
    requires Balanced(known, requests, announced, asked)
    ensures BalancedAt(known, requests, announced, asked, tx, p)
    ensures asked[Ask(tx, p)] + Waiting(requests, tx)[p] <= announced[Ask(tx, p)]
    ensures tx !in known || tx in requests ==> asked[Ask(tx, p)] + Waiting(requests, tx)[p] == announced[Ask(tx, p)]
  {
    hide Waiting;
    assert BalancedAt(known, requests, announced, asked, tx, p);
  }

  lemma CountsGive(known: set<Tx>, requests: map<Tx, Request>, announced: multiset<Ask>, asked: multiset<Ask>, tx: Tx, p: Peer)
    requires asked[Ask(tx, p)] + Waiting(requests, tx)[p] == announced[Ask(tx, p)]
    ensures BalancedAt(known, requests, announced, asked, tx, p)
  {
  }

  lemma LaterAnnouncement(known: set<Tx>, requests: map<Tx, Request>, fifo: seq<Entry>, announced: multiset<Ask>, asked: multiset<Ask>,
                          tx: Tx, peer: Peer)
    requires Matched(known, requests, fifo) && Balanced(known, requests, announced, asked)
    requires tx !in known && tx in requests
    ensures var r := Request(requests[tx].announcers + [peer], requests[tx].deadline);
      && Matched(known, requests[tx := r], fifo)
      && Balanced(known, requests[tx := r], announced + multiset{Ask(tx, peer)}, asked)
  {
    hide Balanced, OnlyAt;
    LaterBalanced(known, requests, announced, asked, tx, peer);
  }

  lemma LaterBalanced(known: set<Tx>, requests: map<Tx, Request>, announced: multiset<Ask>, asked: multiset<Ask>, tx: Tx, peer: Peer)
    requires Balanced(known, requests, announced, asked) && tx !in known && tx in requests && requests[tx].announcers != []
    ensures var r := Request(requests[tx].announcers + [peer], requests[tx].deadline);
      Balanced(known, requests[tx := r], announced + multiset{Ask(tx, peer)}, asked)
  {
    hide *;
    var r := Request(requests[tx].announcers + [peer], requests[tx].deadline);
    var requests', one := requests[tx := r], multiset{Ask(tx, peer)};
    OneMoreWaits(requests, tx, peer);
    forall p
      ensures BalancedAt(known, requests', announced + one, asked, tx, p)
    {
      AtBalanced(known, requests, announced, asked, tx, p);
      OneMore(announced, tx, peer, p);
      OneMorePeer(Waiting(requests, tx), peer, p);
      CountsGive(known, requests', announced + one, asked, tx, p);
    }
    OneChanges(tx, requests, requests', announced, announced + one, asked, asked, peer);
    BalancedStep(known, requests, announced, asked, known, requests', announced + one, asked, tx);
  }

  lemma Arrival(known: set<Tx>, requests: map<Tx, Request>, fifo: seq<Entry>, announced: multiset<Ask>, asked: multiset<Ask>, tx: Tx)
    requires Matched(known, requests, fifo) && Balanced(known, requests, announced, asked)
    ensures Matched(known + {tx}, requests - {tx}, fifo) && Balanced(known + {tx}, requests - {tx}, announced, asked)
  {
    hide *;
    var known', requests' := known + {tx}, requests - {tx};
    ArrivalMatched(known, requests, fifo, tx);
    NoneWaiting(requests', tx);
    forall p
      ensures BalancedAt(known', requests', announced, asked, tx, p)
    {
      AtBalanced(known, requests, announced, asked, tx, p);
      CountsWithin(known', requests', announced, asked, tx, p);
    }
    assert requests' - {tx} == requests - {tx};
    OneChanges(tx, requests, requests', announced, announced, asked, asked, 0);
    BalancedStep(known, requests, announced, asked, known', requests', announced, asked, tx);
  }

  lemma ArrivalMatched(known: set<Tx>, requests: map<Tx, Request>, fifo: seq<Entry>, tx: Tx)
    requires Matched(known, requests, fifo)
    ensures Matched(known + {tx}, requests - {tx}, fifo)
  {
  }

  lemma CountsWithin(known: set<Tx>, requests: map<Tx, Request>, announced: multiset<Ask>, asked: multiset<Ask>, tx: Tx, p: Peer)
    requires tx in known && tx !in requests && asked[Ask(tx, p)] + Waiting(requests, tx)[p] <= announced[Ask(tx, p)]
    ensures BalancedAt(known, requests, announced, asked, tx, p)
  {
    hide Waiting;
  }

  // The popped deadline is of a transaction that has arrived: there is no third case.
  lemma StaleEntry(known: set<Tx>, requests: map<Tx, Request>, fifo: seq<Entry>, now: nat, timeout: nat)
    requires Queued(fifo, now, timeout) && Matched(known, requests, fifo) && fifo != []
    ensures Queued(fifo[1..], now, timeout)
    ensures fifo[0].tx in requests ==> requests[fifo[0].tx].deadline == fifo[0].deadline && requests[fifo[0].tx].announcers != []
    ensures fifo[0].tx !in requests ==> Matched(known, requests, fifo[1..])
  {
    assert fifo[0] in fifo;
    if fifo[0].tx !in requests {
      forall tx | tx in requests
        ensures Entry(requests[tx].deadline, tx) in fifo[1..]
      {
        var i :| 0 <= i < |fifo| && fifo[i] == Entry(requests[tx].deadline, tx);
        assert fifo[1..][i - 1] == fifo[i];
      }
    }
  }

  lemma GiveUp(known: set<Tx>, requests: map<Tx, Request>, fifo: seq<Entry>, announced: multiset<Ask>, asked: multiset<Ask>, now: nat, timeout: nat)
    requires Queued(fifo, now, timeout) && Matched(known, requests, fifo) && Balanced(known, requests, announced, asked)
    requires fifo != [] && fifo[0].tx in requests && |requests[fifo[0].tx].announcers| == 1
    ensures Matched(known, requests - {fifo[0].tx}, fifo[1..]) && Balanced(known, requests - {fifo[0].tx}, announced, asked)
  {
    hide Balanced;
    var tx := fifo[0].tx;
    forall t | t in requests - {tx}
      ensures Entry(requests[t].deadline, t) in fifo[1..]
    {
      var i :| 0 <= i < |fifo| && fifo[i] == Entry(requests[t].deadline, t);
      assert fifo[1..][i - 1] == fifo[i];
    }
    GiveUpBalanced(known, requests, announced, asked, tx);
  }

  lemma GiveUpBalanced(known: set<Tx>, requests: map<Tx, Request>, announced: multiset<Ask>, asked: multiset<Ask>, tx: Tx)
    requires Balanced(known, requests, announced, asked) && tx in requests && |requests[tx].announcers| == 1
    ensures Balanced(known, requests - {tx}, announced, asked)
  {
    hide Balanced, BalancedAt;
    var requests' := requests - {tx};
    forall p
      ensures BalancedAt(known, requests', announced, asked, tx, p)
    {
      AtBalanced(known, requests, announced, asked, tx, p);
      assert Waiting(requests', tx) == multiset{} == Waiting(requests, tx);
      CountsGive(known, requests', announced, asked, tx, p);
    }
    BalancedStep(known, requests, announced, asked, known, requests', announced, asked, tx);
  }

  // What is left of the announcers once the front one failed and number idx of the rest
  // was chosen.
  function Swapped(rest: seq<Peer>, idx: nat): (r: seq<Peer>)
    requires idx < |rest|
    ensures |r| == |rest|
  {
    rest[0 := rest[idx]][idx := rest[0]]
  }

  lemma SwappedIs(rest: seq<Peer>, idx: nat)
    requires idx < |rest|
    ensures Swapped(rest, idx) == rest[0 := rest[idx]][idx := rest[0]]
  {
  }

  lemma SwappedKeeps(rest: seq<Peer>, idx: nat)
    requires idx < |rest|
    ensures Swapped(rest, idx)[0] == rest[idx]
    ensures multiset(Swapped(rest, idx)[1..]) + multiset{rest[idx]} == multiset(rest)
  {
    var r := Swapped(rest, idx);
    assert r == [r[0]] + r[1..];
    assert multiset(r) == multiset(rest);
  }

  lemma Retry(known: set<Tx>, requests: map<Tx, Request>, fifo: seq<Entry>, announced: multiset<Ask>, asked: multiset<Ask>,
              now: nat, timeout: nat, idx: nat)
    requires Queued(fifo, now, timeout) && Matched(known, requests, fifo) && Balanced(known, requests, announced, asked)
    requires fifo != [] && fifo[0].tx in requests && idx < |requests[fifo[0].tx].announcers| - 1
    ensures var tx := fifo[0].tx;
      var next := Swapped(requests[tx].announcers[1..], idx);
      && Queued(fifo[1..] + [Entry(now + timeout, tx)], now, timeout)
      && Matched(known, requests[tx := Request(next, now + timeout)], fifo[1..] + [Entry(now + timeout, tx)])
      && Balanced(known, requests[tx := Request(next, now + timeout)], announced, asked + multiset{Ask(tx, next[0])})
  {
    hide Swapped;
    RetryMatched(known, requests, fifo, now, timeout, idx);
    RetryBalanced(known, requests, fifo[0].tx, announced, asked, now + timeout, idx);
  }

  lemma RetryMatched(known: set<Tx>, requests: map<Tx, Request>, fifo: seq<Entry>, now: nat, timeout: nat, idx: nat)
    requires Queued(fifo, now, timeout) && Matched(known, requests, fifo)
    requires fifo != [] && fifo[0].tx in requests && idx < |requests[fifo[0].tx].announcers| - 1
    ensures var tx := fifo[0].tx;
      var next := Swapped(requests[tx].announcers[1..], idx);
      && Queued(fifo[1..] + [Entry(now + timeout, tx)], now, timeout)
      && Matched(known, requests[tx := Request(next, now + timeout)], fifo[1..] + [Entry(now + timeout, tx)])
  {
    hide Matched, Swapped;
    var tx := fifo[0].tx;
    var next := Swapped(requests[tx].announcers[1..], idx);
    RestartMatched(known, requests, fifo, now, timeout, Request(next, now + timeout));
    RestartQueued(fifo, now, timeout, Entry(now + timeout, tx));
  }

  lemma RestartQueued(fifo: seq<Entry>, now: nat, timeout: nat, e: Entry)
    requires Queued(fifo, now, timeout) && fifo != [] && e == Entry(now + timeout, fifo[0].tx)
    ensures Queued(fifo[1..] + [e], now, timeout)
  {
  }

  lemma RestartMatched(known: set<Tx>, requests: map<Tx, Request>, fifo: seq<Entry>, now: nat, timeout: nat, r: Request)
    requires Queued(fifo, now, timeout) && Matched(known, requests, fifo) && fifo != []
    requires r.announcers != []
    ensures Matched(known, requests[fifo[0].tx := r], fifo[1..] + [Entry(r.deadline, fifo[0].tx)])
  {
    var tx := fifo[0].tx;
    var requests', fifo' := requests[tx := r], fifo[1..] + [Entry(r.deadline, tx)];
    forall t | t in requests'
      ensures Entry(requests'[t].deadline, t) in fifo'
    {
      RestartListed(requests, fifo, tx, r, t);
    }
    forall e | e in fifo'
      ensures if e.tx in requests' then requests'[e.tx].deadline == e.deadline else e.tx in known
    {
      var i :| 0 <= i < |fifo'| && fifo'[i] == e;
      assert i < |fifo| - 1 ==> e == fifo[i + 1] && e in fifo;
    }
  }

  lemma RestartListed(requests: map<Tx, Request>, fifo: seq<Entry>, tx: Tx, r: Request, t: Tx)
    requires fifo != [] && tx == fifo[0].tx && t in requests[tx := r]
    requires t != tx ==> Entry(requests[t].deadline, t) in fifo
    ensures Entry(requests[tx := r][t].deadline, t) in fifo[1..] + [Entry(r.deadline, tx)]
  {
    var fifo' := fifo[1..] + [Entry(r.deadline, tx)];
    if t == tx {
      assert fifo'[|fifo'| - 1] == Entry(r.deadline, tx);
    } else {
      var i :| 0 <= i < |fifo| && fifo[i] == Entry(requests[t].deadline, t);
      assert fifo'[i - 1] == fifo[i];
    }
  }

  lemma RetryBalanced(known: set<Tx>, requests: map<Tx, Request>, tx: Tx, announced: multiset<Ask>, asked: multiset<Ask>, deadline: nat, idx: nat)
    requires Balanced(known, requests, announced, asked)
    requires tx in requests && idx < |requests[tx].announcers| - 1
    ensures var next := Swapped(requests[tx].announcers[1..], idx);
      Balanced(known, requests[tx := Request(next, deadline)], announced, asked + multiset{Ask(tx, next[0])})
  {
    hide *;
    var next := Swapped(requests[tx].announcers[1..], idx);
    var requests', one := requests[tx := Request(next, deadline)], multiset{Ask(tx, next[0])};
    OneFewerWaits(requests, tx, idx, deadline);
    forall p
      ensures BalancedAt(known, requests', announced, asked + one, tx, p)
    {
      AtBalanced(known, requests, announced, asked, tx, p);
      OneMore(asked, tx, next[0], p);
      OneMorePeer(Waiting(requests', tx), next[0], p);
      CountsGive(known, requests', announced, asked + one, tx, p);
    }
    OneChanges(tx, requests, requests', announced, announced, asked, asked + one, next[0]);
    BalancedStep(known, requests, announced, asked, known, requests', announced, asked + one, tx);
  }

  // Ids seen in a block, or generated here, are known from then on; a request that is
  // out stays out.
  lemma Learned(known: set<Tx>, requests: map<Tx, Request>, fifo: seq<Entry>, announced: multiset<Ask>, asked: multiset<Ask>, txs: set<Tx>)
    requires Matched(known, requests, fifo) && Balanced(known, requests, announced, asked)
    ensures Matched(known + txs, requests, fifo) && Balanced(known + txs, requests, announced, asked)
  {
    hide Waiting;
    var known' := known + txs;
    forall t, p
      ensures BalancedAt(known', requests, announced, asked, t, p)
    {
      assert BalancedAt(known, requests, announced, asked, t, p);
    }
  }

  // ---------------------------------------------------------------------
  // The node's requests
  // ---------------------------------------------------------------------

  class TxRequestBook {
    const timeout: nat
    var now: nat
    // every transaction id this node has seen
    const known: TxIdSet
    var requests: map<Tx, Request>
    var fifo: seq<Entry>
    var timer: Option<nat>
    // every announcement of a then unknown transaction, and every request made
    ghost var announced: multiset<Ask>
    ghost var asked: multiset<Ask>

    ghost predicate Consistent()
      reads this, known
    {
      Queued(fifo, now, timeout) && Matched(known.Ids(), requests, fifo) && Balanced(known.Ids(), requests, announced, asked)
    }

    // Between events.
    ghost predicate Valid()
      reads this, known
    {
      Consistent() && Armed(fifo, timer)
    }

    constructor (timeout: nat)
      ensures Valid() && fresh(known) && this.timeout == timeout && requests == map[] && known.Ids() == {}
      ensures announced == multiset{} && asked == multiset{}
    {
      this.timeout := timeout;
      now, requests, fifo, timer, announced, asked := 0, map[], [], None, multiset{}, multiset{};
      known := new TxIdSet();
    }

    // Simulated time runs up to the next event.
    method Advance(t: nat)
      requires Valid() && now <= t && (timer.Some? ==> t <= timer.value)
      modifies this`now
      ensures Valid() && now == t
    {
      now := t;
    }

    // One id of an announcement (node.cc:1284-1293).
    method Announce(tx: Tx, from: Peer) returns (first: bool)
      requires Consistent() && tx !in known.Ids()
      modifies this`requests, this`fifo, this`announced, this`asked
      ensures Consistent()
      ensures first <==> tx !in old(requests)
      ensures requests.Keys == old(requests).Keys + {tx}
      ensures fifo == old(fifo) + if first then [Entry(now + timeout, tx)] else []
      ensures announced == old(announced) + multiset{Ask(tx, from)}
      ensures asked == old(asked) + if first then multiset{Ask(tx, from)} else multiset{}
      ensures forall t :: t in old(requests) ==> requests[t].deadline == old(requests)[t].deadline
      ensures requests == old(requests)[tx := if first then Request([from], now + timeout)
                                              else Request(old(requests)[tx].announcers + [from], old(requests)[tx].deadline)]
    {
      hide Queued, Matched, Balanced, TxIdSet.Ids;
      first := tx !in requests;
      if first {
        FirstAnnouncement(known.Ids(), requests, fifo, announced, asked, now, timeout, tx, from);
        requests := requests[tx := Request([from], now + timeout)];
        fifo := fifo + [Entry(now + timeout, tx)];
        asked := asked + multiset{Ask(tx, from)};
      } else {
        LaterAnnouncement(known.Ids(), requests, fifo, announced, asked, tx, from);
        requests := requests[tx := Request(requests[tx].announcers + [from], requests[tx].deadline)];
      }
      announced := announced + multiset{Ask(tx, from)};
    }

    // HandleInvTransactions (node.cc:1272-1307): each unknown id that nobody has been
    // asked for is asked of the announcer, once.
    method HandleInvTransactions(txs: seq<Tx>, from: Peer) returns (wanted: seq<Tx>)
      requires Valid()
      modifies this`requests, this`fifo, this`timer, this`announced, this`asked
      ensures Valid()
      ensures NewlyWanted(known.Ids(), old(requests), txs, wanted)
      ensures Requested(old(requests), requests, wanted, now + timeout)
      ensures asked == old(asked) + Asks(wanted, from)
      ensures announced == old(announced) + Asks(Unknown(known.Ids(), txs), from)
      ensures forall i, j :: 0 <= i < j < |wanted| ==> wanted[i] != wanted[j]
      ensures forall tx :: tx in wanted <==> tx in txs && tx !in known.Ids() && tx !in old(requests)
      ensures forall i, p, x :: 0 <= i < |wanted| && 0 <= p < |txs| && txs[p] == wanted[i] && x in wanted[..i] ==> x in txs[..p]
      ensures forall tx :: tx in requests <==> tx in old(requests) || tx in wanted
      ensures forall tx :: tx in requests ==>
                requests[tx].deadline == if tx in old(requests) then old(requests)[tx].deadline else now + timeout
      ensures forall tx :: tx in requests ==>
                requests[tx].announcers == (if tx in old(requests) then old(requests)[tx].announcers else [])
                                           + seq(if tx in known.Ids() then 0 else multiset(txs)[tx], _ => from)
      ensures |fifo| == |old(fifo)| + |wanted| && old(fifo) <= fifo
      ensures forall i :: 0 <= i < |wanted| ==> fifo[|old(fifo)| + i] == Entry(now + timeout, wanted[i])
      ensures timer == if fifo == [] then None else Some(fifo[0].deadline)
    {
      hide *;
      ghost var armed := fifo;
      wanted := AnnounceAll(txs, from);
      QueuedInWords(armed, fifo, wanted, now + timeout);
      StillArmed(armed, fifo, timer);
      if wanted != [] {
        ArmTxTimeoutTimer();
      }
      BetweenEvents();
      RequestsInWords(known.Ids(), old(requests), requests, txs, wanted, from, now + timeout);
      ArmedIs(fifo, timer);
    }

    // The loop over an announcement (node.cc:1284-1298).
    method AnnounceAll(txs: seq<Tx>, from: Peer) returns (wanted: seq<Tx>)
      requires Valid()
      modifies this`requests, this`fifo, this`announced, this`asked
      ensures Consistent() && Armed(old(fifo), timer)
      ensures Inviting(known.Ids(), old(requests), requests, txs, wanted, from, now + timeout)
      ensures QueuedFor(old(fifo), fifo, wanted, now + timeout)
      ensures asked == old(asked) + Asks(wanted, from)
      ensures announced == old(announced) + Asks(Unknown(known.Ids(), txs), from)
    {
      hide Queued, Matched, Balanced, Armed, Unknown, Asks, QueuedFor, Inviting, TxIdSet.Ids;
      wanted := [];
      NothingAsked(known.Ids(), requests, txs, from, now + timeout, announced, asked);
      NothingAnnounced(known.Ids(), requests, txs, from, fifo, now + timeout);
      for i := 0 to |txs|
        invariant Consistent()
        invariant Inviting(known.Ids(), old(requests), requests, txs[..i], wanted, from, now + timeout)
        invariant asked == old(asked) + Asks(wanted, from)
        invariant announced == old(announced) + Asks(Unknown(known.Ids(), txs[..i]), from)
        invariant QueuedFor(old(fifo), fifo, wanted, now + timeout)
      {
        var tx := txs[i];
        AnnouncedNext(known.Ids(), txs, i, from, old(announced));
        AskedNext(wanted, tx, from, old(asked));
        QueuedNext(old(fifo), fifo, wanted, now + timeout, tx);
        InvitingNext(known.Ids(), old(requests), requests, txs, i, wanted, from, now + timeout);
        var seen := known.Contains(tx);
        if seen {
          continue;
        }
        var first := Announce(tx, from);
        if first {
          wanted := wanted + [tx];
        }
      }
      assert txs[..|txs|] == txs;
    }

    lemma BetweenEvents()
      ensures Valid() <==> Consistent() && Armed(fifo, timer)
    {
      hide Consistent, Armed;
    }

    lemma ArmedIs(fifo: seq<Entry>, timer: Option<nat>)
      ensures Armed(fifo, timer) <==> timer == if fifo == [] then None else Some(fifo[0].deadline)
    {
    }

    lemma StillArmed(before: seq<Entry>, after: seq<Entry>, t: Option<nat>)
      requires before <= after && Armed(before, t)
      ensures t.Some? ==> Armed(after, t)
      ensures before == after ==> Armed(after, t)
    {
    }

    // ArmTxTimeoutTimer (node.cc:1403-1413).
    method ArmTxTimeoutTimer()
      requires Consistent() && (timer.Some? ==> Armed(fifo, timer))
      modifies this`timer
      ensures Valid()
      ensures timer == if fifo == [] then None else Some(fifo[0].deadline)
    {
      hide Matched, Balanced;
      if fifo == [] || timer.Some? {
        return;
      }
      var delay := fifo[0].deadline - now;
      if delay < 0 {
        delay := 0;
      }
      timer := Some(now + delay);
    }

    // A transaction has come (node.cc:1352-1360).
    method Answer(tx: Tx) returns (isNew: bool)
      requires Valid()
      modifies this`requests, known
      ensures Valid() && known.Ids() == old(known.Ids()) + {tx}
      ensures requests == old(requests) - {tx}
      ensures isNew <==> tx !in old(known.Ids())
    {
      hide Queued, Matched, Balanced, TxIdSet.Ids;
      Arrival(known.Ids(), requests, fifo, announced, asked, tx);
      requests := requests - {tx};
      var seen := known.Contains(tx);
      if seen {
        assert known.Ids() + {tx} == known.Ids();
        return false;
      }
      known.Insert(tx);
      isNew := true;
    }

    // An id read in a block (node.cc:934-941) or generated here (node.cc:1491-1493); a
    // request for it stays out.
    method Learn(tx: Tx)
      requires Valid()
      modifies known
      ensures Valid() && known.Ids() == old(known.Ids()) + {tx}
    {
      hide Queued, Matched, Balanced, TxIdSet.Ids;
      Learned(known.Ids(), requests, fifo, announced, asked, {tx});
      known.Insert(tx);
    }

    method LearnAll(txs: set<Tx>)
      requires Valid()
      modifies known
      ensures Valid() && known.Ids() == old(known.Ids()) + txs
    {
      hide *;
      var rest := txs;
      assert txs - rest == {};
      while rest != {}
        invariant Valid() && rest <= txs && known.Ids() == old(known.Ids()) + (txs - rest)
        decreases |rest|
      {
        var t :| t in rest;
        assert (txs - rest) + {t} == txs - (rest - {t});
        Learn(t);
        rest := rest - {t};
      }
      assert txs - {} == txs;
    }

    // The front of the queue is due (node.cc:1425-1456).
    method TimeOutFront(pick: nat -> nat) returns (asks: seq<Ask>)
      requires Consistent() && fifo != [] && fifo[0].deadline <= now
      modifies this`requests, this`fifo, this`asked
      ensures Consistent() && asked == old(asked) + multiset(asks)
      ensures Expired(old(requests), requests, now, timeout)
      ensures var tx := old(fifo)[0].tx;
        var was := if tx in old(requests) then old(requests)[tx].announcers else [];
        && (tx in old(requests) ==> was != [] && old(requests)[tx].deadline == old(fifo)[0].deadline)
        && (was == [] ==> requests == old(requests) && fifo == old(fifo)[1..] && asks == [])
        && (|was| == 1 ==> requests == old(requests) - {tx} && fifo == old(fifo)[1..] && asks == [])
        && (|was| > 1 ==>
              && tx in requests && requests[tx].deadline == now + timeout
              && (exists idx :: 0 <= idx < |was[1..]| && requests[tx].announcers == was[1..][0 := was[1..][idx]][idx := was[1]])
              && requests == old(requests)[tx := requests[tx]]
              && fifo == old(fifo)[1..] + [Entry(now + timeout, tx)]
              && asks == [Ask(tx, requests[tx].announcers[0])])
      ensures TotalAnnouncers(requests) < old(TotalAnnouncers(requests))
           || (requests == old(requests) && |fifo| < old(|fifo|))
    {
      hide Queued, Matched, Balanced, Swapped, TotalAnnouncers, Restarted, Expired, TxIdSet.Ids;
      var entry := fifo[0];
      asks := [];
      OneExpired(requests, entry.tx, now, timeout);
      StaleEntry(known.Ids(), requests, fifo, now, timeout);
      if entry.tx !in requests || requests[entry.tx].deadline != entry.deadline {
        fifo := fifo[1..];
        return;
      }
      var rest := requests[entry.tx].announcers[1..];
      if rest != [] {
        var idx := pick(|rest|) % |rest|;
        var next := Swapped(rest, idx);
        Retry(known.Ids(), requests, fifo, announced, asked, now, timeout, idx);
        TotalDrops(requests, entry.tx, Request(next, now + timeout));
        RestartShrinks(requests[entry.tx].announcers, idx, requests[entry.tx], now + timeout);
        SwappedIs(rest, idx);
        OneRestarted(requests, entry.tx, Request(next, now + timeout), now, timeout);
        requests := requests[entry.tx := Request(next, now + timeout)];
        fifo := fifo[1..] + [Entry(now + timeout, entry.tx)];
        asked := asked + multiset{Ask(entry.tx, next[0])};
        asks := [Ask(entry.tx, next[0])];
      } else {
        GiveUp(known.Ids(), requests, fifo, announced, asked, now, timeout);
        TotalDrops(requests, entry.tx, Request([], 0));
        requests := requests - {entry.tx};
        fifo := fifo[1..];
      }
    }

    // ProcessTxTimeouts (node.cc:1419-1460), fired by the timer. Every request that was
    // due has moved to another announcer or been given up after all of them.
    method ProcessTxTimeouts(pick: (nat, nat) -> nat) returns (asks: seq<Ask>)
      requires Valid() && timer == Some(now)
      modifies this`requests, this`fifo, this`timer, this`asked
      ensures Valid() && asked == old(asked) + multiset(asks)
      ensures forall i :: 0 <= i < |fifo| ==> fifo[i].deadline > now
      ensures forall tx :: tx in requests ==> requests[tx].deadline > now
      ensures Expired(old(requests), requests, now, timeout)
      ensures forall tx :: tx in old(requests) && old(requests)[tx].deadline > now ==> tx in requests && requests[tx] == old(requests)[tx]
      ensures forall tx :: tx in requests ==> tx in old(requests)
      ensures forall tx :: (timeout > 0 && tx in old(requests) && old(requests)[tx].deadline <= now && |old(requests)[tx].announcers| <= 1)
                ==> tx !in requests
      ensures forall tx :: (timeout > 0 && tx in old(requests) && old(requests)[tx].deadline <= now && |old(requests)[tx].announcers| > 1)
                ==> var rest := old(requests)[tx].announcers[1..];
                    && tx in requests && requests[tx].deadline == now + timeout
                    && (exists idx :: 0 <= idx < |rest| && requests[tx].announcers == rest[0 := rest[idx]][idx := rest[0]])
                    && multiset(asks)[Ask(tx, requests[tx].announcers[0])] == 1
      ensures timeout > 0 ==> forall a :: a in asks ==>
                && a.tx in old(requests) && old(requests)[a.tx].deadline <= now
                && a.tx in requests && requests[a.tx].announcers != [] && a.peer == requests[a.tx].announcers[0]
      ensures timer == if fifo == [] then None else Some(fifo[0].deadline)
      ensures forall tx, peer :: tx in old(requests) && tx !in requests && tx !in known.Ids()
                ==> asked[Ask(tx, peer)] == announced[Ask(tx, peer)]
    {
      hide Queued, Matched, Balanced, TotalAnnouncers, Expired, Progress, Moved, TxIdSet.Ids;
      timer := None;
      ghost var before := requests;
      asks := TimeOutDue(pick);
      LaterOnly(fifo, known.Ids(), requests, now, timeout);
      forall tx, peer | tx !in requests && tx !in known.Ids()
        ensures asked[Ask(tx, peer)] == announced[Ask(tx, peer)]
      {
        GivenUpAfterAll(known.Ids(), requests, announced, asked, tx, peer);
      }
      ExpiredInWords(before, requests, now, timeout);
      if timeout > 0 {
        ProgressInWords(before, requests, now, timeout, asks);
      }
      ArmTxTimeoutTimer();
    }

    // The loop over the due deadlines (node.cc:1423-1457).
    method TimeOutDue(pick: (nat, nat) -> nat) returns (asks: seq<Ask>)
      requires Consistent()
      modifies this`requests, this`fifo, this`asked
      ensures Consistent() && asked == old(asked) + multiset(asks)
      ensures fifo == [] || fifo[0].deadline > now
      ensures Expired(old(requests), requests, now, timeout)
      ensures timeout > 0 ==> Progress(old(requests), requests, now, timeout, asks)
    {
      hide Queued, Matched, Balanced, TotalAnnouncers, Expired, Progress, Moved, TxIdSet.Ids;
      asks := [];
      assert multiset(asks) == multiset{};
      NothingExpired(requests, now, timeout);
      NoProgress(requests, now, timeout);
      while fifo != [] && fifo[0].deadline <= now
        invariant Consistent() && asked == old(asked) + multiset(asks)
        invariant Expired(old(requests), requests, now, timeout)
        invariant timeout > 0 ==> Progress(old(requests), requests, now, timeout, asks)
        decreases TotalAnnouncers(requests), |fifo|
      {
        ghost var requests0, front := requests, fifo[0];
        var more := TimeOutFront(size => pick(|asks|, size));
        ExpiredMore(old(requests), requests0, requests, now, timeout);
        if timeout > 0 {
          MoreProgress(old(requests), requests0, requests, now, timeout, asks, more, front);
        }
        asks := asks + more;
      }
    }
  }

  // What timing out does to the requests: those not due stay as they are, none is
  // added, and the others have lost announcers and start again now.
  ghost predicate Expired(before: map<Tx, Request>, after: map<Tx, Request>, now: nat, timeout: nat) {
    && (forall tx :: tx in before && before[tx].deadline > now ==> tx in after && after[tx] == before[tx])
    && (forall tx :: tx in after ==> tx in before && (after[tx] == before[tx] || Restarted(before[tx], after[tx], now + timeout)))
  }

  ghost predicate Restarted(before: Request, after: Request, deadline: nat) {
    after.deadline == deadline && multiset(after.announcers) < multiset(before.announcers)
  }

  lemma ExpiredInWords(before: map<Tx, Request>, after: map<Tx, Request>, now: nat, timeout: nat)
    requires Expired(before, after, now, timeout)
    ensures forall tx :: tx in before && before[tx].deadline > now ==> tx in after && after[tx] == before[tx]
    ensures forall tx :: tx in after ==> tx in before
  {
    hide Restarted;
  }

  // One due request after its timeout: given up if nobody was left, otherwise asked of the
  // announcer that was swapped to the front, once.
  ghost predicate Moved(tx: Tx, before: Request, after: map<Tx, Request>, deadline: nat, asks: seq<Ask>) {
    if |before.announcers| <= 1 then tx !in after
    else
      var rest := before.announcers[1..];
      && tx in after && after[tx].deadline == deadline
      && (exists idx :: 0 <= idx < |rest| && after[tx].announcers == rest[0 := rest[idx]][idx := rest[0]])
      && multiset(asks)[Ask(tx, after[tx].announcers[0])] == 1
  }

  // Some of the due requests have moved on, the others are as they were.
  ghost predicate Progress(before: map<Tx, Request>, after: map<Tx, Request>, now: nat, timeout: nat, asks: seq<Ask>) {
    && (forall tx :: tx in after ==> tx in before)
    && (forall tx :: tx in before ==>
          || (tx in after && after[tx] == before[tx])
          || (before[tx].deadline <= now && Moved(tx, before[tx], after, now + timeout, asks)))
    && forall a :: a in asks ==>
         && a.tx in before && before[a.tx].deadline <= now
         && a.tx in after && after[a.tx].deadline == now + timeout
         && after[a.tx].announcers != [] && a.peer == after[a.tx].announcers[0]
  }

  lemma NoProgress(requests: map<Tx, Request>, now: nat, timeout: nat)
    ensures Progress(requests, requests, now, timeout, [])
  {
    hide Moved;
  }

  lemma MoreProgress(start: map<Tx, Request>, before: map<Tx, Request>, after: map<Tx, Request>, now: nat, timeout: nat,
                     asks: seq<Ask>, more: seq<Ask>, front: Entry)
    requires timeout > 0 && Progress(start, before, now, timeout, asks) && front.deadline <= now
    requires front.tx in before ==> before[front.tx].deadline == front.deadline && before[front.tx].announcers != []
    requires front.tx !in before ==> after == before && more == []
    requires front.tx in before && |before[front.tx].announcers| == 1 ==> after == before - {front.tx} && more == []
    requires front.tx in before && |before[front.tx].announcers| > 1 ==>
               var rest := before[front.tx].announcers[1..];
               && front.tx in after && after[front.tx].deadline == now + timeout
               && (exists idx :: 0 <= idx < |rest| && after[front.tx].announcers == rest[0 := rest[idx]][idx := rest[0]])
               && after == before[front.tx := after[front.tx]] && more == [Ask(front.tx, after[front.tx].announcers[0])]
    ensures Progress(start, after, now, timeout, asks + more)
  {
    var tx := front.tx;
    if tx in before {
      assert before[tx] == start[tx];
      assert forall a :: a in asks ==> a.tx != tx;
      forall t | t in start && t != tx && Moved(t, start[t], before, now + timeout, asks)
        ensures Moved(t, start[t], after, now + timeout, asks + more)
      {
        StillMoved(t, start[t], before, after, now + timeout, asks, more);
      }
    } else {
      assert asks + more == asks;
    }
  }

  lemma StillMoved(t: Tx, r: Request, before: map<Tx, Request>, after: map<Tx, Request>, deadline: nat, asks: seq<Ask>, more: seq<Ask>)
    requires Moved(t, r, before, deadline, asks) && (t in after <==> t in before) && (t in before ==> after[t] == before[t])
    requires forall a :: a in more ==> a.tx != t
    ensures Moved(t, r, after, deadline, asks + more)
  {
  }

  lemma ProgressInWords(before: map<Tx, Request>, after: map<Tx, Request>, now: nat, timeout: nat, asks: seq<Ask>)
    requires Progress(before, after, now, timeout, asks) && forall tx :: tx in after ==> after[tx].deadline > now
    ensures forall tx :: tx in before && before[tx].deadline <= now && |before[tx].announcers| <= 1 ==> tx !in after
    ensures forall tx :: tx in before && before[tx].deadline <= now && |before[tx].announcers| > 1 ==>
              var rest := before[tx].announcers[1..];
              && tx in after && after[tx].deadline == now + timeout
              && (exists idx :: 0 <= idx < |rest| && after[tx].announcers == rest[0 := rest[idx]][idx := rest[0]])
              && multiset(asks)[Ask(tx, after[tx].announcers[0])] == 1
    ensures forall a :: a in asks ==>
              && a.tx in before && before[a.tx].deadline <= now
              && a.tx in after && after[a.tx].announcers != [] && a.peer == after[a.tx].announcers[0]
  {
    assert forall tx :: tx in before && before[tx].deadline <= now ==> Moved(tx, before[tx], after, now + timeout, asks);
  }

  lemma NothingExpired(requests: map<Tx, Request>, now: nat, timeout: nat)
    ensures Expired(requests, requests, now, timeout)
  {
  }

  lemma OneExpired(requests: map<Tx, Request>, tx: Tx, now: nat, timeout: nat)
    ensures Expired(requests, requests, now, timeout)
    ensures tx in requests && requests[tx].deadline <= now ==> Expired(requests, requests - {tx}, now, timeout)
  {
    hide Restarted;
  }

  lemma OneRestarted(requests: map<Tx, Request>, tx: Tx, r: Request, now: nat, timeout: nat)
    requires tx in requests && requests[tx].deadline <= now && Restarted(requests[tx], r, now + timeout)
    ensures Expired(requests, requests[tx := r], now, timeout)
  {
    hide Restarted;
  }

  lemma ExpiredMore(a: map<Tx, Request>, b: map<Tx, Request>, c: map<Tx, Request>, now: nat, timeout: nat)
    requires Expired(a, b, now, timeout) && Expired(b, c, now, timeout)
    ensures Expired(a, c, now, timeout)
  {
  }

  lemma RestartShrinks(announcers: seq<Peer>, idx: nat, before: Request, deadline: nat)
    requires announcers == before.announcers && |announcers| > 1 && idx < |announcers| - 1
    ensures Restarted(before, Request(Swapped(announcers[1..], idx), deadline), deadline)
  {
    hide Swapped;
    SwappedKeeps(announcers[1..], idx);
    var next := Swapped(announcers[1..], idx);
    assert next == [next[0]] + next[1..];
    assert announcers == [announcers[0]] + announcers[1..];
    assert multiset(next) == multiset(announcers[1..]);
    assert multiset(announcers) == multiset{announcers[0]} + multiset(announcers[1..]);
  }

  // An outstanding request is not overdue and is queued exactly once.
  lemma OneDeadlineEach(known: set<Tx>, requests: map<Tx, Request>, fifo: seq<Entry>, now: nat, timeout: nat, tx: Tx) returns (i: nat)
    requires Queued(fifo, now, timeout) && Matched(known, requests, fifo) && tx in requests
    ensures i < |fifo| && fifo[i] == Entry(requests[tx].deadline, tx) && now <= requests[tx].deadline <= now + timeout
    ensures forall j :: 0 <= j < |fifo| && fifo[j].tx == tx ==> j == i
  {
    i :| 0 <= i < |fifo| && fifo[i] == Entry(requests[tx].deadline, tx);
  }

  // A transaction that is neither known nor asked for has been asked of every announcer.
  lemma GivenUpAfterAll(known: set<Tx>, requests: map<Tx, Request>, announced: multiset<Ask>, asked: multiset<Ask>, tx: Tx, peer: Peer)
    requires Balanced(known, requests, announced, asked) && tx !in known && tx !in requests
    ensures asked[Ask(tx, peer)] == announced[Ask(tx, peer)]
  {
    AtBalanced(known, requests, announced, asked, tx, peer);
  }

  // The queue is sorted, so nothing behind a later front is due.
  lemma LaterOnly(fifo: seq<Entry>, known: set<Tx>, requests: map<Tx, Request>, now: nat, timeout: nat)
    requires Queued(fifo, now, timeout) && Matched(known, requests, fifo)
    requires fifo == [] || fifo[0].deadline > now
    ensures forall i :: 0 <= i < |fifo| ==> fifo[i].deadline > now
    ensures forall tx :: tx in requests ==> requests[tx].deadline > now
  {
    forall tx | tx in requests
      ensures requests[tx].deadline > now
    {
      var i :| 0 <= i < |fifo| && fifo[i] == Entry(requests[tx].deadline, tx);
    }
  }

  // ---------------------------------------------------------------------
  // Ledgers
  // ---------------------------------------------------------------------

  ghost function Asks(txs: seq<Tx>, peer: Peer): multiset<Ask> {
    multiset(seq(|txs|, i requires 0 <= i < |txs| => Ask(txs[i], peer)))
  }

  ghost function Unknown(known: set<Tx>, txs: seq<Tx>): seq<Tx> {
    if txs == [] then []
    else
      var init, last := txs[..|txs| - 1], txs[|txs| - 1];
      Unknown(known, init) + if last in known then [] else [last]
  }

  // The ids of txs that are asked for: once each, if unknown and not asked for yet.
  ghost predicate NewlyWanted(known: set<Tx>, before: map<Tx, Request>, txs: seq<Tx>, wanted: seq<Tx>) {
    NoDup(wanted) && forall tx :: tx in wanted <==> tx in txs && tx !in known && tx !in before
  }

  // The wanted ids have become requests; the others keep their deadlines.
  ghost predicate Requested(before: map<Tx, Request>, after: map<Tx, Request>, wanted: seq<Tx>, deadline: nat) {
    && (forall tx :: tx in after <==> tx in before || tx in wanted)
    && (forall tx :: tx in before ==> tx in after && after[tx].deadline == before[tx].deadline)
    && (forall tx :: tx in wanted ==> tx in after && after[tx].deadline == deadline)
  }

  // Every announcement of an unknown id so far is at the end of its announcers.
  ghost predicate Announcers(known: set<Tx>, before: map<Tx, Request>, after: map<Tx, Request>, txs: seq<Tx>, from: Peer) {
    forall tx :: tx in after ==>
      after[tx].announcers == (if tx in before then before[tx].announcers else [])
                              + seq(if tx in known then 0 else multiset(txs)[tx], _ => from)
  }

  ghost predicate QueuedFor(before: seq<Entry>, after: seq<Entry>, wanted: seq<Tx>, deadline: nat) {
    && |after| == |before| + |wanted| && before <= after
    && forall i :: 0 <= i < |wanted| ==> after[|before| + i] == Entry(deadline, wanted[i])
  }

  lemma NothingAnnounced(known: set<Tx>, requests: map<Tx, Request>, txs: seq<Tx>, from: Peer, fifo: seq<Entry>, deadline: nat)
    ensures Inviting(known, requests, requests, txs[..0], [], from, deadline) && QueuedFor(fifo, fifo, [], deadline)
  {
    assert forall tx :: multiset(txs[..0])[tx] == 0;
  }

  lemma AnnouncersNext(known: set<Tx>, before: map<Tx, Request>, mid: map<Tx, Request>, after: map<Tx, Request>,
                       txs: seq<Tx>, i: nat, from: Peer, wanted: seq<Tx>, deadline: nat)
    requires i < |txs| && Announcers(known, before, mid, txs[..i], from)
    requires NewlyWanted(known, before, txs[..i], wanted) && Requested(before, mid, wanted, deadline)
    requires txs[i] in known ==> after == mid
    requires txs[i] !in known ==>
               after == mid[txs[i] := if txs[i] in mid then Request(mid[txs[i]].announcers + [from], mid[txs[i]].deadline)
                                      else Request([from], deadline)]
    ensures Announcers(known, before, after, txs[..i + 1], from)
  {
    hide Announcers, NewlyWanted, Requested;
    forall t | t in after
      ensures after[t].announcers == (if t in before then before[t].announcers else [])
                                     + seq(if t in known then 0 else multiset(txs[..i + 1])[t], _ => from)
    {
      CountNext(txs, i, t);
      if t in mid {
        AnnouncersAt(known, before, mid, txs[..i], from, t);
      } else {
        NotAnnounced(known, before, mid, txs[..i], wanted, deadline, t);
      }
      MoreOf(if t in known then 0 else multiset(txs[..i])[t], from);
    }
    AnnouncersFrom(known, before, after, txs[..i + 1], from);
  }

  lemma AnnouncersAt(known: set<Tx>, before: map<Tx, Request>, after: map<Tx, Request>, txs: seq<Tx>, from: Peer, tx: Tx)
    requires Announcers(known, before, after, txs, from) && tx in after
    ensures after[tx].announcers == (if tx in before then before[tx].announcers else [])
                                    + seq(if tx in known then 0 else multiset(txs)[tx], _ => from)
  {
  }

  lemma AnnouncersFrom(known: set<Tx>, before: map<Tx, Request>, after: map<Tx, Request>, txs: seq<Tx>, from: Peer)
    requires forall tx :: tx in after ==>
               after[tx].announcers == (if tx in before then before[tx].announcers else [])
                                       + seq(if tx in known then 0 else multiset(txs)[tx], _ => from)
    ensures Announcers(known, before, after, txs, from)
  {
  }

  lemma NotAnnounced(known: set<Tx>, before: map<Tx, Request>, mid: map<Tx, Request>, txs: seq<Tx>, wanted: seq<Tx>, deadline: nat, tx: Tx)
    requires NewlyWanted(known, before, txs, wanted) && Requested(before, mid, wanted, deadline) && tx !in mid
    ensures tx !in before && (tx !in known ==> multiset(txs)[tx] == 0)
  {
    assert tx !in known ==> tx !in txs;
  }

  lemma CountNext(txs: seq<Tx>, i: nat, tx: Tx)
    requires i < |txs|
    ensures multiset(txs[..i + 1])[tx] == multiset(txs[..i])[tx] + if txs[i] == tx then 1 else 0
  {
    assert txs[..i + 1] == txs[..i] + [txs[i]];
  }

  lemma MoreOf(n: nat, peer: Peer)
    ensures seq(n + 1, _ => peer) == seq(n, _ => peer) + [peer]
  {
  }

  // Wanted ids come in the order in which they are announced first.
  ghost predicate InTurn(txs: seq<Tx>, wanted: seq<Tx>) {
    forall i, p, x :: 0 <= i < |wanted| && 0 <= p < |txs| && txs[p] == wanted[i] && x in wanted[..i] ==> x in txs[..p]
  }

  lemma TurnNext(known: set<Tx>, before: map<Tx, Request>, txs: seq<Tx>, i: nat, wanted: seq<Tx>)
    requires i < |txs| && InTurn(txs[..i], wanted) && NewlyWanted(known, before, txs[..i], wanted)
    ensures InTurn(txs[..i + 1], wanted)
    ensures txs[i] !in wanted && txs[i] !in known && txs[i] !in before ==> InTurn(txs[..i + 1], wanted + [txs[i]])
  {
    var init, all, tx := txs[..i], txs[..i + 1], txs[i];
    assert all == init + [tx];
    forall w, j, p, x | (w == wanted || (w == wanted + [tx] && tx !in wanted && tx !in known && tx !in before))
                        && 0 <= j < |w| && 0 <= p < |all| && all[p] == w[j] && x in w[..j]
      ensures x in all[..p]
    {
      TurnAt(known, before, init, tx, wanted, w, j, p, x);
    }
  }

  lemma TurnAt(known: set<Tx>, before: map<Tx, Request>, init: seq<Tx>, tx: Tx, wanted: seq<Tx>, w: seq<Tx>, j: nat, p: nat, x: Tx)
    requires InTurn(init, wanted) && NewlyWanted(known, before, init, wanted)
    requires w == wanted || (w == wanted + [tx] && tx !in wanted && tx !in known && tx !in before)
    requires j < |w| && p <= |init| && (init + [tx])[p] == w[j] && x in w[..j]
    ensures x in (init + [tx])[..p]
  {
    assert w[..j] == wanted[..j];
    assert x in wanted && x in init;
    if p == |init| {
      assert (init + [tx])[..p] == init;
    } else {
      assert (init + [tx])[..p] == init[..p] && init[p] in init;
    }
  }

  // What the loop over an announcement keeps about the requests.
  ghost predicate Inviting(known: set<Tx>, before: map<Tx, Request>, after: map<Tx, Request>, txs: seq<Tx>, wanted: seq<Tx>,
                           from: Peer, deadline: nat) {
    && NewlyWanted(known, before, txs, wanted) && Requested(before, after, wanted, deadline)
    && Announcers(known, before, after, txs, from) && InTurn(txs, wanted)
  }

  lemma InvitingNext(known: set<Tx>, before: map<Tx, Request>, mid: map<Tx, Request>, txs: seq<Tx>, i: nat, wanted: seq<Tx>,
                     from: Peer, deadline: nat)
    requires i < |txs| && Inviting(known, before, mid, txs[..i], wanted, from, deadline)
    ensures txs[i] in known ==> Inviting(known, before, mid, txs[..i + 1], wanted, from, deadline)
    ensures txs[i] !in known && txs[i] in mid ==>
              Inviting(known, before, mid[txs[i] := Request(mid[txs[i]].announcers + [from], mid[txs[i]].deadline)],
                       txs[..i + 1], wanted, from, deadline)
    ensures txs[i] !in known && txs[i] !in mid ==>
              Inviting(known, before, mid[txs[i] := Request([from], deadline)], txs[..i + 1], wanted + [txs[i]], from, deadline)
  {
    hide NewlyWanted, Announcers, InTurn;
    var tx := txs[i];
    WantedIs(known, before, txs[..i], wanted);
    WantedNext(known, before, txs, i, wanted);
    TurnNext(known, before, txs, i, wanted);
    var after := if tx in known then mid
                 else mid[tx := if tx in mid then Request(mid[tx].announcers + [from], mid[tx].deadline) else Request([from], deadline)];
    AnnouncersNext(known, before, mid, after, txs, i, from, wanted, deadline);
  }

  lemma WantedIs(known: set<Tx>, before: map<Tx, Request>, txs: seq<Tx>, wanted: seq<Tx>)
    requires NewlyWanted(known, before, txs, wanted)
    ensures forall tx :: tx in wanted ==> tx !in known && tx !in before
  {
  }

  lemma QueuedNext(before: seq<Entry>, mid: seq<Entry>, wanted: seq<Tx>, deadline: nat, tx: Tx)
    requires QueuedFor(before, mid, wanted, deadline)
    ensures QueuedFor(before, mid + [Entry(deadline, tx)], wanted + [tx], deadline)
    ensures mid + [] == mid
  {
  }

  lemma RequestsInWords(known: set<Tx>, before: map<Tx, Request>, after: map<Tx, Request>, txs: seq<Tx>, wanted: seq<Tx>,
                        from: Peer, deadline: nat)
    requires Inviting(known, before, after, txs, wanted, from, deadline)
    ensures NewlyWanted(known, before, txs, wanted) && Requested(before, after, wanted, deadline)
    ensures forall i, p, x :: 0 <= i < |wanted| && 0 <= p < |txs| && txs[p] == wanted[i] && x in wanted[..i] ==> x in txs[..p]
    ensures forall i, j :: 0 <= i < j < |wanted| ==> wanted[i] != wanted[j]
    ensures forall tx :: tx in wanted <==> tx in txs && tx !in known && tx !in before
    ensures forall tx :: tx in after <==> tx in before || tx in wanted
    ensures forall tx :: tx in after ==> after[tx].deadline == if tx in before then before[tx].deadline else deadline
    ensures forall tx :: tx in after ==>
              after[tx].announcers == (if tx in before then before[tx].announcers else [])
                                      + seq(if tx in known then 0 else multiset(txs)[tx], _ => from)
  {
  }

  lemma QueuedInWords(before: seq<Entry>, after: seq<Entry>, wanted: seq<Tx>, deadline: nat)
    requires QueuedFor(before, after, wanted, deadline)
    ensures |after| == |before| + |wanted| && before <= after
    ensures forall i :: 0 <= i < |wanted| ==> after[|before| + i] == Entry(deadline, wanted[i])
  {
  }

  lemma NothingAsked(known: set<Tx>, requests: map<Tx, Request>, txs: seq<Tx>, peer: Peer, deadline: nat, announced: multiset<Ask>, asked: multiset<Ask>)
    ensures txs[..0] == [] && announced == announced + Asks(Unknown(known, []), peer) && asked == asked + Asks([], peer)
  {
  }

  lemma MoreAsks(txs: seq<Tx>, tx: Tx, peer: Peer)
    ensures Asks(txs + [tx], peer) == Asks(txs, peer) + multiset{Ask(tx, peer)}
  {
    var a, b := seq(|txs|, i requires 0 <= i < |txs| => Ask(txs[i], peer)), txs + [tx];
    assert seq(|b|, i requires 0 <= i < |b| => Ask(b[i], peer)) == a + [Ask(tx, peer)];
  }

  lemma AskedNext(wanted: seq<Tx>, tx: Tx, peer: Peer, before: multiset<Ask>)
    ensures before + Asks(wanted + [tx], peer) == (before + Asks(wanted, peer)) + multiset{Ask(tx, peer)}
    ensures before + Asks(wanted, peer) == (before + Asks(wanted, peer)) + multiset{}
  {
    hide Asks;
    MoreAsks(wanted, tx, peer);
  }

  lemma AnnouncedNext(known: set<Tx>, txs: seq<Tx>, i: nat, peer: Peer, before: multiset<Ask>)
    requires i < |txs|
    ensures before + Asks(Unknown(known, txs[..i + 1]), peer) ==
            (before + Asks(Unknown(known, txs[..i]), peer)) + if txs[i] in known then multiset{} else multiset{Ask(txs[i], peer)}
  {
    hide Asks;
    assert txs[..i + 1][..i] == txs[..i];
    MoreAsks(Unknown(known, txs[..i]), txs[i], peer);
    assert Unknown(known, txs[..i]) + [] == Unknown(known, txs[..i]);
  }

  lemma WantedNext(known: set<Tx>, before: map<Tx, Request>, txs: seq<Tx>, i: nat, wanted: seq<Tx>)
    requires i < |txs| && NewlyWanted(known, before, txs[..i], wanted)
    ensures txs[i] in known || txs[i] in before || txs[i] in wanted ==> NewlyWanted(known, before, txs[..i + 1], wanted)
    ensures txs[i] !in known && txs[i] !in before && txs[i] !in wanted ==> NewlyWanted(known, before, txs[..i + 1], wanted + [txs[i]])
  {
    assert txs[..i + 1] == txs[..i] + [txs[i]];
  }
}
