/**
 * Whole runs: a fresh chain is handed a sequence of blocks, in any order.
 */
module Runs {
  import opened Orders
  import opened Dags
  import opened BlueSets
  import opened Convergence
  import opened Growth
  import opened Orderings
  import opened ChainTables
  import opened Blockchains

  // Deliveries as callers make them: no block twice, genesis not redelivered, no
  // parent listed twice.
  ghost predicate Arrivals(a: seq<Block>) {
    && (forall i :: 0 <= i < |a| ==> a[i].header.id != GENESIS && NoDup(a[i].header.parents))
    && (forall i, j :: 0 <= i < j < |a| ==> a[i].header.id != a[j].header.id)
  }

  lemma ArrivalsMean(a: seq<Block>)
    ensures Arrivals(a) <==>
              && (forall b :: b in a ==> b.header.id != 0)
              && (forall i, p, q :: 0 <= i < |a| && 0 <= p < q < |a[i].header.parents| ==> a[i].header.parents[p] != a[i].header.parents[q])
              && (forall i, j :: 0 <= i < j < |a| ==> a[i].header.id != a[j].header.id)
  {
  }

  ghost function DeliveredBy(a: seq<Block>): map<Id, Block> {
    if a == [] then map[GENESIS := GenesisBlock()]
    else DeliveredBy(a[..|a| - 1])[a[|a| - 1].header.id := a[|a| - 1]]
  }

  lemma {:induction false} DeliveredByLookup(a: seq<Block>, id: Id)
    requires Arrivals(a)
    ensures id in DeliveredBy(a) <==> id == GENESIS || exists b :: b in a && b.header.id == id
    ensures forall b :: b in a ==> b.header.id in DeliveredBy(a) && DeliveredBy(a)[b.header.id] == b
    ensures GENESIS in DeliveredBy(a) && DeliveredBy(a)[GENESIS] == GenesisBlock()
    decreases |a|
  {
    if a != [] {
      var n := |a| - 1;
      var init := a[..n];
      DeliveredByLookup(init, id);
      assert forall b :: b in a ==> b == a[n] || b in init;
      assert forall b :: b in init ==> b in a && b.header.id != a[n].header.id;
      assert a[n] in a;
    }
  }

  // What a run has delivered depends on the set of blocks only.
  lemma SameArrivalsSameDelivered(a1: seq<Block>, a2: seq<Block>)
    requires Arrivals(a1) && Arrivals(a2) && Elems(a1) == Elems(a2)
    ensures DeliveredBy(a1) == DeliveredBy(a2)
  {
    hide Arrivals, DeliveredBy;
    forall b: Block ensures b in a1 <==> b in a2 {
      assert b in Elems(a1) <==> b in Elems(a2);
    }
    forall id
      ensures id in DeliveredBy(a1) <==> id in DeliveredBy(a2)
      ensures id in DeliveredBy(a1) ==> DeliveredBy(a1)[id] == DeliveredBy(a2)[id]
    {
      DeliveredByLookup(a1, id);
      DeliveredByLookup(a2, id);
    }
  }

  // Two nodes that received the same blocks, each in its own order, hold the same
  // state: accepted blocks with all annotations, orphans, children, tips and colours.
  lemma ArrivalOrderIrrelevant(k: nat, a1: seq<Block>, a2: seq<Block>, s1: State, s2: State)
    requires Arrivals(a1) && Arrivals(a2) && Elems(a1) == Elems(a2)
    requires Consistent(s1, k) && Settled(s1) && Delivered(s1) == DeliveredBy(a1)
    requires Consistent(s2, k) && Settled(s2) && Delivered(s2) == DeliveredBy(a2)
    ensures s1 == s2
  {
    hide *;
    SameArrivalsSameDelivered(a1, a2);
    SameDeliveredSameState(s1, s2, k);
  }

  method Run(k: nat, a: seq<Block>) returns (c: Blockchain)
    requires Arrivals(a)
    ensures c.k == k && c.Valid() && Settled(c.View())
    ensures Delivered(c.View()) == DeliveredBy(a)
  {
    hide *;
    c := new Blockchain(k);
    DeliveredByNothing();
    assert a[..0] == [];
    for i := 0 to |a|
      invariant fresh(c) && c.k == k && c.Valid() && Settled(c.View())
      invariant Delivered(c.View()) == DeliveredBy(a[..i])
    {
      NextArrival(a, i, c.View());
      c.AddBlock(a[i]);
    }
    assert a[..|a|] == a;
  }

  lemma DeliveredByNothing()
    ensures DeliveredBy([]) == map[GENESIS := GenesisBlock()]
  {
  }

  lemma NextArrival(a: seq<Block>, i: nat, s: State)
    requires Arrivals(a) && i < |a| && Delivered(s) == DeliveredBy(a[..i])
    ensures Fresh(s, a[i])
    ensures DeliveredBy(a[..i + 1]) == DeliveredBy(a[..i])[a[i].header.id := a[i]]
  {
    assert a[..i + 1][..i] == a[..i];
    DeliveredByLookup(a[..i], a[i].header.id);
    assert a[i].header.id !in Delivered(s);
  }

  // The code path: two runs over the same blocks end alike, down to the ordering.
  method TwoNodesAgree(k: nat, a1: seq<Block>, a2: seq<Block>)
    returns (c1: Blockchain, c2: Blockchain, order1: seq<Id>, order2: seq<Id>)
    requires Arrivals(a1) && Arrivals(a2) && Elems(a1) == Elems(a2)
    ensures c1.Valid() && c2.Valid() && c1.View() == c2.View()
    ensures order1 == order2 && IsGlobalOrder(c1.dag, order1)
  {
    hide *;
    c1 := Run(k, a1);
    c2 := Run(k, a2);
    c1.ValidFacts();
    c2.ValidFacts();
    ArrivalOrderIrrelevant(k, a1, a2, c1.View(), c2.View());
    order1 := c1.ComputeGHOSTDAGOrdering();
    order2 := c2.ComputeGHOSTDAGOrdering();
    GlobalOrderIsUnique(c1.dag, order1, order2);
  }

  // ---------------------------------------------------------------------
  // An example run
  // ---------------------------------------------------------------------

  function Plain(id: Id, parents: seq<Id>): Block {
    Block(Header(id, 0, 0.0, parents), {})
  }

  // Three blocks on genesis and one on all three, delivered in any order, with k = 1: the
  // merge is blue with genesis, 1 and 2.
  method RunMergeOfThree(a: seq<Block>) returns (c: Blockchain)
    requires multiset(a) == multiset{Plain(1, [0]), Plain(2, [0]), Plain(3, [0]), Plain(4, [1, 2, 3])}
    ensures c.Valid() && 4 in c.dag && Blue(c.dag, 4) == {0, 1, 2, 4} && Score(c.dag, 4) == 4
  {
    hide *;
    FourArrive(a);
    c := Run(1, a);
    c.ValidFacts();
    ConsistentValid(c.View(), 1);
    FourDelivered(a, c.View());
    MergeOfThree(c.dag);
  }

  lemma FourArrive(a: seq<Block>)
    requires multiset(a) == multiset{Plain(1, [0]), Plain(2, [0]), Plain(3, [0]), Plain(4, [1, 2, 3])}
    ensures Arrivals(a) && Elems(a) == {Plain(1, [0]), Plain(2, [0]), Plain(3, [0]), Plain(4, [1, 2, 3])}
  {
    assert forall b :: b in a <==> b in multiset(a);
    assert forall b :: multiset(a)[b] <= 1;
    forall i, j | 0 <= i < j < |a|
      ensures a[i].header.id != a[j].header.id
    {
      OnceIn(a, i, j);
      assert a[i] in multiset(a) && a[j] in multiset(a);
    }
    forall i | 0 <= i < |a|
      ensures a[i].header.id != GENESIS && NoDup(a[i].header.parents)
    {
      assert a[i] in multiset(a);
    }
  }

  lemma OnceIn(a: seq<Block>, i: nat, j: nat)
    requires i < j < |a| && multiset(a)[a[i]] <= 1
    ensures a[i] != a[j]
  {
    assert a == a[..j] + a[j..];
    assert a[..j][i] == a[i] && a[j..][0] == a[j];
    assert a[i] in multiset(a[..j]) && a[j] in multiset(a[j..]);
    assert multiset(a) == multiset(a[..j]) + multiset(a[j..]);
  }

  lemma FourDelivered(a: seq<Block>, s: State)
    requires Arrivals(a) && Elems(a) == {Plain(1, [0]), Plain(2, [0]), Plain(3, [0]), Plain(4, [1, 2, 3])}
    requires Consistent(s, 1) && Settled(s) && Delivered(s) == DeliveredBy(a)
    ensures {0, 1, 2, 3, 4} <= s.dag.Keys
    ensures Parents(s.dag, 0) == [] && Parents(s.dag, 1) == [0] && Parents(s.dag, 2) == [0] && Parents(s.dag, 3) == [0]
    ensures Parents(s.dag, 4) == [1, 2, 3]
  {
    hide Consistent, Settled, Arrivals, DeliveredBy;
    AcceptedIsLeastClosed(s, 1);
    GenesisStands(s, 1);
    DeliveredAt(a, s, Plain(1, [0]));
    DeliveredAt(a, s, Plain(2, [0]));
    DeliveredAt(a, s, Plain(3, [0]));
    DeliveredAt(a, s, Plain(4, [1, 2, 3]));
  }

  lemma GenesisStands(s: State, k: nat)
    requires Consistent(s, k)
    ensures 0 in s.dag && Parents(s.dag, 0) == [] && s.orphans.Keys !! s.dag.Keys
  {
    hide Dags.Valid;
  }

  lemma DeliveredAt(a: seq<Block>, s: State, b: Block)
    requires Arrivals(a) && b in Elems(a) && Delivered(s) == DeliveredBy(a) && s.orphans.Keys !! s.dag.Keys
    requires ClosedUnderArrival(Delivered(s), s.dag.Keys)
    ensures ParentsWithin(b, s.dag.Keys) ==> b.header.id in s.dag
    ensures b.header.id in s.dag ==> Parents(s.dag, b.header.id) == b.header.parents
  {
    hide Arrivals, DeliveredBy;
    DeliveredByLookup(a, b.header.id);
    assert b in a;
    assert Delivered(s)[b.header.id] == b;
  }
}
