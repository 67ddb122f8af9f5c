/**
 * The state of a chain between calls, and the central theorem: it is a function of
 * the set of delivered blocks alone. Arrival order and insertion indices leave no
 * trace in ancestors, blue sets, scores, selected parents, colours, tips or orphans.
 */
module Convergence {
  import opened Orders
  import opened Dags
  import opened BlueSets

  // ---------------------------------------------------------------------
  // A block's annotation depends on its past cone only
  // ---------------------------------------------------------------------

  ghost predicate SameParents(g1: Dag, g2: Dag, s: set<Id>) {
    forall x :: x in s ==> Parents(g1, x) == Parents(g2, x)
  }

  lemma {:induction false} KahnFromAgrees(g1: Dag, g2: Dag, subset: set<Id>, queue: seq<Id>, done: seq<Id>)
    requires SameParents(g1, g2, subset)
    ensures KahnFrom(g1, subset, queue, done) == KahnFrom(g2, subset, queue, done)
    decreases subset - Elems(done)
  {
    if queue != [] && queue[0] in subset && queue[0] !in done {
      var done' := done + [queue[0]];
      ElemsConcat(done, [queue[0]]);
      assert queue[0] in Elems([queue[0]]);
      ReleasedAgrees(g1, g2, subset, Elems(done'), queue[0]);
      KahnFromAgrees(g1, g2, subset, KahnQueue(g1, subset, queue, done), done');
    }
  }

  lemma ReleasedAgrees(g1: Dag, g2: Dag, subset: set<Id>, done: set<Id>, cur: Id)
    requires SameParents(g1, g2, subset)
    ensures Released(g1, subset, done, cur) == Released(g2, subset, done, cur)
    ensures Sources(g1, subset) == Sources(g2, subset)
  {
    forall b | b in subset ensures ParentsIn(g1, subset, b) == ParentsIn(g2, subset, b) {
    }
  }

  lemma KahnAgrees(g1: Dag, g2: Dag, subset: set<Id>)
    requires SameParents(g1, g2, subset)
    ensures Kahn(g1, subset) == Kahn(g2, subset)
  {
    ReleasedAgrees(g1, g2, subset, {}, 0);
    KahnFromAgrees(g1, g2, subset, Ascending(Sources(g1, subset)), []);
  }

  ghost predicate SamePast(g1: Dag, g2: Dag, s: set<Id>) {
    forall x :: x in s ==> Past(g1, x) == Past(g2, x)
  }

  lemma {:induction false} GreedyAgrees(g1: Dag, g2: Dag, k: nat, blue: set<Id>, order: seq<Id>)
    requires SamePast(g1, g2, blue + Elems(order))
    ensures Greedy(g1, k, blue, order) == Greedy(g2, k, blue, order)
    decreases |order|
  {
    if order != [] {
      assert order[0] in Elems(order);
      assert Elems(order[1..]) <= Elems(order);
      assert BlueAnticone(g1, blue, order[0]) == BlueAnticone(g2, blue, order[0]);
      GreedyAgrees(g1, g2, k, GreedyStep(g1, k, blue, order[0]), order[1..]);
    }
  }

  ghost predicate SameBlocks(g1: Dag, g2: Dag, s: set<Id>) {
    forall x :: x in s && x in g1 && x in g2 ==> g1[x].block == g2[x].block
  }

  lemma BestIsUnique(g1: Dag, g2: Dag, s: set<Id>, p: Id, q: Id)
    requires IsBest(g1, s, p) && IsBest(g2, s, q)
    requires forall x :: x in s ==> Score(g1, x) == Score(g2, x)
    ensures p == q
  {
  }

  // Two valid dags that hold the same blocks in the past cone of b annotate b alike.
  lemma {:induction false} ConeDetermines(g1: Dag, g2: Dag, k: nat, b: Id)
    requires Valid(g1, k) && Valid(g2, k) && b in g1 && b in g2
    requires SameBlocks(g1, g2, g1[b].past + {b})
    ensures g1[b] == g2[b]
    decreases |g1[b].past|
  {
    hide Kahn, Greedy, Valid, Linked, ColourRule, PastOf;
    ParentsAgree(g1, g2, b);
    var ps := Parents(g1, b);
    forall p | p in ps
      ensures p in g1 && p in g2 && g1[p] == g2[p]
    {
      ValidLinked(g1, k);
      ValidLinked(g2, k);
      ParentPast(g1, b, p);
      ParentPast(g2, b, p);
      ConeDetermines(g1, g2, k, p);
    }
    PastAgrees(g1, g2, k, b);
    forall x | x in g1[b].past
      ensures x in g1 && x in g2 && g1[x] == g2[x]
    {
      ValidLinked(g1, k);
      ValidLinked(g2, k);
      PastClosed(g1, b, x);
      PastClosed(g2, b, x);
      ConeDetermines(g1, g2, k, x);
    }
    ColourAgrees(g1, g2, k, b);
  }

  lemma ValidLinked(g: Dag, k: nat)
    requires Valid(g, k)
    ensures Linked(g)
  {
  }

  lemma ParentsAgree(g1: Dag, g2: Dag, b: Id)
    requires b in g1 && b in g2 && SameBlocks(g1, g2, {b} + g1[b].past)
    ensures g1[b].block == g2[b].block && Parents(g1, b) == Parents(g2, b)
  {
  }

  lemma PastAgrees(g1: Dag, g2: Dag, k: nat, b: Id)
    requires Valid(g1, k) && Valid(g2, k) && b in g1 && b in g2
    requires Parents(g1, b) == Parents(g2, b)
    requires forall p :: p in Parents(g1, b) ==> p in g1 && p in g2 && g1[p] == g2[p]
    ensures g1[b].past == g2[b].past
  {
    hide ColourRule, PastOf;
    assert LinkRule(g1, b) && LinkRule(g2, b);
    PastOfAgrees(g1, g2, Parents(g1, b));
  }

  lemma PastOfAgrees(g1: Dag, g2: Dag, ps: seq<Id>)
    requires forall p :: p in ps ==> Past(g1, p) == Past(g2, p)
    ensures PastOf(g1, ps) == PastOf(g2, ps)
  {
  }

  lemma ColourAgrees(g1: Dag, g2: Dag, k: nat, b: Id)
    requires Valid(g1, k) && Valid(g2, k) && b in g1 && b in g2
    requires g1[b].block == g2[b].block && g1[b].past == g2[b].past
    requires forall x :: x in g1[b].past ==> x in g1 && x in g2 && g1[x] == g2[x]
    ensures g1[b] == g2[b]
  {
    hide Kahn, Greedy, LinkRule, IsBest;
    assert ColourRule(g1, k, b) && ColourRule(g2, k, b);
    if Parents(g1, b) != [] {
      BlueWithinPast(g1, k, b);
      BlueWithinPast(g2, k, b);
      var ps := Elems(Parents(g1, b));
      forall p | p in ps ensures p in g1[b].past {
        ParentPast(g1, b, p);
      }
      BestIsUnique(g1, g2, ps, g1[b].selected.value, g2[b].selected.value);
      var sp := g1[b].selected.value;
      var m := MergeSet(g1, g1[b].past, sp);
      KahnAgrees(g1, g2, m);
      MergeSetSorted(g1, b, sp);
      GreedyAgrees(g1, g2, k, Blue(g1, sp), Kahn(g1, m));
    }
  }

  // ---------------------------------------------------------------------
  // The state of a chain
  // ---------------------------------------------------------------------

  // blues holds the ids whose is_blue flag is set.
  datatype State = State(
    dag: Dag,
    orphans: map<Id, Block>,
    children: map<Id, set<Id>>,
    tips: set<Id>,
    blues: set<Id>)

  ghost function ChildrenOf(g: Dag, p: Id): set<Id> {
    set c | c in g && p in Parents(g, c)
  }

  ghost predicate ChildrenAgree(g: Dag, children: map<Id, set<Id>>) {
    && (forall p :: p in children <==> ChildrenOf(g, p) != {})
    && (forall p :: p in children ==> children[p] == ChildrenOf(g, p))
  }

  ghost function TipsOf(g: Dag): set<Id> {
    set b | b in g && ChildrenOf(g, b) == {}
  }

  ghost predicate ColouredBy(g: Dag, tips: set<Id>, blues: set<Id>) {
    exists t :: IsBest(g, tips, t) && blues == Blue(g, t)
  }

  predicate WellFormed(id: Id, b: Block) {
    b.header.id == id && NoDup(b.header.parents)
  }

  // What holds between any two calls, whatever has been delivered.
  ghost predicate Consistent(s: State, k: nat) {
    && Valid(s.dag, k)
    && GENESIS in s.dag && s.dag[GENESIS].block.header.parents == []
    && s.orphans.Keys !! s.dag.Keys
    && (forall o :: o in s.orphans ==> WellFormed(o, s.orphans[o]))
    && ChildrenAgree(s.dag, s.children)
    && s.tips == TipsOf(s.dag)
    && ColouredBy(s.dag, s.tips, s.blues)
  }

  // Every orphan misses a parent.
  ghost predicate Settled(s: State) {
    forall o :: o in s.orphans ==> exists p :: p in s.orphans[o].header.parents && p !in s.dag
  }

  // Everything handed to the chain so far.
  ghost function Delivered(s: State): map<Id, Block> {
    (map b | b in s.dag :: s.dag[b].block) + s.orphans
  }

  // ---------------------------------------------------------------------
  // Accepted blocks
  // ---------------------------------------------------------------------

  ghost predicate ParentsWithin(b: Block, s: set<Id>) {
    forall p :: p in b.header.parents ==> p in s
  }

  // s contains every delivered block all of whose parents it contains.
  ghost predicate ClosedUnderArrival(d: map<Id, Block>, s: set<Id>) {
    forall b :: b in d && ParentsWithin(d[b], s) ==> b in s
  }

  lemma {:induction false} AcceptedIsBelow(s: State, k: nat, t: set<Id>, b: Id)
    requires Consistent(s, k) && b in s.dag
    requires ClosedUnderArrival(Delivered(s), t)
    ensures b in t
    decreases |s.dag[b].past|
  {
    hide ColourRule;
    assert LinkRule(s.dag, b);
    assert Delivered(s)[b] == s.dag[b].block;
    forall p | p in Parents(s.dag, b) ensures p in t {
      ParentPast(s.dag, b, p);
      AcceptedIsBelow(s, k, t, p);
    }
  }

  // The accepted set is the least set closed under "delivered with every parent
  // accepted".
  lemma AcceptedIsLeastClosed(s: State, k: nat)
    requires Consistent(s, k) && Settled(s)
    ensures ClosedUnderArrival(Delivered(s), s.dag.Keys)
    ensures forall t :: ClosedUnderArrival(Delivered(s), t) ==> s.dag.Keys <= t
  {
    hide ColourRule, LinkRule;
    var d := Delivered(s);
    forall b | b in d
      ensures ParentsWithin(d[b], s.dag.Keys) ==> b in s.dag
    {
      if b !in s.dag {
        assert b in s.orphans && d[b] == s.orphans[b];
        var p :| p in d[b].header.parents && p !in s.dag;
      }
    }
    forall t | ClosedUnderArrival(d, t)
      ensures s.dag.Keys <= t
    {
      forall b | b in s.dag ensures b in t {
        AcceptedIsBelow(s, k, t, b);
      }
    }
  }

  // ---------------------------------------------------------------------
  // Convergence
  // ---------------------------------------------------------------------

  lemma SameDeliveredSameDag(s1: State, s2: State, k: nat)
    requires Consistent(s1, k) && Settled(s1) && Consistent(s2, k) && Settled(s2)
    requires Delivered(s1) == Delivered(s2)
    ensures s1.dag == s2.dag
  {
    hide *;
    SameAccepted(s1, s2, k);
    SameAccepted(s2, s1, k);
    ConsistentValid(s1, k);
    ConsistentValid(s2, k);
    SameBlocksDelivered(s1, s2);
    assert s1.dag.Keys == s2.dag.Keys;
    forall b | b in s1.dag
      ensures s1.dag[b] == s2.dag[b]
    {
      SameBlocksWithin(s1.dag, s2.dag, s1.dag[b].past + {b});
      ConeDetermines(s1.dag, s2.dag, k, b);
    }
  }

  lemma SameAccepted(s1: State, s2: State, k: nat)
    requires Consistent(s1, k) && Settled(s1) && Consistent(s2, k) && Settled(s2)
    requires Delivered(s1) == Delivered(s2)
    ensures s1.dag.Keys <= s2.dag.Keys
  {
    hide *;
    AcceptedIsLeastClosed(s1, k);
    AcceptedIsLeastClosed(s2, k);
  }

  lemma ConsistentValid(s: State, k: nat)
    requires Consistent(s, k)
    ensures Valid(s.dag, k) && s.orphans.Keys !! s.dag.Keys
  {
  }

  lemma SameBlocksDelivered(s1: State, s2: State)
    requires Delivered(s1) == Delivered(s2)
    requires s1.orphans.Keys !! s1.dag.Keys && s2.orphans.Keys !! s2.dag.Keys
    ensures SameBlocks(s1.dag, s2.dag, s1.dag.Keys)
  {
    forall b | b in s1.dag && b in s2.dag
      ensures s1.dag[b].block == s2.dag[b].block
    {
      assert Delivered(s1)[b] == s1.dag[b].block && Delivered(s2)[b] == s2.dag[b].block;
    }
  }

  lemma SameBlocksWithin(g1: Dag, g2: Dag, t: set<Id>)
    requires SameBlocks(g1, g2, g1.Keys)
    ensures SameBlocks(g1, g2, t)
  {
  }

  // Two chains that were handed the same blocks are in the same state.
  lemma SameDeliveredSameState(s1: State, s2: State, k: nat)
    requires Consistent(s1, k) && Settled(s1) && Consistent(s2, k) && Settled(s2)
    requires Delivered(s1) == Delivered(s2)
    ensures s1 == s2
  {
    hide Valid, Settled;
    SameDeliveredSameDag(s1, s2, k);
    var g := s1.dag;
    forall o
      ensures o in s1.orphans <==> o in s2.orphans
      ensures o in s1.orphans ==> s1.orphans[o] == s2.orphans[o]
    {
      assert o in Delivered(s1) <==> o in g || o in s1.orphans;
      assert o in Delivered(s2) <==> o in g || o in s2.orphans;
      if o in s1.orphans && o in s2.orphans {
        assert Delivered(s1)[o] == s1.orphans[o] && Delivered(s2)[o] == s2.orphans[o];
      }
    }
    assert s1.orphans == s2.orphans;
    assert s1.children == s2.children;
    var t1 :| IsBest(g, s1.tips, t1) && s1.blues == Blue(g, t1);
    var t2 :| IsBest(g, s2.tips, t2) && s2.blues == Blue(g, t2);
    BestIsUnique(g, g, s1.tips, t1, t2);
  }
}
