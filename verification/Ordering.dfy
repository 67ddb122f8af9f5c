/**
 * The global ordering of ComputeGHOSTDAGOrdering and the reachability queries, as
 * specifications over a Dag.
 */
module Orderings {
  import opened Orders
  import opened Dags
  import opened TopologicalSorts
  import opened Convergence

  ghost function Time(g: Dag, b: Id): real {
    if b in g then g[b].block.header.time else 0.0
  }

  // Higher blue score first, then earlier creation time, then lower id.
  predicate RanksBefore(scoreA: nat, timeA: real, a: Id, scoreB: nat, timeB: real, b: Id) {
    if scoreA != scoreB then scoreA > scoreB
    else if timeA != timeB then timeA < timeB
    else a < b
  }

  ghost predicate Outranks(g: Dag, a: Id, b: Id) {
    RanksBefore(Score(g, a), Time(g, a), a, Score(g, b), Time(g, b), b)
  }

  ghost predicate IsTop(g: Dag, s: set<Id>, t: Id) {
    t in s && forall x :: x in s && x != t ==> Outranks(g, t, x)
  }

  lemma TopStep(g: Dag, s: set<Id>, t: Id, x: Id)
    requires IsTop(g, s, t)
    ensures IsTop(g, s + {x}, if Outranks(g, x, t) then x else t)
  {
  }

  lemma TopIsUnique(g: Dag, s: set<Id>, t: Id, u: Id)
    requires IsTop(g, s, t) && IsTop(g, s, u)
    ensures t == u
  {
  }

  // Blocks not emitted yet whose parents all have been.
  ghost function Ready(g: Dag, done: set<Id>): set<Id> {
    set b | b in g && b !in done && ParentsIn(g, g.Keys, b) <= done
  }

  // Every position holds the best of the blocks that were ready for it.
  ghost predicate BestEverywhere(g: Dag, order: seq<Id>) {
    forall i :: 0 <= i < |order| ==> IsTop(g, Ready(g, Elems(order[..i])), order[i])
  }

  ghost predicate IsGlobalOrder(g: Dag, order: seq<Id>) {
    NoDup(order) && Elems(order) == g.Keys && BestEverywhere(g, order)
  }

  // What the rule says of two blocks: at each position stands a block whose parents are
  // all placed, and any other such block has a lower score, or the same and a later time,
  // or both the same and a higher id.
  lemma GlobalOrderShows(g: Dag, order: seq<Id>)
    requires IsGlobalOrder(g, order)
    ensures NoDup(order) && Elems(order) == g.Keys
    ensures forall i, p :: 0 <= i < |order| && p in Parents(g, order[i]) && p in g ==> p in order[..i]
    ensures forall i, x {:trigger order[i], Score(g, x)} ::
              0 <= i < |order| && x in g && x !in order[..i] && x != order[i]
              && (forall p :: p in Parents(g, x) && p in g ==> p in order[..i])
              ==> || Score(g, x) < Score(g, order[i])
                  || (Score(g, x) == Score(g, order[i]) && Time(g, order[i]) < Time(g, x))
                  || (Score(g, x) == Score(g, order[i]) && Time(g, order[i]) == Time(g, x) && order[i] < x)
  {
    hide Score, Time, Parents;
    forall i | 0 <= i < |order|
      ensures IsTop(g, Ready(g, Elems(order[..i])), order[i])
      ensures forall x :: x in g && x !in order[..i] && (forall p :: p in Parents(g, x) && p in g ==> p in order[..i])
                ==> x in Ready(g, Elems(order[..i]))
      ensures forall p :: p in Parents(g, order[i]) && p in g ==> p in order[..i]
    {
      ReadyShows(g, order[..i]);
    }
  }

  lemma ReadyShows(g: Dag, done: seq<Id>)
    ensures forall x :: x in Ready(g, Elems(done)) <==>
              x in g && x !in done && forall p :: p in Parents(g, x) && p in g ==> p in done
  {
    hide Parents;
    assert forall x :: x in Elems(done) <==> x in done;
    forall x
      ensures x in Ready(g, Elems(done)) <==> x in g && x !in done && forall p :: p in Parents(g, x) && p in g ==> p in done
    {
      assert forall p :: p in ParentsIn(g, g.Keys, x) <==> p in Parents(g, x) && p in g;
    }
  }

  // The rule determines the sequence.
  lemma {:induction false} PrefixesAgree(g: Dag, o1: seq<Id>, o2: seq<Id>, n: nat)
    requires BestEverywhere(g, o1) && BestEverywhere(g, o2)
    requires n <= |o1| && n <= |o2|
    ensures o1[..n] == o2[..n]
  {
    hide Ready, IsTop;
    if n > 0 {
      PrefixesAgree(g, o1, o2, n - 1);
      TopIsUnique(g, Ready(g, Elems(o1[..n - 1])), o1[n - 1], o2[n - 1]);
      assert o1[..n] == o1[..n - 1] + [o1[n - 1]] && o2[..n] == o2[..n - 1] + [o2[n - 1]];
    }
  }

  lemma GlobalOrderIsUnique(g: Dag, o1: seq<Id>, o2: seq<Id>)
    requires IsGlobalOrder(g, o1) && IsGlobalOrder(g, o2)
    ensures o1 == o2
  {
    NoDupCard(o1);
    NoDupCard(o2);
    PrefixesAgree(g, o1, o2, |o1|);
    assert o1[..|o1|] == o1 && o2[..|o2|] == o2;
  }

  // Every ancestor stands before its descendants.
  lemma {:induction false} AncestorsStandBefore(g: Dag, order: seq<Id>, i: nat, x: Id)
    requires Linked(g) && BestEverywhere(g, order) && i < |order|
    requires x in Past(g, order[i])
    ensures x in order[..i]
    decreases i
  {
    hide Linked, BestEverywhere;
    var p := Through(g, order[i], x);
    ParentStandsBefore(g, order, i, p);
    if x != p {
      var j :| 0 <= j < i && order[j] == p;
      AncestorsStandBefore(g, order, j, x);
      PrefixMonotone(order, j, i, x);
    }
  }

  lemma PrefixMonotone(order: seq<Id>, j: nat, i: nat, x: Id)
    requires j <= i <= |order| && x in order[..j]
    ensures x in order[..i]
  {
    var m :| 0 <= m < j && order[m] == x;
    assert order[..i][m] == x;
  }

  lemma ParentStandsBefore(g: Dag, order: seq<Id>, i: nat, p: Id)
    requires BestEverywhere(g, order) && i < |order|
    requires p in g && p in Parents(g, order[i])
    ensures p in order[..i]
    ensures exists j :: 0 <= j < i && order[j] == p
  {
    assert IsTop(g, Ready(g, Elems(order[..i])), order[i]);
    assert p in ParentsIn(g, g.Keys, order[i]);
    assert p in Elems(order[..i]);
    var j :| 0 <= j < i && order[..i][j] == p;
    assert order[j] == p;
  }

  // Blocks emitted so far, with all their parents.
  ghost predicate DownClosed(g: Dag, done: set<Id>) {
    forall b :: b in done ==> b in g && ParentsIn(g, g.Keys, b) <= done
  }

  // One turn: the top leaves the ready set and its released children enter.
  lemma ReadyStep(g: Dag, done: set<Id>, t: Id)
    requires Linked(g) && DownClosed(g, done) && t in Ready(g, done)
    ensures Ready(g, done + {t}) == Ready(g, done) - {t} + Released(g, g.Keys, done + {t}, t)
    ensures DownClosed(g, done + {t})
  {
    hide LinkRule;
    forall b
      ensures b in Ready(g, done + {t}) <==>
              b in Ready(g, done) - {t} + Released(g, g.Keys, done + {t}, t)
    {
      if b in g && t in Parents(g, b) {
        ParentPast(g, b, t);
        assert t in ParentsIn(g, g.Keys, b);
      }
    }
  }

  // When nothing is ready any more, everything has been emitted.
  lemma NothingReady(g: Dag, done: set<Id>)
    requires Linked(g) && DownClosed(g, done) && Ready(g, done) == {}
    ensures done == g.Keys
  {
    hide Linked, Past;
    var left := g.Keys - done;
    assert g.Keys <= done + left;
    if left != {} {
      var b := FewestAncestors(g, left);
      assert b !in Ready(g, done);
      forall p | p in ParentsIn(g, g.Keys, b)
        ensures p in done
      {
        ParentHasFewer(g, b, p);
      }
    }
  }

  // ---------------------------------------------------------------------
  // Descendants
  // ---------------------------------------------------------------------

  ghost function Future(g: Dag, b: Id): set<Id> {
    set x | x in g && b in Past(g, x)
  }

  // A set that holds the children of b and is closed under children holds every
  // descendant of b.
  lemma {:induction false} ClosedHoldsFuture(g: Dag, b: Id, s: set<Id>, x: Id)
    requires Linked(g) && ChildrenOf(g, b) <= s
    requires forall y :: y in s ==> ChildrenOf(g, y) <= s
    requires x in Future(g, b)
    ensures x in s
    decreases |Past(g, x)|
  {
    hide Linked;
    var p := Through(g, x, b);
    if p != b {
      ClosedHoldsFuture(g, b, s, p);
    }
    assert x in ChildrenOf(g, p);
  }

  lemma ChildrenAreFuture(g: Dag, b: Id, y: Id)
    requires Linked(g)
    ensures ChildrenOf(g, b) <= Future(g, b)
    ensures y in Future(g, b) ==> ChildrenOf(g, y) <= Future(g, b)
  {
    forall c | c in ChildrenOf(g, b) ensures c in Future(g, b) {
      ParentPast(g, c, b);
    }
    if y in Future(g, b) {
      forall c | c in ChildrenOf(g, y) ensures c in Future(g, b) {
        ParentPast(g, c, y);
      }
    }
  }
}
