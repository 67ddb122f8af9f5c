/**
 * Blockchain::TopologicalSort: the FIFO Kahn sort of any set of accepted blocks
 * emits each of them exactly once, parents before children.
 */
module TopologicalSorts {
  import opened Orders
  import opened Dags

  // Every entry comes after all its parents in the subset.
  ghost predicate ParentsFirst(g: Dag, subset: set<Id>, order: seq<Id>) {
    forall i :: 0 <= i < |order| ==> ParentsIn(g, subset, order[i]) <= Elems(order[..i])
  }

  // What every turn of the loop keeps: emitted and queued blocks are exactly those
  // whose parents in the subset have all been emitted.
  ghost predicate SortInvariant(g: Dag, subset: set<Id>, queue: seq<Id>, done: seq<Id>) {
    && NoDup(done + queue)
    && Elems(done + queue) <= subset
    && ParentsFirst(g, subset, done)
    && forall b :: b in subset ==>
         (ParentsIn(g, subset, b) <= Elems(done) <==> b in Elems(done + queue))
  }

  lemma SortStarts(g: Dag, subset: set<Id>)
    ensures SortInvariant(g, subset, Ascending(Sources(g, subset)), [])
  {
    var q := Ascending(Sources(g, subset));
    SortedNoDup(q);
    assert [] + q == q;
    assert Elems<Id>([]) == {};
  }

  lemma SortStep(g: Dag, subset: set<Id>, queue: seq<Id>, done: seq<Id>)
    requires SortInvariant(g, subset, queue, done) && queue != []
    ensures queue[0] in subset && queue[0] !in done
    ensures SortInvariant(g, subset, KahnQueue(g, subset, queue, done), done + [queue[0]])
  {
    hide ParentsIn, Released, ParentsFirst, Ascending, NoDup, Elems, KahnQueue;
    var cur := queue[0];
    var all := done + queue;
    var released := Released(g, subset, Elems(done + [cur]), cur);
    HeadOfQueue(queue, done);
    NextQueue(g, subset, queue, done);
    AscendingElems(released);
    StepReleased(g, subset, queue, done);
    NoDupConcat(all, Ascending(released));
    ElemsConcat(all, Ascending(released));
    StepReady(g, subset, queue, done);
    StepParentsFirst(g, subset, done, cur);
  }

  lemma HeadOfQueue(queue: seq<Id>, done: seq<Id>)
    requires queue != [] && NoDup(done + queue)
    ensures queue[0] in Elems(done + queue) && queue[0] !in done
  {
    var all := done + queue;
    assert all[|done|] == queue[0];
    assert forall i :: 0 <= i < |done| ==> all[i] == done[i];
  }

  lemma NextQueue(g: Dag, subset: set<Id>, queue: seq<Id>, done: seq<Id>)
    requires queue != []
    ensures (done + [queue[0]]) + KahnQueue(g, subset, queue, done)
         == (done + queue) + Ascending(Released(g, subset, Elems(done + [queue[0]]), queue[0]))
  {
    hide Released, Ascending, Elems;
    assert (done + [queue[0]]) + queue[1..] == done + queue;
  }

  lemma AscendingElems(s: set<nat>)
    ensures Elems(Ascending(s)) == s && NoDup(Ascending(s))
  {
    SortedNoDup(Ascending(s));
  }

  // A block that was waiting for cur is neither emitted nor queued yet.
  lemma StepReleased(g: Dag, subset: set<Id>, queue: seq<Id>, done: seq<Id>)
    requires SortInvariant(g, subset, queue, done) && queue != []
    requires queue[0] in subset && queue[0] !in done
    ensures Released(g, subset, Elems(done + [queue[0]]), queue[0]) !! Elems(done + queue)
    ensures Released(g, subset, Elems(done + [queue[0]]), queue[0]) <= subset
  {
    forall c | c in Released(g, subset, Elems(done + [queue[0]]), queue[0])
      ensures c !in Elems(done + queue)
    {
      assert queue[0] in ParentsIn(g, subset, c);
    }
  }

  lemma StepReady(g: Dag, subset: set<Id>, queue: seq<Id>, done: seq<Id>)
    requires SortInvariant(g, subset, queue, done) && queue != []
    ensures var done' := Elems(done + [queue[0]]);
      forall b :: b in subset ==>
        (ParentsIn(g, subset, b) <= done' <==>
           b in Elems(done + queue) || b in Released(g, subset, done', queue[0]))
  {
    var cur := queue[0];
    ElemsConcat(done, [cur]);
    assert Elems([cur]) == {cur};
    forall b | b in subset
      ensures ParentsIn(g, subset, b) <= Elems(done + [cur]) <==>
              b in Elems(done + queue) || b in Released(g, subset, Elems(done + [cur]), cur)
    {
      if ParentsIn(g, subset, b) <= Elems(done + [cur]) && cur !in ParentsIn(g, subset, b) {
        assert ParentsIn(g, subset, b) <= Elems(done);
      }
    }
  }

  lemma StepParentsFirst(g: Dag, subset: set<Id>, done: seq<Id>, cur: Id)
    requires ParentsFirst(g, subset, done)
    requires ParentsIn(g, subset, cur) <= Elems(done)
    ensures ParentsFirst(g, subset, done + [cur])
  {
    var done' := done + [cur];
    forall i | 0 <= i < |done'|
      ensures ParentsIn(g, subset, done'[i]) <= Elems(done'[..i])
    {
      if i < |done| {
        assert done'[..i] == done[..i];
      } else {
        assert done'[..i] == done;
      }
    }
  }

  // A missing block with fewest ancestors would have been queued.
  lemma NothingLeft(g: Dag, subset: set<Id>, done: seq<Id>)
    requires Linked(g) && subset <= g.Keys && SortInvariant(g, subset, [], done)
    ensures Elems(done) == subset
  {
    hide Linked, Past;
    assert done + [] == done;
    var left := subset - Elems(done);
    assert subset <= Elems(done) + left;
    if left != {} {
      var b := FewestAncestors(g, left);
      forall p | p in ParentsIn(g, subset, b)
        ensures p in Elems(done)
      {
        ParentHasFewer(g, b, p);
      }
    }
  }

  lemma ParentHasFewer(g: Dag, b: Id, p: Id)
    requires Linked(g) && b in g && p in Parents(g, b)
    ensures |Past(g, p)| < |Past(g, b)|
  {
    ParentPast(g, b, p);
  }

  lemma {:induction false} FewestAncestors(g: Dag, s: set<Id>) returns (b: Id)
    requires s != {}
    ensures b in s && forall x :: x in s ==> |Past(g, b)| <= |Past(g, x)|
    decreases s
  {
    var first :| first in s;
    b := first;
    if s != {first} {
      var c := FewestAncestors(g, s - {first});
      assert forall x :: x in s ==> x == first || x in s - {first};
      if |Past(g, c)| < |Past(g, first)| {
        b := c;
      }
    }
  }

  lemma {:induction false} SortFrom(g: Dag, subset: set<Id>, queue: seq<Id>, done: seq<Id>)
    requires Linked(g) && subset <= g.Keys && SortInvariant(g, subset, queue, done)
    ensures var order := KahnFrom(g, subset, queue, done);
      NoDup(order) && Elems(order) == subset && ParentsFirst(g, subset, order)
    decreases subset - Elems(done)
  {
    hide SortInvariant, Linked;
    if queue == [] {
      NothingLeft(g, subset, done);
      InvariantGives(g, subset, done);
    } else {
      SortStep(g, subset, queue, done);
      var done' := done + [queue[0]];
      ElemsConcat(done, [queue[0]]);
      assert queue[0] in Elems([queue[0]]);
      SortFrom(g, subset, KahnQueue(g, subset, queue, done), done');
    }
  }

  lemma InvariantGives(g: Dag, subset: set<Id>, done: seq<Id>)
    requires SortInvariant(g, subset, [], done)
    ensures NoDup(done) && ParentsFirst(g, subset, done)
  {
    assert done + [] == done;
  }

  lemma KahnSorts(g: Dag, subset: set<Id>)
    requires Linked(g) && subset <= g.Keys
    ensures NoDup(Kahn(g, subset)) && Elems(Kahn(g, subset)) == subset
    ensures ParentsFirst(g, subset, Kahn(g, subset))
  {
    SortStarts(g, subset);
    SortFrom(g, subset, Ascending(Sources(g, subset)), []);
  }

  // ---------------------------------------------------------------------
  // The order itself
  // ---------------------------------------------------------------------

  // The greatest position of a parent of b, -1 if there is none.
  ghost function LastParent(g: Dag, order: seq<Id>, b: Id): (p: int)
    ensures -1 <= p < |order|
    ensures p >= 0 ==> order[p] in Parents(g, b)
    ensures forall q :: p < q < |order| ==> order[q] !in Parents(g, b)
  {
    var n := |order| - 1;
    if order == [] then -1 else if order[n] in Parents(g, b) then n else LastParent(g, order[..n], b)
  }

  lemma LastParentIs(g: Dag, order: seq<Id>, b: Id, p: int)
    requires -1 <= p < |order| && (p >= 0 ==> order[p] in Parents(g, b))
    requires forall q :: p < q < |order| ==> order[q] !in Parents(g, b)
    ensures LastParent(g, order, b) == p
  {
  }

  lemma LastParentStep(g: Dag, done: seq<Id>, cur: Id, x: Id)
    ensures LastParent(g, done + [cur], x) == if cur in Parents(g, x) then |done| else LastParent(g, done, x)
  {
    var done' := done + [cur];
    if cur in Parents(g, x) {
      assert done'[|done|] == cur;
      LastParentIs(g, done', x, |done|);
    } else {
      LastParentIs(g, done', x, LastParent(g, done, x));
    }
  }

  // By the last parent, then by id.
  ghost predicate Earlier(g: Dag, done: seq<Id>, x: Id, y: Id) {
    LastParent(g, done, x) < LastParent(g, done, y) || (LastParent(g, done, x) == LastParent(g, done, y) && x < y)
  }

  ghost predicate ByLastParent(g: Dag, done: seq<Id>, all: seq<Id>) {
    forall i, j :: 0 <= i < j < |all| ==> Earlier(g, done, all[i], all[j])
  }

  lemma OrderStarts(g: Dag, subset: set<Id>)
    ensures ByLastParent(g, [], [] + Ascending(Sources(g, subset)))
  {
    hide Sources;
  }

  // Whoever is emitted or queued has all its parents emitted; whoever is released has the
  // emitted block as its last.
  lemma OrderStep(g: Dag, subset: set<Id>, queue: seq<Id>, done: seq<Id>)
    requires SortInvariant(g, subset, queue, done) && queue != []
    requires ByLastParent(g, done, done + queue)
    ensures ByLastParent(g, done + [queue[0]], (done + [queue[0]]) + KahnQueue(g, subset, queue, done))
  {
    hide KahnQueue, LastParent, SortInvariant, Released, Parents, Elems, Ascending;
    var cur, all := queue[0], done + queue;
    var more := Ascending(Released(g, subset, Elems(done + [cur]), cur));
    NextQueue(g, subset, queue, done);
    forall i, j | 0 <= i < j < |all + more|
      ensures Earlier(g, done + [cur], (all + more)[i], (all + more)[j])
    {
      var x, y := (all + more)[i], (all + more)[j];
      LastParentStep(g, done, cur, x);
      LastParentStep(g, done, cur, y);
      if i < |all| {
        QueuedHasParents(g, subset, queue, done, i);
      } else {
        ReleasedByCur(g, subset, queue, done, i - |all|);
      }
      if j < |all| {
        QueuedHasParents(g, subset, queue, done, j);
        assert Earlier(g, done, all[i], all[j]);
      } else {
        ReleasedByCur(g, subset, queue, done, j - |all|);
      }
    }
  }

  lemma QueuedHasParents(g: Dag, subset: set<Id>, queue: seq<Id>, done: seq<Id>, i: nat)
    requires SortInvariant(g, subset, queue, done) && queue != [] && i < |done + queue|
    ensures queue[0] !in Parents(g, (done + queue)[i])
  {
    hide ParentsFirst;
    var x, cur := (done + queue)[i], queue[0];
    HeadOfQueue(queue, done);
    assert x in Elems(done + queue);
    assert cur in subset && cur !in Elems(done);
    assert cur in Parents(g, x) ==> cur in ParentsIn(g, subset, x);
  }

  lemma ReleasedByCur(g: Dag, subset: set<Id>, queue: seq<Id>, done: seq<Id>, i: nat)
    requires queue != []
    requires i < |Ascending(Released(g, subset, Elems(done + [queue[0]]), queue[0]))|
    ensures var more := Ascending(Released(g, subset, Elems(done + [queue[0]]), queue[0]));
      queue[0] in Parents(g, more[i]) && Sorted(more)
  {
    hide Elems;
    var released := Released(g, subset, Elems(done + [queue[0]]), queue[0]);
    InAscending(released, i);
  }

  lemma InAscending(s: set<nat>, i: nat)
    requires i < |Ascending(s)|
    ensures Ascending(s)[i] in s
  {
    assert Ascending(s)[i] in Elems(Ascending(s));
  }

  lemma {:induction false} OrderFrom(g: Dag, subset: set<Id>, queue: seq<Id>, done: seq<Id>)
    requires Linked(g) && subset <= g.Keys && SortInvariant(g, subset, queue, done)
    requires ByLastParent(g, done, done + queue)
    ensures var order := KahnFrom(g, subset, queue, done); ByLastParent(g, order, order)
    decreases subset - Elems(done)
  {
    hide SortInvariant, Linked, ByLastParent;
    if queue == [] {
      assert done + [] == done;
    } else {
      SortStep(g, subset, queue, done);
      OrderStep(g, subset, queue, done);
      var done' := done + [queue[0]];
      ElemsConcat(done, [queue[0]]);
      assert queue[0] in Elems([queue[0]]);
      OrderFrom(g, subset, KahnQueue(g, subset, queue, done), done');
    }
  }

  // Blocks come in the order of their last parent's position, parentless ones first, and
  // in ascending id order where that is the same.
  lemma KahnOrder(g: Dag, subset: set<Id>)
    requires Linked(g) && subset <= g.Keys
    ensures var order := Kahn(g, subset);
      forall i, j :: 0 <= i < j < |order| ==>
        || LastParent(g, order, order[i]) < LastParent(g, order, order[j])
        || (LastParent(g, order, order[i]) == LastParent(g, order, order[j]) && order[i] < order[j])
    ensures var order := Kahn(g, subset);
      forall i :: 0 <= i < |order| ==> LastParent(g, order, order[i]) < i
  {
    hide SortInvariant, Linked, LastParent;
    KahnSorts(g, subset);
    LastBefore(g, subset, Kahn(g, subset));
    SortStarts(g, subset);
    OrderStarts(g, subset);
    OrderFrom(g, subset, Ascending(Sources(g, subset)), []);
  }

  lemma LastBefore(g: Dag, subset: set<Id>, order: seq<Id>)
    requires NoDup(order) && Elems(order) == subset && ParentsFirst(g, subset, order)
    ensures forall i :: 0 <= i < |order| ==> LastParent(g, order, order[i]) < i
  {
    hide LastParent;
    forall i | 0 <= i < |order|
      ensures LastParent(g, order, order[i]) < i
    {
      ParentsWithinPrefix(g, subset, order, order, i);
    }
  }

  // There is only one such order of a set.
  lemma {:induction false} OrderPrefix(g: Dag, subset: set<Id>, a: seq<Id>, b: seq<Id>, n: nat)
    requires NoDup(a) && NoDup(b) && Elems(a) == Elems(b) == subset
    requires ParentsFirst(g, subset, a) && ParentsFirst(g, subset, b)
    requires ByLastParent(g, a, a) && ByLastParent(g, b, b) && n <= |a| && n <= |b|
    ensures a[..n] == b[..n]
  {
    hide NoDup, ParentsFirst, ByLastParent, Earlier;
    if n > 0 {
      OrderPrefix(g, subset, a, b, n - 1);
      if a[n - 1] != b[n - 1] {
        var m := StandsLater(a, b, n - 1);
        var l := StandsLater(b, a, n - 1);
        SameLastParent(g, subset, a, b, n - 1, m);
        SameLastParent(g, subset, b, a, n - 1, l);
        EarlierAt(g, a, n - 1, l);
        Antisymmetric(g, a, b, a[n - 1], b[n - 1]);
        EarlierAt(g, b, n - 1, m);
      }
      assert a[..n] == a[..n - 1] + [a[n - 1]] && b[..n] == b[..n - 1] + [b[n - 1]];
    }
  }

  lemma StandsLater(a: seq<Id>, b: seq<Id>, n: nat) returns (m: nat)
    requires NoDup(a) && Elems(a) == Elems(b) && n < |a| && n < |b| && a[..n] == b[..n] && a[n] != b[n]
    ensures n < m < |b| && b[m] == a[n]
  {
    assert a[n] in Elems(b);
    forall i | 0 <= i < n
      ensures b[i] != a[n]
    {
      assert b[i] == b[..n][i] == a[..n][i] == a[i];
    }
    m :| 0 <= m < |b| && b[m] == a[n];
  }

  // The parents of a block stand in the common prefix, at the same places.
  lemma SameLastParent(g: Dag, subset: set<Id>, a: seq<Id>, b: seq<Id>, n: nat, m: nat)
    requires NoDup(a) && NoDup(b) && Elems(a) == Elems(b) == subset
    requires ParentsFirst(g, subset, a) && n < |a| && n < m < |b| && a[..n] == b[..n] && b[m] == a[n]
    ensures LastParent(g, a, a[n]) == LastParent(g, b, a[n])
  {
    hide LastParent;
    var x, p := a[n], LastParent(g, a, a[n]);
    ParentsWithinPrefix(g, subset, a, a, n);
    ParentsWithinPrefix(g, subset, a, b, n);
    assert p >= 0 ==> a[p] == a[..n][p] == b[..n][p] == b[p];
    forall q | p < q < |b|
      ensures b[q] !in Parents(g, x)
    {
      assert q < n ==> b[q] == b[..n][q] == a[..n][q] == a[q];
    }
    LastParentIs(g, b, x, p);
  }

  lemma ParentsWithinPrefix(g: Dag, subset: set<Id>, a: seq<Id>, b: seq<Id>, n: nat)
    requires NoDup(b) && Elems(b) == subset && n < |a| && n <= |b| && a[..n] == b[..n]
    requires ParentsFirst(g, subset, a)
    ensures forall q :: 0 <= q < |b| && b[q] in Parents(g, a[n]) ==> q < n
  {
    forall q | 0 <= q < |b| && b[q] in Parents(g, a[n])
      ensures q < n
    {
      assert b[q] in Elems(b);
      assert b[q] in ParentsIn(g, subset, a[n]);
      assert b[q] in Elems(a[..n]);
      var i :| 0 <= i < n && b[..n][i] == b[q];
      assert b[i] == b[q];
    }
  }

  lemma EarlierAt(g: Dag, a: seq<Id>, i: nat, j: nat)
    requires ByLastParent(g, a, a) && i < j < |a|
    ensures Earlier(g, a, a[i], a[j])
  {
  }

  lemma Antisymmetric(g: Dag, a: seq<Id>, b: seq<Id>, x: Id, y: Id)
    requires Earlier(g, a, x, y)
    requires LastParent(g, a, x) == LastParent(g, b, x) && LastParent(g, a, y) == LastParent(g, b, y)
    ensures !Earlier(g, b, y, x)
  {
    hide LastParent;
  }

  lemma SortOrderIsUnique(g: Dag, subset: set<Id>, a: seq<Id>, b: seq<Id>)
    requires NoDup(a) && NoDup(b) && Elems(a) == Elems(b) == subset
    requires ParentsFirst(g, subset, a) && ParentsFirst(g, subset, b)
    requires ByLastParent(g, a, a) && ByLastParent(g, b, b)
    ensures a == b
  {
    NoDupCard(a);
    NoDupCard(b);
    OrderPrefix(g, subset, a, b, |a|);
    assert a[..|a|] == a && b[..|b|] == b;
  }

  // A subset that contains, with two blocks, everything between them.
  ghost predicate Convex(g: Dag, subset: set<Id>) {
    forall x, y, z :: x in subset && z in subset && x in Past(g, y) && y in Past(g, z) ==> y in subset
  }

  // In a convex subset, ancestors precede their descendants in the order.
  lemma {:induction false} AncestorsFirst(g: Dag, subset: set<Id>, order: seq<Id>, x: Id, i: nat)
    requires Linked(g) && subset <= g.Keys && Convex(g, subset)
    requires Elems(order) == subset && ParentsFirst(g, subset, order)
    requires i < |order| && x in subset && x in Past(g, order[i])
    ensures x in order[..i]
    decreases i
  {
    hide Linked;
    assert order[i] in Elems(order);
    var p := Through(g, order[i], x);
    ParentPast(g, order[i], p);
    assert p in subset;
    assert p in ParentsIn(g, subset, order[i]);
    assert p in order[..i];
    if x != p {
      var j :| 0 <= j < i && order[..i][j] == p;
      AncestorsFirst(g, subset, order, x, j);
      assert order[..j] == order[..i][..j];
    }
  }
}
