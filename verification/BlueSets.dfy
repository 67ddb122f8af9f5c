/**
 * What the greedy pass of GreedyBlueSet guarantees: scores, width of blue sets,
 * the case k = 0, and exactly when a blue set is a k-cluster.
 */
module BlueSets {
  import opened Orders
  import opened Dags
  import opened TopologicalSorts

  // ---------------------------------------------------------------------
  // The pass over an ordered merge set
  // ---------------------------------------------------------------------

  lemma {:induction false} GreedyBounds(g: Dag, k: nat, blue: set<Id>, order: seq<Id>)
    ensures blue <= Greedy(g, k, blue, order) <= blue + Elems(order)
    decreases |order|
  {
    if order != [] {
      GreedyBounds(g, k, GreedyStep(g, k, blue, order[0]), order[1..]);
      assert order[0] in Elems(order);
      assert Elems(order[1..]) <= Elems(order);
    }
  }

  lemma {:induction false} GreedyConcat(g: Dag, k: nat, blue: set<Id>, xs: seq<Id>, ys: seq<Id>)
    ensures Greedy(g, k, blue, xs + ys) == Greedy(g, k, Greedy(g, k, blue, xs), ys)
    decreases |xs|
  {
    if xs == [] {
      assert xs + ys == ys;
    } else {
      assert (xs + ys)[0] == xs[0] && (xs + ys)[1..] == xs[1..] + ys;
      GreedyConcat(g, k, GreedyStep(g, k, blue, xs[0]), xs[1..], ys);
    }
  }

  // No candidate is blue already or an ancestor of a blue or of an earlier candidate.
  ghost predicate Ahead(g: Dag, blue: set<Id>, order: seq<Id>) {
    && NoDup(order)
    && (forall b, c :: b in blue && c in order ==> c != b && c !in Past(g, b))
    && (forall i, j :: 0 <= i < j < |order| ==> order[j] !in Past(g, order[i]))
  }

  lemma AheadTail(g: Dag, k: nat, blue: set<Id>, order: seq<Id>)
    requires order != [] && Ahead(g, blue, order)
    ensures Ahead(g, GreedyStep(g, k, blue, order[0]), order[1..])
  {
    var rest := order[1..];
    var blue' := GreedyStep(g, k, blue, order[0]);
    forall b, c | b in blue' && c in rest
      ensures c != b && c !in Past(g, b)
    {
      var j :| 0 <= j < |rest| && rest[j] == c;
      assert order[j + 1] == c && c in order;
    }
    forall i, j | 0 <= i < j < |rest|
      ensures rest[j] !in Past(g, rest[i])
    {
      assert rest[i] == order[i + 1] && rest[j] == order[j + 1];
    }
  }

  // The test "C in past(b)" never excludes a blue.
  lemma AnticoneIsUncappedCount(g: Dag, blue: set<Id>, order: seq<Id>)
    requires order != [] && Ahead(g, blue, order)
    ensures BlueAnticone(g, blue, order[0]) == blue - Past(g, order[0])
    ensures forall b :: b in BlueAnticone(g, blue, order[0]) ==> Incomparable(g, b, order[0])
    ensures order[0] !in blue
  {
    assert order[0] in order;
  }

  // ---------------------------------------------------------------------
  // Blue sets and scores
  // ---------------------------------------------------------------------

  lemma MergeSetSorted(g: Dag, b: Id, sp: Id)
    requires Linked(g) && b in g && sp in g
    ensures var m := MergeSet(g, g[b].past, sp);
      m <= g[b].past && m <= g.Keys && Elems(Kahn(g, m)) == m && NoDup(Kahn(g, m))
      && ParentsFirst(g, m, Kahn(g, m))
  {
    PastInDag(g, b);
    KahnSorts(g, MergeSet(g, g[b].past, sp));
  }

  lemma MergeSetConvex(g: Dag, b: Id, sp: Id)
    requires Linked(g) && b in g && sp in g
    ensures Convex(g, MergeSet(g, g[b].past, sp))
  {
    hide Linked;
    var m := MergeSet(g, g[b].past, sp);
    forall x, y, z | x in m && z in m && x in Past(g, y) && y in Past(g, z)
      ensures y in m
    {
      PastTransitive(g, b, z);
      if y == sp || y in Past(g, sp) {
        PastTransitive(g, sp, y);
      }
    }
  }

  // Everything blue for b is an ancestor of b, or b itself.
  lemma {:induction false} BlueWithinPast(g: Dag, k: nat, b: Id)
    requires Valid(g, k) && b in g
    ensures b in g[b].blue && g[b].blue <= g[b].past + {b}
    ensures g[b].selected.Some? ==>
              var sp := g[b].selected.value;
              sp in Parents(g, b) && sp in g && sp in g[b].past && Blue(g, sp) <= g[b].past
    decreases |g[b].past|
  {
    hide Greedy, Kahn;
    assert ColourRule(g, k, b) && LinkRule(g, b);
    if Parents(g, b) != [] {
      var sp := g[b].selected.value;
      assert sp in Elems(Parents(g, b));
      ParentPast(g, b, sp);
      BlueWithinPast(g, k, sp);
      var m := MergeSet(g, g[b].past, sp);
      MergeSetSorted(g, b, sp);
      GreedyBounds(g, k, Blue(g, sp), Kahn(g, m));
    }
  }

  lemma ScoreIsBlueCount(g: Dag, k: nat, b: Id)
    requires Valid(g, k) && b in g
    ensures g[b].score == |g[b].blue|
  {
    hide BlueInPast, IsBest, LinkRule;
    BlueWithinPast(g, k, b);
    PastInDag(g, b);
    assert ColourRule(g, k, b);
    assert g[b].blue == (g[b].past * g[b].blue) + {b};
  }

  // The selected parent's blue set is inherited, and b itself is new in it.
  lemma InheritsBlue(g: Dag, k: nat, b: Id)
    requires Valid(g, k) && b in g && g[b].selected.Some?
    ensures g[b].selected.value in g
    ensures Blue(g, g[b].selected.value) <= g[b].blue
    ensures b !in Blue(g, g[b].selected.value)
  {
    hide Kahn, Greedy, LinkRule, IsBest;
    assert ColourRule(g, k, b);
    BlueWithinPast(g, k, b);
    PastInDag(g, b);
    var sp := g[b].selected.value;
    GreedyBounds(g, k, Blue(g, sp), Kahn(g, MergeSet(g, g[b].past, sp)));
  }

  lemma SelectedIsBest(g: Dag, k: nat, b: Id, p: Id)
    requires Valid(g, k) && b in g && p in Parents(g, b)
    ensures g[b].selected.Some? && g[b].selected.value in Parents(g, b)
    ensures Score(g, p) <= Score(g, g[b].selected.value)
  {
    hide LinkRule, BlueInPast;
    assert ColourRule(g, k, b);
    assert p in Elems(Parents(g, b));
  }

  lemma ParentScoresLess(g: Dag, k: nat, b: Id, p: Id)
    requires Valid(g, k) && b in g && p in Parents(g, b)
    ensures p in g && g[p].score < g[b].score
    ensures g[b].selected.Some? && g[b].selected.value in g
    ensures g[p].score <= g[g[b].selected.value].score
  {
    hide LinkRule, ColourRule;
    SelectedIsBest(g, k, b, p);
    InheritsBlue(g, k, b);
    var sp := g[b].selected.value;
    ParentPast(g, b, p);
    ScoreIsBlueCount(g, k, b);
    ScoreIsBlueCount(g, k, sp);
    BlueWithinPast(g, k, b);
    SubsetCard(g[sp].blue, g[b].blue);
  }

  // The blue score strictly increases along every ancestor relation.
  lemma {:induction false} AncestorScoresLess(g: Dag, k: nat, b: Id, x: Id)
    requires Valid(g, k) && b in g && x in g[b].past
    ensures x in g && g[x].score < g[b].score
    decreases |g[b].past|
  {
    hide ColourRule, LinkRule;
    var p := Through(g, b, x);
    ParentScoresLess(g, k, b, p);
    if x != p {
      AncestorScoresLess(g, k, p, x);
    }
  }

  // No ancestor of b scores higher than its selected parent.
  lemma SelectedParentScoresHighest(g: Dag, k: nat, b: Id, x: Id)
    requires Valid(g, k) && b in g && x in g[b].past
    ensures x in g && g[b].selected.Some? && g[b].selected.value in g
    ensures g[x].score <= g[g[b].selected.value].score
  {
    hide ColourRule, LinkRule;
    var p := Through(g, b, x);
    ParentScoresLess(g, k, b, p);
    if x != p {
      AncestorScoresLess(g, k, p, x);
    }
  }

  // Every member of the merge set is incomparable to the selected parent.
  lemma MergeSetIncomparable(g: Dag, k: nat, b: Id, c: Id)
    requires Valid(g, k) && b in g && g[b].selected.Some?
    requires c in MergeSet(g, g[b].past, g[b].selected.value)
    ensures Incomparable(g, c, g[b].selected.value)
  {
    hide ColourRule, LinkRule;
    var sp := g[b].selected.value;
    SelectedParentScoresHighest(g, k, b, c);
    if sp in Past(g, c) {
      AncestorScoresLess(g, k, c, sp);
    }
  }

  // The order the candidates arrive in, and why the pass never meets a blue
  // descendant of its candidate.
  lemma CandidatesAhead(g: Dag, k: nat, b: Id)
    requires Valid(g, k) && b in g && g[b].selected.Some?
    ensures var sp := g[b].selected.value;
      sp in g && Ahead(g, Blue(g, sp), Kahn(g, MergeSet(g, g[b].past, sp)))
  {
    hide Kahn, ColourRule, LinkRule;
    BlueWithinPast(g, k, b);
    var sp := g[b].selected.value;
    BlueWithinPast(g, k, sp);
    var m := MergeSet(g, g[b].past, sp);
    var order := Kahn(g, m);
    MergeSetSorted(g, b, sp);
    MergeSetConvex(g, b, sp);
    forall x, c | x in Blue(g, sp) && c in order
      ensures c != x && c !in Past(g, x)
    {
      assert c in Elems(order);
      if x != sp {
        PastClosed(g, sp, x);
      }
    }
    forall i, j | 0 <= i < j < |order|
      ensures order[j] !in Past(g, order[i])
    {
      assert order[j] in Elems(order);
      if order[j] in Past(g, order[i]) {
        AncestorsFirst(g, m, order, order[j], i);
      }
    }
  }

  lemma {:induction false} AheadPrefix(g: Dag, k: nat, blue: set<Id>, order: seq<Id>, i: nat)
    requires Ahead(g, blue, order) && i <= |order|
    ensures Ahead(g, Greedy(g, k, blue, order[..i]), order[i..])
    decreases i
  {
    if i == 0 {
      assert order[..0] == [] && order[0..] == order;
    } else {
      AheadTail(g, k, blue, order);
      AheadPrefix(g, k, GreedyStep(g, k, blue, order[0]), order[1..], i - 1);
      assert order[..i][0] == order[0] && order[..i][1..] == order[1..][..i - 1];
      assert order[1..][i - 1..] == order[i..];
    }
  }

  lemma {:induction false} GreedyDecides(g: Dag, k: nat, blue: set<Id>, order: seq<Id>, i: nat)
    requires Ahead(g, blue, order) && i < |order|
    ensures var sofar := Greedy(g, k, blue, order[..i]);
      order[i] in Greedy(g, k, blue, order) <==> |sofar - Past(g, order[i])| <= k
  {
    var sofar := Greedy(g, k, blue, order[..i]);
    assert order == order[..i] + order[i..];
    GreedyConcat(g, k, blue, order[..i], order[i..]);
    AheadPrefix(g, k, blue, order, i);
    AnticoneIsUncappedCount(g, sofar, order[i..]);
    var next := GreedyStep(g, k, sofar, order[i]);
    assert order[i..][0] == order[i] && order[i..][1..] == order[i + 1..];
    GreedyBounds(g, k, next, order[i + 1..]);
  }

  // The greedy pass: it meets every merge-set member once, after all its ancestors
  // in the merge set, and admits it exactly when at most k of the blues so far are
  // not its ancestors.
  lemma GreedyPass(g: Dag, k: nat, b: Id, i: nat)
    requires Valid(g, k) && b in g && g[b].selected.Some?
    requires i < |Kahn(g, MergeSet(g, g[b].past, g[b].selected.value))|
    ensures var sp := g[b].selected.value;
      var m := MergeSet(g, g[b].past, sp);
      var order := Kahn(g, m);
      var sofar := Greedy(g, k, Blue(g, sp), order[..i]);
      && NoDup(order) && Elems(order) == m
      && m * Past(g, order[i]) <= Elems(order[..i])
      && (order[i] in g[b].blue <==> |sofar - Past(g, order[i])| <= k)
  {
    hide Kahn, Greedy, LinkRule, IsBest;
    assert ColourRule(g, k, b);
    BlueWithinPast(g, k, b);
    var sp := g[b].selected.value;
    var m := MergeSet(g, g[b].past, sp);
    var order := Kahn(g, m);
    MergeSetSorted(g, b, sp);
    MergeSetConvex(g, b, sp);
    CandidatesAhead(g, k, b);
    GreedyDecides(g, k, Blue(g, sp), order, i);
    assert order[i] in Elems(order);
    forall x | x in m * Past(g, order[i])
      ensures x in order[..i]
    {
      AncestorsFirst(g, m, order, x, i);
    }
    PastInDag(g, b);
  }

  // What the pass has admitted so far is what it admits in the end, of those it has met.
  lemma GreedyPrefixIs(g: Dag, k: nat, blue: set<Id>, order: seq<Id>, i: nat)
    requires Ahead(g, blue, order) && i <= |order|
    ensures Greedy(g, k, blue, order[..i]) == blue + (Greedy(g, k, blue, order) * Elems(order[..i]))
  {
    hide Greedy;
    assert order == order[..i] + order[i..];
    GreedyConcat(g, k, blue, order[..i], order[i..]);
    GreedyBounds(g, k, blue, order[..i]);
    GreedyBounds(g, k, Greedy(g, k, blue, order[..i]), order[i..]);
    forall x | x in Elems(order[..i])
      ensures x !in Elems(order[i..])
    {
      var m :| 0 <= m < i && order[..i][m] == x;
      assert forall n :: 0 <= n < |order| - i ==> order[i..][n] == order[i + n];
    }
  }

  // The selected parent and the whole blue set, stated by positions and counts alone: the
  // ancestors that are neither the selected parent's nor itself come in the order of their
  // last parent among them, then of their ids; each is blue exactly when at most k of the
  // blues before it are not its ancestors; nothing else is added but the block.
  lemma BlueSetDirect(g: Dag, k: nat, b: Id) returns (sp: Id, order: seq<Id>)
    requires Valid(g, k) && b in g && Parents(g, b) != []
    ensures g[b].selected == Some(sp) && sp in Parents(g, b) && sp in g
    ensures forall p :: p in Parents(g, b) ==> Score(g, p) < Score(g, sp) || (Score(g, p) == Score(g, sp) && sp <= p)
    ensures NoDup(order) && Elems(order) == Past(g, b) - Past(g, sp) - {sp}
    ensures forall i, j :: 0 <= i < j < |order| ==>
              || LastParent(g, order, order[i]) < LastParent(g, order, order[j])
              || (LastParent(g, order, order[i]) == LastParent(g, order, order[j]) && order[i] < order[j])
    ensures forall i, x :: 0 <= i < |order| && x in order && x in Past(g, order[i]) ==> x in order[..i]
    ensures forall i :: 0 <= i < |order| ==>
              (order[i] in Blue(g, b) <==>
               |(Blue(g, sp) + (Blue(g, b) * Elems(order[..i]))) - Past(g, order[i])| <= k)
    ensures Blue(g, b) - Elems(order) == Blue(g, sp) + {b}
  {
    hide *;
    sp := SelectedDirect(g, k, b);
    order := MergeOrder(g, k, b, sp);
    forall i | 0 <= i < |order|
      ensures order[i] in Blue(g, b) <==>
              |(Blue(g, sp) + (Blue(g, b) * Elems(order[..i]))) - Past(g, order[i])| <= k
    {
      Decided(g, k, b, sp, order, i);
    }
    BlueApart(g, k, b, sp, order);
  }

  lemma SelectedDirect(g: Dag, k: nat, b: Id) returns (sp: Id)
    requires Valid(g, k) && b in g && Parents(g, b) != []
    ensures g[b].selected == Some(sp) && sp in Parents(g, b) && sp in g
    ensures forall p :: p in Parents(g, b) ==> Score(g, p) < Score(g, sp) || (Score(g, p) == Score(g, sp) && sp <= p)
  {
    assert ColourRule(g, k, b) && LinkRule(g, b);
    sp := g[b].selected.value;
    assert forall p :: p in Parents(g, b) ==> p in Elems(Parents(g, b));
  }

  // The merge set in the order in which the pass meets it.
  lemma MergeOrder(g: Dag, k: nat, b: Id, sp: Id) returns (order: seq<Id>)
    requires Valid(g, k) && b in g && Parents(g, b) != [] && g[b].selected == Some(sp) && sp in g
    ensures NoDup(order) && Elems(order) == Past(g, b) - Past(g, sp) - {sp}
    ensures forall i, j :: 0 <= i < j < |order| ==>
              || LastParent(g, order, order[i]) < LastParent(g, order, order[j])
              || (LastParent(g, order, order[i]) == LastParent(g, order, order[j]) && order[i] < order[j])
    ensures forall i, x :: 0 <= i < |order| && x in order && x in Past(g, order[i]) ==> x in order[..i]
    ensures Ahead(g, Blue(g, sp), order) && b !in order
    ensures Blue(g, b) == Greedy(g, k, Blue(g, sp), order) + {b}
  {
    hide Kahn, Greedy, LastParent;
    assert ColourRule(g, k, b) && LinkRule(g, b);
    BlueWithinPast(g, k, b);
    var m := MergeSet(g, g[b].past, sp);
    order := Kahn(g, m);
    MergeSetSorted(g, b, sp);
    MergeSetConvex(g, b, sp);
    CandidatesAhead(g, k, b);
    KahnOrder(g, m);
    assert forall x :: x in order <==> x in Elems(order);
    forall i, x | 0 <= i < |order| && x in order && x in Past(g, order[i])
      ensures x in order[..i]
    {
      AncestorsFirst(g, m, order, x, i);
    }
  }

  lemma BlueApart(g: Dag, k: nat, b: Id, sp: Id, order: seq<Id>)
    requires Ahead(g, Blue(g, sp), order) && b !in order
    requires Blue(g, b) == Greedy(g, k, Blue(g, sp), order) + {b}
    ensures Blue(g, b) - Elems(order) == Blue(g, sp) + {b}
  {
    hide Greedy;
    GreedyBounds(g, k, Blue(g, sp), order);
    assert forall x :: x in Elems(order) <==> x in order;
  }

  lemma Decided(g: Dag, k: nat, b: Id, sp: Id, order: seq<Id>, i: nat)
    requires Ahead(g, Blue(g, sp), order) && b !in order && i < |order|
    requires Blue(g, b) == Greedy(g, k, Blue(g, sp), order) + {b}
    ensures order[i] in Blue(g, b) <==>
            |(Blue(g, sp) + (Blue(g, b) * Elems(order[..i]))) - Past(g, order[i])| <= k
  {
    hide Greedy, Past, Blue, Ahead;
    GreedyDecides(g, k, Blue(g, sp), order, i);
    GreedyPrefixIs(g, k, Blue(g, sp), order, i);
    assert order[i] in order;
    assert b !in Elems(order[..i]);
    assert Blue(g, b) * Elems(order[..i]) == Greedy(g, k, Blue(g, sp), order) * Elems(order[..i]);
  }

  // ---------------------------------------------------------------------
  // An example
  // ---------------------------------------------------------------------

  lemma BlueOfRoot(g: Dag, k: nat, b: Id)
    requires Valid(g, k) && b in g && Parents(g, b) == []
    ensures Blue(g, b) == {b} && Past(g, b) == {} && Score(g, b) == 1
  {
    assert ColourRule(g, k, b) && LinkRule(g, b);
    assert g[b].past == {};
  }

  lemma BlueOfChild(g: Dag, k: nat, root: Id, b: Id)
    requires Valid(g, k) && b in g && root in g && Parents(g, root) == [] && Parents(g, b) == [root]
    ensures Blue(g, b) == {root, b} && Past(g, b) == {root} && Score(g, b) == 2
  {
    hide Valid;
    PastOfChild(g, k, root, b);
    BlueOfRoot(g, k, root);
    var sp, order := BlueSetDirect(g, k, b);
    assert sp == root;
    NoDupCard(order);
    ScoreIsBlueCount(g, k, b);
    assert Blue(g, b) == {root, b};
    assert |{root, b}| == 2;
  }

  lemma PastOfChild(g: Dag, k: nat, root: Id, b: Id)
    requires Valid(g, k) && b in g && root in g && Parents(g, root) == [] && Parents(g, b) == [root]
    ensures Past(g, b) == {root} && b != root
  {
    BlueOfRoot(g, k, root);
    assert LinkRule(g, b);
    var ps := [root];
    assert ps[0] == root;
    forall x
      ensures x in PastOf(g, ps) <==> x == root
    {
      assert x in PastOf(g, ps) <==> x in Past(g, root) + {root};
    }
  }

  // Blocks 1, 2 and 3 on genesis, and 4 on all three, with k = 1: the tie of 1, 2 and 3
  // goes to 1, and of 2 and 3 the pass meets 2 first.
  lemma MergeOfThree(g: Dag)
    requires Valid(g, 1) && {0, 1, 2, 3, 4} <= g.Keys
    requires Parents(g, 0) == [] && Parents(g, 1) == [0] && Parents(g, 2) == [0] && Parents(g, 3) == [0]
    requires Parents(g, 4) == [1, 2, 3]
    ensures g[4].selected == Some(1) && Blue(g, 4) == {0, 1, 2, 4} && Score(g, 4) == 4
  {
    hide *;
    BlueOfChild(g, 1, 0, 1);
    BlueOfChild(g, 1, 0, 2);
    BlueOfChild(g, 1, 0, 3);
    PastOfThree(g);
    var sp, order := BlueSetDirect(g, 1, 4);
    ThreeTied(g, sp);
    ThreeLeft(order);
    TwoInOrder(g, order);
    ThreeDecided(g, order);
    ScoreOfFour(g);
  }

  lemma ScoreOfFour(g: Dag)
    requires Valid(g, 1) && 4 in g && Blue(g, 4) == {0, 1, 2, 4}
    ensures Score(g, 4) == 4
  {
    hide Valid;
    ScoreIsBlueCount(g, 1, 4);
    assert |{0, 1, 2, 4}| == 4;
  }

  lemma ThreeTied(g: Dag, sp: Id)
    requires Parents(g, 4) == [1, 2, 3] && sp in Parents(g, 4)
    requires Score(g, 1) == Score(g, 2) == Score(g, 3)
    requires forall p :: p in Parents(g, 4) ==> Score(g, p) < Score(g, sp) || (Score(g, p) == Score(g, sp) && sp <= p)
    ensures sp == 1
  {
    hide Score, Parents;
    assert Parents(g, 4)[0] == 1;
  }

  lemma ThreeLeft(order: seq<Id>)
    requires Elems(order) == {0, 1, 2, 3} - {0} - {1}
    ensures Elems(order) == {2, 3}
  {
    hide Elems;
  }

  lemma ThreeDecided(g: Dag, order: seq<Id>)
    requires order == [2, 3] && Blue(g, 1) == {0, 1} && Past(g, 2) == {0} && Past(g, 3) == {0}
    requires forall i :: 0 <= i < |order| ==>
               (order[i] in Blue(g, 4) <==> |(Blue(g, 1) + (Blue(g, 4) * Elems(order[..i]))) - Past(g, order[i])| <= 1)
    requires Blue(g, 4) - Elems(order) == {0, 1} + {4}
    ensures Blue(g, 4) == {0, 1, 2, 4}
  {
    hide *;
    TwoPrefixes(order);
    assert order[0] == 2 && order[1] == 3;
    ThreeSets(Blue(g, 4));
  }

  lemma TwoPrefixes(order: seq<Id>)
    requires order == [2, 3]
    ensures Elems(order[..0]) == {} && Elems(order[..1]) == {2} && Elems(order) == {2, 3}
  {
    assert order[..0] == [] && order[..1] == [2];
  }

  lemma ThreeSets(blue: set<Id>)
    requires 2 in blue <==> |({0, 1} + (blue * {})) - {0}| <= 1
    requires 3 in blue <==> |({0, 1} + (blue * {2})) - {0}| <= 1
    requires blue - {2, 3} == {0, 1} + {4}
    ensures blue == {0, 1, 2, 4}
  {
    SetsOfTwo(blue);
    assert {0, 1} + {4} == {0, 1, 4};
    FourBlues(blue);
  }

  lemma SetsOfTwo(blue: set<Id>)
    ensures |({0, 1} + (blue * {})) - {0}| == 1
    ensures 2 in blue ==> |({0, 1} + (blue * {2})) - {0}| == 2
  {
    assert ({0, 1} + (blue * {})) - {0} == {1};
    assert 2 in blue ==> ({0, 1} + (blue * {2})) - {0} == {1, 2};
  }

  lemma FourBlues(blue: set<Id>)
    ensures blue - {2, 3} == {0, 1, 4} && 2 in blue && 3 !in blue ==> blue == {0, 1, 2, 4} && |blue| == 4
  {
    if blue - {2, 3} == {0, 1, 4} && 2 in blue && 3 !in blue {
      assert blue == (blue - {2, 3}) + {2};
    }
  }

  lemma PastOfThree(g: Dag)
    requires Valid(g, 1) && 4 in g && Parents(g, 4) == [1, 2, 3]
    requires Past(g, 1) == {0} && Past(g, 2) == {0} && Past(g, 3) == {0}
    ensures Past(g, 4) == {0, 1, 2, 3}
  {
    var ps := [1, 2, 3];
    assert LinkRule(g, 4);
    assert ps[0] in ps && ps[1] in ps && ps[2] in ps;
    forall x
      ensures x in PastOf(g, ps) <==> x in {0, 1, 2, 3}
    {
      assert x in PastOf(g, ps) <==> x in Past(g, 1) + {1} || x in Past(g, 2) + {2} || x in Past(g, 3) + {3};
    }
  }

  lemma TwoInOrder(g: Dag, order: seq<Id>)
    requires NoDup(order) && Elems(order) == {2, 3} && Parents(g, 2) == [0] && Parents(g, 3) == [0]
    requires forall i, j :: 0 <= i < j < |order| ==>
               || LastParent(g, order, order[i]) < LastParent(g, order, order[j])
               || (LastParent(g, order, order[i]) == LastParent(g, order, order[j]) && order[i] < order[j])
    ensures order == [2, 3]
  {
    hide LastParent;
    NoDupCard(order);
    assert |{2, 3}| == 2;
    assert order[0] in Elems(order) && order[1] in Elems(order);
    assert forall i :: 0 <= i < |order| ==> order[i] in Elems(order);
    LastParentIs(g, order, 2, -1);
    LastParentIs(g, order, 3, -1);
  }
}
