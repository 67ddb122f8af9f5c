/**
 * Accepting one block: the annotations already there keep obeying their rules, and
 * tips and children change as AddBlock changes them.
 */
module Growth {
  import opened Orders
  import opened Dags
  import opened TopologicalSorts
  import opened BlueSets
  import opened Convergence

  // The annotation AddBlock computes for a new block, from the dag before it.
  ghost predicate NewInfo(g: Dag, k: nat, id: Id, i: Info) {
    var ps := i.block.header.parents;
    && i.block.header.id == id && NoDup(ps)
    && (forall p :: p in ps ==> p in g)
    && i.past == PastOf(g, ps)
    && (if ps == [] then
          i.selected.None? && i.blue == {id}
        else
          && i.selected.Some?
          && IsBest(g, Elems(ps), i.selected.value)
          && i.blue == BlueInPast(g, k, i.past, i.selected.value) + {id})
    && i.score == |i.past * i.blue| + 1
  }

  lemma PastOfInside(g: Dag, ps: seq<Id>)
    requires Linked(g) && forall p :: p in ps ==> p in g
    ensures PastOf(g, ps) <= g.Keys
  {
    forall x | x in PastOf(g, ps) ensures x in g {
      var p :| p in ps && x in Past(g, p) + {p};
      PastInDag(g, p);
    }
  }

  // The old blocks look the same from inside the bigger dag.
  lemma RulesAgree(g: Dag, g': Dag, k: nat, ps: seq<Id>, past: set<Id>, sp: Id)
    requires Linked(g) && g.Keys <= g'.Keys && forall x :: x in g ==> g'[x] == g[x]
    requires forall p :: p in ps ==> p in g
    requires past <= g.Keys && sp in g && Blue(g, sp) <= g.Keys
    ensures IsBest(g, Elems(ps), sp) == IsBest(g', Elems(ps), sp)
    ensures BlueInPast(g, k, past, sp) == BlueInPast(g', k, past, sp)
  {
    hide Greedy, Kahn, Linked;
    var m := MergeSet(g, past, sp);
    KahnAgrees(g, g', m);
    KahnSorts(g, m);
    GreedyAgrees(g, g', k, Blue(g, sp), Kahn(g, m));
  }

  lemma GrowLinked(g: Dag, id: Id, i: Info)
    requires Linked(g) && id !in g
    requires i.block.header.id == id && NoDup(i.block.header.parents)
    requires forall p :: p in i.block.header.parents ==> p in g
    requires i.past == PastOf(g, i.block.header.parents)
    ensures Linked(g[id := i])
  {
    hide PastOf;
    var g' := g[id := i];
    PastOfInside(g, i.block.header.parents);
    forall b | b in g'
      ensures LinkRule(g', b)
    {
      if b != id {
        assert LinkRule(g, b);
      }
      PastOfAgrees(g, g', Parents(g', b));
    }
  }

  lemma GrowValid(g: Dag, k: nat, id: Id, i: Info)
    requires Valid(g, k) && id !in g && NewInfo(g, k, id, i)
    ensures Valid(g[id := i], k)
  {
    hide PastOf, BlueInPast, IsBest;
    var g' := g[id := i];
    GrowLinked(g, id, i);
    forall b | b in g'
      ensures ColourRule(g', k, b)
    {
      if b == id {
        GrowColoursNew(g, k, id, i);
      } else {
        GrowColoursOld(g, k, id, i, b);
      }
    }
  }

  lemma GrowColoursNew(g: Dag, k: nat, id: Id, i: Info)
    requires Valid(g, k) && id !in g && NewInfo(g, k, id, i)
    ensures ColourRule(g[id := i], k, id)
  {
    hide PastOf, BlueInPast, Linked, IsBest;
    var ps := i.block.header.parents;
    if ps != [] {
      var sp := i.selected.value;
      BestIsCandidate(g, Elems(ps), sp);
      assert sp in ps;
      PastOfInside(g, ps);
      BlueWithinPast(g, k, sp);
      PastInDag(g, sp);
      RulesAgree(g, g[id := i], k, ps, i.past, sp);
    }
  }

  lemma BestIsCandidate(g: Dag, s: set<Id>, p: Id)
    requires IsBest(g, s, p)
    ensures p in s
  {
  }

  lemma GrowColoursOld(g: Dag, k: nat, id: Id, i: Info, b: Id)
    requires Valid(g, k) && id !in g && b in g
    ensures b in g[id := i] && ColourRule(g[id := i], k, b)
  {
    hide PastOf, BlueInPast, IsBest, Linked;
    assert ColourRule(g, k, b);
    if Parents(g, b) != [] {
      BlueWithinPast(g, k, b);
      PastInDag(g, b);
      var sp := g[b].selected.value;
      ParentsInside(g, b);
      RulesAgree(g, g[id := i], k, Parents(g, b), g[b].past, sp);
    }
  }

  lemma ParentsInside(g: Dag, b: Id)
    requires Linked(g) && b in g
    ensures forall p :: p in Parents(g, b) ==> p in g
    ensures NoDup(Parents(g, b)) && g[b].block.header.id == b
  {
    assert LinkRule(g, b);
  }

  // ---------------------------------------------------------------------
  // Children and tips
  // ---------------------------------------------------------------------

  lemma GrowChildrenOf(g: Dag, id: Id, i: Info, p: Id)
    requires Linked(g) && id !in g
    ensures ChildrenOf(g[id := i], p)
         == ChildrenOf(g, p) + if p in i.block.header.parents then {id} else {}
  {
  }

  lemma GrowTips(g: Dag, id: Id, i: Info)
    requires Linked(g) && id !in g
    requires forall p :: p in i.block.header.parents ==> p in g
    ensures TipsOf(g[id := i]) == TipsOf(g) - Elems(i.block.header.parents) + {id}
  {
    var g' := g[id := i];
    forall b | b in g'
      ensures b in TipsOf(g') <==> b == id || (b in TipsOf(g) && b !in i.block.header.parents)
    {
      GrowChildrenOf(g, id, i, b);
      if b == id {
        forall c | c in g ensures id !in Parents(g, c) {
          ParentsInside(g, c);
        }
        assert ChildrenOf(g, id) == {};
      }
    }
  }

  // The children map after p has been given the child id, for every p in done.
  ghost predicate ChildrenPlus(before: map<Id, set<Id>>, after: map<Id, set<Id>>, done: set<Id>, id: Id) {
    && after.Keys == before.Keys + done
    && forall p :: p in after ==>
         after[p] == (if p in before then before[p] else {}) + (if p in done then {id} else {})
  }

  lemma GrowChildren(g: Dag, id: Id, i: Info, before: map<Id, set<Id>>, after: map<Id, set<Id>>)
    requires Linked(g) && id !in g && ChildrenAgree(g, before)
    requires ChildrenPlus(before, after, Elems(i.block.header.parents), id)
    ensures ChildrenAgree(g[id := i], after)
  {
    hide Linked;
    var g' := g[id := i];
    forall p
      ensures p in after <==> ChildrenOf(g', p) != {}
      ensures p in after ==> after[p] == ChildrenOf(g', p)
    {
      GrowChildrenOf(g, id, i, p);
      assert p in before <==> ChildrenOf(g, p) != {};
    }
  }

  // ---------------------------------------------------------------------
  // The selected tip
  // ---------------------------------------------------------------------

  // Going up from any block ends at a tip that scores at least as much.
  lemma {:induction false} TipAbove(g: Dag, k: nat, x: Id) returns (t: Id)
    requires Valid(g, k) && x in g
    ensures t in TipsOf(g) && g[x].score <= g[t].score && (t == x || x in g[t].past)
    decreases |g.Keys| - |g[x].past|
  {
    hide ColourRule, LinkRule;
    if ChildrenOf(g, x) == {} {
      t := x;
    } else {
      var c :| c in ChildrenOf(g, x);
      ParentPast(g, c, x);
      PastInDag(g, c);
      SubsetCard(g[c].past, g.Keys);
      AncestorScoresLess(g, k, c, x);
      t := TipAbove(g, k, c);
      if t != c {
        PastClosed(g, t, c);
      }
    }
  }

  // The selected tip has the highest blue score of all accepted blocks.
  lemma SelectedTipScoresHighest(g: Dag, k: nat, t: Id, x: Id)
    requires Valid(g, k) && x in g && IsBest(g, TipsOf(g), t)
    ensures t in g && g[x].score <= g[t].score
  {
    hide Valid;
    var above := TipAbove(g, k, x);
    assert t in TipsOf(g);
  }

  // ---------------------------------------------------------------------
  // Steps of the chain state
  // ---------------------------------------------------------------------

  // What callers guarantee of a block they hand in: it was not delivered before, and
  // no parent is listed twice.
  ghost predicate Fresh(s: State, b: Block) {
    b.header.id !in s.dag && b.header.id !in s.orphans && NoDup(b.header.parents)
  }

  lemma FreshFacts(s: State, b: Block)
    requires Fresh(s, b)
    ensures b.header.id !in s.dag && b.header.id !in s.orphans && NoDup(b.header.parents)
  {
  }

  // Accepted blocks keep their annotation for good.
  ghost predicate Extends(s: State, t: State) {
    Later(s.dag, t.dag)
  }

  // Accepted blocks stay, with their annotations.
  ghost predicate Later(g: Dag, g': Dag) {
    forall b :: b in g ==> b in g' && g'[b] == g[b]
  }

  lemma ExtendsReflexive(s: State)
    ensures Extends(s, s)
  {
  }

  lemma ExtendsTransitive(s: State, t: State, u: State)
    requires Extends(s, t) && Extends(t, u)
    ensures Extends(s, u)
  {
  }

  lemma ExtendsKeeps(s: State, t: State, b: Id)
    requires Extends(s, t) && b in s.dag
    ensures b in t.dag
  {
  }

  lemma WithinIff(b: Block, s: set<Id>)
    ensures ParentsWithin(b, s) <==> forall p :: p in b.header.parents ==> p in s
  {
  }

  // A block with a missing parent joins the orphans.
  lemma OrphanStep(s: State, b: Block, k: nat)
    requires Consistent(s, k) && Fresh(s, b) && !ParentsWithin(b, s.dag.Keys)
    ensures var t := s.(orphans := s.orphans[b.header.id := b]);
      && Consistent(t, k) && Extends(s, t)
      && Delivered(t) == Delivered(s)[b.header.id := b]
      && (Settled(s) ==> Settled(t))
  {
    hide Dags.Valid, ChildrenAgree, ColouredBy;
    var t := s.(orphans := s.orphans[b.header.id := b]);
    assert Delivered(t) == Delivered(s)[b.header.id := b];
    if Settled(s) {
      forall o | o in t.orphans
        ensures exists p :: p in t.orphans[o].header.parents && p !in t.dag
      {
        if o != b.header.id {
          assert o in s.orphans;
        }
      }
    }
  }

  // The tips right after a block has been linked in.
  lemma TipsStep(s: State, b: Block, k: nat, i: Info, tips: set<Id>)
    requires Consistent(s, k) && Fresh(s, b)
    requires NewInfo(s.dag, k, b.header.id, i) && i.block == b
    requires tips == s.tips - Elems(b.header.parents) + {b.header.id}
    ensures tips == TipsOf(s.dag[b.header.id := i])
    ensures tips <= s.dag.Keys + {b.header.id} && tips != {}
  {
    hide ColourRule, LinkRule, BlueInPast, PastOf;
    GrowTips(s.dag, b.header.id, i);
  }

  // An accepted block joins the dag.
  lemma AcceptStep(s: State, b: Block, k: nat, i: Info, t: State)
    requires Consistent(s, k) && Fresh(s, b)
    requires NewInfo(s.dag, k, b.header.id, i) && i.block == b
    requires t.dag == s.dag[b.header.id := i] && t.orphans == s.orphans
    requires ChildrenAgree(t.dag, t.children) && t.tips == TipsOf(t.dag)
    requires ColouredBy(t.dag, t.tips, t.blues)
    ensures Consistent(t, k) && Extends(s, t)
    ensures Delivered(t) == Delivered(s)[b.header.id := b]
  {
    hide Dags.Valid, ChildrenAgree, ColouredBy, NewInfo, TipsOf, Delivered;
    GrowValid(s.dag, k, b.header.id, i);
    AcceptDelivers(s, b, i, t);
  }

  lemma AcceptDelivers(s: State, b: Block, i: Info, t: State)
    requires Fresh(s, b) && i.block == b
    requires t.dag == s.dag[b.header.id := i] && t.orphans == s.orphans
    ensures Delivered(t) == Delivered(s)[b.header.id := b]
  {
  }

  // An orphan leaves the map, about to be added.
  lemma TakeOrphan(s: State, k: nat, o: Id)
    requires Consistent(s, k) && o in s.orphans
    ensures var t := s.(orphans := s.orphans - {o});
      && Consistent(t, k) && Extends(s, t) && Fresh(t, s.orphans[o])
      && s.orphans[o].header.id == o
      && Delivered(t)[o := s.orphans[o]] == Delivered(s)
  {
    hide Dags.Valid, ChildrenAgree, ColouredBy;
    var t := s.(orphans := s.orphans - {o});
    assert Delivered(t)[o := s.orphans[o]] == Delivered(s);
  }

  // An orphan that was ready when the list was made is still the same and ready.
  lemma ReadyStays(start: State, s: State, k: nat, o: Id)
    requires Consistent(start, k) && Consistent(s, k) && Extends(start, s)
    requires Delivered(s) == Delivered(start)
    requires o in start.orphans && o in s.orphans
    requires ParentsWithin(start.orphans[o], start.dag.Keys)
    ensures ParentsWithin(s.orphans[o], s.dag.Keys)
  {
    hide Dags.Valid, ChildrenAgree, ColouredBy;
    assert Delivered(s)[o] == s.orphans[o] && Delivered(start)[o] == start.orphans[o];
  }

  lemma NoneReady(s: State, ids: seq<Id>)
    requires Elems(ids) == s.orphans.Keys
    requires forall j :: 0 <= j < |ids| ==> ids[j] in s.orphans && !ParentsWithin(s.orphans[ids[j]], s.dag.Keys)
    ensures Settled(s)
  {
    forall o | o in s.orphans
      ensures exists p :: p in s.orphans[o].header.parents && p !in s.dag
    {
      assert o in Elems(ids);
      var j :| 0 <= j < |ids| && ids[j] == o;
      assert !ParentsWithin(s.orphans[o], s.dag.Keys);
    }
  }

  lemma KeysCard<V>(m: map<Id, V>, n: map<Id, V>)
    requires m.Keys <= n.Keys
    ensures |m| <= |n|
  {
    SubsetCard(m.Keys, n.Keys);
    assert |m| == |m.Keys| && |n| == |n.Keys|;
  }

  lemma OrphansShrink(before: map<Id, Block>, taken: map<Id, Block>, entry: map<Id, Block>, start: map<Id, Block>, o: Id)
    requires o in before && taken == before - {o}
    requires before.Keys <= entry.Keys && before.Keys <= start.Keys
    ensures |taken| < |entry| && |taken| < |start|
  {
    assert taken.Keys == before.Keys - {o};
    SubsetCard(taken.Keys, before.Keys);
    SubsetCard(before.Keys, entry.Keys);
    SubsetCard(before.Keys, start.Keys);
  }
}
