/**
 * struct Blockchain of dag.h / dag.cc. The fields are the source's own; `dag` is the
 * ghost DAG they represent. Each method is proved against the specifications of
 * Dags, Convergence and Growth.
 */
module Blockchains {
  import opened Orders
  import opened BitSets
  import opened Dags
  import opened TopologicalSorts
  import opened Convergence
  import opened Growth
  import opened Indexing
  import opened ChainTables
  import opened Orderings
  import opened Width

  class Blockchain {
    const k: nat
    var tips: set<Id>
    var children: map<Id, set<Id>>
    var blocks: map<Id, Accepted>
    var orphans: map<Id, Block>
    var idxOf: map<Id, nat>
    var idOf: seq<Id>
    var pastOf: seq<Words>
    var blueOf: seq<Words>
    ghost var dag: Dag

    ghost predicate Structured()
      reads this
    {
      && Table(idOf, idxOf)
      && Elems(idOf) == dag.Keys
      && PastsStand(idOf, pastOf, dag)
      && BluesStand(idOf, blueOf, dag)
      && BlocksStand(blocks, dag)
      && ChildrenAgree(dag, children)
      && Linked(dag)
    }

    ghost function View(): State
      reads this
    {
      State(dag, orphans, children, tips, Flagged(blocks))
    }

    ghost predicate Valid()
      reads this
    {
      Structured() && |blueOf| == |idOf| && Consistent(View(), k)
    }

    // Selected parent: highest blue score, lower id on ties (dag.cc:271-279).
    method SelectParent(ps: seq<Id>) returns (sp: Option<Id>)
      requires Structured()
      requires forall p :: p in ps ==> p in dag
      ensures ps == [] <==> sp.None?
      ensures sp.Some? ==> IsBest(dag, Elems(ps), sp.value) && sp.value in ps
      ensures sp.Some? ==> forall p :: p in ps ==>
                Score(dag, p) < Score(dag, sp.value) || (Score(dag, p) == Score(dag, sp.value) && sp.value <= p)
    {
      hide IsBest, Table, PastsStand, BluesStand, Linked;
      sp := None;
      var maxScore: Option<nat> := None;
      assert ps[..0] == [];
      for i := 0 to |ps|
        invariant sp.None? <==> i == 0
        invariant sp.Some? <==> maxScore.Some?
        invariant sp.Some? ==> IsBest(dag, Elems(ps[..i]), sp.value) && maxScore.value == Score(dag, sp.value)
      {
        var p := ps[i];
        PrefixElems(ps, i);
        var s := blocks[p].blueScore;
        BestOfOne(dag, p);
        assert i == 0 ==> Elems(ps[..i + 1]) == {p};
        if sp.Some? {
          BestStep(dag, Elems(ps[..i]), sp.value, p);
        }
        if maxScore.None? || s > maxScore.value || (s == maxScore.value && p < sp.value) {
          maxScore := Some(s);
          sp := Some(p);
        }
      }
      assert ps[..|ps|] == ps;
      if sp.Some? {
        BestShows(dag, Elems(ps), sp.value);
        assert forall p :: p in ps <==> p in Elems(ps);
      }
    }

    // Highest blue score among the tips, lower id on ties; the walk over the tips
    // may be in any order.
    method SelectTip() returns (best: Option<Id>)
      requires Structured() && tips <= dag.Keys
      ensures best.None? <==> tips == {}
      ensures best.Some? ==> IsBest(dag, tips, best.value) && best.value in tips
      ensures best.Some? ==> forall t :: t in tips ==>
                Score(dag, t) < Score(dag, best.value) || (Score(dag, t) == Score(dag, best.value) && best.value <= t)
    {
      hide IsBest, Table, PastsStand, BluesStand, Linked;
      best := None;
      var bestScore: Option<nat> := None;
      var rest := tips;
      while rest != {}
        invariant rest <= tips
        invariant best.None? <==> rest == tips
        invariant best.Some? <==> bestScore.Some?
        invariant best.Some? ==> IsBest(dag, tips - rest, best.value) && bestScore.value == Score(dag, best.value)
        decreases rest
      {
        var t :| t in rest;
        var s := blocks[t].blueScore;
        BestOfOne(dag, t);
        assert tips - (rest - {t}) == (tips - rest) + {t};
        if best.Some? {
          BestStep(dag, tips - rest, best.value, t);
        } else {
          assert (tips - rest) + {t} == {t};
        }
        if bestScore.None? || s > bestScore.value || (s == bestScore.value && t < best.value) {
          bestScore := Some(s);
          best := Some(t);
        }
        rest := rest - {t};
      }
      assert tips - {} == tips;
      if best.Some? {
        BestShows(dag, tips, best.value);
      }
    }

    // Union of every parent with its own ancestors (dag.cc:256-261).
    method PastUnion(ps: seq<Id>) returns (past: BitSet)
      requires Structured()
      requires forall p :: p in ps ==> p in dag
      ensures fresh(past)
      ensures Stands(idOf, Members(past.words), PastOf(dag, ps))
    {
      hide Members, Stands, Past, PastOf, BluesStand, BlocksStand, ChildrenAgree, Linked;
      past := new BitSet();
      StandsEmpty(idOf);
      assert ps[..0] == [] && ps[..|ps|] == ps;
      NoPast(dag);
      for i := 0 to |ps|
        invariant fresh(past)
        invariant Stands(idOf, Members(past.words), PastOf(dag, ps[..i]))
      {
        var p := ps[i];
        TableLookup(idOf, idxOf, p);
        var pi := idxOf[p];
        ghost var sofar := Members(past.words);
        PastOfSnoc(dag, ps, i);
        past.UnionWith(pastOf[pi]);
        StandsUnion(idOf, sofar, PastOf(dag, ps[..i]), Members(pastOf[pi]), Past(dag, p));
        past.Set(pi);
        StandsOne(idOf, pi);
        StandsUnion(idOf, sofar + Members(pastOf[pi]), PastOf(dag, ps[..i]) + Past(dag, p), {pi}, {p});
      }
    }

    // Every parent accepted? (dag.cc:242-247 and dag.cc:313-317)
    method AllAccepted(ps: seq<Id>) returns (all: bool)
      requires Structured()
      ensures all <==> forall p :: p in ps ==> p in dag
    {
      for i := 0 to |ps|
        invariant forall j :: 0 <= j < i ==> ps[j] in dag
      {
        if ps[i] !in blocks {
          return false;
        }
      }
      all := true;
    }

    // The blocks a bit set of indices names, in ascending id order (dag.cc:163-165).
    method IdsAscending(subset: BitSet, ghost s: set<Id>) returns (ids: seq<Id>)
      requires Structured()
      requires Stands(idOf, Members(subset.words), s)
      ensures ids == Ascending(s)
    {
      hide *;
      var visited := subset.ForEach();
      VisitedInRange(idOf, visited, s);
      var named: set<Id> := {};
      VisitedNone(idOf);
      for i := 0 to |visited|
        invariant named == IdsAt(idOf, Elems(visited[..i]))
      {
        VisitedSnoc(idOf, visited, i);
        named := named + {idOf[visited[i]]};
      }
      assert visited[..|visited|] == visited;
      ids := InOrder(named);
    }

    // Parents of b inside the subset, counted one by one (dag.cc:169-174).
    method CountParentsIn(b: Id, subset: BitSet, ghost s: set<Id>) returns (d: nat)
      requires Structured() && b in dag
      requires Stands(idOf, Members(subset.words), s)
      ensures d == Indegree(dag, s, {}, b)
    {
      hide Table, Stands, Members, PastsStand, BluesStand, ChildrenAgree, Past, LinkRule;
      var ps := blocks[b].block.header.parents;
      ParentsInside(dag, b);
      d := 0;
      for i := 0 to |ps|
        invariant d == |CountedParents(ps[..i], s)|
      {
        var p := ps[i];
        CountedSnoc(ps, s, i);
        InTable(idOf, idxOf, Members(subset.words), s, p);
        if p in idxOf && subset.Test(idxOf[p]) {
          d := d + 1;
        }
      }
      assert ps[..|ps|] == ps;
      assert CountedParents(ps, s) == ParentsIn(dag, s, b) - {};
    }

    // Every child of the emitted block loses one missing parent (dag.cc:188-195).
    method ReleaseChildren(cur: Id, subset: BitSet, ghost s: set<Id>, indeg: map<Id, nat>, ghost done: set<Id>)
      returns (after: map<Id, nat>, released: seq<Id>)
      requires Structured() && cur in s && cur !in done && s <= dag.Keys
      requires Stands(idOf, Members(subset.words), s)
      requires IndegreesAt(dag, s, done, indeg)
      ensures IndegreesAt(dag, s, done + {cur}, after)
      ensures released == Ascending(Released(dag, s, done + {cur}, cur))
    {
      hide Table, Stands, Members, PastsStand, BluesStand, BlocksStand, LinkRule, Linked, IndegreesAt, IndegreesDuring, Picked, Released, Sorted, Elems, Indegree;
      after := indeg;
      released := [];
      ghost var f := Released(dag, s, done + {cur}, cur);
      DuringStarts(dag, s, done, cur, indeg);
      PickedNone(f);
      ReleasedAreChildren(dag, s, done + {cur}, cur);
      TableNoDup(idOf, idxOf);
      if cur in children {
        var kids := InOrder(children[cur]);
        AscendingFacts(children[cur]);
        assert kids[..0] == [];
        PrefixOfNone();
        for j := 0 to |kids|
          invariant IndegreesDuring(dag, s, done, cur, Elems(kids[..j]), after)
          invariant Picked(kids[..j], f, released)
        {
          var ch := kids[j];
          WalkElement(kids, j);
          PickedSnoc(kids, f, released, j);
          DuringVisit(dag, s, done, cur, Elems(kids[..j]), after, ch);
          InTable(idOf, idxOf, Members(subset.words), s, ch);
          IndegreeKeys(dag, s, done, cur, Elems(kids[..j]), after);
          if ch in idxOf && subset.Test(idxOf[ch]) {
            after := after[ch := after[ch] - 1];
            if after[ch] == 0 {
              released := released + [ch];
            }
          }
        }
        assert kids[..|kids|] == kids;
        PickedAll(kids, f, released);
      } else {
        assert ChildrenOf(dag, cur) == {};
        PrefixOfNone();
        PickedAll([], f, released);
      }
      DuringEnds(dag, s, done, cur, after);
    }

    // Missing parents of each block of the subset (dag.cc:167-176).
    method CountMissing(ids: seq<Id>, subset: BitSet, ghost s: set<Id>) returns (indeg: map<Id, nat>)
      requires Structured() && s <= dag.Keys && ids == Ascending(s)
      requires Stands(idOf, Members(subset.words), s)
      ensures indeg.Keys == s && forall c :: c in indeg ==> indeg[c] == Indegree(dag, s, {}, c)
    {
      hide *;
      AscendingFacts(s);
      PrefixOfNone();
      indeg := map[];
      assert ids[..0] == [];
      for i := 0 to |ids|
        invariant indeg.Keys == Elems(ids[..i])
        invariant forall c :: c in indeg ==> indeg[c] == Indegree(dag, s, {}, c)
      {
        WalkElement(ids, i);
        var d := CountParentsIn(ids[i], subset, s);
        indeg := indeg[ids[i] := d];
      }
      assert ids[..|ids|] == ids;
    }

    // Those with none missing, ascending (dag.cc:177-180).
    method PickSources(ids: seq<Id>, indeg: map<Id, nat>, ghost s: set<Id>) returns (q: seq<Id>)
      requires ids == Ascending(s) && indeg.Keys == s
      requires forall c :: c in indeg ==> indeg[c] == Indegree(dag, s, {}, c)
      ensures q == Ascending(Sources(dag, s))
    {
      hide *;
      AscendingFacts(s);
      q := [];
      assert ids[..0] == [];
      PickedNone(Sources(dag, s));
      for i := 0 to |ids|
        invariant Picked(ids[..i], Sources(dag, s), q)
      {
        WalkElement(ids, i);
        PickedSnoc(ids, Sources(dag, s), q, i);
        SourceTest(dag, s, ids[i]);
        if indeg[ids[i]] == 0 {
          q := q + [ids[i]];
        }
      }
      assert ids[..|ids|] == ids;
      SourcesWithin(dag, s);
      PickedAll(ids, Sources(dag, s), q);
    }

    // The blocks of the subset, each once, by the position of their last parent in it,
    // then by id (dag.cc:162-198).
    method TopologicalSort(subset: BitSet, ghost s: set<Id>) returns (order: seq<Id>)
      requires Structured() && s <= dag.Keys
      requires Stands(idOf, Members(subset.words), s)
      ensures order == Kahn(dag, s)
      ensures NoDup(order) && Elems(order) == s && ParentsFirst(dag, s, order)
      ensures forall i, j :: 0 <= i < j < |order| ==>
                || LastParent(dag, order, order[i]) < LastParent(dag, order, order[j])
                || (LastParent(dag, order, order[i]) == LastParent(dag, order, order[j]) && order[i] < order[j])
      ensures forall i :: 0 <= i < |order| ==> LastParent(dag, order, order[i]) < i
    {
      hide Table, Stands, Members, PastsStand, BluesStand, BlocksStand, ChildrenAgree, Linked, IndegreesAt, Released, Elems, Indegree, SortInvariant, KahnQueue, Sources, Structured, LastParent, NoDup, ParentsFirst;
      var ids := IdsAscending(subset, s);
      var indeg := CountMissing(ids, subset, s);
      var q := PickSources(ids, indeg, s);
      order := [];
      IndegreesStart(dag, s, indeg);
      SortStarts(dag, s);
      while q != []
        invariant SortInvariant(dag, s, q, order)
        invariant IndegreesAt(dag, s, Elems(order), indeg)
        invariant KahnFrom(dag, s, q, order) == Kahn(dag, s)
        decreases s - Elems(order)
      {
        var cur := q[0];
        SortStep(dag, s, q, order);
        ElemsSnoc(order, cur);
        InElems(order, cur);
        ghost var queueBefore, orderBefore := q, order;
        q := q[1..];
        order := order + [cur];
        var released;
        indeg, released := ReleaseChildren(cur, subset, s, indeg, Elems(orderBefore));
        q := q + released;
        QueueStep(dag, s, queueBefore, orderBefore);
      }
      StructuredFacts();
      KahnSorts(dag, s);
      KahnOrder(dag, s);
    }

    // GreedyBlueSet (dag.cc:211-236) for the block at index idx.
    method GreedyBlueSet(idx: nat, spIdx: nat, past: BitSet, ghost pastIds: set<Id>) returns (blue: BitSet)
      requires Structured()
      requires idx < |idOf| && spIdx < |blueOf|
      requires Stands(idOf, Members(past.words), pastIds) && pastIds <= dag.Keys
      ensures fresh(blue)
      ensures Stands(idOf, Members(blue.words), BlueInPast(dag, k, pastIds, idOf[spIdx]) + {idOf[idx]})
    {
      hide *;
      StructuredFacts();
      ghost var sp := idOf[spIdx];
      ghost var m := MergeSet(dag, pastIds, sp);
      IndexFacts(spIdx);
      blue := new BitSet.Copy(blueOf[spIdx]);
      var mergeSet := past.AndNot(pastOf[spIdx]);
      StandsMinus(idOf, Members(past.words), pastIds, Members(pastOf[spIdx]), Past(dag, sp));
      StandsOne(idOf, spIdx);
      StandsMinus(idOf, Members(mergeSet.words), pastIds - Past(dag, sp), {spIdx}, {sp});
      mergeSet.Reset(spIdx);
      MergeSetIs(dag, pastIds, sp);
      var order := TopologicalSort(mergeSet, m);
      KahnSorts(dag, m);
      GreedyStart(dag, k, Blue(dag, sp), order);
      assert order[..|order|] == order;
      for i := 0 to |order|
        invariant fresh(blue)
        invariant Stands(idOf, Members(blue.words), Greedy(dag, k, Blue(dag, sp), order[..i]))
      {
        var candidate := order[i];
        ghost var sofar := Greedy(dag, k, Blue(dag, sp), order[..i]);
        OrderElement(order, i, m);
        TableLookup(idOf, idxOf, candidate);
        var ci := idxOf[candidate];
        IndexFacts(ci);
        StandsRange(idOf, Members(blue.words), sofar);
        var count := CountAnticone(k, blue.words, pastOf[ci], pastOf, ci);
        UnrelatedStands(idOf, pastOf, dag, ci, Members(blue.words), sofar);
        StandsCard(idOf, Unrelated(Members(blue.words) - Members(pastOf[ci]), pastOf, ci), BlueAnticone(dag, sofar, candidate));
        GreedySnoc(dag, k, Blue(dag, sp), order, i);
        if count <= k {
          StandsOne(idOf, ci);
          StandsUnion(idOf, Members(blue.words), sofar, {ci}, {candidate});
          blue.Set(ci);
        }
      }
      BlueInPastIs(dag, k, pastIds, sp);
      StandsOne(idOf, idx);
      StandsUnion(idOf, Members(blue.words), BlueInPast(dag, k, pastIds, sp), {idx}, {idOf[idx]});
      blue.Set(idx);
    }

    // The new block becomes a child of each parent, and no parent is a tip any more
    // (dag.cc:264-267).
    method AddChild(ps: seq<Id>, id: Id)
      modifies this`children, this`tips
      ensures ChildrenPlus(old(children), children, Elems(ps), id)
      ensures tips == old(tips) - Elems(ps)
    {
      hide *;
      NoChildYet(children, id);
      assert ps[..0] == [] && ps[..|ps|] == ps;
      PrefixOfNone();
      for i := 0 to |ps|
        invariant ChildrenPlus(old(children), children, Elems(ps[..i]), id)
        invariant tips == old(tips) - Elems(ps[..i])
      {
        PrefixElems(ps, i);
        OneMoreChild(old(children), children, Elems(ps[..i]), id, ps[i]);
        children := children[ps[i] := (if ps[i] in children then children[ps[i]] else {}) + {id}];
        tips := tips - {ps[i]};
      }
    }

    // Accept the block into every structure but the colouring (dag.cc:249-268).
    method Link(b: Block)
      requires Structured() && |blueOf| == |idOf|
      requires b.header.id !in dag && NoDup(b.header.parents)
      requires forall p :: p in b.header.parents ==> p in dag
      modifies this
      ensures Structured()
      ensures dag == old(dag)[b.header.id := Uncoloured(old(dag), b)]
      ensures idOf == old(idOf) + [b.header.id] && blueOf == old(blueOf) && orphans == old(orphans)
      ensures tips == old(tips) - Elems(b.header.parents) + {b.header.id}
    {
      hide *;
      StructuredFacts();
      var id := b.header.id;
      var ps := b.header.parents;
      ghost var info := Uncoloured(dag, b);
      UncolouredIs(dag, b);
      var past := PastUnion(ps);
      var words := past.words;
      ghost var g := dag;
      ghost var childrenBefore := children;
      TableGrown(idOf, idxOf, id);
      BlocksGrown(blocks, g, id, info);
      PastsGrown(idOf, pastOf, g, id, info, words);
      BluesGrown(idOf, blueOf, g, id, info);
      GrowLinked(g, id, info);
      blocks := blocks[id := Accepted(b, 0, false, None)];
      idxOf := idxOf[id := |idOf|];
      idOf := idOf + [id];
      pastOf := pastOf + [words];
      AddChild(ps, id);
      tips := tips + {id};
      dag := g[id := info];
      GrowChildren(g, id, info, childrenBefore, children);
      StructuredFrom();
    }

    // A block is on its way in: linked into every table but not coloured yet.
    ghost predicate Pending(b: Block, g: Dag)
      reads this
    {
      && Structured() && |blueOf| + 1 == |idOf|
      && idOf[|idOf| - 1] == b.header.id && b.header.id !in g
      && NoDup(b.header.parents) && (forall p :: p in b.header.parents ==> p in g)
      && Dags.Valid(g, k)
      && dag == g[b.header.id := Uncoloured(g, b)]
    }

    // Selected parent, blue set and score of the newest block (dag.cc:270-289).
    method Decide(b: Block, ghost g: Dag)
      returns (sp: Option<Id>, blue: Words, score: nat, ghost blueIds: set<Id>)
      requires Pending(b, g)
      ensures Stands(idOf, Members(blue), blueIds)
      ensures NewInfo(g, k, b.header.id, Info(b, PastOf(g, b.header.parents), blueIds, score, sp))
    {
      hide *;
      PendingFacts(b, g);
      StructuredFacts();
      var id := b.header.id;
      var ps := b.header.parents;
      var idx := |idOf| - 1;
      ghost var pastIds := PastOf(g, ps);
      PastOfInside(g, ps);
      UncolouredFacts(g, b);
      IndexFacts(idx);
      var past := new BitSet.Copy(pastOf[idx]);
      sp := SelectParent(ps);
      var blueSet;
      if sp.Some? {
        BestIsCandidate(dag, Elems(ps), sp.value);
        InElems(ps, sp.value);
        LookupBefore(idOf, idxOf, sp.value, id);
        blueSet := GreedyBlueSet(idx, idxOf[sp.value], past, pastIds);
        BlueInside(g, k, sp.value);
        RulesAgree(g, dag, k, ps, pastIds, sp.value);
        blueIds := BlueInPast(g, k, pastIds, sp.value) + {id};
      } else {
        blueSet := new BitSet();
        blueSet.Set(idx);
        StandsOne(idOf, idx);
        assert {} + {idx} == {idx};
        blueIds := {id};
      }
      var count := past.CountAnd(blueSet.words);
      blue := blueSet.words;
      StandsMeet(idOf, Members(past.words), pastIds, Members(blue), blueIds);
      StandsCard(idOf, Members(past.words) * Members(blue), pastIds * blueIds);
      score := count + 1;
      NewInfoFrom(g, k, id, Info(b, pastIds, blueIds, score, sp));
    }

    // The decision becomes the block's annotation (dag.cc:284-290).
    method Colour(b: Block, ghost g: Dag)
      requires Pending(b, g)
      modifies this`blocks, this`blueOf, this`dag
      ensures Structured() && |blueOf| == |idOf|
      ensures b.header.id in dag && dag[b.header.id].block == b
      ensures dag == g[b.header.id := dag[b.header.id]]
      ensures NewInfo(g, k, b.header.id, dag[b.header.id])
    {
      hide *;
      PendingFacts(b, g);
      StructuredFacts();
      UncolouredIs(g, b);
      var id := b.header.id;
      var sp, blue, score;
      ghost var blueIds;
      sp, blue, score, blueIds := Decide(b, g);
      ghost var info := Info(b, PastOf(g, b.header.parents), blueIds, score, sp);
      BlocksRevised(blocks, g, id, Uncoloured(g, b), info);
      TablesRevised(idOf, pastOf, blueOf, children, g, id, Uncoloured(g, b), info);
      BlueOfNew(g, id, info);
      BluesComplete(idOf, blueOf, g[id := info], blue);
      blocks := blocks[id := blocks[id].(selectedParent := sp, blueScore := score)];
      blueOf := blueOf + [blue];
      dag := g[id := info];
      StructuredFrom();
    }

    lemma PendingFacts(b: Block, g: Dag)
      requires Pending(b, g)
      ensures Structured() && |blueOf| + 1 == |idOf|
      ensures idOf[|idOf| - 1] == b.header.id && b.header.id !in g
      ensures NoDup(b.header.parents) && forall p :: p in b.header.parents ==> p in g
      ensures Dags.Valid(g, k) && Linked(g)
      ensures dag == g[b.header.id := Uncoloured(g, b)]
    {
    }

    // is_blue of every accepted block is re-evaluated against the selected tip
    // (dag.cc:292-301).
    method Recolour()
      requires Structured() && |blueOf| == |idOf|
      requires tips <= dag.Keys && tips != {}
      modifies this`blocks
      ensures Structured()
      ensures ColouredBy(dag, tips, Flagged(blocks))
      ensures exists t :: t in tips && forall b :: b in blocks ==> (blocks[b].isBlue <==> b in Blue(dag, t))
    {
      hide *;
      StructuredFacts();
      var selected := SelectTip();
      BestIsCandidate(dag, tips, selected.value);
      TableLookup(idOf, idxOf, selected.value);
      var t := idxOf[selected.value];
      IndexFacts(t);
      var tipBlue := blueOf[t];
      BlocksFacts(blocks, dag);
      var rest := blocks.Keys;
      while rest != {}
        invariant BlocksStand(blocks, dag) && rest <= blocks.Keys && blocks.Keys == dag.Keys
        invariant forall b :: b in blocks && b !in rest ==> (blocks[b].isBlue <==> b in Blue(dag, selected.value))
        decreases rest
      {
        var b :| b in rest;
        InTable(idOf, idxOf, Members(tipBlue), Blue(dag, selected.value), b);
        MembersTest(tipBlue, idxOf[b]);
        BlocksRecoloured(blocks, dag, b, TestIn(tipBlue, idxOf[b]));
        blocks := blocks[b := blocks[b].(isBlue := TestIn(tipBlue, idxOf[b]))];
        rest := rest - {b};
      }
      StandsElems(idOf, Members(tipBlue), Blue(dag, selected.value));
      FlaggedIs(blocks, Blue(dag, selected.value));
      ColouredFrom(dag, tips, Flagged(blocks), selected.value);
      StructuredFrom();
    }

    constructor (k: nat)
      ensures this.k == k && Valid() && Settled(View())
      ensures Delivered(View()) == map[GENESIS := GenesisBlock()]
    {
      this.k := k;
      tips := {GENESIS};
      children := map[];
      blocks := map[GENESIS := Accepted(GenesisBlock(), 1, true, None)];
      orphans := map[];
      idxOf := map[GENESIS := 0];
      idOf := [GENESIS];
      pastOf := [[]];
      dag := GenesisDag();
      var blue := new BitSet();
      blue.Set(0);
      blueOf := [blue.words];
      new;
      hide *;
      EmptyVector();
      assert {} + {0} == {0};
      GenesisTables(blueOf[0]);
      GenesisConsistent(k);
      StructuredFrom();
      ValidFrom();
    }

    // AddBlock (dag.cc:238-304). A block with a missing parent waits among the
    // orphans; any other is accepted, and orphans it completes follow.
    method AddBlock(b: Block)
      requires Valid() && Fresh(View(), b)
      modifies this
      ensures Valid() && Extends(old(View()), View())
      ensures Delivered(View()) == old(Delivered(View()))[b.header.id := b]
      ensures old(idOf) <= idOf
      ensures old(Settled(View())) || ParentsWithin(b, old(dag).Keys) ==> Settled(View())
      ensures ParentsWithin(b, old(dag).Keys) ==>
                b.header.id in dag && orphans.Keys <= old(orphans.Keys)
      ensures blocks.Keys + orphans.Keys == old(blocks.Keys + orphans.Keys) + {b.header.id}
      ensures forall x :: x in old(blocks) ==>
                x in blocks && blocks[x].(isBlue := true) == old(blocks)[x].(isBlue := true)
      decreases |orphans|, 1
    {
      hide *;
      ValidFacts();
      StructuredFacts();
      ghost var before, table := View(), blocks;
      FreshFacts(before, b);
      var accepted := AllAccepted(b.header.parents);
      WithinIff(b, dag.Keys);
      if !accepted {
        Hold(b);
        ValidFacts();
        StructuredFacts();
        AddedInWords(before, table, View(), blocks, b);
        return;
      }
      Accept(b);
      ViewIs();
      ghost var middle := View();
      ProcessOrphans();
      ValidFacts();
      StructuredFacts();
      ExtendsTransitive(before, middle, View());
      ExtendsKeeps(middle, View(), b.header.id);
      AddedInWords(before, table, View(), blocks, b);
    }

    // A block with a missing parent waits (dag.cc:242-247).
    method Hold(b: Block)
      requires Valid() && Fresh(View(), b) && !ParentsWithin(b, dag.Keys)
      modifies this`orphans
      ensures Valid() && Extends(old(View()), View()) && Delivered(View()) == old(Delivered(View()))[b.header.id := b]
      ensures old(Settled(View())) ==> Settled(View())
    {
      hide *;
      ValidFacts();
      StructuredFacts();
      ghost var before := View();
      orphans := orphans[b.header.id := b];
      OrphanStep(before, b, k);
      ViewIs();
      StructuredFrom();
      ValidFrom();
    }

    // A block whose parents are all accepted enters every structure (dag.cc:249-301).
    method Accept(b: Block)
      requires Valid() && Fresh(View(), b) && ParentsWithin(b, dag.Keys)
      modifies this
      ensures Valid() && Extends(old(View()), View()) && orphans == old(orphans)
      ensures Delivered(View()) == old(Delivered(View()))[b.header.id := b]
      ensures old(idOf) <= idOf && b.header.id in dag
    {
      hide *;
      ValidFacts();
      StructuredFacts();
      ghost var before, g := View(), dag;
      FreshFacts(before, b);
      WithinIff(b, dag.Keys);
      Link(b);
      PendingFrom(b, g);
      Colour(b, g);
      TipsStep(before, b, k, dag[b.header.id], tips);
      Recolour();
      ViewIs();
      StructuredFacts();
      AcceptStep(before, b, k, dag[b.header.id], View());
      ValidFrom();
    }

    // Orphans whose parents are all accepted, in ascending id order (dag.cc:310-320).
    method ReadyOrphans() returns (ready: seq<Id>)
      requires Valid()
      ensures forall j :: 0 <= j < |ready| ==>
                ready[j] in orphans && ParentsWithin(orphans[ready[j]], dag.Keys)
      ensures ready == [] ==> Settled(View())
    {
      hide *;
      ValidFacts();
      var ids := InOrder(orphans.Keys);
      AscendingFacts(orphans.Keys);
      ready := [];
      for i := 0 to |ids|
        invariant forall j :: 0 <= j < |ready| ==>
                    ready[j] in orphans && ParentsWithin(orphans[ready[j]], dag.Keys)
        invariant ready == [] ==>
                    forall j :: 0 <= j < i ==> ids[j] in orphans && !ParentsWithin(orphans[ids[j]], dag.Keys)
      {
        InElems(ids, ids[i]);
        var ok := AllAccepted(orphans[ids[i]].header.parents);
        WithinIff(orphans[ids[i]], dag.Keys);
        if ok {
          ready := ready + [ids[i]];
        }
      }
      if ready == [] {
        NoneReady(View(), ids);
      }
    }

    // ProcessOrphans (dag.cc:306-333). The list of ready ids is taken before any of
    // them is added, so an entry may be stale by the time it is reached.
    method ProcessOrphans()
      requires Valid()
      modifies this
      ensures Valid() && Settled(View()) && Extends(old(View()), View())
      ensures Delivered(View()) == old(Delivered(View()))
      ensures old(idOf) <= idOf
      ensures orphans.Keys <= old(orphans.Keys)
      decreases |orphans|, 0
    {
      hide *;
      var progress := true;
      ValidFacts();
      ghost var entry := View();
      ExtendsReflexive(entry);
      while progress
        invariant Valid() && Extends(entry, View())
        invariant Delivered(View()) == Delivered(entry)
        invariant orphans.Keys <= entry.orphans.Keys
        invariant old(idOf) <= idOf
        invariant !progress ==> Settled(View())
        decreases |orphans|, progress
      {
        progress := false;
        var ready := ReadyOrphans();
        ValidFacts();
        ghost var start := View();
        ExtendsReflexive(start);
        for j := 0 to |ready|
          invariant Valid() && Extends(start, View())
          invariant Delivered(View()) == Delivered(start)
          invariant orphans.Keys <= start.orphans.Keys
          invariant old(idOf) <= idOf
          invariant !progress ==> View() == start && j == 0
          invariant progress ==> |orphans| < |start.orphans|
        {
          ValidFacts();
          if ready[j] in orphans {
            AddReady(ready[j], start, entry);
            progress := true;
          }
        }
        ValidFacts();
        ExtendsTransitive(entry, start, View());
      }
    }

    // One ready orphan leaves the map and is added (dag.cc:326-330).
    method AddReady(oid: Id, ghost start: State, ghost entry: State)
      requires Valid() && oid in orphans && oid in start.orphans
      requires ParentsWithin(start.orphans[oid], start.dag.Keys)
      requires Consistent(start, k) && Extends(start, View())
      requires Delivered(View()) == Delivered(start)
      requires orphans.Keys <= start.orphans.Keys <= entry.orphans.Keys
      modifies this
      ensures Valid() && Extends(start, View())
      ensures Delivered(View()) == Delivered(start)
      ensures orphans.Keys <= start.orphans.Keys && |orphans| < |start.orphans|
      ensures old(idOf) <= idOf
      decreases |entry.orphans|, 0, 1
    {
      hide *;
      ValidFacts();
      StructuredFacts();
      ghost var before := View();
      var ob := orphans[oid];
      ReadyStays(start, before, k, oid);
      orphans := orphans - {oid};
      ViewIs();
      TakeOrphan(before, k, oid);
      StructuredFrom();
      ValidFrom();
      ghost var taken := View();
      OrphansShrink(before.orphans, orphans, entry.orphans, start.orphans, oid);
      AddBlock(ob);
      ValidFacts();
      KeysCard(orphans, taken.orphans);
      ExtendsTransitive(start, before, taken);
      ExtendsTransitive(start, taken, View());
    }

    // ---------------------------------------------------------------------
    // Queries
    // ---------------------------------------------------------------------

    method SetOf(words: Words, ghost s: set<Id>) returns (ids: set<Id>)
      requires Structured() && Stands(idOf, Members(words), s)
      ensures ids == s
    {
      hide *;
      var bits := new BitSet.Copy(words);
      var walk := IdsAscending(bits, s);
      AscendingFacts(s);
      ids := {};
      PrefixOfNone();
      assert walk[..0] == [];
      for i := 0 to |walk|
        invariant ids == Elems(walk[..i])
      {
        PrefixElems(walk, i);
        ids := ids + {walk[i]};
      }
      assert walk[..|walk|] == walk;
    }

    method GetPast(b: Id) returns (past: set<Id>)
      requires Valid()
      ensures past == Past(dag, b)
    {
      hide *;
      ValidFacts();
      StructuredFacts();
      AbsentIsEmpty(dag, b);
      if b in idxOf {
        TableLookup(idOf, idxOf, b);
        IndexFacts(idxOf[b]);
        past := SetOf(pastOf[idxOf[b]], Past(dag, b));
      } else {
        past := {};
      }
    }

    method BlueSet(b: Id) returns (blue: set<Id>)
      requires Valid()
      ensures blue == Blue(dag, b)
    {
      hide *;
      ValidFacts();
      StructuredFacts();
      AbsentIsEmpty(dag, b);
      if b in idxOf {
        TableLookup(idOf, idxOf, b);
        IndexFacts(idxOf[b]);
        blue := SetOf(blueOf[idxOf[b]], Blue(dag, b));
      } else {
        blue := {};
      }
    }

    method InPast(b: Id, ancestor: Id) returns (r: bool)
      requires Valid()
      ensures r <==> ancestor in Past(dag, b)
    {
      hide *;
      ValidFacts();
      StructuredFacts();
      AbsentIsEmpty(dag, b);
      if b !in idxOf {
        return false;
      }
      TableLookup(idOf, idxOf, b);
      IndexFacts(idxOf[b]);
      InTable(idOf, idxOf, Members(pastOf[idxOf[b]]), Past(dag, b), ancestor);
      if ancestor !in idxOf {
        return false;
      }
      MembersTest(pastOf[idxOf[b]], idxOf[ancestor]);
      r := TestIn(pastOf[idxOf[b]], idxOf[ancestor]);
    }

    // Breadth-first search along children (dag.cc:110-133).
    method GetFuture(b: Id) returns (future: set<Id>)
      requires Valid()
      ensures future == Future(dag, b)
    {
      hide *;
      ValidFacts();
      StructuredFacts();
      future := {};
      var q: seq<Id> := [];
      ChildrenLookup(dag, children, b);
      if b in children {
        q := InOrder(children[b]);
        AscendingFacts(children[b]);
        future := children[b];
      }
      PrefixOfNone();
      SearchStarts(dag, b, q);
      while q != []
        invariant Searched(dag, b, future, q)
        decreases |Future(dag, b)| - |future|, |q|
      {
        var cur := q[0];
        ChildrenLookup(dag, children, cur);
        var unseen: set<Id> := if cur in children then children[cur] - future else {};
        var more := InOrder(unseen);
        AscendingFacts(unseen);
        AscendingEmpty();
        SearchStep(dag, b, future, q, unseen, more);
        future := future + unseen;
        q := q[1..] + more;
      }
      SearchEnds(dag, b, future);
    }

    // Is every member incomparable to at most k others? An unknown id makes it false.
    method IsKCluster(ids: set<Id>) returns (r: bool)
      requires Valid()
      ensures r <==> ids <= dag.Keys && KCluster(dag, k, ids)
      ensures r <==> ids <= dag.Keys && forall b :: b in ids ==>
                |set x | x in ids && x != b && x !in Past(dag, b) && b !in Past(dag, x)| <= k
    {
      hide *;
      ClusterShows(dag, k, ids);
      ValidFacts();
      StructuredFacts();
      var rest := ids;
      while rest != {}
        invariant rest <= ids
        invariant forall b :: b in ids && b !in rest ==> b in dag && |AnticoneIn(dag, ids, b)| <= k
        decreases rest
      {
        var b :| b in rest;
        if b !in idxOf {
          return false;
        }
        var count, known := CountIncomparable(b, ids);
        if !known {
          return false;
        }
        if count > k {
          NotCluster(dag, k, ids, b);
          return false;
        }
        rest := rest - {b};
      }
      ClusterFrom(dag, k, ids);
      r := true;
    }

    method CountIncomparable(b: Id, ids: set<Id>) returns (count: nat, known: bool)
      requires Valid() && b in dag
      ensures known ==> ids <= dag.Keys && count == |AnticoneIn(dag, ids, b)|
      ensures !known ==> !(ids <= dag.Keys)
    {
      hide *;
      ValidFacts();
      StructuredFacts();
      count := 0;
      var rest := ids;
      AnticoneOfNone(dag, b);
      assert ids - ids == {};
      while rest != {}
        invariant rest <= ids && ids - rest <= dag.Keys
        invariant count == |AnticoneIn(dag, ids - rest, b)|
        decreases rest
      {
        var x :| x in rest;
        assert ids - (rest - {x}) == (ids - rest) + {x};
        if x !in idxOf {
          return count, false;
        }
        var xInPast := InPast(b, x);
        var xInFuture := InPast(x, b);
        AnticoneSnoc(dag, ids - rest, b, x);
        if x != b && !xInPast && !xInFuture {
          count := count + 1;
        }
        rest := rest - {x};
      }
      assert ids - {} == ids;
      known := true;
    }

    // ComputeGHOSTDAGOrdering (dag.cc:356-392): every accepted block once, after its
    // parents; among those whose parents are placed, first the one with the higher score,
    // then the earlier time, then the lower id.
    method ComputeGHOSTDAGOrdering() returns (ordering: seq<Id>)
      requires Valid()
      ensures IsGlobalOrder(dag, ordering)
      ensures NoDup(ordering) && Elems(ordering) == blocks.Keys && forall i :: 0 <= i < |ordering| ==> ordering[i] in blocks
      ensures forall i, p :: 0 <= i < |ordering| && p in blocks[ordering[i]].block.header.parents ==> p in ordering[..i]
      ensures forall i, x {:trigger ordering[i], blocks[x]} ::
                0 <= i < |ordering| && x in blocks && x !in ordering[..i] && x != ordering[i]
                && (forall p :: p in blocks[x].block.header.parents ==> p in ordering[..i])
                ==> || blocks[x].blueScore < blocks[ordering[i]].blueScore
                    || (blocks[x].blueScore == blocks[ordering[i]].blueScore
                        && blocks[ordering[i]].block.header.time < blocks[x].block.header.time)
                    || (blocks[x].blueScore == blocks[ordering[i]].blueScore
                        && blocks[ordering[i]].block.header.time == blocks[x].block.header.time && ordering[i] < x)
    {
      hide *;
      BlocksShow();
      TableStands();
      ordering := PlaceAll();
      OrderInWords(dag, blocks, ordering);
    }

    lemma TableStands()
      requires Valid()
      ensures BlocksStand(blocks, dag)
    {
      hide *;
      ValidFacts();
      StructuredFacts();
    }

    // A block that may be handed in.
    lemma FreshShows(b: Block)
      requires Valid()
      ensures Fresh(View(), b) <==>
                && b.header.id !in blocks && b.header.id !in orphans
                && forall i, j :: 0 <= i < j < |b.header.parents| ==> b.header.parents[i] != b.header.parents[j]
    {
      hide Blockchain.Valid, Blockchain.View;
      KeysShow();
      ViewIs();
    }

    lemma KeysShow()
      requires Valid()
      ensures blocks.Keys == dag.Keys
    {
      hide *;
      BlocksShow();
    }

    // The priority queue is its set of entries, and popping takes the top of that set.
    method PlaceAll() returns (ordering: seq<Id>)
      requires Valid()
      ensures IsGlobalOrder(dag, ordering)
    {
      hide *;
      ValidFacts();
      StructuredFacts();
      var indeg: map<Id, nat> := map[];
      var pq: set<Id> := {};
      var rest := blocks.Keys;
      ReadyWithin(dag, {});
      while rest != {}
        invariant rest <= blocks.Keys
        invariant indeg.Keys == blocks.Keys - rest
        invariant forall b :: b in indeg ==> indeg[b] == Indegree(dag, dag.Keys, {}, b)
        invariant pq == Ready(dag, {}) - rest
        decreases rest
      {
        var b :| b in rest;
        var d := CountParents(b);
        indeg := indeg[b := d];
        ReadyAtStart(dag, b);
        if d == 0 {
          pq := pq + {b};
        }
        rest := rest - {b};
      }
      ordering := [];
      OrderingStarts(dag, indeg);
      assert Ready(dag, {}) - {} == Ready(dag, {});
      while pq != {}
        invariant NoDup(ordering) && BestEverywhere(dag, ordering)
        invariant DownClosed(dag, Elems(ordering)) && pq == Ready(dag, Elems(ordering))
        invariant IndegreesAt(dag, dag.Keys, Elems(ordering), indeg)
        decreases dag.Keys - Elems(ordering)
      {
        ReadyWithin(dag, Elems(ordering));
        var cur := PopTop(pq);
        OrderingStep(dag, ordering, cur);
        ReadyStep(dag, Elems(ordering), cur);
        pq := pq - {cur};
        var released;
        indeg, released := ReleaseAll(cur, indeg, Elems(ordering));
        pq := pq + released;
        ordering := ordering + [cur];
      }
      NothingReady(dag, Elems(ordering));
      GlobalOrderFrom(dag, ordering);
    }

    method CountParents(b: Id) returns (d: nat)
      requires Structured() && b in dag
      ensures d == Indegree(dag, dag.Keys, {}, b)
    {
      hide *;
      StructuredFacts();
      BlockOf(blocks, dag, b);
      ParentsInside(dag, b);
      var ps := blocks[b].block.header.parents;
      d := 0;
      CountedNone(dag.Keys);
      assert ps[..0] == [];
      for i := 0 to |ps|
        invariant d == |CountedParents(ps[..i], dag.Keys)|
      {
        CountedSnoc(ps, dag.Keys, i);
        if ps[i] in blocks {
          d := d + 1;
        }
      }
      assert ps[..|ps|] == ps;
      CountedAll(dag, dag.Keys, b);
    }

    method ReleaseAll(cur: Id, indeg: map<Id, nat>, ghost done: set<Id>)
      returns (after: map<Id, nat>, released: set<Id>)
      requires Structured() && cur in dag && cur !in done
      requires IndegreesAt(dag, dag.Keys, done, indeg)
      ensures IndegreesAt(dag, dag.Keys, done + {cur}, after)
      ensures released == Released(dag, dag.Keys, done + {cur}, cur)
    {
      hide *;
      StructuredFacts();
      after := indeg;
      released := {};
      ghost var s := dag.Keys;
      ghost var f := Released(dag, s, done + {cur}, cur);
      DuringStarts(dag, s, done, cur, indeg);
      ReleasedAreChildren(dag, s, done + {cur}, cur);
      ChildrenLookup(dag, children, cur);
      var kids := if cur in children then children[cur] else {};
      var rest := kids;
      assert kids - kids == {};
      while rest != {}
        invariant rest <= kids
        invariant IndegreesDuring(dag, s, done, cur, kids - rest, after)
        invariant released == f * (kids - rest)
        decreases rest
      {
        var ch :| ch in rest;
        assert kids - (rest - {ch}) == (kids - rest) + {ch};
        DuringVisit(dag, s, done, cur, kids - rest, after, ch);
        IndegreeKeys(dag, s, done, cur, kids - rest, after);
        ChildInside(dag, cur, ch);
        after := after[ch := after[ch] - 1];
        if after[ch] == 0 {
          released := released + {ch};
        }
        rest := rest - {ch};
      }
      assert kids - {} == kids;
      DuringEnds(dag, s, done, cur, after);
    }

    method PopTop(pq: set<Id>) returns (t: Id)
      requires Structured() && pq != {} && pq <= dag.Keys
      ensures IsTop(dag, pq, t)
    {
      hide IsTop, Table, PastsStand, BluesStand, Linked, ChildrenAgree;
      t :| t in pq;
      var rest := pq - {t};
      TopOfOne(dag, t);
      assert pq - rest == {t};
      while rest != {}
        invariant rest <= pq && t in pq
        invariant IsTop(dag, pq - rest, t)
        decreases rest
      {
        var x :| x in rest;
        assert pq - (rest - {x}) == (pq - rest) + {x};
        TopStep(dag, pq - rest, t, x);
        if RanksBefore(blocks[x].blueScore, blocks[x].block.header.time, x,
                       blocks[t].blueScore, blocks[t].block.header.time, t) {
          t := x;
        }
        rest := rest - {x};
      }
      assert pq - {} == pq;
    }

    // is_blue by insertion index (dag.cc:424-429).
    method SnapshotBlueFlags() returns (flags: seq<bool>)
      requires Valid()
      ensures flags == FlagsOf(idOf, Flagged(blocks))
    {
      hide *;
      ValidFacts();
      StructuredFacts();
      flags := [];
      FlagsOfNone(idOf, Flagged(blocks));
      for i := 0 to |idOf|
        invariant flags == FlagsOf(idOf[..i], Flagged(blocks))
      {
        InElems(idOf, idOf[i]);
        FlagAt(blocks, idOf[i]);
        FlagsOfSnoc(idOf, Flagged(blocks), i);
        flags := flags + [blocks[idOf[i]].isBlue];
      }
      assert idOf[..|idOf|] == idOf;
    }

    // Ids, ascending, that are blue now and were not in the snapshot (dag.cc:431-441).
    method NewlyBlue(before: seq<bool>) returns (out: seq<Id>)
      requires Valid()
      ensures out == Ascending(NewBlues(idOf, Flagged(blocks), before))
    {
      hide *;
      ValidFacts();
      StructuredFacts();
      var found: set<Id> := {};
      NewBluesNone(idOf, Flagged(blocks), before);
      for i := 0 to |idOf|
        invariant found == NewBlues(idOf[..i], Flagged(blocks), before)
      {
        InElems(idOf, idOf[i]);
        FlagAt(blocks, idOf[i]);
        NewBluesSnoc(idOf, Flagged(blocks), before, i);
        var prev := i < |before| && before[i];
        if !prev && blocks[idOf[i]].isBlue {
          found := found + {idOf[i]};
        }
      }
      assert idOf[..|idOf|] == idOf;
      out := InOrder(found);
    }

    // What the tables of a chain show, in plain words.
    lemma BlocksShow()
      requires Valid()
      ensures blocks.Keys == dag.Keys && orphans.Keys !! blocks.Keys
      ensures forall b :: b in blocks ==>
                && blocks[b].block == dag[b].block && blocks[b].block.header.id == b
                && blocks[b].blueScore == |Blue(dag, b)| && blocks[b].selectedParent == dag[b].selected
      ensures forall b, p :: b in blocks && p in blocks[b].block.header.parents ==> p in blocks
    {
      hide *;
      ValidFacts();
      StructuredFacts();
      BlocksInWords(View(), k, blocks);
    }

    lemma LinksShow(p: Id, c: Id)
      requires Valid()
      ensures p in tips <==> p in blocks && forall x :: x in blocks ==> p !in blocks[x].block.header.parents
      ensures p in children && c in children[p] <==> c in blocks && p in blocks[c].block.header.parents
    {
      hide *;
      ValidFacts();
      StructuredFacts();
      LinksInWords(View(), k, blocks, p, c);
    }

    lemma FlagsShow() returns (t: Id)
      requires Valid()
      ensures t in tips && t in blocks && tips <= blocks.Keys
      ensures forall x :: x in blocks ==> blocks[x].blueScore <= blocks[t].blueScore
      ensures forall x :: x in tips && blocks[x].blueScore == blocks[t].blueScore ==> t <= x
      ensures forall b :: b in blocks ==> (blocks[b].isBlue <==> b in Blue(dag, t))
    {
      hide *;
      ValidFacts();
      StructuredFacts();
      t := FlagsInWords(View(), k, blocks);
    }

    lemma ViewIs()
      ensures View() == State(dag, orphans, children, tips, Flagged(blocks))
    {
    }

    lemma ValidFacts()
      requires Valid()
      ensures Structured() && |blueOf| == |idOf| && Consistent(View(), k)
      ensures View() == State(dag, orphans, children, tips, Flagged(blocks))
    {
    }

    lemma ValidFrom()
      requires Structured() && |blueOf| == |idOf| && Consistent(View(), k)
      ensures Valid()
    {
    }

    lemma PendingFrom(b: Block, g: Dag)
      requires Structured() && |blueOf| + 1 == |idOf|
      requires idOf[|idOf| - 1] == b.header.id && b.header.id !in g
      requires NoDup(b.header.parents) && ParentsWithin(b, g.Keys)
      requires Dags.Valid(g, k)
      requires dag == g[b.header.id := Uncoloured(g, b)]
      ensures Pending(b, g)
    {
    }

    lemma StructuredFrom()
      requires Table(idOf, idxOf) && Elems(idOf) == dag.Keys
      requires PastsStand(idOf, pastOf, dag) && BluesStand(idOf, blueOf, dag)
      requires BlocksStand(blocks, dag) && ChildrenAgree(dag, children) && Linked(dag)
      ensures Structured()
    {
    }

    lemma StructuredFacts()
      requires Structured()
      ensures NoDup(idOf) && Table(idOf, idxOf) && PastsStand(idOf, pastOf, dag) && Linked(dag)
      ensures BluesStand(idOf, blueOf, dag) && BlocksStand(blocks, dag) && ChildrenAgree(dag, children)
      ensures |pastOf| == |idOf| && |blueOf| <= |idOf| && Elems(idOf) == dag.Keys == idxOf.Keys
      ensures blocks.Keys == dag.Keys
    {
    }

    lemma IndexFacts(i: nat)
      requires Structured() && i < |idOf|
      ensures Stands(idOf, Members(pastOf[i]), Past(dag, idOf[i]))
      ensures i < |blueOf| ==> Stands(idOf, Members(blueOf[i]), Blue(dag, idOf[i]))
    {
    }
  }
}
