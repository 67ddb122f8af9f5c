/**
 * Mining (miner.cc:180-212): a new block names every tip as a parent.
 */
module Mining {
  import opened Orders
  import opened Dags
  import opened BlueSets
  import opened Width
  import opened Convergence
  import opened Growth
  import opened Blockchains
  import opened TxIdSets
  import opened Mempools
  import opened Miners
  import opened Nodes
  import opened ChainTables

  // A block over all tips has every block there was as an ancestor, and outscores it.
  lemma MinedSeesAll(g: Dag, g': Dag, k: nat, id: Id)
    requires Dags.Valid(g, k) && Dags.Valid(g', k) && Later(g, g') && id in g'
    requires Elems(Parents(g', id)) == TipsOf(g)
    ensures Past(g', id) == g.Keys
    ensures forall x :: x in g ==> Score(g', x) < Score(g', id)
  {
    hide Dags.Valid, Linked, LinkRule, ColourRule, TipsOf;
    MinedPast(g, g', k, id);
    forall x | x in g
      ensures Score(g', x) < Score(g', id)
    {
      AncestorScoresLess(g', k, id, x);
    }
  }

  lemma MinedPast(g: Dag, g': Dag, k: nat, id: Id)
    requires Dags.Valid(g, k) && Dags.Valid(g', k) && Later(g, g') && id in g'
    requires Elems(Parents(g', id)) == TipsOf(g)
    ensures Past(g', id) == g.Keys
  {
    hide ColourRule;
    var ps := Parents(g', id);
    assert LinkRule(g', id);
    forall x | x in g
      ensures x in Past(g', id)
    {
      var t := TipAbove(g, k, x);
      assert t in Elems(ps) && x in Past(g', t) + {t};
      assert x in PastOf(g', ps);
    }
    forall x | x in PastOf(g', ps)
      ensures x in g
    {
      var p :| p in ps && x in Past(g', p) + {p};
      assert p in Elems(ps);
      PastInDag(g, p);
    }
  }

  // The block takes its transactions out of the pool as SelectTransactions chooses them.
  method MineBlock(chain: Blockchain, pool: Mempool, minerId: nat, nextBlockId: nat, time: real,
                   txsPerBlock: int, strategy: int, starts: nat -> nat, pick: nat -> nat)
    returns (id: Id, nextBlockId': nat)
    requires chain.Valid() && pool.Valid() && nextBlockId < SEQUENCES
    requires minerId * SEQUENCES + nextBlockId !in Delivered(chain.View())
    modifies chain, pool, pool.buckets
    ensures id == minerId * SEQUENCES + nextBlockId && nextBlockId' == nextBlockId + 1
    ensures chain.Valid() && Extends(old(chain.View()), chain.View()) && pool.Valid()
    ensures id in chain.dag && chain.dag[id].block.header.minerId == minerId && chain.dag[id].block.header.time == time
    ensures chain.dag[id].block.txs == IdsGone(old(pool.items), pool.items)
    ensures pool.itemCount == old(pool.itemCount) - Quota(txsPerBlock, old(pool.itemCount))
    ensures strategy != 0 ==> DearestGone(old(pool.items), pool.items)
    ensures id == minerId * 0x1_0000_0000 + nextBlockId
    ensures old(pool.itemCount) - pool.itemCount
         == if txsPerBlock <= 0 then 0 else if txsPerBlock < old(pool.itemCount) then txsPerBlock else old(pool.itemCount)
    ensures forall h :: h in pool.items ==> h in old(pool.items) && pool.items[h] == old(pool.items)[h]
    ensures forall t :: t in chain.dag[id].block.txs <==>
              exists h :: h in old(pool.items) && h !in pool.items && old(pool.items)[h].txId == t
    ensures strategy != 0 ==>
              forall g, h :: g in old(pool.items) && g !in pool.items && h in pool.items ==>
                old(pool.items)[g].fee >= pool.items[h].fee
    ensures var parents := chain.dag[id].block.header.parents;
      && (forall p :: p in parents <==> p in old(chain.tips))
      && forall i, j :: 0 <= i < j < |parents| ==> parents[i] < parents[j]
    ensures id in chain.blocks && chain.blocks[id].block == chain.dag[id].block
    ensures Past(chain.dag, id) == old(chain.dag).Keys
    ensures forall x :: x in old(chain.dag) ==> Score(chain.dag, x) < Score(chain.dag, id)
    ensures |old(chain.tips)| == 1
            && (forall o :: o in old(chain.orphans) ==>
                  && id !in old(chain.orphans)[o].header.parents
                  && exists p :: p in old(chain.orphans)[o].header.parents && p !in old(chain.blocks))
            ==> forall c :: c in chain.blocks && chain.blocks[c].isBlue <==> c == id || (c in old(chain.blocks) && old(chain.blocks)[c].isBlue)
    ensures forall known :: Clean(old(pool.items), known, old(Delivered(chain.View())), old(Flagged(chain.blocks))) ==>
              (Clean(pool.items, known, Delivered(chain.View()), Flagged(chain.blocks)) <==>
               NoneTurnedBlue(pool.items, Delivered(chain.View()), old(Flagged(chain.blocks)), Flagged(chain.blocks), id))
    ensures OneTip(old(chain.View()), id) ==>
              && Flagged(chain.blocks) == old(Flagged(chain.blocks)) + {id}
              && NoneTurnedBlue(pool.items, Delivered(chain.View()), old(Flagged(chain.blocks)), Flagged(chain.blocks), id)
  {
    hide *;
    BluesAreDelivered(chain);
    ghost var before, items, blues := chain.View(), pool.items, Flagged(chain.blocks);
    id := minerId * SEQUENCES + nextBlockId;
    MinedId(minerId, nextBlockId);
    nextBlockId' := nextBlockId + 1;
    var parents := InOrder(chain.tips);
    ParentsInWords(chain.tips, parents);
    var selected := SelectTransactions(pool, txsPerBlock, strategy, starts, pick);
    var block := Block(Header(id, minerId, time, parents), selected.Keys);
    AddMined(chain, block);
    SelectedIds(items, pool.items, selected);
    SameIds(items, pool.items, selected);
    SelectedPart(items, pool.items, selected);
    OnlyOneTurned(pool.items, Delivered(chain.View()), blues, id);
    forall known | Clean(items, known, Delivered(before), blues)
      ensures Clean(pool.items, known, Delivered(chain.View()), Flagged(chain.blocks)) <==>
              NoneTurnedBlue(pool.items, Delivered(chain.View()), blues, Flagged(chain.blocks), id)
    {
      MinedClean(items, pool.items, known, Delivered(before), blues, block, Flagged(chain.blocks));
    }
  }

  // The block goes into the chain.
  method AddMined(chain: Blockchain, block: Block)
    requires chain.Valid() && block.header.id !in Delivered(chain.View()) && block.header.parents == Ascending(chain.tips)
    modifies chain
    ensures chain.Valid() && Extends(old(chain.View()), chain.View())
    ensures Delivered(chain.View()) == old(Delivered(chain.View()))[block.header.id := block]
    ensures block.header.id in chain.dag && chain.dag[block.header.id].block == block
    ensures block.header.id in chain.blocks && chain.blocks[block.header.id].block == block
    ensures Past(chain.dag, block.header.id) == old(chain.dag).Keys
    ensures forall x :: x in old(chain.dag) ==> Score(chain.dag, x) < Score(chain.dag, block.header.id)
    ensures OneTip(old(chain.View()), block.header.id) ==>
              Flagged(chain.blocks) == old(Flagged(chain.blocks)) + {block.header.id}
    ensures |old(chain.tips)| == 1
            && (forall o :: o in old(chain.orphans) ==>
                  && block.header.id !in old(chain.orphans)[o].header.parents
                  && exists p :: p in old(chain.orphans)[o].header.parents && p !in old(chain.blocks))
            ==> forall c :: c in chain.blocks && chain.blocks[c].isBlue <==>
                  c == block.header.id || (c in old(chain.blocks) && old(chain.blocks)[c].isBlue)
  {
    hide *;
    chain.ValidFacts();
    ChainFacts(chain);
    BluesAreDelivered(chain);
    OneTipShows(chain, block.header.id);
    ghost var before, blocks := chain.View(), chain.blocks;
    ViewFields(chain);
    TipsListed(before, chain.k, block.header.parents);
    MinedIsFresh(before, block);
    chain.AddBlock(block);
    chain.ValidFacts();
    ViewFields(chain);
    MinedStands(before, chain.View(), chain.k, block);
    MinedSeesAll(before.dag, chain.dag, chain.k, block.header.id);
    OnlyMinedTurnsBlue(before, chain.View(), chain.k, block);
    ViewBlues(chain);
    chain.BlocksShow();
    FlagsGain(blocks, chain.blocks, block.header.id);
  }

  lemma MinedId(minerId: nat, number: nat)
    ensures minerId * SEQUENCES + number == minerId * 0x1_0000_0000 + number
  {
  }

  lemma ViewFields(chain: Blockchain)
    ensures chain.View().dag == chain.dag && chain.View().tips == chain.tips && chain.View().orphans == chain.orphans
  {
  }

  lemma FlagsGain(before: map<Id, Accepted>, after: map<Id, Accepted>, id: Id)
    ensures Flagged(after) == Flagged(before) + {id} ==>
              forall c :: c in after && after[c].isBlue <==> c == id || (c in before && before[c].isBlue)
  {
    assert forall c :: c in Flagged(after) <==> c in after && after[c].isBlue;
    assert forall c :: c in Flagged(before) <==> c in before && before[c].isBlue;
  }

  lemma OneTipShows(chain: Blockchain, id: Id)
    requires chain.Valid()
    ensures |chain.tips| == 1
            && (forall o :: o in chain.orphans ==>
                  && id !in chain.orphans[o].header.parents
                  && exists p :: p in chain.orphans[o].header.parents && p !in chain.blocks)
            <==> OneTip(chain.View(), id)
  {
    hide Blockchain.Valid, Blockchain.View;
    ViewFields(chain);
    chain.BlocksShow();
  }

  // ---------------------------------------------------------------------
  // The miner's pool
  // ---------------------------------------------------------------------

  // No block delivered earlier that turned blue with the mined one holds a transaction
  // still in the pool.
  ghost predicate NoneTurnedBlue(items: map<nat, Item>, delivered: map<Id, Block>, blues: set<Id>, blues': set<Id>, id: Id) {
    forall h, c :: h in items && c in blues' - blues && c != id && c in delivered ==> items[h].txId !in delivered[c].txs
  }

  lemma OnlyOneTurned(items: map<nat, Item>, delivered: map<Id, Block>, blues: set<Id>, id: Id)
    ensures NoneTurnedBlue(items, delivered, blues, blues + {id}, id)
  {
  }

  // A miner evicts nothing, so its pool stays clean exactly if there was nothing to evict.
  lemma MinedClean(items: map<nat, Item>, items': map<nat, Item>, known: set<nat>,
                   before: map<Id, Block>, blues: set<Id>, b: Block, blues': set<Id>)
    requires Clean(items, known, before, blues) && b.header.id !in before && blues <= before.Keys
    requires Part(items', items) && b.txs == IdsGone(items, items')
    ensures var after := before[b.header.id := b];
      Clean(items', known, after, blues') <==> NoneTurnedBlue(items', after, blues, blues', b.header.id)
  {
    var after := before[b.header.id := b];
    forall h | h in items'
      ensures items'[h].txId !in b.txs && items'[h].txId in Ids(items)
    {
      StillThere(items, items', h);
    }
    assert Ids(items') <= known;
    assert b.txs <= known by {
      assert forall id :: id in b.txs ==> id in Ids(items);
    }
    if NoneTurnedBlue(items', after, blues, blues', b.header.id) {
      forall h, c | h in items' && c in blues' && c in after
        ensures items'[h].txId !in after[c].txs
      {
        assert c in blues ==> c in before && items[h].txId !in before[c].txs;
        assert c !in blues && c != b.header.id ==> c in blues' - blues;
      }
    }
  }

  lemma StillThere(items: map<nat, Item>, items': map<nat, Item>, h: nat)
    requires Distinct(items) && Part(items', items) && h in items'
    ensures items'[h].txId !in IdsGone(items, items') && items'[h].txId in Ids(items)
  {
    assert items[h].txId in Ids(items);
  }

  // One tip, nothing complete left waiting, and nothing waiting for the new block, whose
  // id nobody has seen.
  ghost predicate OneTip(s: State, id: Id) {
    |s.tips| == 1 && Settled(s) && forall o :: o in s.orphans ==> id !in s.orphans[o].header.parents
  }

  // On a single tip the mined block turns blue and no other does.
  lemma OnlyMinedTurnsBlue(before: State, after: State, k: nat, b: Block)
    requires Consistent(before, k) && Consistent(after, k)
    requires Later(before.dag, after.dag) && b.header.id !in before.dag && b.header.id in after.dag
    requires Delivered(after) == Delivered(before)[b.header.id := b]
    requires Parents(after.dag, b.header.id) == b.header.parents == Ascending(before.tips)
    requires OneTip(before, b.header.id) ==> Settled(after)
    requires Past(after.dag, b.header.id) == before.dag.Keys
    requires forall x :: x in before.dag ==> Score(after.dag, x) < Score(after.dag, b.header.id)
    ensures OneTip(before, b.header.id) ==> after.blues == before.blues + {b.header.id}
  {
    hide Consistent, Settled, Ascending, Delivered, Later;
    if OneTip(before, b.header.id) {
      ConsistentValid(after, k);
      OnlyMinedAccepted(before, after, k, b);
      var t := OnlyTip(before, k);
      BlueOverTip(before.dag, after.dag, k, b.header.id, t);
      TopTurns(before, after, k, b.header.id, t);
    }
  }

  lemma OnlyMinedAccepted(before: State, after: State, k: nat, b: Block)
    requires Consistent(before, k) && Consistent(after, k) && OneTip(before, b.header.id) && Settled(after)
    requires Later(before.dag, after.dag) && b.header.id in after.dag
    requires Delivered(after) == Delivered(before)[b.header.id := b]
    ensures after.dag.Keys == before.dag.Keys + {b.header.id}
  {
    hide *;
    AcceptedIsLeastClosed(after, k);
    ClosedWithMined(before, b);
    assert after.dag.Keys <= before.dag.Keys + {b.header.id};
    LaterKeys(before.dag, after.dag);
  }

  // No orphan follows the mined block.
  lemma ClosedWithMined(before: State, b: Block)
    requires OneTip(before, b.header.id)
    ensures ClosedUnderArrival(Delivered(before)[b.header.id := b], before.dag.Keys + {b.header.id})
  {
    var id := b.header.id;
    forall o | o in before.orphans
      ensures !ParentsWithin(before.orphans[o], before.dag.Keys + {id})
    {
      var p :| p in before.orphans[o].header.parents && p !in before.dag;
      assert p != id;
    }
  }

  lemma LaterKeys(g: Dag, g': Dag)
    requires Later(g, g')
    ensures g.Keys <= g'.Keys
  {
  }

  lemma OnlyTip(s: State, k: nat) returns (t: Id)
    requires Consistent(s, k) && |s.tips| == 1
    ensures s.tips == {t} && Ascending(s.tips) == [t] && t in s.dag && s.blues == Blue(s.dag, t)
    ensures s.dag.Keys == Past(s.dag, t) + {t}
  {
    hide Dags.Valid, ChildrenAgree;
    t :| t in s.tips;
    SubsetCard({t}, s.tips);
    AscendingStep({t});
    AscendingEmpty();
    assert {t} - {t} == {};
    forall x | x in s.dag
      ensures x in Past(s.dag, t) + {t}
    {
      var above := TipAbove(s.dag, k, x);
    }
    ValidLinked(s.dag, k);
    PastInDag(s.dag, t);
  }

  lemma BlueOverTip(g: Dag, g': Dag, k: nat, id: Id, t: Id)
    requires Dags.Valid(g', k) && Later(g, g') && id in g' && t in g
    requires Parents(g', id) == [t] && Past(g', id) == Past(g, t) + {t}
    ensures Blue(g', id) == Blue(g, t) + {id}
  {
    hide Kahn, LinkRule;
    assert ColourRule(g', k, id);
    assert g'[id].selected.value in Elems([t]);
    assert MergeSet(g', Past(g', id), t) == {};
    KahnOfNone(g');
  }

  lemma TopTurns(before: State, after: State, k: nat, id: Id, t: Id)
    requires Consistent(after, k) && id in after.dag
    requires after.dag.Keys == before.dag.Keys + {id} && before.blues == Blue(before.dag, t)
    requires Blue(after.dag, id) == Blue(before.dag, t) + {id}
    requires forall x :: x in before.dag ==> Score(after.dag, x) < Score(after.dag, id)
    ensures after.blues == before.blues + {id}
  {
    hide Dags.Valid, ChildrenAgree;
    var top :| IsBest(after.dag, after.tips, top) && after.blues == Blue(after.dag, top);
    SelectedTipScoresHighest(after.dag, k, top, id);
    assert top in after.dag.Keys;
  }

  lemma ViewBlues(chain: Blockchain)
    ensures chain.View().blues == Flagged(chain.blocks)
  {
  }

  lemma BluesAreDelivered(chain: Blockchain)
    requires chain.Valid()
    ensures chain.View().blues == Flagged(chain.blocks) <= Delivered(chain.View()).Keys
  {
    hide *;
    ViewBlues(chain);
    ChainFacts(chain);
  }

  lemma SelectedPart(before: map<nat, Item>, after: map<nat, Item>, selected: map<nat, nat>)
    requires Selected(before, after, selected)
    ensures Part(after, before)
  {
  }

  // ---------------------------------------------------------------------
  // Facts about one mined block
  // ---------------------------------------------------------------------

  // The ids of the items that went.
  ghost function IdsGone(before: map<nat, Item>, after: map<nat, Item>): set<nat> {
    set h | h in before && h !in after :: before[h].txId
  }

  lemma SelectedIds(before: map<nat, Item>, after: map<nat, Item>, selected: map<nat, nat>)
    requires Selected(before, after, selected)
    ensures selected.Keys == IdsGone(before, after)
  {
    forall id | id in selected
      ensures id in IdsGone(before, after)
    {
      var h :| WentAs(before, after, h, id, selected[id]);
      assert before[h].txId == id;
    }
  }

  lemma ParentsInWords(tips: set<Id>, parents: seq<Id>)
    requires parents == Ascending(tips)
    ensures forall p :: p in parents <==> p in tips
    ensures forall i, j :: 0 <= i < j < |parents| ==> parents[i] < parents[j]
  {
    assert forall p :: p in parents <==> p in Elems(parents);
  }

  lemma SameIds(before: map<nat, Item>, after: map<nat, Item>, selected: map<nat, nat>)
    requires Selected(before, after, selected)
    ensures forall t :: t in selected <==> exists h :: h in before && h !in after && before[h].txId == t
  {
    SelectedInWords(before, after, selected);
  }

  lemma TipsListed(s: State, k: nat, parents: seq<Id>)
    requires Consistent(s, k) && parents == Ascending(s.tips)
    ensures Dags.Valid(s.dag, k) && NoDup(parents) && Elems(parents) == TipsOf(s.dag)
    ensures forall p :: p in parents ==> p in s.dag
  {
    hide Dags.Valid, ChildrenAgree, ColouredBy;
    SortedNoDup(parents);
    forall p | p in parents
      ensures p in s.dag
    {
      assert p in Elems(parents);
    }
  }

  lemma MinedIsFresh(s: State, b: Block)
    requires b.header.id !in Delivered(s) && NoDup(b.header.parents) && forall p :: p in b.header.parents ==> p in s.dag
    ensures Fresh(s, b) && ParentsWithin(b, s.dag.Keys)
  {
  }

  lemma MinedStands(before: State, after: State, k: nat, b: Block)
    requires Consistent(after, k) && Extends(before, after) && b.header.id in after.dag
    requires Delivered(after)[b.header.id] == b && after.orphans.Keys !! after.dag.Keys
    ensures Dags.Valid(after.dag, k) && Later(before.dag, after.dag)
    ensures after.dag[b.header.id].block == b && Parents(after.dag, b.header.id) == b.header.parents
  {
    hide Dags.Valid, ChildrenAgree, ColouredBy;
  }
}
