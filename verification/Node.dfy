/**
 * What a node that does not mine does to its mempool when transactions and blocks come in
 * (node.cc:919-1020, node.cc:1346-1380, node.cc:1484-1500).
 */
module Nodes {
  import opened Orders
  import opened Dags
  import opened Convergence
  import opened Growth
  import opened ChainTables
  import opened Blockchains
  import opened Mempools
  import opened Miners
  import opened TxIdSets
  import opened TxRequests

  // Every item was hashed under the node its id names.
  ghost predicate Keyed(items: map<nat, Item>) {
    forall h :: h in items ==> items[h].minerId == NodeOf(items[h].txId)
  }

  // The pool has no duplicates, nothing unknown and nothing that a currently blue block
  // holds; every transaction of a delivered block is known.
  ghost predicate Clean(items: map<nat, Item>, known: set<nat>, delivered: map<Id, Block>, blues: set<Id>) {
    && Distinct(items) && Keyed(items) && Ids(items) <= known
    && (forall b :: b in delivered ==> delivered[b].txs <= known)
    && (forall h, b :: h in items && b in blues && b in delivered ==> items[h].txId !in delivered[b].txs)
  }

  lemma CleanMeans(items: map<nat, Item>, known: set<nat>, delivered: map<Id, Block>, blues: set<Id>)
    ensures Clean(items, known, delivered, blues) <==>
              && (forall g, h :: g in items && h in items && g != h ==> items[g].txId != items[h].txId)
              && (forall h :: h in items ==> items[h].minerId == items[h].txId / 0x1_0000_0000 && items[h].txId in known)
              && (forall b, t :: b in delivered && t in delivered[b].txs ==> t in known)
              && (forall h, b :: h in items && b in blues && b in delivered ==> items[h].txId !in delivered[b].txs)
  {
    assert forall h :: h in items ==> items[h].txId in Ids(items);
  }

  // The items whose transactions are not among txs.
  ghost function Without(items: map<nat, Item>, txs: set<nat>): map<nat, Item> {
    map h | h in items && items[h].txId !in txs :: items[h]
  }

  // The transactions of some delivered blocks.
  ghost function TxsOf(delivered: map<Id, Block>, ids: set<Id>): set<nat> {
    set b, t | b in ids && b in delivered && t in delivered[b].txs :: t
  }

  lemma WithoutNone(items: map<nat, Item>)
    ensures Without(items, {}) == items
  {
  }

  lemma WithoutMore(items: map<nat, Item>, a: set<nat>, b: set<nat>)
    ensures Without(Without(items, a), b) == Without(items, a + b)
  {
  }

  lemma WithoutKeeps(items: map<nat, Item>, txs: set<nat>)
    requires Distinct(items) && Keyed(items)
    ensures Distinct(Without(items, txs)) && Keyed(Without(items, txs))
  {
  }

  lemma TxsMore(delivered: map<Id, Block>, ids: set<Id>, b: Id)
    requires b in delivered
    ensures TxsOf(delivered, ids + {b}) == TxsOf(delivered, ids) + delivered[b].txs
  {
  }

  // A block is delivered, and what turned blue with it is evicted.
  lemma EvictionKeepsClean(items: map<nat, Item>, known: set<nat>, before: map<Id, Block>, blues: set<Id>, b: Block, after: map<Id, Block>, blues': set<Id>)
    requires Clean(items, known, before, blues) && b.header.id !in before
    requires after == before[b.header.id := b] && blues <= before.Keys && b.txs <= known
    ensures Clean(Without(items, TxsOf(after, blues' - blues)), known, after, blues')
  {
    var gone := TxsOf(after, blues' - blues);
    var items' := Without(items, gone);
    WithoutKeeps(items, gone);
    forall h, c | h in items' && c in blues' && c in after
      ensures items'[h].txId !in after[c].txs
    {
      assert c !in blues ==> after[c].txs <= gone;
    }
    assert Ids(items') <= Ids(items);
  }

  lemma MoreKnown(items: map<nat, Item>, known: set<nat>, known': set<nat>, delivered: map<Id, Block>, blues: set<Id>)
    requires Clean(items, known, delivered, blues) && known <= known'
    ensures Clean(items, known', delivered, blues)
  {
  }

  // Not in the pool, nor in a currently blue block.
  ghost predicate MayEnter(items: map<nat, Item>, delivered: map<Id, Block>, blues: set<Id>, txId: nat) {
    txId !in Ids(items) && forall b :: b in blues && b in delivered ==> txId !in delivered[b].txs
  }

  // A new item keeps the pool clean exactly if it may enter, as an unknown one may.
  lemma NewItemKeepsClean(items: map<nat, Item>, known: set<nat>, delivered: map<Id, Block>, blues: set<Id>, h: nat, item: Item)
    requires Clean(items, known, delivered, blues)
    requires h !in items && item.minerId == NodeOf(item.txId)
    ensures Clean(items[h := item], known + {item.txId}, delivered, blues) <==> MayEnter(items, delivered, blues, item.txId)
    ensures item.txId !in known ==> MayEnter(items, delivered, blues, item.txId)
  {
    var items' := items[h := item];
    OneMoreId(items, h, item);
    EnteredMay(items, known, delivered, blues, h, item);
    if MayEnter(items, delivered, blues, item.txId) {
      assert forall g :: g in items ==> items[g].txId in Ids(items);
      assert Distinct(items');
    }
  }

  lemma EnteredMay(items: map<nat, Item>, known: set<nat>, delivered: map<Id, Block>, blues: set<Id>, h: nat, item: Item)
    requires h !in items
    ensures Clean(items[h := item], known + {item.txId}, delivered, blues) ==> MayEnter(items, delivered, blues, item.txId)
  {
    var items' := items[h := item];
    assert items'[h] == item;
    forall g | g in items && Clean(items', known + {item.txId}, delivered, blues)
      ensures items[g].txId != item.txId
    {
      assert items'[g] == items[g];
    }
  }

  // ---------------------------------------------------------------------
  // The node
  // ---------------------------------------------------------------------

  class Node {
    const id: nat
    const mempoolSize: nat
    const chain: Blockchain
    const pool: Mempool
    const book: TxRequestBook
    var txsGenerated: nat

    ghost predicate Valid()
      reads this, chain, pool, pool.buckets, book, book.known
    {
      && chain.Valid() && pool.Valid() && book.Valid()
      && Clean(pool.items, book.known.Ids(), Delivered(chain.View()), Flagged(chain.blocks))
    }

    // A node that has just started.
    constructor (id: nat, k: nat, hash: Hash, mempoolSize: nat, timeout: nat)
      requires mempoolSize > 0
      ensures Valid() && fresh(chain) && fresh(pool) && fresh(pool.buckets) && fresh(book) && fresh(book.known)
      ensures pool.items == map[] && book.requests == map[]
    {
      hide *;
      this.id, this.mempoolSize, txsGenerated := id, mempoolSize, 0;
      chain := new Blockchain(k);
      pool := new Mempool(hash, mempoolSize);
      book := new TxRequestBook(timeout);
      new;
      StartsClean(Flagged(chain.blocks));
      ValidAgain();
    }

    lemma Facts()
      requires Valid()
      ensures chain.Valid() && pool.Valid() && book.Valid()
      ensures Clean(pool.items, book.known.Ids(), Delivered(chain.View()), Flagged(chain.blocks))
    {
    }

    lemma ValidAgain()
      requires chain.Valid() && pool.Valid() && book.Valid()
      requires Clean(pool.items, book.known.Ids(), Delivered(chain.View()), Flagged(chain.blocks))
      ensures Valid()
    {
    }

    // HandleInvTransactions (node.cc:1272-1307).
    method HandleInvTransactions(txs: seq<nat>, from: Peer) returns (wanted: seq<nat>)
      requires Valid()
      modifies book`requests, book`fifo, book`timer, book`announced, book`asked
      ensures Valid()
      ensures NewlyWanted(book.known.Ids(), old(book.requests), txs, wanted)
      ensures Requested(old(book.requests), book.requests, wanted, book.now + book.timeout)
      ensures forall tx :: tx in wanted <==> tx in txs && tx !in book.known.Ids() && tx !in old(book.requests)
      ensures forall tx :: tx in book.requests ==>
                book.requests[tx].announcers == (if tx in old(book.requests) then old(book.requests)[tx].announcers else [])
                                                + seq(if tx in book.known.Ids() then 0 else multiset(txs)[tx], _ => from)
    {
      hide *;
      Facts();
      wanted := book.HandleInvTransactions(txs, from);
      ValidAgain();
    }

    // ProcessTxTimeouts (node.cc:1419-1460).
    method ProcessTxTimeouts(pick: (nat, nat) -> nat) returns (asks: seq<Ask>)
      requires Valid() && book.timer == Some(book.now)
      modifies book`requests, book`fifo, book`timer, book`asked
      ensures Valid() && Expired(old(book.requests), book.requests, book.now, book.timeout)
      ensures forall tx :: tx in old(book.requests) && old(book.requests)[tx].deadline > book.now ==>
                tx in book.requests && book.requests[tx] == old(book.requests)[tx]
      ensures forall tx :: tx in book.requests ==> tx in old(book.requests)
      ensures forall tx :: tx in book.requests ==> book.requests[tx].deadline > book.now
    {
      hide *;
      Facts();
      asks := book.ProcessTxTimeouts(pick);
      ValidAgain();
    }

    // HandleTransactions (node.cc:1346-1380): the requests are answered, every id becomes
    // known, and of the new ids, each once and in order, the pool takes as many as it has
    // room for, each with the fee that comes with it first. drawn(i) is the fee drawn for
    // a transaction that comes with none.
    method HandleTransactions(txs: seq<nat>, fees: seq<nat>, drawn: nat -> nat)
      returns (accepted: seq<nat>, ghost handles: seq<nat>)
      requires Valid() && |fees| == |txs|
      modifies pool, pool.buckets, book`requests, book.known
      ensures Valid() && book.known.Ids() == old(book.known.Ids()) + Elems(txs)
      ensures book.requests == old(book.requests) - Elems(txs)
      ensures var unknown, room := NewIds(old(book.known.Ids()), txs), mempoolSize - old(pool.itemCount);
        accepted == if room <= 0 then [] else if room < |unknown| then unknown[..room] else unknown
      ensures pool.itemCount == old(pool.itemCount) + |accepted|
      ensures |handles| == |accepted| && forall i, j :: 0 <= i < j < |handles| ==> handles[i] != handles[j]
      ensures forall h :: h in pool.items <==> h in old(pool.items) || h in handles
      ensures forall h :: h in old(pool.items) ==> h in pool.items && pool.items[h] == old(pool.items)[h] && h !in handles
      ensures forall i :: 0 <= i < |handles| ==>
                && handles[i] in pool.items && pool.items[handles[i]].txId == accepted[i]
                && pool.items[handles[i]].minerId == accepted[i] / 0x1_0000_0000
      ensures forall i, p :: 0 <= i < |handles| && 0 <= p < |txs| && txs[p] == accepted[i] && txs[p] !in txs[..p] ==>
                handles[i] in pool.items && pool.items[handles[i]].fee == if fees[p] > 0 then fees[p] else drawn(p)
    {
      hide *;
      accepted, handles := [], [];
      ghost var known, room := book.known.Ids(), mempoolSize - pool.itemCount;
      ghost var items := pool.items;
      NoneTaken(known, txs, room, book.requests);
      NoneEntered(items, txs, fees, drawn);
      for i := 0 to |txs|
        invariant Valid() && book.known.Ids() == known + Elems(txs[..i])
        invariant book.requests == old(book.requests) - Elems(txs[..i])
        invariant accepted == FirstOf(NewIds(known, txs[..i]), room)
        invariant pool.itemCount == old(pool.itemCount) + |accepted|
        invariant Entered(items, pool.items, handles, accepted) && Priced(pool.items, handles, txs, i, fees, drawn)
      {
        NextTaken(known, txs, i, room);
        NextAnswered(old(book.requests), txs, i);
        ghost var before := pool.items;
        var took, at := HandleTransaction(txs[i], fees[i], drawn(i));
        TakenBefore(known, txs, i, room);
        if took {
          NextEntered(items, before, pool.items, handles, accepted, at, txs[i]);
          NextPriced(known, items, before, pool.items, handles, accepted, at, txs, i, fees, drawn);
          accepted, handles := accepted + [txs[i]], handles + [at];
        } else {
          NonePriced(items, before, handles, accepted, txs, i, fees, drawn);
        }
      }
      assert txs[..|txs|] == txs;
      EnteredInWords(items, pool.items, handles, accepted);
      PricedInWords(pool.items, handles, accepted, txs, fees, drawn);
      FirstOfIs(NewIds(known, txs), room);
    }

    // One transaction of the batch; `at` is the new item's handle.
    method HandleTransaction(txId: nat, fee: nat, drawn: nat) returns (accepted: bool, ghost at: nat)
      requires Valid()
      modifies pool, pool.buckets, book`requests, book.known
      ensures Valid() && book.known.Ids() == old(book.known.Ids()) + {txId}
      ensures book.requests == old(book.requests) - {txId}
      ensures accepted <==> txId !in old(book.known.Ids()) && old(pool.itemCount) < mempoolSize
      ensures pool.itemCount == old(pool.itemCount) + if accepted then 1 else 0
      ensures !accepted ==> pool.items == old(pool.items)
      ensures accepted ==>
                && at !in old(pool.items) && at in pool.items
                && pool.items == old(pool.items)[at := pool.items[at]]
                && pool.items[at].minerId == txId / 0x1_0000_0000 && pool.items[at].txId == txId
                && pool.items[at].fee == if fee > 0 then fee else drawn
    {
      hide *;
      Facts();
      at := 0;
      ghost var known := book.known.Ids();
      MoreKnown(pool.items, known, known + {txId}, Delivered(chain.View()), Flagged(chain.blocks));
      var isNew := book.Answer(txId);
      if !isNew || pool.itemCount >= mempoolSize {
        ValidAgain();
        return false, at;
      }
      ghost var items := pool.items;
      NodeOfIs(txId);
      var it := pool.Insert(NodeOf(txId), txId, if fee > 0 then fee else drawn);
      at := it.item;
      NewItemKeepsClean(items, known, Delivered(chain.View()), Flagged(chain.blocks), at, pool.items[at]);
      ValidAgain();
      accepted := true;
    }

    // GenerateTransaction (node.cc:1484-1500); the node stays clean exactly if its own id,
    // when it enters, is not in the pool or in a blue block already.
    method GenerateTransaction(fee: nat) returns (added: bool, ghost at: nat)
      requires Valid() && txsGenerated < SEQUENCES
      modifies this`txsGenerated, pool, pool.buckets, book.known
      ensures chain.Valid() && pool.Valid() && book.Valid()
      ensures var txId := id * 0x1_0000_0000 + old(txsGenerated);
        Valid() <==>
          (added ==>
             && (forall h :: h in old(pool.items) ==> old(pool.items)[h].txId != txId)
             && (forall b :: b in chain.blocks && chain.blocks[b].isBlue ==> txId !in chain.blocks[b].block.txs))
      ensures id * 0x1_0000_0000 + old(txsGenerated) !in old(book.known.Ids()) ==> Valid()
      ensures added <==> old(pool.itemCount) < mempoolSize
      ensures txsGenerated == old(txsGenerated) + if added then 1 else 0
      ensures book.known.Ids() == old(book.known.Ids()) + if added then {id * 0x1_0000_0000 + old(txsGenerated)} else {}
      ensures !added ==> pool.items == old(pool.items)
      ensures added ==>
                && at !in old(pool.items) && at in pool.items
                && pool.items == old(pool.items)[at := pool.items[at]]
                && pool.items[at].minerId == id && pool.items[at].txId == id * 0x1_0000_0000 + old(txsGenerated)
                && pool.items[at].fee == fee
    {
      hide *;
      Facts();
      at := 0;
      if pool.itemCount >= mempoolSize {
        return false, at;
      }
      var txId := id * SEQUENCES + txsGenerated;
      OwnId(id, txsGenerated);
      ghost var items, known := pool.items, book.known.Ids();
      MayEnterInWords(items, chain, txId);
      var it := pool.Insert(id, txId, fee);
      book.Learn(txId);
      at := it.item;
      NewItemKeepsClean(items, known, Delivered(chain.View()), Flagged(chain.blocks), at, pool.items[at]);
      txsGenerated := txsGenerated + 1;
      ValidIff();
      added := true;
    }

    lemma ValidIff()
      requires chain.Valid() && pool.Valid() && book.Valid()
      ensures Valid() <==> Clean(pool.items, book.known.Ids(), Delivered(chain.View()), Flagged(chain.blocks))
    {
    }

    // Erases a transaction if the pool has it (node.cc:1012-1016).
    method Evict(txId: nat)
      requires pool.Valid() && Distinct(pool.items) && Keyed(pool.items)
      modifies pool, pool.buckets
      ensures pool.Valid() && pool.items == Without(old(pool.items), {txId})
    {
      hide Stored, BucketOf, NodeOf;
      var it := pool.Find(NodeOf(txId), txId);
      pool.EraseTransaction(it);
    }

    method EvictAll(txs: set<nat>)
      requires pool.Valid() && Distinct(pool.items) && Keyed(pool.items)
      modifies pool, pool.buckets
      ensures pool.Valid() && pool.items == Without(old(pool.items), txs)
    {
      hide *;
      ghost var items := pool.items;
      var rest := txs;
      WithoutNone(items);
      assert txs - rest == {};
      while rest != {}
        invariant rest <= txs && pool.Valid() && pool.items == Without(items, txs - rest)
        decreases |rest|
      {
        var t :| t in rest;
        assert (txs - rest) + {t} == txs - (rest - {t});
        WithoutKeeps(items, txs - rest);
        WithoutMore(items, txs - rest, {t});
        Evict(t);
        rest := rest - {t};
      }
      assert txs - {} == txs;
    }

    // HandleBlock (node.cc:919-1020): whatever turns blue, with the block or with the
    // orphans it releases, leaves the pool, and nothing else does.
    method HandleBlock(b: Block)
      requires Valid() && NoDup(b.header.parents)
      modifies chain, pool, pool.buckets, book.known
      ensures Valid()
      ensures b.header.id in old(Delivered(chain.View())) ==>
                && chain.View() == old(chain.View()) && pool.items == old(pool.items)
                && book.known.Ids() == old(book.known.Ids())
      ensures b.header.id !in old(Delivered(chain.View())) ==>
                && Delivered(chain.View()) == old(Delivered(chain.View()))[b.header.id := b]
                && book.known.Ids() == old(book.known.Ids()) + b.txs
                && pool.items == Without(old(pool.items),
                     TxsOf(Delivered(chain.View()), Flagged(chain.blocks) - old(Flagged(chain.blocks))))
      ensures forall h :: h in pool.items <==>
                && h in old(pool.items)
                && forall c :: c in chain.blocks && chain.blocks[c].isBlue && !(c in old(chain.blocks) && old(chain.blocks)[c].isBlue)
                     ==> old(pool.items)[h].txId !in chain.blocks[c].block.txs
      ensures forall h :: h in pool.items ==> h in old(pool.items) && pool.items[h] == old(pool.items)[h]
      ensures book.known.Ids()
           == old(book.known.Ids()) + if b.header.id in old(chain.blocks) || b.header.id in old(chain.orphans) then {} else b.txs
    {
      hide *;
      Facts();
      ChainFacts(chain);
      if b.header.id in chain.blocks || b.header.id in chain.orphans {
        EvictedInWords(pool.items, chain, chain.blocks);
        WithoutNone(pool.items);
        NothingTurned(chain);
        return;
      }
      MoreKnown(pool.items, book.known.Ids(), book.known.Ids() + b.txs, Delivered(chain.View()), Flagged(chain.blocks));
      book.LearnAll(b.txs);
      ghost var blues, delivered := Flagged(chain.blocks), Delivered(chain.View());
      var newly := TurnBlue(b);
      CleanFacts(pool.items, book.known.Ids(), delivered, blues);
      EvictBlocks(newly);
      EvictionKeepsClean(old(pool.items), book.known.Ids(), delivered, blues, b, Delivered(chain.View()), Flagged(chain.blocks));
      EvictedInWords(old(pool.items), chain, old(chain.blocks));
      ValidAgain();
    }

    // What a clean pool means, on the tables of the chain.
    lemma PoolShows()
      requires Valid()
      ensures forall g, h :: g in pool.items && h in pool.items && g != h ==> pool.items[g].txId != pool.items[h].txId
      ensures forall h :: h in pool.items ==>
                pool.items[h].minerId == pool.items[h].txId / 0x1_0000_0000 && pool.items[h].txId in book.known.Ids()
      ensures forall h, b :: h in pool.items && b in chain.blocks && chain.blocks[b].isBlue ==>
                pool.items[h].txId !in chain.blocks[b].block.txs
      ensures forall b :: b in chain.blocks ==> chain.blocks[b].block.txs <= book.known.Ids()
      ensures forall b :: b in chain.orphans ==> chain.orphans[b].txs <= book.known.Ids()
    {
      hide Delivered, Blockchain.Valid, Blockchain.View, Mempool.Valid, TxRequestBook.Valid;
      ChainFacts(chain);
      OrphansDelivered(chain);
    }

    // The block is added; what turned blue is the difference of the flags
    // (node.cc:960-962 and node.cc:1007).
    method TurnBlue(b: Block) returns (newly: seq<Id>)
      requires chain.Valid() && b.header.id !in Delivered(chain.View()) && NoDup(b.header.parents)
      modifies chain
      ensures chain.Valid() && Delivered(chain.View()) == old(Delivered(chain.View()))[b.header.id := b]
      ensures Elems(newly) == Flagged(chain.blocks) - old(Flagged(chain.blocks)) && Elems(newly) <= chain.blocks.Keys
    {
      hide *;
      ChainFacts(chain);
      ghost var earlier, blues := chain.idOf, Flagged(chain.blocks);
      var wasBlue := chain.SnapshotBlueFlags();
      FreshFrom(chain.View(), b);
      chain.AddBlock(b);
      newly := chain.NewlyBlue(wasBlue);
      ChainFacts(chain);
      NewBluesIsDifference(earlier, chain.idOf, blues, Flagged(chain.blocks));
    }

    // The transactions of newly blue blocks leave the pool.
    method EvictBlocks(newly: seq<Id>)
      requires chain.Valid() && pool.Valid() && Distinct(pool.items) && Keyed(pool.items)
      requires Elems(newly) <= chain.blocks.Keys
      modifies pool, pool.buckets
      ensures pool.Valid() && pool.items == Without(old(pool.items), TxsOf(Delivered(chain.View()), Elems(newly)))
    {
      hide *;
      ghost var items, delivered := pool.items, Delivered(chain.View());
      ChainFacts(chain);
      NoBlocks(newly, delivered);
      WithoutNone(items);
      for i := 0 to |newly|
        invariant pool.Valid() && pool.items == Without(items, TxsOf(delivered, Elems(newly[..i])))
      {
        var b := newly[i];
        NextBlock(newly, i);
        WithoutKeeps(items, TxsOf(delivered, Elems(newly[..i])));
        WithoutMore(items, TxsOf(delivered, Elems(newly[..i])), delivered[b].txs);
        TxsMore(delivered, Elems(newly[..i]), b);
        EvictAll(chain.blocks[b].block.txs);
      }
      assert newly[..|newly|] == newly;
    }
  }

  lemma NoBlocks(newly: seq<Id>, delivered: map<Id, Block>)
    ensures TxsOf(delivered, Elems(newly[..0])) == {}
  {
  }

  lemma NextBlock(newly: seq<Id>, i: nat)
    requires i < |newly|
    ensures Elems(newly[..i + 1]) == Elems(newly[..i]) + {newly[i]}
    ensures newly[i] in Elems(newly)
  {
    assert newly[..i + 1] == newly[..i] + [newly[i]];
    ElemsConcat(newly[..i], [newly[i]]);
    assert Elems([newly[i]]) == {newly[i]};
  }

  // The unknown ids of a batch, each where it comes first.
  ghost function NewIds(known: set<nat>, txs: seq<nat>): seq<nat> {
    if txs == [] then []
    else
      var init, last := txs[..|txs| - 1], txs[|txs| - 1];
      NewIds(known, init) + if last in known + Elems(init) then [] else [last]
  }

  ghost function FirstOf(ids: seq<nat>, n: int): (r: seq<nat>)
    ensures r <= ids
  {
    if n <= 0 then [] else if n < |ids| then ids[..n] else ids
  }

  lemma FirstOfIs(ids: seq<nat>, n: int)
    ensures FirstOf(ids, n) == if n <= 0 then [] else if n < |ids| then ids[..n] else ids
  {
  }

  // Each unknown id once, and in the order in which they come first.
  lemma {:induction false} NewIdsAreNew(known: set<nat>, txs: seq<nat>)
    ensures NoDup(NewIds(known, txs)) && Elems(NewIds(known, txs)) == Elems(txs) - known
    ensures var ids := NewIds(known, txs);
      forall i, p :: 0 <= i < |ids| && 0 <= p < |txs| && txs[p] == ids[i] ==> Elems(ids[..i]) <= Elems(txs[..p])
    decreases |txs|
  {
    NewIdsFirstMet(known, txs);
    if txs != [] {
      var init, last := txs[..|txs| - 1], txs[|txs| - 1];
      NewIdsAreNew(known, init);
      assert txs == init + [last];
      ElemsSnoc(init, last);
      if last !in known + Elems(init) {
        ElemsSnoc(NewIds(known, init), last);
        NoDupConcat(NewIds(known, init), [last]);
      } else {
        assert NewIds(known, txs) == NewIds(known, init);
      }
    }
  }

  ghost predicate FirstMetFirst(ids: seq<nat>, txs: seq<nat>) {
    forall i, p :: 0 <= i < |ids| && 0 <= p < |txs| && txs[p] == ids[i] ==> Elems(ids[..i]) <= Elems(txs[..p])
  }

  lemma {:induction false} NewIdsFirstMet(known: set<nat>, txs: seq<nat>)
    ensures Elems(NewIds(known, txs)) == Elems(txs) - known && FirstMetFirst(NewIds(known, txs), txs)
    decreases |txs|
  {
    hide Elems;
    if txs == [] {
      NothingNew();
    } else {
      var init, last := txs[..|txs| - 1], txs[|txs| - 1];
      NewIdsFirstMet(known, init);
      assert txs == init + [last];
      ElemsSnoc(init, last);
      ElemsSnoc(NewIds(known, init), last);
      OrderNext(known, NewIds(known, init), init, last);
      assert NewIds(known, txs) == if last in known + Elems(init) then NewIds(known, init) else NewIds(known, init) + [last];
    }
  }

  lemma NothingNew()
    ensures Elems<nat>([]) == {}
  {
  }

  lemma OrderNext(known: set<nat>, ids: seq<nat>, txs: seq<nat>, last: nat)
    requires FirstMetFirst(ids, txs) && Elems(ids) == Elems(txs) - known
    ensures FirstMetFirst(ids, txs + [last])
    ensures last !in known + Elems(txs) ==> FirstMetFirst(ids + [last], txs + [last])
  {
    var txs' := txs + [last];
    assert forall p :: 0 <= p < |txs| ==> txs[p] in Elems(txs);
    forall i, p | 0 <= i < |ids| && 0 <= p < |txs'| && txs'[p] == ids[i]
      ensures Elems(ids[..i]) <= Elems(txs'[..p])
    {
      if p < |txs| {
        assert txs'[..p] == txs[..p];
      } else {
        assert txs'[..p] == txs;
        ElemsPrefix(ids, i);
        assert ids[i] in Elems(ids);
        FirstPlace(ids, txs, i);
      }
    }
    if last !in known + Elems(txs) {
      var ids' := ids + [last];
      forall i, p | 0 <= i < |ids'| && 0 <= p < |txs'| && txs'[p] == ids'[i]
        ensures Elems(ids'[..i]) <= Elems(txs'[..p])
      {
        if i < |ids| {
          assert ids'[..i] == ids[..i];
        } else {
          assert ids'[..i] == ids;
          assert txs'[..p] == txs;
        }
      }
    }
  }

  lemma ElemsPrefix(xs: seq<nat>, i: nat)
    requires i <= |xs|
    ensures Elems(xs[..i]) <= Elems(xs)
  {
  }

  lemma FirstPlace(ids: seq<nat>, txs: seq<nat>, i: nat)
    requires i < |ids| && Elems(ids) <= Elems(txs)
    ensures Elems(ids[..i]) <= Elems(txs)
  {
    ElemsPrefix(ids, i);
  }

  lemma NoneTaken(known: set<nat>, txs: seq<nat>, room: int, requests: map<Tx, Request>)
    ensures Elems(txs[..0]) == {} && Elems<nat>([]) == {}
    ensures NewIds(known, txs[..0]) == [] && FirstOf([], room) == []
    ensures requests - Elems(txs[..0]) == requests
  {
  }

  // One more of the batch enters exactly if it is new and there is room still.
  lemma NextTaken(known: set<nat>, txs: seq<nat>, i: nat, room: int)
    requires i < |txs|
    ensures Elems(txs[..i + 1]) == Elems(txs[..i]) + {txs[i]}
    ensures var taken := FirstOf(NewIds(known, txs[..i]), room);
      FirstOf(NewIds(known, txs[..i + 1]), room)
        == if txs[i] !in known + Elems(txs[..i]) && |taken| < room then taken + [txs[i]] else taken
  {
    assert txs[..i + 1] == txs[..i] + [txs[i]];
    assert txs[..i + 1][..i] == txs[..i];
    ElemsSnoc(txs[..i], txs[i]);
  }

  // What has been taken so far came before.
  lemma TakenBefore(known: set<nat>, txs: seq<nat>, i: nat, room: int)
    requires i < |txs|
    ensures Elems(FirstOf(NewIds(known, txs[..i]), room)) <= Elems(txs[..i])
  {
    hide NewIds;
    NewIdsAreNew(known, txs[..i]);
    if room > 0 {
      ElemsPrefix(NewIds(known, txs[..i]), |FirstOf(NewIds(known, txs[..i]), room)|);
    }
  }

  // The pool has gained an item for each accepted id.
  ghost predicate Entered(before: map<nat, Item>, after: map<nat, Item>, handles: seq<nat>, accepted: seq<nat>) {
    && |handles| == |accepted| && (forall i, j :: 0 <= i < j < |handles| ==> handles[i] != handles[j])
    && (forall h :: h in after <==> h in before || h in handles)
    && (forall h :: h in before ==> h in after && after[h] == before[h] && h !in handles)
    && forall i :: 0 <= i < |handles| ==>
         && handles[i] in after && after[handles[i]].txId == accepted[i]
         && after[handles[i]].minerId == accepted[i] / 0x1_0000_0000
  }

  // Each with the fee it comes with first among txs[..n].
  ghost predicate Priced(after: map<nat, Item>, handles: seq<nat>, txs: seq<nat>, n: nat, fees: seq<nat>, drawn: nat -> nat) {
    && n <= |txs| == |fees|
    && forall i, p ::
         (0 <= i < |handles| && 0 <= p < n && handles[i] in after && txs[p] == after[handles[i]].txId && txs[p] !in txs[..p])
         ==> after[handles[i]].fee == if fees[p] > 0 then fees[p] else drawn(p)
  }

  lemma NoneEntered(items: map<nat, Item>, txs: seq<nat>, fees: seq<nat>, drawn: nat -> nat)
    requires |fees| == |txs|
    ensures Entered(items, items, [], []) && Priced(items, [], txs, 0, fees, drawn)
  {
  }

  lemma NextEntered(items: map<nat, Item>, before: map<nat, Item>, after: map<nat, Item>,
                    handles: seq<nat>, accepted: seq<nat>, at: nat, txId: nat)
    requires Entered(items, before, handles, accepted)
    requires at !in before && at in after && after == before[at := after[at]]
    requires after[at].txId == txId && after[at].minerId == txId / 0x1_0000_0000
    ensures Entered(items, after, handles + [at], accepted + [txId])
  {
    var handles' := handles + [at];
    assert forall h :: h in handles' <==> h in handles || h == at;
  }

  lemma NextPriced(known: set<nat>, items: map<nat, Item>, before: map<nat, Item>, after: map<nat, Item>, handles: seq<nat>, accepted: seq<nat>,
                   at: nat, txs: seq<nat>, i: nat, fees: seq<nat>, drawn: nat -> nat)
    requires i < |txs| && Priced(before, handles, txs, i, fees, drawn) && txs[i] !in known + Elems(txs[..i])
    requires Entered(items, before, handles, accepted) && Elems(accepted) <= Elems(txs[..i])
    requires at !in before && at in after && after == before[at := after[at]]
    requires after[at].txId == txs[i] && after[at].fee == if fees[i] > 0 then fees[i] else drawn(i)
    ensures Priced(after, handles + [at], txs, i + 1, fees, drawn)
  {
    var handles' := handles + [at];
    forall p | 0 <= p < i
      ensures txs[p] in Elems(txs[..i])
    {
      assert txs[..i][p] == txs[p];
    }
    forall j, p | 0 <= j < |handles'| && 0 <= p < i + 1 && handles'[j] in after
                  && txs[p] == after[handles'[j]].txId && txs[p] !in txs[..p]
      ensures after[handles'[j]].fee == if fees[p] > 0 then fees[p] else drawn(p)
    {
      if j < |handles| {
        assert handles'[j] == handles[j] && after[handles[j]] == before[handles[j]];
        assert accepted[j] in Elems(accepted);
      } else {
        assert p == i;
      }
    }
  }

  lemma NonePriced(items: map<nat, Item>, before: map<nat, Item>, handles: seq<nat>, accepted: seq<nat>,
                   txs: seq<nat>, i: nat, fees: seq<nat>, drawn: nat -> nat)
    requires i < |txs| && Priced(before, handles, txs, i, fees, drawn)
    requires Entered(items, before, handles, accepted) && Elems(accepted) <= Elems(txs[..i])
    ensures Priced(before, handles, txs, i + 1, fees, drawn)
  {
    assert forall j :: 0 <= j < |handles| ==> accepted[j] in Elems(accepted);
  }

  lemma EnteredInWords(before: map<nat, Item>, after: map<nat, Item>, handles: seq<nat>, accepted: seq<nat>)
    requires Entered(before, after, handles, accepted)
    ensures |handles| == |accepted| && forall i, j :: 0 <= i < j < |handles| ==> handles[i] != handles[j]
    ensures forall h :: h in after <==> h in before || h in handles
    ensures forall h :: h in before ==> h in after && after[h] == before[h] && h !in handles
    ensures forall i :: 0 <= i < |handles| ==>
              && handles[i] in after && after[handles[i]].txId == accepted[i]
              && after[handles[i]].minerId == accepted[i] / 0x1_0000_0000
  {
  }

  lemma PricedInWords(after: map<nat, Item>, handles: seq<nat>, accepted: seq<nat>, txs: seq<nat>, fees: seq<nat>, drawn: nat -> nat)
    requires Priced(after, handles, txs, |txs|, fees, drawn) && |handles| == |accepted| && |fees| == |txs|
    requires forall i :: 0 <= i < |handles| ==> handles[i] in after && after[handles[i]].txId == accepted[i]
    ensures forall i, p :: 0 <= i < |handles| && 0 <= p < |txs| && txs[p] == accepted[i] && txs[p] !in txs[..p] ==>
              handles[i] in after && after[handles[i]].fee == if fees[p] > 0 then fees[p] else drawn(p)
  {
  }

  lemma NodeOfIs(txId: nat)
    ensures NodeOf(txId) == txId / 0x1_0000_0000
  {
  }

  // What eviction leaves, on the tables of the chain.
  lemma EvictedInWords(items: map<nat, Item>, chain: Blockchain, before: map<Id, Accepted>)
    requires chain.Valid()
    ensures var left := Without(items, TxsOf(Delivered(chain.View()), Flagged(chain.blocks) - Flagged(before)));
      && (forall h :: h in left ==> h in items && left[h] == items[h])
      && forall h :: h in left <==>
           && h in items
           && forall c :: c in chain.blocks && chain.blocks[c].isBlue && !(c in before && before[c].isBlue)
                ==> items[h].txId !in chain.blocks[c].block.txs
  {
    hide Delivered, Blockchain.Valid, Blockchain.View;
    ChainFacts(chain);
  }

  lemma OrphansDelivered(chain: Blockchain)
    ensures forall b :: b in chain.orphans ==>
              b in Delivered(chain.View()) && Delivered(chain.View())[b] == chain.orphans[b]
  {
    hide Blockchain.View;
    chain.ViewIs();
  }

  lemma NothingTurned(chain: Blockchain)
    ensures TxsOf(Delivered(chain.View()), Flagged(chain.blocks) - Flagged(chain.blocks)) == {}
  {
    hide Delivered, Blockchain.View, Flagged;
  }

  // Whether an id may enter, on the pool and the tables of the chain.
  lemma MayEnterInWords(items: map<nat, Item>, chain: Blockchain, txId: nat)
    requires chain.Valid()
    ensures MayEnter(items, Delivered(chain.View()), Flagged(chain.blocks), txId) <==>
              && (forall h :: h in items ==> items[h].txId != txId)
              && forall b :: b in chain.blocks && chain.blocks[b].isBlue ==> txId !in chain.blocks[b].block.txs
  {
    hide Delivered, Blockchain.Valid;
    ChainFacts(chain);
    forall h | h in items
      ensures items[h].txId in Ids(items)
    {
    }
  }

  lemma NextAnswered(requests: map<Tx, Request>, txs: seq<nat>, i: nat)
    requires i < |txs|
    ensures requests - Elems(txs[..i + 1]) == (requests - Elems(txs[..i])) - {txs[i]}
  {
    assert txs[..i + 1] == txs[..i] + [txs[i]];
    ElemsSnoc(txs[..i], txs[i]);
  }

  lemma OneMoreId(items: map<nat, Item>, h: nat, item: Item)
    requires h !in items
    ensures Ids(items[h := item]) == Ids(items) + {item.txId}
  {
    var items' := items[h := item];
    assert items'[h].txId == item.txId;
    forall id | id in Ids(items)
      ensures id in Ids(items')
    {
      var g :| g in items && items[g].txId == id;
      assert items'[g].txId == id;
    }
  }

  lemma OwnId(node: nat, number: nat)
    requires number < SEQUENCES
    ensures NodeOf(node * SEQUENCES + number) == node
    ensures node * SEQUENCES + number == node * 0x1_0000_0000 + number
  {
  }

  lemma CleanFacts(items: map<nat, Item>, known: set<nat>, delivered: map<Id, Block>, blues: set<Id>)
    requires Clean(items, known, delivered, blues)
    ensures Distinct(items) && Keyed(items)
  {
  }

  // How the chain's tables show what has been delivered.
  lemma ChainFacts(chain: Blockchain)
    requires chain.Valid()
    ensures forall b :: b in Delivered(chain.View()) <==> b in chain.blocks || b in chain.orphans
    ensures forall b :: b in chain.blocks ==> b in Delivered(chain.View()) && Delivered(chain.View())[b] == chain.blocks[b].block
    ensures NoDup(chain.idOf) && Elems(chain.idOf) == chain.blocks.Keys && Flagged(chain.blocks) <= chain.blocks.Keys
  {
    hide *;
    chain.ValidFacts();
    chain.StructuredFacts();
    DeliveredShows(chain.View(), chain.blocks);
    FlaggedWithin(chain.blocks);
  }

  lemma FreshFrom(s: State, b: Block)
    requires b.header.id !in Delivered(s) && NoDup(b.header.parents)
    ensures Fresh(s, b)
  {
  }

  lemma DeliveredShows(s: State, blocks: map<Id, Accepted>)
    requires BlocksStand(blocks, s.dag) && s.orphans.Keys !! s.dag.Keys
    ensures forall b :: b in Delivered(s) <==> b in blocks || b in s.orphans
    ensures forall b :: b in blocks ==> b in Delivered(s) && Delivered(s)[b] == blocks[b].block
  {
  }

  lemma FlaggedWithin(blocks: map<Id, Accepted>)
    ensures Flagged(blocks) <= blocks.Keys
  {
  }

  lemma StartsClean(blues: set<Id>)
    ensures Clean(map[], {}, map[GENESIS := GenesisBlock()], blues)
  {
  }
}
