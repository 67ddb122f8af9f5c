/**
 * Filling a block from the mempool (miner.cc:236-274).
 */
module Miners {
  import opened Orders
  import opened Mempools

  // No transaction is in the pool twice.
  ghost predicate Distinct(items: map<nat, Item>) {
    forall g, h :: g in items && h in items && items[g].txId == items[h].txId ==> g == h
  }

  ghost function Ids(items: map<nat, Item>): set<nat> {
    set h | h in items :: items[h].txId
  }

  // The items that went, as a set of transactions ordered by id keeps them.
  ghost predicate Selected(before: map<nat, Item>, after: map<nat, Item>, selected: map<nat, nat>) {
    && Part(after, before)
    && (forall h :: h in before && h !in after ==> before[h].txId in selected)
    && (forall id :: id in selected ==> exists h :: WentAs(before, after, h, id, selected[id]))
  }

  ghost predicate WentAs(before: map<nat, Item>, after: map<nat, Item>, h: nat, id: nat, fee: nat) {
    h in before && h !in after && before[h].txId == id && before[h].fee == fee
  }

  // What goes has no lower fee than what stays.
  ghost predicate DearestGone(before: map<nat, Item>, after: map<nat, Item>) {
    forall g, h :: g in before && g !in after && h in after ==> before[g].fee >= after[h].fee
  }

  lemma NothingSelected(items: map<nat, Item>)
    ensures Selected(items, items, map[]) && DearestGone(items, items)
  {
  }

  // std::set::insert leaves a transaction with the same id in place.
  function Put(selected: map<nat, nat>, id: nat, fee: nat): map<nat, nat> {
    if id in selected then selected else selected[id := fee]
  }

  lemma OneMoreSelected(before: map<nat, Item>, mid: map<nat, Item>, selected: map<nat, nat>, h: nat)
    requires Selected(before, mid, selected) && h in mid
    ensures Selected(before, mid - {h}, Put(selected, mid[h].txId, mid[h].fee))
  {
    var after, more := mid - {h}, Put(selected, mid[h].txId, mid[h].fee);
    forall id | id in more
      ensures exists g :: WentAs(before, after, g, id, more[id])
    {
      if id in selected {
        var g :| WentAs(before, mid, g, id, selected[id]);
        assert WentAs(before, after, g, id, more[id]);
      } else {
        assert WentAs(before, after, h, id, more[id]);
      }
    }
  }

  lemma OneMoreDearest(before: map<nat, Item>, mid: map<nat, Item>, h: nat)
    requires Part(mid, before) && DearestGone(before, mid) && h in mid && forall g :: g in mid ==> mid[g].fee <= mid[h].fee
    ensures DearestGone(before, mid - {h})
  {
  }

  // From a pool without duplicates, the block and what is left share nothing, miss
  // nothing, and the block has one transaction for each item that went.
  lemma SelectionPartitions(before: map<nat, Item>, after: map<nat, Item>, selected: map<nat, nat>)
    requires Distinct(before) && Selected(before, after, selected)
    ensures selected.Keys !! Ids(after) && selected.Keys + Ids(after) == Ids(before)
    ensures |selected| == |before| - |after|
    ensures Distinct(after)
  {
    hide Distinct, Selected, Ids;
    SelectedMembers(before, after, selected);
    StillDistinct(before, after, selected);
    IdsCount(before);
    IdsCount(after);
    Cards(selected.Keys, Ids(after));
    assert |selected.Keys| == |selected|;
  }

  lemma Cards(a: set<nat>, b: set<nat>)
    requires a !! b
    ensures |a + b| == |a| + |b|
  {
  }

  lemma StillDistinct(before: map<nat, Item>, after: map<nat, Item>, selected: map<nat, nat>)
    requires Distinct(before) && Selected(before, after, selected)
    ensures Distinct(after)
  {
  }

  lemma SelectedMembers(before: map<nat, Item>, after: map<nat, Item>, selected: map<nat, nat>)
    requires Distinct(before) && Selected(before, after, selected)
    ensures selected.Keys !! Ids(after) && selected.Keys + Ids(after) == Ids(before)
  {
    forall id | id in selected
      ensures id !in Ids(after) && id in Ids(before)
    {
      var h :| WentAs(before, after, h, id, selected[id]);
      assert before[h].txId == id;
    }
    forall id | id in Ids(before)
      ensures id in selected || id in Ids(after)
    {
      var h :| h in before && before[h].txId == id;
      assert h in after ==> after[h].txId == id;
    }
    forall id | id in Ids(after)
      ensures id in Ids(before)
    {
      var h :| h in after && after[h].txId == id;
      assert before[h].txId == id;
    }
  }

  lemma {:induction false} IdsCount(items: map<nat, Item>)
    requires Distinct(items)
    ensures |Ids(items)| == |items|
    decreases |items|
  {
    hide Ids, Distinct;
    if items == map[] {
      NoIds();
    } else {
      var h :| h in items;
      var rest := items - {h};
      assert rest.Keys == items.Keys - {h};
      assert |rest.Keys| == |rest| && |items.Keys| == |items|;
      OneLess(items, h);
      IdsCount(rest);
      Cards(Ids(rest), {items[h].txId});
    }
  }

  lemma NoIds()
    ensures Ids(map[]) == {}
  {
  }

  lemma OneLess(items: map<nat, Item>, h: nat)
    requires Distinct(items) && h in items
    ensures Distinct(items - {h}) && items[h].txId !in Ids(items - {h})
    ensures Ids(items) == Ids(items - {h}) + {items[h].txId}
  {
    var rest := items - {h};
    assert forall g :: g in rest ==> rest[g] == items[g];
    forall id | id in Ids(items)
      ensures id in Ids(rest) || id == items[h].txId
    {
      var g :| g in items && items[g].txId == id;
      assert g != h ==> rest[g].txId == id;
    }
  }

  // How many transactions a block takes.
  function Quota(txsPerBlock: int, available: int): int {
    if txsPerBlock <= 0 then 0 else if txsPerBlock < available then txsPerBlock else available
  }

  method SelectTransactions(pool: Mempool, txsPerBlock: int, strategy: int, starts: nat -> nat, pick: nat -> nat)
    returns (selected: map<nat, nat>)
    requires pool.Valid()
    modifies pool, pool.buckets
    ensures pool.Valid() && Selected(old(pool.items), pool.items, selected)
    ensures pool.itemCount == old(pool.itemCount) - Quota(txsPerBlock, old(pool.itemCount))
    ensures Distinct(old(pool.items)) ==> |selected| == old(pool.itemCount) - pool.itemCount
    ensures strategy != 0 ==> DearestGone(old(pool.items), pool.items)
    ensures forall h :: h in pool.items ==> h in old(pool.items) && pool.items[h] == old(pool.items)[h]
    ensures forall h :: h in old(pool.items) && h !in pool.items ==> old(pool.items)[h].txId in selected
    ensures forall id :: id in selected ==>
              exists h :: h in old(pool.items) && h !in pool.items
                && old(pool.items)[h].txId == id && old(pool.items)[h].fee == selected[id]
    ensures strategy != 0 ==>
              forall g, h :: g in old(pool.items) && g !in pool.items && h in pool.items ==>
                old(pool.items)[g].fee >= pool.items[h].fee
    ensures old(pool.itemCount) - pool.itemCount
         == if txsPerBlock <= 0 then 0 else if txsPerBlock < old(pool.itemCount) then txsPerBlock else old(pool.itemCount)
  {
    hide Stored, BucketOf, Selected, DearestGone, Distinct;
    selected := map[];
    ghost var before := pool.items;
    NothingSelected(pool.items);
    Counted(before, pool.items, selected);
    if txsPerBlock <= 0 || pool.itemCount == 0 {
      SelectedInWords(before, pool.items, selected);
      return;
    }
    var toSelect := if txsPerBlock < pool.itemCount then txsPerBlock else pool.itemCount;
    if strategy == 0 {
      for i := 0 to toSelect
        invariant pool.Valid() && pool.itemCount == old(pool.itemCount) - i
        invariant Selected(before, pool.items, selected)
      {
        var it := pool.GetRandomTransaction(starts(i), pick);
        if it.Some? {
          selected := Take(pool, it.value, before, selected);
        }
      }
    } else {
      for i := 0 to toSelect
        invariant pool.Valid() && pool.itemCount == old(pool.itemCount) - i
        invariant Selected(before, pool.items, selected) && DearestGone(before, pool.items)
      {
        var it := pool.GetSortedTransactionDescending();
        PartOf(before, pool.items, selected);
        OneMoreDearest(before, pool.items, it.item);
        selected := Take(pool, it, before, selected);
      }
    }
    Counted(before, pool.items, selected);
    SelectedInWords(before, pool.items, selected);
  }

  lemma SelectedInWords(before: map<nat, Item>, after: map<nat, Item>, selected: map<nat, nat>)
    requires Selected(before, after, selected)
    ensures forall h :: h in after ==> h in before && after[h] == before[h]
    ensures forall h :: h in before && h !in after ==> before[h].txId in selected
    ensures forall id :: id in selected ==>
              exists h :: h in before && h !in after && before[h].txId == id && before[h].fee == selected[id]
    ensures DearestGone(before, after) ==>
              forall g, h :: g in before && g !in after && h in after ==> before[g].fee >= after[h].fee
  {
    forall id | id in selected
      ensures exists h :: h in before && h !in after && before[h].txId == id && before[h].fee == selected[id]
    {
      var h :| WentAs(before, after, h, id, selected[id]);
    }
  }

  lemma PartOf(before: map<nat, Item>, after: map<nat, Item>, selected: map<nat, nat>)
    requires Selected(before, after, selected)
    ensures Part(after, before)
  {
  }

  lemma Counted(before: map<nat, Item>, after: map<nat, Item>, selected: map<nat, nat>)
    requires Selected(before, after, selected)
    ensures Distinct(before) ==> |selected| == |before| - |after|
  {
    hide Selected, Distinct;
    if Distinct(before) {
      SelectionPartitions(before, after, selected);
    }
  }

  // One transaction moves from the pool to the block.
  method Take(pool: Mempool, it: HtabIterator, ghost before: map<nat, Item>, selected: map<nat, nat>)
    returns (more: map<nat, nat>)
    requires pool.Valid() && pool.Points(it) && Selected(before, pool.items, selected)
    modifies pool, pool.buckets
    ensures pool.Valid() && pool.itemCount == old(pool.itemCount) - 1 && pool.items == old(pool.items) - {it.item}
    ensures Selected(before, pool.items, more)
  {
    hide Stored, BucketOf, Selected;
    OneMoreSelected(before, pool.items, selected, it.item);
    var txId, fee := pool.Read(it);
    more := Put(selected, txId, fee);
    pool.EraseTransaction(Some(it));
  }
}
