/**
 * The mempool (mempool.cc): a table of buckets and an index ordered by fee, whose entries
 * point into each other. Iterators are modelled by handles that are never reused; the
 * hash of a key and every random choice are parameters.
 */
module Mempools {
  import opened Orders
  import opened TxIdSets

  // A transaction in its bucket; `link` is its entry in the fee index.
  datatype Item = Item(handle: nat, minerId: nat, txId: nat, fee: nat, link: nat)

  // An entry of the fee index; `item` and `index` say where its transaction is.
  datatype FeeEntry = FeeEntry(handle: nat, fee: nat, item: nat, index: nat)

  // A pool entry as listed: the node that made the transaction, and the transaction.
  datatype PoolEntry = PoolEntry(node: nat, txId: nat)

  datatype HtabIterator = HtabIterator(item: nat, index: nat)

  type Hash = (nat, nat) -> nat

  function BucketOf(hash: Hash, n: nat, minerId: nat, txId: nat): (b: nat)
    requires n > 0
    ensures b < n
  {
    hash(minerId, txId) % n
  }

  lemma BucketIs(hash: Hash, n: nat)
    requires n > 0
    ensures forall minerId, txId :: BucketOf(hash, n, minerId, txId) == hash(minerId, txId) % n
  {
  }

  // ---------------------------------------------------------------------
  // Invariants
  // ---------------------------------------------------------------------

  // The buckets hold exactly these items, each once and in its own bucket.
  ghost predicate Hashed(hash: Hash, items: map<nat, Item>, buckets: seq<seq<Item>>) {
    && |buckets| > 0
    && (forall b {:trigger BucketHolds(hash, items, buckets[b], b, |buckets|)} :: 0 <= b < |buckets| ==> BucketHolds(hash, items, buckets[b], b, |buckets|))
    && (forall h :: h in items ==>
          items[h].handle == h && items[h] in buckets[BucketOf(hash, |buckets|, items[h].minerId, items[h].txId)])
  }

  ghost predicate BucketHolds(hash: Hash, items: map<nat, Item>, bucket: seq<Item>, b: nat, n: nat)
    requires n > 0
  {
    && (forall i :: 0 <= i < |bucket| ==> bucket[i].handle in items && items[bucket[i].handle] == bucket[i])
    && (forall i :: 0 <= i < |bucket| ==> BucketOf(hash, n, bucket[i].minerId, bucket[i].txId) == b)
    && (forall i, j :: 0 <= i < j < |bucket| ==> bucket[i].handle != bucket[j].handle)
  }

  // The fee index holds exactly these items, each once, in order of fee, and is linked
  // both ways.
  ghost predicate Ranked(hash: Hash, items: map<nat, Item>, byFee: seq<FeeEntry>, n: nat)
    requires n > 0
  {
    && (forall i {:trigger LinkedEntry(hash, items, byFee[i], n)} :: 0 <= i < |byFee| ==> LinkedEntry(hash, items, byFee[i], n))
    && (forall i, j :: 0 <= i < j < |byFee| ==> byFee[i].fee <= byFee[j].fee && byFee[i].item != byFee[j].item)
    && (forall h :: h in items ==> Listed(byFee, h))
  }

  ghost predicate Listed(byFee: seq<FeeEntry>, h: nat) {
    exists i :: 0 <= i < |byFee| && byFee[i].item == h
  }

  ghost predicate LinkedEntry(hash: Hash, items: map<nat, Item>, e: FeeEntry, n: nat)
    requires n > 0
  {
    && e.item in items
    && e.fee == items[e.item].fee
    && e.handle == items[e.item].link
    && e.index == BucketOf(hash, n, items[e.item].minerId, items[e.item].txId)
  }

  ghost predicate Below(items: map<nat, Item>, bound: nat) {
    forall h :: h in items ==> h < bound && items[h].link < bound
  }

  // Different items have different entries.
  ghost predicate LinksApart(items: map<nat, Item>) {
    forall g, h :: g in items && h in items && g != h ==> items[g].link != items[h].link
  }

  ghost predicate Stored(hash: Hash, items: map<nat, Item>, buckets: seq<seq<Item>>, byFee: seq<FeeEntry>, bound: nat) {
    && Hashed(hash, items, buckets) && Ranked(hash, items, byFee, |buckets|)
    && Below(items, bound) && LinksApart(items)
  }

  // ---------------------------------------------------------------------
  // Inserting
  // ---------------------------------------------------------------------

  lemma InsertHashed(hash: Hash, items: map<nat, Item>, buckets: seq<seq<Item>>, item: Item)
    requires Hashed(hash, items, buckets) && item.handle !in items
    ensures var b := BucketOf(hash, |buckets|, item.minerId, item.txId);
      Hashed(hash, items[item.handle := item], buckets[b := [item] + buckets[b]])
  {
    hide BucketOf;
    var n := |buckets|;
    var at := BucketOf(hash, n, item.minerId, item.txId);
    var items', buckets' := items[item.handle := item], buckets[at := [item] + buckets[at]];
    forall b | 0 <= b < n
      ensures BucketHolds(hash, items', buckets'[b], b, n)
    {
      assert BucketHolds(hash, items, buckets[b], b, n);
      assert b == at ==> forall i :: 0 < i < |buckets'[b]| ==> buckets'[b][i] == buckets[b][i - 1];
    }
    forall h | h in items'
      ensures items'[h] in buckets'[BucketOf(hash, n, items'[h].minerId, items'[h].txId)]
    {
      assert buckets'[at][0] == item;
    }
  }

  // Where std::multimap::insert puts an entry: after the ones with the same fee.
  ghost predicate UpperBound(byFee: seq<FeeEntry>, fee: nat, p: nat) {
    p <= |byFee| && (forall i :: 0 <= i < p ==> byFee[i].fee <= fee) && (forall i :: p <= i < |byFee| ==> byFee[i].fee > fee)
  }

  lemma InsertRanked(hash: Hash, items: map<nat, Item>, byFee: seq<FeeEntry>, n: nat, item: Item, p: nat)
    requires n > 0 && Ranked(hash, items, byFee, n) && item.handle !in items && UpperBound(byFee, item.fee, p)
    ensures var e := FeeEntry(item.link, item.fee, item.handle, BucketOf(hash, n, item.minerId, item.txId));
      Ranked(hash, items[item.handle := item], byFee[..p] + [e] + byFee[p..], n)
  {
    hide BucketOf, LinkedEntry, Listed;
    var e := FeeEntry(item.link, item.fee, item.handle, BucketOf(hash, n, item.minerId, item.txId));
    InsertLinks(hash, items, byFee, n, item, p);
    InsertCovers(byFee, e, p);
    assert forall h :: h in items[item.handle := item] ==> h in items || h == item.handle;
    RankedOrder(byFee, e, p);
    EntriesDiffer(hash, items, byFee, n, e, p);
  }

  lemma InsertLinks(hash: Hash, items: map<nat, Item>, byFee: seq<FeeEntry>, n: nat, item: Item, p: nat)
    requires n > 0 && Ranked(hash, items, byFee, n) && item.handle !in items && p <= |byFee|
    ensures var e := FeeEntry(item.link, item.fee, item.handle, BucketOf(hash, n, item.minerId, item.txId));
      var after := byFee[..p] + [e] + byFee[p..];
      forall i :: 0 <= i < |after| ==> LinkedEntry(hash, items[item.handle := item], after[i], n)
  {
    hide BucketOf;
    var e := FeeEntry(item.link, item.fee, item.handle, BucketOf(hash, n, item.minerId, item.txId));
    var after := byFee[..p] + [e] + byFee[p..];
    forall i | 0 <= i < |after|
      ensures LinkedEntry(hash, items[item.handle := item], after[i], n)
    {
      assert i != p ==> after[i] == byFee[if i < p then i else i - 1] && LinkedEntry(hash, items, after[i], n);
    }
  }

  lemma InsertCovers(byFee: seq<FeeEntry>, e: FeeEntry, p: nat)
    requires p <= |byFee|
    ensures var after := byFee[..p] + [e] + byFee[p..];
      Listed(after, e.item) && forall h :: Listed(byFee, h) ==> Listed(after, h)
  {
    var after := byFee[..p] + [e] + byFee[p..];
    assert after[p].item == e.item;
    forall h | Listed(byFee, h)
      ensures Listed(after, h)
    {
      var i :| 0 <= i < |byFee| && byFee[i].item == h;
      assert after[if i < p then i else i + 1].item == h;
    }
  }

  lemma RankedOrder(byFee: seq<FeeEntry>, e: FeeEntry, p: nat)
    requires UpperBound(byFee, e.fee, p)
    requires forall i, j :: 0 <= i < j < |byFee| ==> byFee[i].fee <= byFee[j].fee
    ensures var after := byFee[..p] + [e] + byFee[p..];
      forall i, j :: 0 <= i < j < |after| ==> after[i].fee <= after[j].fee
  {
  }

  lemma EntriesDiffer(hash: Hash, items: map<nat, Item>, byFee: seq<FeeEntry>, n: nat, e: FeeEntry, p: nat)
    requires n > 0 && Ranked(hash, items, byFee, n) && e.item !in items && p <= |byFee|
    ensures var after := byFee[..p] + [e] + byFee[p..];
      forall i, j :: 0 <= i < j < |after| ==> after[i].item != after[j].item
  {
    hide BucketOf;
    forall i | 0 <= i < |byFee|
      ensures byFee[i].item != e.item
    {
      assert LinkedEntry(hash, items, byFee[i], n);
    }
  }

  // ---------------------------------------------------------------------
  // Erasing
  // ---------------------------------------------------------------------

  function Cut<T>(xs: seq<T>, i: nat): seq<T>
    requires i < |xs|
  {
    xs[..i] + xs[i + 1..]
  }

  lemma EraseHashed(hash: Hash, items: map<nat, Item>, buckets: seq<seq<Item>>, b: nat, i: nat)
    requires Hashed(hash, items, buckets) && b < |buckets| && i < |buckets[b]|
    ensures Hashed(hash, items - {buckets[b][i].handle}, buckets[b := Cut(buckets[b], i)])
  {
    hide BucketOf;
    var n := |buckets|;
    var gone := buckets[b][i].handle;
    var items', buckets' := items - {gone}, buckets[b := Cut(buckets[b], i)];
    assert BucketHolds(hash, items, buckets[b], b, n);
    forall c | 0 <= c < n
      ensures BucketHolds(hash, items', buckets'[c], c, n)
    {
      assert BucketHolds(hash, items, buckets[c], c, n);
      CutHolds(hash, items, buckets, b, i, c);
    }
    forall h | h in items'
      ensures items'[h] in buckets'[BucketOf(hash, n, items'[h].minerId, items'[h].txId)]
    {
      var c := BucketOf(hash, n, items[h].minerId, items[h].txId);
      var k :| 0 <= k < |buckets[c]| && buckets[c][k] == items[h];
      assert c == b ==> k != i && buckets'[b][if k < i then k else k - 1] == items[h];
    }
  }

  lemma CutHolds(hash: Hash, items: map<nat, Item>, buckets: seq<seq<Item>>, b: nat, i: nat, c: nat)
    requires Hashed(hash, items, buckets) && b < |buckets| && i < |buckets[b]| && c < |buckets|
    ensures BucketHolds(hash, items - {buckets[b][i].handle}, if c == b then Cut(buckets[b], i) else buckets[c], c, |buckets|)
  {
    hide BucketOf;
    var n := |buckets|;
    assert BucketHolds(hash, items, buckets[b], b, n) && BucketHolds(hash, items, buckets[c], c, n);
    if c == b {
      var cut := Cut(buckets[b], i);
      assert forall k :: 0 <= k < |cut| ==> cut[k] == buckets[b][if k < i then k else k + 1];
    }
  }

  lemma EraseRanked(hash: Hash, items: map<nat, Item>, byFee: seq<FeeEntry>, n: nat, p: nat)
    requires n > 0 && Ranked(hash, items, byFee, n) && p < |byFee|
    ensures Ranked(hash, items - {byFee[p].item}, Cut(byFee, p), n)
  {
    hide BucketOf, LinkedEntry, Listed;
    CutLinks(hash, items, byFee, n, p);
    CutLists(byFee, p);
  }

  lemma CutLinks(hash: Hash, items: map<nat, Item>, byFee: seq<FeeEntry>, n: nat, p: nat)
    requires n > 0 && Ranked(hash, items, byFee, n) && p < |byFee|
    ensures forall i :: 0 <= i < |Cut(byFee, p)| ==> LinkedEntry(hash, items - {byFee[p].item}, Cut(byFee, p)[i], n)
  {
    hide BucketOf;
    var after := Cut(byFee, p);
    forall i | 0 <= i < |after|
      ensures LinkedEntry(hash, items - {byFee[p].item}, after[i], n)
    {
      assert after[i] == byFee[if i < p then i else i + 1];
      assert LinkedEntry(hash, items, after[i], n);
    }
  }

  lemma CutLists(byFee: seq<FeeEntry>, p: nat)
    requires p < |byFee|
    ensures forall h :: Listed(byFee, h) && h != byFee[p].item ==> Listed(Cut(byFee, p), h)
  {
    var after := Cut(byFee, p);
    forall h | Listed(byFee, h) && h != byFee[p].item
      ensures Listed(after, h)
    {
      var i :| 0 <= i < |byFee| && byFee[i].item == h;
      assert after[if i < p then i else i - 1].item == h;
    }
  }

  lemma EraseStored(hash: Hash, items: map<nat, Item>, buckets: seq<seq<Item>>, byFee: seq<FeeEntry>, bound: nat, b: nat, i: nat, p: nat)
    requires Stored(hash, items, buckets, byFee, bound) && b < |buckets| && i < |buckets[b]| && p < |byFee|
    requires byFee[p].item == buckets[b][i].handle
    ensures var items' := items - {buckets[b][i].handle};
      && Stored(hash, items', buckets[b := Cut(buckets[b], i)], Cut(byFee, p), bound)
      && |items'| == |items| - 1
  {
    hide Hashed, Ranked;
    EraseHashed(hash, items, buckets, b, i);
    EraseRanked(hash, items, byFee, |buckets|, p);
    ItemOf(hash, items, buckets, b, i);
    assert |(items - {buckets[b][i].handle}).Keys| == |items.Keys - {buckets[b][i].handle}| by {
      assert (items - {buckets[b][i].handle}).Keys == items.Keys - {buckets[b][i].handle};
    }
    assert |items| == |items.Keys|;
  }

  lemma ItemOf(hash: Hash, items: map<nat, Item>, buckets: seq<seq<Item>>, b: nat, i: nat)
    requires Hashed(hash, items, buckets) && b < |buckets| && i < |buckets[b]|
    ensures buckets[b][i].handle in items && items[buckets[b][i].handle] == buckets[b][i]
    ensures BucketOf(hash, |buckets|, buckets[b][i].minerId, buckets[b][i].txId) == b
  {
    assert BucketHolds(hash, items, buckets[b], b, |buckets|);
  }

  lemma InsertStored(hash: Hash, items: map<nat, Item>, buckets: seq<seq<Item>>, byFee: seq<FeeEntry>, bound: nat, item: Item, p: nat)
    requires Stored(hash, items, buckets, byFee, bound) && item.handle == bound && item.link == bound + 1
    requires UpperBound(byFee, item.fee, p)
    ensures var b := BucketOf(hash, |buckets|, item.minerId, item.txId);
      var e := FeeEntry(item.link, item.fee, item.handle, b);
      && Stored(hash, items[item.handle := item], buckets[b := [item] + buckets[b]], byFee[..p] + [e] + byFee[p..], bound + 2)
      && |items[item.handle := item]| == |items| + 1
  {
    hide Hashed, Ranked;
    InsertHashed(hash, items, buckets, item);
    InsertRanked(hash, items, byFee, |buckets|, item, p);
  }

  // ---------------------------------------------------------------------
  // Finding one's way between the two
  // ---------------------------------------------------------------------

  lemma EntryOf(hash: Hash, items: map<nat, Item>, byFee: seq<FeeEntry>, n: nat, h: nat)
    requires n > 0 && Ranked(hash, items, byFee, n) && h in items
    ensures exists p :: 0 <= p < |byFee| && byFee[p].item == h && byFee[p].handle == items[h].link
  {
    hide BucketOf;
    assert Listed(byFee, h);
    var p :| 0 <= p < |byFee| && byFee[p].item == h;
    assert LinkedEntry(hash, items, byFee[p], n);
  }

  lemma HandleNamesEntry(hash: Hash, items: map<nat, Item>, byFee: seq<FeeEntry>, n: nat, h: nat, p: nat)
    requires n > 0 && Ranked(hash, items, byFee, n) && LinksApart(items) && h in items && p < |byFee|
    requires byFee[p].handle == items[h].link
    ensures byFee[p].item == h
  {
    hide BucketOf;
    assert LinkedEntry(hash, items, byFee[p], n);
  }

  lemma EntryFacts(hash: Hash, items: map<nat, Item>, byFee: seq<FeeEntry>, n: nat, p: nat)
    requires n > 0 && Ranked(hash, items, byFee, n) && p < |byFee|
    ensures LinkedEntry(hash, items, byFee[p], n)
  {
  }

  // The fee index is as long as the table is large.
  lemma SameSize(hash: Hash, items: map<nat, Item>, byFee: seq<FeeEntry>, n: nat)
    requires n > 0 && Ranked(hash, items, byFee, n)
    ensures |byFee| == |items|
  {
    hide BucketOf;
    var hs := seq(|byFee|, i requires 0 <= i < |byFee| => byFee[i].item);
    assert NoDup(hs);
    forall i | 0 <= i < |hs|
      ensures hs[i] in items
    {
      assert LinkedEntry(hash, items, byFee[i], n);
    }
    forall h | h in items
      ensures h in hs
    {
      assert Listed(byFee, h);
      var i :| 0 <= i < |byFee| && byFee[i].item == h;
      assert hs[i] == h;
    }
    NoDupCard(hs);
    assert Elems(hs) == items.Keys;
    assert |items.Keys| == |items|;
  }

  // Positions the probing loop visits: at and below the index, and above it.
  function Down(index: nat, j: nat, n: nat): int {
    if j <= index then index - j else index - j + n
  }

  function Up(index: nat, j: nat, n: nat): int {
    if index + 1 + j < n then index + 1 + j else index + 1 + j - n
  }

  // Half the table in each direction is all of it.
  lemma ProbesCover(index: nat, n: nat, b: nat)
    requires index < n && b < n
    ensures exists j :: 0 <= j < n / 2 + 1 && (Down(index, j, n) == b || Up(index, j, n) == b)
  {
    var d := if b <= index then index - b else index - b + n;
    if d < n / 2 + 1 {
      assert Down(index, d, n) == b;
    } else {
      assert Up(index, n - d - 1, n) == b;
    }
  }

  lemma EmptyTable(hash: Hash, items: map<nat, Item>, buckets: seq<seq<Item>>)
    requires Hashed(hash, items, buckets)
    requires forall b :: 0 <= b < |buckets| ==> buckets[b] == []
    ensures items == map[]
  {
    hide BucketOf;
    assert forall h :: h !in items;
  }

  lemma AllProbed(hash: Hash, items: map<nat, Item>, buckets: seq<seq<Item>>, index: nat)
    requires Hashed(hash, items, buckets) && index < |buckets|
    requires forall j :: 0 <= j < |buckets| / 2 + 1 ==>
               Probed(buckets, Down(index, j, |buckets|)) && Probed(buckets, Up(index, j, |buckets|))
    ensures items == map[]
  {
    hide Hashed, Down, Up;
    forall b | 0 <= b < |buckets|
      ensures buckets[b] == []
    {
      ProbesCover(index, |buckets|, b);
    }
    EmptyTable(hash, items, buckets);
  }

  ghost predicate Probed(buckets: seq<seq<Item>>, b: int) {
    0 <= b < |buckets| && buckets[b] == []
  }

  // A pool with a part of another's items.
  ghost predicate Part(items: map<nat, Item>, whole: map<nat, Item>) {
    forall h :: h in items ==> h in whole && items[h] == whole[h]
  }

  // What goes has no higher fee than what stays.
  ghost predicate CheapestGone(before: map<nat, Item>, after: map<nat, Item>) {
    forall g, h :: g in before && g !in after && h in after ==> before[g].fee <= after[h].fee
  }

  class Mempool {
    const hash: Hash
    const buckets: array<seq<Item>>
    var byFee: seq<FeeEntry>
    var itemCount: int
    var nextHandle: nat
    ghost var items: map<nat, Item>

    ghost predicate Valid()
      reads this, buckets
    {
      && buckets.Length > 0
      && Stored(hash, items, buckets[..], byFee, nextHandle)
      && itemCount == |items|
    }

    // An iterator that may be dereferenced.
    ghost predicate Points(it: HtabIterator)
      reads this
    {
      && it.item in items && buckets.Length > 0
      && it.index == BucketOf(hash, buckets.Length, items[it.item].minerId, items[it.item].txId)
    }

    constructor (hash: Hash, n: nat)
      requires n > 0
      ensures Valid() && fresh(buckets) && items == map[] && this.hash == hash && buckets.Length == n
    {
      this.hash := hash;
      buckets := new seq<Item>[n](_ => []);
      byFee, itemCount, nextHandle, items := [], 0, 0, map[];
    }

    lemma Facts()
      requires Valid()
      ensures buckets.Length > 0 && itemCount == |items|
      ensures Hashed(hash, items, buckets[..]) && Ranked(hash, items, byFee, buckets.Length) && LinksApart(items)
      ensures Stored(hash, items, buckets[..], byFee, nextHandle)
    {
      hide Hashed, Ranked;
    }

    method Insert(minerId: nat, txId: nat, fee: nat) returns (it: HtabIterator)
      requires Valid()
      modifies this, buckets
      ensures Valid() && Points(it) && it.item !in old(items)
      ensures items == old(items)[it.item := items[it.item]]
      ensures items[it.item].minerId == minerId && items[it.item].txId == txId && items[it.item].fee == fee
      ensures itemCount == old(itemCount) + 1
      ensures exists p :: 0 <= p < |byFee| == |old(byFee)| + 1 && byFee[p].item == it.item
                && byFee == old(byFee)[..p] + [byFee[p]] + old(byFee)[p..]
                && (forall i :: 0 <= i < p ==> old(byFee)[i].fee <= fee)
                && forall i :: p <= i < |old(byFee)| ==> old(byFee)[i].fee > fee
    {
      hide Hashed, Ranked, BucketOf;
      ghost var items0, buckets0, byFee0, bound := items, buckets[..], byFee, nextHandle;
      var index := BucketOf(hash, buckets.Length, minerId, txId);
      var item := Item(nextHandle, minerId, txId, fee, nextHandle + 1);
      var p := FindUpperBound(fee);
      InsertStored(hash, items, buckets[..], byFee, nextHandle, item, p);
      buckets[index] := [item] + buckets[index];
      byFee := byFee[..p] + [FeeEntry(item.link, fee, item.handle, index)] + byFee[p..];
      items := items[item.handle := item];
      nextHandle := nextHandle + 2;
      itemCount := itemCount + 1;
      assert buckets[..] == buckets0[index := [item] + buckets0[index]];
      assert byFee[p].item == item.handle && byFee == byFee0[..p] + [byFee[p]] + byFee0[p..];
      it := HtabIterator(item.handle, index);
    }

    method FindUpperBound(fee: nat) returns (p: nat)
      requires Valid()
      ensures UpperBound(byFee, fee, p)
    {
      hide Hashed;
      Facts();
      p := 0;
      while p < |byFee| && byFee[p].fee <= fee
        invariant p <= |byFee| && forall i :: 0 <= i < p ==> byFee[i].fee <= fee
      {
        p := p + 1;
      }
    }

    method Find(minerId: nat, txId: nat) returns (r: Option<HtabIterator>)
      requires Valid()
      ensures r.Some? ==> Points(r.value) && items[r.value.item].txId == txId
      ensures buckets.Length > 0
      ensures r.None? <==>
                forall h :: h in items ==>
                  items[h].txId != txId || hash(items[h].minerId, txId) % buckets.Length != hash(minerId, txId) % buckets.Length
    {
      hide BucketOf;
      BucketIs(hash, buckets.Length);
      var index := BucketOf(hash, buckets.Length, minerId, txId);
      var bucket := buckets[index];
      assert BucketHolds(hash, items, buckets[..][index], index, buckets.Length);
      for i := 0 to |bucket|
        invariant forall k :: 0 <= k < i ==> bucket[k].txId != txId
      {
        if bucket[i].txId == txId {
          return Some(HtabIterator(bucket[i].handle, index));
        }
      }
      r := None;
    }

    // Where an item stands in its bucket, and its entry in the index; a C++ iterator
    // knows without looking.
    method Locate(it: HtabIterator) returns (i: nat, p: nat)
      requires Valid() && Points(it)
      ensures it.index < buckets.Length && i < |buckets[it.index]| && buckets[it.index][i] == items[it.item]
      ensures buckets[it.index][i].handle == it.item
      ensures p < |byFee| && byFee[p].item == it.item
    {
      hide BucketOf;
      Facts();
      var bucket := buckets[it.index];
      ghost var item := items[it.item];
      assert item in buckets[..][it.index];
      i := 0;
      while bucket[i].handle != it.item
        invariant i < |bucket| && forall k :: 0 <= k < i ==> bucket[k] != item
        decreases |bucket| - i
      {
        i := i + 1;
      }
      ItemOf(hash, items, buckets[..], it.index, i);
      var link := bucket[i].link;
      EntryOf(hash, items, byFee, buckets.Length, it.item);
      p := 0;
      while byFee[p].handle != link
        invariant p < |byFee| && forall k :: 0 <= k < p ==> byFee[k].handle != link
        decreases |byFee| - p
      {
        p := p + 1;
      }
      HandleNamesEntry(hash, items, byFee, buckets.Length, it.item, p);
    }

    // What an iterator shows.
    method Read(it: HtabIterator) returns (txId: nat, fee: nat)
      requires Valid() && Points(it)
      ensures txId == items[it.item].txId && fee == items[it.item].fee
    {
      hide BucketOf, Stored;
      var i, p := Locate(it);
      txId, fee := buckets[it.index][i].txId, buckets[it.index][i].fee;
    }

    method EraseTransaction(it: Option<HtabIterator>)
      requires Valid() && (it.Some? ==> Points(it.value))
      modifies this, buckets
      ensures Valid()
      ensures items == if it.Some? then old(items) - {it.value.item} else old(items)
      ensures itemCount == old(itemCount) - if it.Some? then 1 else 0
      ensures it.None? ==> byFee == old(byFee)
      ensures it.Some? ==>
                exists p :: 0 <= p < |old(byFee)| && old(byFee)[p].item == it.value.item
                  && byFee == old(byFee)[..p] + old(byFee)[p + 1..]
    {
      hide Stored, BucketOf;
      if it.None? {
        return;
      }
      var i, p := Locate(it.value);
      ghost var byFee0 := byFee;
      EraseAt(it.value.index, i, p);
      assert byFee == byFee0[..p] + byFee0[p + 1..];
    }

    method EraseAt(b: nat, i: nat, p: nat)
      requires Valid() && b < buckets.Length && i < |buckets[b]| && p < |byFee| && byFee[p].item == buckets[b][i].handle
      modifies this, buckets
      ensures Valid() && items == old(items) - {old(buckets[b][i].handle)} && itemCount == old(itemCount) - 1
      ensures byFee == Cut(old(byFee), p)
    {
      hide Stored;
      ghost var buckets0 := buckets[..];
      EraseStored(hash, items, buckets[..], byFee, nextHandle, b, i, p);
      items := items - {buckets[b][i].handle};
      byFee := Cut(byFee, p);
      buckets[b] := Cut(buckets[b], i);
      itemCount := itemCount - 1;
      assert buckets[..] == buckets0[b := Cut(buckets0[b], i)];
    }

    // The last entry of the index.
    method GetSortedTransactionDescending() returns (it: HtabIterator)
      requires Valid() && itemCount > 0
      ensures Points(it)
      ensures forall h :: h in items ==> items[h].fee <= items[it.item].fee
      ensures byFee != [] && it.item == byFee[|byFee| - 1].item
    {
      hide BucketOf, Hashed;
      Facts();
      SameSize(hash, items, byFee, buckets.Length);
      var last := byFee[|byFee| - 1];
      EntryFacts(hash, items, byFee, buckets.Length, |byFee| - 1);
      it := HtabIterator(last.item, last.index);
      forall h | h in items
        ensures items[h].fee <= items[it.item].fee
      {
        EntryOf(hash, items, byFee, buckets.Length, h);
        var p :| 0 <= p < |byFee| && byFee[p].item == h;
        EntryFacts(hash, items, byFee, buckets.Length, p);
      }
    }

    // The cheapest transactions go first.
    method EraseTransactionsAscending(size: nat)
      requires Valid()
      modifies this, buckets
      ensures Valid()
      ensures itemCount == if old(itemCount) < size then 0 else old(itemCount) - size
      ensures Part(items, old(items)) && CheapestGone(old(items), items)
      ensures forall h :: h in items ==> h in old(items) && items[h] == old(items)[h]
      ensures forall g, h :: g in old(items) && g !in items && h in items ==> old(items)[g].fee <= items[h].fee
      ensures |byFee| == itemCount && |byFee| <= |old(byFee)| && byFee == old(byFee)[|old(byFee)| - |byFee|..]
    {
      hide BucketOf, Stored, Cut, Part, CheapestGone, Behind;
      ghost var before, entries := items, byFee;
      NothingGone(items);
      BehindNothing(byFee);
      SizeFacts();
      var i := 0;
      while byFee != []
        invariant Valid() && i <= size && itemCount == old(itemCount) - i && |byFee| == itemCount
        invariant Part(items, before) && CheapestGone(before, items) && Behind(entries, i, byFee)
        decreases |byFee|
      {
        if i == size {
          break;
        }
        BehindNext(entries, i, byFee);
        i := i + 1;
        var first := byFee[0];
        ghost var items0 := items;
        Cheapest();
        var at, p := Locate(HtabIterator(first.item, first.index));
        OneEntry(p);
        EraseAt(first.index, at, 0);
        OneMoreGone(before, items0, items, first.item);
        SizeFacts();
      }
      GoneInWords(before, items);
      BehindInWords(entries, i, byFee);
    }

    lemma SizeFacts()
      requires Valid()
      ensures |byFee| == itemCount
    {
      Facts();
      SameSize(hash, items, byFee, buckets.Length);
    }

    lemma Cheapest()
      requires Valid() && byFee != []
      ensures Points(HtabIterator(byFee[0].item, byFee[0].index))
      ensures forall h :: h in items ==> items[byFee[0].item].fee <= items[h].fee
    {
      hide BucketOf, Hashed;
      Facts();
      EntryFacts(hash, items, byFee, buckets.Length, 0);
      forall h | h in items
        ensures items[byFee[0].item].fee <= items[h].fee
      {
        EntryOf(hash, items, byFee, buckets.Length, h);
        var p :| 0 <= p < |byFee| && byFee[p].item == h;
        EntryFacts(hash, items, byFee, buckets.Length, p);
      }
    }

    lemma OneEntry(p: nat)
      requires Valid() && p < |byFee| && byFee[p].item == byFee[0].item
      ensures p == 0
    {
      Facts();
    }

    // Any transaction will do: the buckets are probed downwards and upwards from a random
    // one, and something is found whenever there is anything.
    method GetRandomTransaction(start: nat, pick: nat -> nat) returns (r: Option<HtabIterator>)
      requires Valid()
      ensures r.Some? <==> itemCount > 0
      ensures r.Some? ==> Points(r.value)
    {
      hide BucketOf, Stored, Down, Up;
      Facts();
      var n := buckets.Length;
      var index := start % n;
      var max := n / 2 + 1;
      var down: int := index;
      var up := if index == n - 1 then 0 else index + 1;
      ProbeStart(index, n);
      for i := 0 to max
        invariant i < max ==> (if down == -1 then n - 1 else down) == Down(index, i, n)
        invariant i < max ==> (if up == n then 0 else up) == Up(index, i, n)
        invariant forall j :: 0 <= j < i ==> Probed(buckets[..], Down(index, j, n)) && Probed(buckets[..], Up(index, j, n))
      {
        ProbeNext(index, i, n);
        if down == -1 {
          down := n - 1;
        }
        if buckets[down] != [] {
          r := PickFrom(down, pick);
          return;
        }
        down := down - 1;
        if up == n {
          up := 0;
        }
        if buckets[up] != [] {
          r := PickFrom(up, pick);
          return;
        }
        up := up + 1;
      }
      AllProbed(hash, items, buckets[..], index);
      r := None;
    }

    method PickFrom(b: nat, pick: nat -> nat) returns (r: Option<HtabIterator>)
      requires Valid() && b < buckets.Length && buckets[b] != []
      ensures itemCount > 0 && r.Some? && Points(r.value)
    {
      hide BucketOf;
      Facts();
      var at := if |buckets[b]| == 1 then 0 else pick(|buckets[b]|) % |buckets[b]|;
      ItemOf(hash, items, buckets[..], b, at);
      SomeItem(items, buckets[b][at].handle);
      r := Some(HtabIterator(buckets[b][at].handle, b));
    }

    method EraseRandomTransactions(size: nat, starts: nat -> nat, pick: nat -> nat)
      requires Valid() && size < 0x1_0000_0000
      modifies this, buckets
      ensures Valid() && Part(items, old(items))
      ensures forall h :: h in items ==> h in old(items) && items[h] == old(items)[h]
      ensures itemCount == if size >= 0x8000_0000 then old(itemCount)
                           else if old(itemCount) < size then 0 else old(itemCount) - size
    {
      hide BucketOf, Stored;
      SizeFacts();
      for i := 0 to if AsInt(size) > 0 then size else 0
        invariant Valid() && Part(items, old(items))
        invariant itemCount == if old(itemCount) < i then 0 else old(itemCount) - i
      {
        var it := GetRandomTransaction(starts(i), pick);
        EraseTransaction(it);
        SizeFacts();
      }
    }

    // Every item in the pool, once, with the node that its id names.
    method GetAllEntries() returns (entries: seq<PoolEntry>, ghost handles: seq<nat>)
      requires Valid()
      ensures Collected(items, entries, handles) && Elems(handles) == items.Keys && |entries| == itemCount
      ensures |handles| == itemCount && forall i, j :: 0 <= i < j < |handles| ==> handles[i] != handles[j]
      ensures forall h :: h in handles <==> h in items
      ensures forall i :: 0 <= i < |entries| ==>
                && handles[i] in items && entries[i].txId == items[handles[i]].txId
                && entries[i].node == items[handles[i]].txId / 0x1_0000_0000
    {
      hide BucketOf, Stored, Hashed;
      entries, handles := [], [];
      Facts();
      for b := 0 to buckets.Length
        invariant Collected(items, entries, handles)
        invariant forall h :: h in handles <==> h in items && Home(items[h]) < b
      {
        entries, handles := CollectBucket(b, entries, handles);
      }
      assert Elems(handles) == items.Keys;
      NoDupCard(handles);
      assert |items.Keys| == |items|;
    }

    ghost function Home(item: Item): (b: nat)
      requires buckets.Length > 0
      ensures b < buckets.Length
    {
      BucketOf(hash, buckets.Length, item.minerId, item.txId)
    }

    method CollectBucket(b: nat, entries: seq<PoolEntry>, ghost handles: seq<nat>) returns (entries': seq<PoolEntry>, ghost handles': seq<nat>)
      requires Valid() && b < buckets.Length && Collected(items, entries, handles)
      requires forall h :: h in handles <==> h in items && Home(items[h]) < b
      ensures Collected(items, entries', handles')
      ensures forall h :: h in handles' <==> h in items && Home(items[h]) < b + 1
    {
      hide BucketOf, Stored, Hashed;
      Facts();
      var bucket := buckets[b];
      InBucket(b);
      entries', handles' := entries, handles;
      for k := 0 to |bucket|
        invariant Collected(items, entries', handles')
        invariant forall h :: h in handles' <==> h in handles || Taken(bucket, k, h)
      {
        TakenNext(bucket, k);
        entries' := entries' + [PoolEntry(NodeOf(bucket[k].txId), bucket[k].txId)];
        handles' := handles' + [bucket[k].handle];
      }
    }

    lemma InBucket(b: nat)
      requires Valid() && b < buckets.Length
      ensures forall h :: Taken(buckets[b], |buckets[b]|, h) <==> h in items && Home(items[h]) == b
      ensures forall i :: 0 <= i < |buckets[b]| ==> buckets[b][i].handle in items && items[buckets[b][i].handle] == buckets[b][i]
      ensures forall i :: 0 <= i < |buckets[b]| ==> Home(buckets[b][i]) == b
      ensures forall i, j :: 0 <= i < j < |buckets[b]| ==> buckets[b][i].handle != buckets[b][j].handle
    {
      hide BucketOf;
      Facts();
      assert BucketHolds(hash, items, buckets[..][b], b, buckets.Length);
      forall h | h in items && Home(items[h]) == b
        ensures Taken(buckets[b], |buckets[b]|, h)
      {
        var i :| 0 <= i < |buckets[b]| && buckets[b][i] == items[h];
        assert buckets[b][i].handle == h;
      }
    }
  }

  ghost predicate Collected(items: map<nat, Item>, entries: seq<PoolEntry>, handles: seq<nat>) {
    && |entries| == |handles| && NoDup(handles)
    && forall i :: 0 <= i < |entries| ==> handles[i] in items && entries[i] == PoolEntry(NodeOf(items[handles[i]].txId), items[handles[i]].txId)
  }

  ghost predicate Taken(bucket: seq<Item>, k: nat, h: nat) {
    exists i :: 0 <= i < k && i < |bucket| && bucket[i].handle == h
  }

  lemma TakenNext(bucket: seq<Item>, k: nat)
    requires k < |bucket|
    ensures forall h :: Taken(bucket, k + 1, h) <==> Taken(bucket, k, h) || h == bucket[k].handle
  {
    assert forall h :: Taken(bucket, k, h) ==> Taken(bucket, k + 1, h);
    assert Taken(bucket, k + 1, bucket[k].handle);
  }

  // The conversion of a uint32_t to int.
  function AsInt(n: nat): int {
    if n < 0x8000_0000 then n else n - 0x1_0000_0000
  }

  lemma SomeItem(items: map<nat, Item>, h: nat)
    requires h in items
    ensures |items| > 0
  {
  }

  lemma NothingGone(items: map<nat, Item>)
    ensures Part(items, items) && CheapestGone(items, items)
  {
  }

  // What is left of the index when its first n entries have gone.
  ghost predicate Behind(entries: seq<FeeEntry>, n: nat, left: seq<FeeEntry>) {
    n <= |entries| && left == entries[n..]
  }

  lemma BehindNothing(entries: seq<FeeEntry>)
    ensures Behind(entries, 0, entries)
  {
  }

  lemma BehindNext(entries: seq<FeeEntry>, n: nat, left: seq<FeeEntry>)
    requires Behind(entries, n, left) && left != []
    ensures Behind(entries, n + 1, Cut(left, 0))
  {
  }

  lemma BehindInWords(entries: seq<FeeEntry>, n: nat, left: seq<FeeEntry>)
    requires Behind(entries, n, left)
    ensures |left| <= |entries| && left == entries[|entries| - |left|..]
  {
  }

  lemma GoneInWords(before: map<nat, Item>, after: map<nat, Item>)
    requires Part(after, before) && CheapestGone(before, after)
    ensures forall h :: h in after ==> h in before && after[h] == before[h]
    ensures forall g, h :: g in before && g !in after && h in after ==> before[g].fee <= after[h].fee
  {
  }

  lemma OneMoreGone(before: map<nat, Item>, mid: map<nat, Item>, after: map<nat, Item>, h: nat)
    requires Part(mid, before) && CheapestGone(before, mid) && h in mid && after == mid - {h}
    requires forall g :: g in mid ==> mid[h].fee <= mid[g].fee
    ensures Part(after, before) && CheapestGone(before, after)
  {
  }

  lemma ProbeStart(index: nat, n: nat)
    requires index < n
    ensures Down(index, 0, n) == index
    ensures Up(index, 0, n) == if index == n - 1 then 0 else index + 1
  {
  }

  lemma ProbeNext(index: nat, i: nat, n: nat)
    requires index < n && i < n / 2 + 1
    ensures 0 <= Down(index, i, n) < n && 0 <= Up(index, i, n) < n
    ensures i + 1 < n / 2 + 1 ==> Down(index, i + 1, n) == if Down(index, i, n) == 0 then n - 1 else Down(index, i, n) - 1
    ensures i + 1 < n / 2 + 1 ==> Up(index, i + 1, n) == if Up(index, i, n) == n - 1 then 0 else Up(index, i, n) + 1
  {
  }
}
