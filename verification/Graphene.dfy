/**
 * Graphene block relay (graphene.cc): a block's transaction ids are rebuilt from a
 * Bloom filter, an IBLT and the receiver's mempool. Ids stand for transactions; sizes
 * chosen by floating-point formulas are parameters.
 */
module Graphenes {
  import opened Orders
  import opened Sums
  import opened Hexes
  import opened Blooms
  import opened Iblts
  import opened PingPongs
  import opened Mempools

  // The 64-bit id of a pool entry.
  function KeyOf(e: PoolEntry): Key {
    Key((e.txId % 0x1_0000_0000_0000_0000) as bv64)
  }

  lemma KeyOfIs(e: PoolEntry)
    ensures KeyOf(e) == Key((e.txId % 0x1_0000_0000_0000_0000) as bv64)
  {
  }

  // ---------------------------------------------------------------------
  // Tables in messages (graphene.cc:533-589)
  // ---------------------------------------------------------------------

  datatype EntryMessage = EntryMessage(count: int, keySum: seq<Byte>, keyCheck: bv32)
  datatype IbltMessage = IbltMessage(numHashes: nat, entries: seq<EntryMessage>)

  // The hash functions every node shares.
  datatype Hashing = Hashing(hash: (nat, Key) -> nat, check: Key -> bv32)

  function ShapeOf(h: Hashing, numHashes: nat, size: nat): (sh: Shape)
    ensures sh.numHashes == numHashes && sh.size == size && sh.hash == h.hash && sh.check == h.check
  {
    Shape(numHashes, size, h.hash, h.check)
  }

  function MessageShape(h: Hashing, m: IbltMessage): (sh: Shape)
    ensures sh.numHashes == m.numHashes && sh.size == |m.entries| && sh.hash == h.hash && sh.check == h.check
  {
    ShapeOf(h, m.numHashes, |m.entries|)
  }

  // Every key sum fits a word.
  predicate Readable(m: IbltMessage) {
    forall i :: 0 <= i < |m.entries| ==> |m.entries[i].keySum| <= 16
  }

  predicate CarriesCell(e: EntryMessage, cell: Cell) {
    e.count == cell.count && e.keyCheck == cell.sum.check && IsHexOf(e.keySum, LittleEndian(cell.sum.key))
  }

  predicate ReadsCell(e: EntryMessage, cell: Cell) {
    cell.count == e.count && cell.sum.check == e.keyCheck && Spells(e.keySum, cell.sum.key)
  }

  predicate Carries(entries: seq<EntryMessage>, cells: seq<Cell>) {
    |entries| == |cells| && forall i :: 0 <= i < |cells| ==> CarriesCell(entries[i], cells[i])
  }

  predicate Reads(entries: seq<EntryMessage>, cells: seq<Cell>) {
    |entries| == |cells| && forall i :: 0 <= i < |cells| ==> ReadsCell(entries[i], cells[i])
  }

  method SerializeIblt(t: Iblt) returns (m: IbltMessage)
    requires t.Valid()
    ensures m.numHashes == t.sh.numHashes && Readable(m) && Carries(m.entries, t.table[..])
    ensures |m.entries| == t.table.Length
    ensures forall i :: 0 <= i < t.table.Length ==>
              && m.entries[i].count == t.table[i].count && m.entries[i].keyCheck == t.table[i].sum.check
              && |m.entries[i].keySum| == 16 && IsHexOf(m.entries[i].keySum, LittleEndian(t.table[i].sum.key))
  {
    hide IsHexOf, LittleEndian;
    var entries := [];
    for i := 0 to t.table.Length
      invariant |entries| == i
      invariant forall k :: 0 <= k < i ==> CarriesCell(entries[k], t.table[k]) && |entries[k].keySum| == 16
    {
      var cell := t.table[i];
      var text := HexEncode(LittleEndian(cell.sum.key));
      TextLength(text, cell.sum.key);
      entries := entries + [EntryMessage(cell.count, text, cell.sum.check)];
    }
    m := IbltMessage(t.sh.numHashes, entries);
  }

  lemma TextLength(text: seq<Byte>, w: bv64)
    requires IsHexOf(text, LittleEndian(w))
    ensures |text| == 16
  {
  }

  method DeserializeIblt(h: Hashing, m: IbltMessage) returns (t: Iblt)
    requires Readable(m)
    ensures fresh(t) && fresh(t.table) && t.sh == MessageShape(h, m)
    ensures ValidShape(MessageShape(h, m)) ==> t.Valid()
    ensures Reads(m.entries, t.table[..])
  {
    hide Spells;
    var cells := [];
    for i := 0 to |m.entries|
      invariant |cells| == i
      invariant forall k :: 0 <= k < i ==> ReadsCell(m.entries[k], cells[k])
    {
      var keySum := HexDecodeU64(m.entries[i].keySum);
      cells := cells + [Cell(m.entries[i].count, Sum(keySum, m.entries[i].keyCheck))];
    }
    t := new Iblt.FromCells(MessageShape(h, m), cells);
  }

  lemma IbltRoundTrip(entries: seq<EntryMessage>, sent: seq<Cell>, read: seq<Cell>)
    requires Carries(entries, sent) && Reads(entries, read)
    ensures read == sent
  {
    hide IsHexOf, LittleEndian, Spells;
    forall i | 0 <= i < |sent|
      ensures read[i] == sent[i]
    {
      assert CarriesCell(entries[i], sent[i]) && ReadsCell(entries[i], read[i]);
      WordRoundTrip(sent[i].sum.key, entries[i].keySum, read[i].sum.key);
    }
  }

  // A message that carries the table of a set of ids.
  ghost predicate Announces(h: Hashing, m: IbltMessage, ids: set<Key>) {
    && Readable(m) && ValidShape(MessageShape(h, m))
    && exists cells :: Carries(m.entries, cells) && Encodes(MessageShape(h, m), cells, ids, {})
  }

  // ---------------------------------------------------------------------
  // Tables of sets
  // ---------------------------------------------------------------------

  // The shape of a table asked for with this many cells (thirdparty/iblt.h:271-283).
  function TableShape(h: Hashing, numHashes: nat, cells: nat): (sh: Shape)
    requires numHashes > 0 && cells > 0
    ensures ValidShape(sh) && sh.numHashes == numHashes && cells <= sh.size < cells + numHashes
    ensures sh.hash == h.hash && sh.check == h.check
  {
    ShapeOf(h, numHashes, LeastMultiple(cells, numHashes))
  }

  // An empty table of the given size, with every id inserted.
  method TableOf(h: Hashing, numHashes: nat, cells: nat, ids: set<Key>) returns (t: Iblt)
    requires numHashes > 0 && cells > 0
    ensures fresh(t) && fresh(t.table) && t.Valid()
    ensures t.sh == TableShape(h, numHashes, cells)
    ensures Encodes(t.sh, t.table[..], ids, {})
  {
    hide Encodes;
    var n := RoundUp(cells, numHashes);
    t := new Iblt(ShapeOf(h, numHashes, n));
    InsertAll(t, ids);
  }

  method InsertAll(t: Iblt, ids: set<Key>)
    requires t.Valid() && Encodes(t.sh, t.table[..], {}, {})
    modifies t.table
    ensures Encodes(t.sh, t.table[..], ids, {})
  {
    hide *;
    t.ValidFacts();
    var rest := ids;
    InsertedNone(ids);
    while rest != {}
      invariant rest <= ids && Encodes(t.sh, t.table[..], ids - rest, {})
      decreases |rest|
    {
      var k :| k in rest;
      InsertedOne(ids, rest, k);
      t.Insert(k);
      rest := rest - {k};
    }
    InsertedAll(ids);
  }

  lemma InsertedNone(ids: set<Key>)
    ensures ids - ids == {}
  {
  }

  lemma InsertedAll(ids: set<Key>)
    ensures ids - {} == ids
  {
  }

  lemma InsertedOne(ids: set<Key>, rest: set<Key>, k: Key)
    requires k in rest && rest <= ids
    ensures (if k in {} then ids - rest else (ids - rest) + {k}) == ids - (rest - {k})
    ensures {} - {k} == {} && k !in ids - rest
    ensures rest - {k} <= ids && |rest - {k}| < |rest|
  {
  }

  function HashingOf(sh: Shape): Hashing {
    Hashing(sh.hash, sh.check)
  }

  lemma SameShape(sh: Shape)
    requires ValidShape(sh)
    ensures sh.numHashes > 0 && sh.size > 0 && TableShape(HashingOf(sh), sh.numHashes, sh.size) == sh
  {
    hide LeastMultiple;
  }

  // What the sender's set differs by from the receiver's, as subtraction leaves it.
  method Difference(sender: Iblt, ids: set<Key>, ghost block: set<Key>) returns (diff: Iblt)
    requires sender.Valid() && Encodes(sender.sh, sender.table[..], block, {})
    ensures fresh(diff) && fresh(diff.table) && diff.Valid() && diff.sh == sender.sh
    ensures Encodes(diff.sh, diff.table[..], block - ids, ids - block)
  {
    hide *;
    sender.ValidFacts();
    SameShape(sender.sh);
    var receiver := TableOf(HashingOf(sender.sh), sender.sh.numHashes, sender.sh.size, ids);
    EncodesFacts(sender.sh, sender.table[..], block, {});
    receiver.ValidFacts();
    diff := sender.Minus(receiver);
  }

  // The candidates corrected by what the difference listed.
  method Corrected(ids: set<Key>, positive: set<Key>, negative: set<Key>) returns (r: set<Key>)
    requires positive !! negative
    ensures r == (ids - negative) + positive
  {
    r := ids;
    var rest := negative;
    while rest != {}
      invariant rest <= negative && r == ids - (negative - rest)
      decreases rest
    {
      var k :| k in rest;
      r, rest := r - {k}, rest - {k};
    }
    rest := positive;
    while rest != {}
      invariant rest <= positive && r == (ids - negative) + (positive - rest)
      decreases rest
    {
      var k :| k in rest;
      r, rest := r + {k}, rest - {k};
    }
  }

  // Listing everything corrects the candidates to the block.
  lemma CorrectionIsExact(block: set<Key>, ids: set<Key>, positive: set<Key>, negative: set<Key>, core: set<Key>)
    requires core <= (block - ids) + (ids - block)
    requires positive == {} + ((block - ids) - core) && negative == {} + ((ids - block) - core)
    ensures positive !! negative
    ensures core == {} ==> (ids - negative) + positive == block
  {
  }

  // What stays unpeeled of the difference between a block and a set of ids.
  ghost function Unpeeled(sh: Shape, block: set<Key>, ids: set<Key>): (left: set<Key>)
    requires ValidShape(sh)
    ensures left <= (block - ids) + (ids - block) && Stuck(sh, left)
    ensures forall s :: s <= (block - ids) + (ids - block) && Stuck(sh, s) ==> s <= left
  {
    CoreIsLargest(sh, (block - ids) + (ids - block));
    Core(sh, (block - ids) + (ids - block))
  }

  lemma UnpeeledFacts(sh: Shape, block: set<Key>, ids: set<Key>)
    requires ValidShape(sh)
    ensures IsCore(sh, (block - ids) + (ids - block), Unpeeled(sh, block, ids))
    ensures Unpeeled(sh, block, ids) == Core(sh, (block - ids) + (ids - block))
  {
    CoreIsLargest(sh, (block - ids) + (ids - block));
  }

  // Both protocols end the same way: subtract, list, correct.
  method Decode(sender: Iblt, ids: set<Key>, ghost block: set<Key>)
    returns (ok: bool, ids': set<Key>)
    requires sender.Valid() && Encodes(sender.sh, sender.table[..], block, {})
    requires ValidShape(sender.sh) && CollisionFree(sender.sh, block - ids, ids - block)
    ensures ok <==> Unpeeled(sender.sh, block, ids) == {}
    ensures ids' == if Unpeeled(sender.sh, block, ids) == {} then block else ids
  {
    hide *;
    var diff := Difference(sender, ids, block);
    UnpeeledFacts(sender.sh, block, ids);
    var positive, negative;
    ok, positive, negative := diff.ListEntries({}, {}, block - ids, ids - block);
    if !ok {
      return false, ids;
    }
    CoreWithin(sender.sh, (block - ids) + (ids - block), Unpeeled(sender.sh, block, ids));
    CorrectionIsExact(block, ids, positive, negative, Unpeeled(sender.sh, block, ids));
    ids' := Corrected(ids, positive, negative);
  }

  // The exclusive-or of the ids, as messages carry it.
  ghost function Checksum(sh: Shape, ids: set<Key>): bv64 {
    SumOf(sh.check, ids).key
  }

  method ComputeChecksum(ids: set<Key>, ghost sh: Shape) returns (r: bv64)
    ensures r == Checksum(sh, ids)
  {
    hide *;
    r := 0;
    var rest := ids;
    ChecksumNone(sh, ids);
    while rest != {}
      invariant rest <= ids && r == Checksum(sh, ids - rest)
      decreases |rest|
    {
      var k :| k in rest;
      Pick(ids, rest, k);
      ChecksumMore(sh, ids - rest, k);
      r := Xor64(r, k.word);
      rest := rest - {k};
    }
    PickEnds(ids);
  }

  lemma ChecksumNone(sh: Shape, ids: set<Key>)
    ensures Checksum(sh, ids - ids) == 0
  {
    assert ids - ids == {};
    SumOfNone(sh.check);
  }

  lemma ChecksumMore(sh: Shape, ids: set<Key>, k: Key)
    requires k !in ids
    ensures Checksum(sh, ids + {k}) == Xor64(Checksum(sh, ids), k.word)
  {
    hide Xor64, Xor32;
    SumPlus(sh.check, ids, k);
  }

  // ---------------------------------------------------------------------
  // Protocol 1
  // ---------------------------------------------------------------------

  ghost function Candidates(bf: BloomFilter, mempool: seq<PoolEntry>): set<Key>
    reads bf, bf.bits
    requires bf.Valid()
  {
    set i | 0 <= i < |mempool| && bf.Contains(KeyOf(mempool[i])) :: KeyOf(mempool[i])
  }

  // The same, from a filter's message.
  ghost predicate MessageCandidates(scheme: Scheme, m: BloomMessage, mempool: seq<PoolEntry>, candidates: set<Key>)
    requires ValidScheme(scheme) && Usable(m)
  {
    exists salts, table :: MessageFilter(scheme, m, salts, table)
      && candidates == set i | 0 <= i < |mempool| && Passes(scheme, m.tableSize, salts, table, KeyOf(mempool[i])) :: KeyOf(mempool[i])
  }

  ghost predicate MessageFilter(scheme: Scheme, m: BloomMessage, salts: seq<bv32>, table: seq<Byte>)
    requires ValidScheme(scheme)
  {
    |salts| == m.saltCount && AreSalts(scheme, m.saltCount, m.seed, salts) && IsParsed(table, m.bitTable)
  }

  method BuildCandidateSet(bf: BloomFilter, mempool: seq<PoolEntry>) returns (candidates: set<Key>)
    requires bf.Valid()
    ensures candidates == Candidates(bf, mempool)
    ensures candidates == set i | 0 <= i < |mempool| && bf.Contains(KeyOf(mempool[i])) :: KeyOf(mempool[i])
  {
    hide KeyOf, BloomFilter.Valid, BloomFilter.Contains;
    candidates := {};
    for i := 0 to |mempool|
      invariant candidates == set j | 0 <= j < i && bf.Contains(KeyOf(mempool[j])) :: KeyOf(mempool[j])
    {
      var passes := bf.Test(KeyOf(mempool[i]));
      if passes {
        candidates := candidates + {KeyOf(mempool[i])};
      }
    }
  }

  const MAX_GUARANTEED_MISSING: nat := 16

  // The sizes that the floating-point formulas choose for a filter and a table.
  datatype Sizing = Sizing(tableSize: nat, saltCount: nat, randomSeed: bv64, cells: nat, numHashes: nat)

  ghost predicate Sensible(scheme: Scheme, z: Sizing) {
    && ValidScheme(scheme) && Supplied(scheme, z.saltCount, StoredSeed(z.randomSeed))
    && z.tableSize > 0 && z.tableSize % 8 == 0 && z.cells > 0 && z.numHashes > 0
  }

  // Any sizes that are not zero will do for up to 128 salts.
  lemma SensibleMeans(scheme: Scheme, z: Sizing)
    requires z.saltCount <= 128
    ensures Sensible(scheme, z) <==>
              |scheme.predefined| == 128 && z.tableSize > 0 && z.tableSize % 8 == 0 && z.cells > 0 && z.numHashes > 0
  {
    hide Drawn, LowHalf, StoredSeed;
  }

  ghost predicate SaltsOf(scheme: Scheme, z: Sizing, salts: seq<bv32>)
    requires ValidScheme(scheme)
  {
    |salts| == z.saltCount && AreSalts(scheme, z.saltCount, StoredSeed(z.randomSeed), salts)
  }

  // A filter of these sizes into which exactly these ids went.
  ghost predicate FilterOf(bf: BloomFilter, scheme: Scheme, z: Sizing, ids: set<Key>)
    reads bf, bf.bits
  {
    && bf.Valid() && bf.scheme == scheme
    && bf.tableSize == z.tableSize && bf.seed == StoredSeed(z.randomSeed) && |bf.salts| == z.saltCount
    && BitsOf(bf.bits[..]) == Union(scheme, z.tableSize, bf.salts, ids)
  }

  // The ids of `among` that pass such a filter.
  ghost predicate Passing(scheme: Scheme, z: Sizing, ids: set<Key>, among: set<Key>, passing: set<Key>)
    requires Sensible(scheme, z)
  {
    exists salts :: SaltsOf(scheme, z, salts)
      && passing == set k | k in among && Positions(scheme, z.tableSize, k, salts) <= Union(scheme, z.tableSize, salts, ids)
  }

  lemma FilterPasses(bf: BloomFilter, scheme: Scheme, z: Sizing, ids: set<Key>, among: set<Key>, passing: set<Key>)
    requires Sensible(scheme, z) && FilterOf(bf, scheme, z, ids)
    requires passing == set k | k in among && bf.Contains(k)
    ensures Passing(scheme, z, ids, among, passing)
  {
    hide AreSalts, BitsOf, Positions, Union, ValidScheme;
    assert SaltsOf(scheme, z, bf.salts);
    assert passing == set k | k in among && Positions(scheme, z.tableSize, k, bf.salts) <= Union(scheme, z.tableSize, bf.salts, ids);
  }

  // A filter of some ids, bit by bit.
  lemma FilterInBits(bf: BloomFilter, scheme: Scheme, z: Sizing, ids: set<Key>)
    requires Sensible(scheme, z) && FilterOf(bf, scheme, z, ids)
    ensures bf.tableSize == 8 * bf.bits.Length
    ensures forall c, b :: 0 <= c < bf.bits.Length && 0 <= b < 8 ==>
              (bf.bits[c] & BitMask(b) != 0)
              == exists id, i :: id in ids && 0 <= i < |bf.salts|
                   && (scheme.hash(id, bf.salts[i]) as nat) % z.tableSize == 8 * c + b
  {
    hide BitsOf, HasBit, Union, AreSalts, ValidScheme, Supplied;
    UnionInBits(scheme, z.tableSize, bf.salts, ids, bf.bits[..]);
  }

  // One salt under which an id lands where no id of the filter does is enough.
  lemma FilterRefuses(bf: BloomFilter, scheme: Scheme, z: Sizing, ids: set<Key>, k: Key, i: nat)
    requires Sensible(scheme, z) && FilterOf(bf, scheme, z, ids) && i < |bf.salts|
    requires forall id, j :: id in ids && 0 <= j < |bf.salts| ==>
               (scheme.hash(id, bf.salts[j]) as nat) % z.tableSize != (scheme.hash(k, bf.salts[i]) as nat) % z.tableSize
    ensures !bf.Contains(k)
    ensures var p := (scheme.hash(k, bf.salts[i]) as nat) % z.tableSize;
      && z.tableSize == 8 * bf.bits.Length
      && bf.bits[p / 8] & BitMask(p % 8) == 0
  {
    hide BitsOf, Positions, Union, AreSalts, ValidScheme, Supplied, Position, HasBit;
    var p := (scheme.hash(k, bf.salts[i]) as nat) % z.tableSize;
    CoveredMeans(scheme, z.tableSize, bf.salts, ids, k);
    PositionInBits(bf.bits[..], p);
    assert !Hit(scheme, z.tableSize, bf.salts, ids, p);
  }

  // Which ids pass, by their hashes.
  lemma PassingMeans(scheme: Scheme, z: Sizing, ids: set<Key>, among: set<Key>, passing: set<Key>)
    requires Sensible(scheme, z)
    ensures Passing(scheme, z, ids, among, passing)
       <==> exists salts ::
              && SaltsOf(scheme, z, salts)
              && passing == set k | k in among && forall i :: 0 <= i < |salts| ==>
                   Hit(scheme, z.tableSize, salts, ids, (scheme.hash(k, salts[i]) as nat) % z.tableSize)
  {
    hide Positions, Union, SaltsOf, ValidScheme, Supplied, Position, Hit;
    forall salts, k
      ensures Positions(scheme, z.tableSize, k, salts) <= Union(scheme, z.tableSize, salts, ids)
         <==> forall i :: 0 <= i < |salts| ==>
                Hit(scheme, z.tableSize, salts, ids, (scheme.hash(k, salts[i]) as nat) % z.tableSize)
    {
      CoveredMeans(scheme, z.tableSize, salts, ids, k);
    }
    forall salts
      ensures (set k | k in among && Positions(scheme, z.tableSize, k, salts) <= Union(scheme, z.tableSize, salts, ids))
           == set k | k in among && forall i :: 0 <= i < |salts| ==>
                Hit(scheme, z.tableSize, salts, ids, (scheme.hash(k, salts[i]) as nat) % z.tableSize)
    {
    }
  }

  // No id that went in is lost among those that pass, and the sizes, the seed and the ids
  // leave no choice.
  lemma PassingKeeps(scheme: Scheme, z: Sizing, ids: set<Key>, among: set<Key>, passing: set<Key>)
    requires Sensible(scheme, z) && Passing(scheme, z, ids, among, passing)
    ensures ids * among <= passing <= among
    ensures forall other :: Passing(scheme, z, ids, among, other) ==> other == passing
  {
    hide AreSalts, Position, ValidScheme;
    var salts :| SaltsOf(scheme, z, salts)
      && passing == set k | k in among && Positions(scheme, z.tableSize, k, salts) <= Union(scheme, z.tableSize, salts, ids);
    forall other | Passing(scheme, z, ids, among, other)
      ensures other == passing
    {
      var salts' :| SaltsOf(scheme, z, salts')
        && other == set k | k in among && Positions(scheme, z.tableSize, k, salts') <= Union(scheme, z.tableSize, salts', ids);
      SaltsUnique(scheme, z.saltCount, StoredSeed(z.randomSeed), salts, salts');
    }
  }

  // The sender's half, given the sizes its formulas chose. Nothing is built for a
  // receiver whose mempool is too small.
  method BuildSenderComponents(h: Hashing, scheme: Scheme, block: set<Key>, receiverCount: nat, z: Sizing)
    returns (ok: bool, bf: BloomFilter?, t: Iblt?)
    requires Sensible(scheme, z)
    ensures ok <==> |block| <= receiverCount + 16
    ensures ok ==> bf != null && t != null && fresh(bf) && fresh(bf.bits) && fresh(t) && fresh(t.table)
    ensures ok ==> FilterOf(bf, scheme, z, block)
    ensures ok ==> t.Valid() && t.sh == TableShape(h, z.numHashes, z.cells) && Encodes(t.sh, t.table[..], block, {})
  {
    hide FilterOf, Encodes, ValidScheme, TableShape;
    bf, t := null, null;
    var missing := if |block| > receiverCount then |block| - receiverCount else 0;
    if missing > MAX_GUARANTEED_MISSING {
      return false, bf, t;
    }
    bf := BloomOf(scheme, z, block);
    t := TableOf(h, z.numHashes, z.cells, block);
    ok := true;
  }

  method BloomOf(scheme: Scheme, z: Sizing, ids: set<Key>) returns (bf: BloomFilter)
    requires Sensible(scheme, z)
    ensures fresh(bf) && fresh(bf.bits) && FilterOf(bf, scheme, z, ids)
  {
    hide ValidScheme, AreSalts, BitsOf, Union, Positions, StoredSeed, BloomFilter.Valid;
    bf := new BloomFilter(scheme, z.tableSize, z.saltCount, z.randomSeed);
    ghost var salts := bf.salts;
    var rest := ids;
    PickEnds(ids);
    UnionNext(scheme, z.tableSize, salts, {}, Key(0));
    while rest != {}
      invariant rest <= ids && bf.Valid() && fresh(bf.bits) && bf.salts == salts
      invariant BitsOf(bf.bits[..]) == Union(scheme, z.tableSize, salts, ids - rest)
      decreases |rest|
    {
      var k :| k in rest;
      Pick(ids, rest, k);
      UnionNext(scheme, z.tableSize, salts, ids - rest, k);
      bf.Insert(k);
      rest := rest - {k};
    }
  }

  // For every mempool and every false positive of the filter, success means exactly the
  // sender's ids, and happens exactly when nothing of the difference stays unpeeled.
  method ReconstructBlock(bf: BloomFilter, sender: Iblt, txCount: nat, mempool: seq<PoolEntry>,
                          txs: set<Key>, ghost block: set<Key>)
    returns (status: DecodeStatus, txs': set<Key>)
    requires bf.Valid() && sender.Valid() && Encodes(sender.sh, sender.table[..], block, {}) && ValidShape(sender.sh)
    requires var c := Candidates(bf, mempool); CollisionFree(sender.sh, block - c, c - block)
    ensures var left := Unpeeled(sender.sh, block, Candidates(bf, mempool));
      && status == (if left == {} && |block| == txCount then SUCCESS else FAIL_RECOVERABLE)
      && txs' == if left == {} then block else txs
  {
    hide *;
    var candidates := BuildCandidateSet(bf, mempool);
    var ok, ids := Decode(sender, candidates, block);
    txs' := if ok then ids else txs;
    status := if !ok || |txs'| != txCount then FAIL_RECOVERABLE else SUCCESS;
  }

  lemma CoreWithin(sh: Shape, all: set<Key>, core: set<Key>)
    requires ValidShape(sh) && IsCore(sh, all, core)
    ensures core <= all
  {
  }

  datatype GrapheneMessage = GrapheneMessage(bloom: BloomMessage, iblt: IbltMessage, txCount: nat, txChecksum: bv64)

  // A message whose table, count and checksum were made from these ids.
  ghost predicate Describe(h: Hashing, m: GrapheneMessage, block: set<Key>) {
    && Announces(h, m.iblt, block)
    && m.txCount == |block| && m.txChecksum == Checksum(MessageShape(h, m.iblt), block)
  }

  lemma AnnouncedTable(h: Hashing, m: IbltMessage, ids: set<Key>, cells: seq<Cell>)
    requires Announces(h, m, ids) && Reads(m.entries, cells)
    ensures ValidShape(MessageShape(h, m)) && Encodes(MessageShape(h, m), cells, ids, {})
  {
    hide Carries, Reads, Encodes;
    var sent :| Carries(m.entries, sent) && Encodes(MessageShape(h, m), sent, ids, {});
    IbltRoundTrip(m.entries, sent, cells);
  }

  lemma ReadCandidates(bf: BloomFilter, m: BloomMessage, mempool: seq<PoolEntry>)
    requires bf.Valid() && Usable(m)
    requires bf.tableSize == m.tableSize && bf.seed == m.seed && |bf.salts| == m.saltCount
    requires IsParsed(bf.bits[..], m.bitTable)
    ensures ValidScheme(bf.scheme) && MessageCandidates(bf.scheme, m, mempool, Candidates(bf, mempool))
  {
    hide ValidScheme, AreSalts, Passes, IsParsed, Usable;
    assert MessageFilter(bf.scheme, m, bf.salts, bf.bits[..]);
  }

  // The receiver's first attempt: success is exact and the checksum check never fails;
  // otherwise the candidates and the difference are kept for recovery.
  method ProcessIncomingBlock(h: Hashing, scheme: Scheme, m: GrapheneMessage, mempool: seq<PoolEntry>, ghost block: set<Key>)
    returns (success: bool, txs: set<Key>, candidates: set<Key>, diff1: Iblt?)
    requires ValidScheme(scheme) && Usable(m.bloom) && Supplied(scheme, m.bloom.saltCount, m.bloom.seed) && Describe(h, m, block)
    requires forall c :: MessageCandidates(scheme, m.bloom, mempool, c)
               ==> CollisionFree(MessageShape(h, m.iblt), block - c, c - block)
    ensures MessageCandidates(scheme, m.bloom, mempool, candidates)
    ensures success <==> Unpeeled(MessageShape(h, m.iblt), block, candidates) == {}
    ensures success ==> txs == block
    ensures !success ==> diff1 != null && fresh(diff1) && fresh(diff1.table) && diff1.Valid()
    ensures !success ==> diff1.sh == MessageShape(h, m.iblt)
    ensures !success ==> Encodes(diff1.sh, diff1.table[..], block - candidates, candidates - block)
  {
    hide *;
    DescribeFacts(h, m, block);
    var bf := DeserializeBloomFilter(scheme, m.bloom);
    var iblt := DeserializeIblt(h, m.iblt);
    AnnouncedTable(h, m.iblt, block, iblt.table[..]);
    ReadCandidates(bf, m.bloom, mempool);
    var status, recovered := ReconstructBlock(bf, iblt, m.txCount, mempool, {}, block);
    txs, diff1 := {}, null;
    candidates := BuildCandidateSet(bf, mempool);
    if status == SUCCESS {
      var sum := ComputeChecksum(recovered, iblt.sh);
      assert sum == m.txChecksum;
      success, txs := true, recovered;
      return;
    }
    diff1 := Difference(iblt, candidates, block);
    success := false;
  }

  lemma DescribeFacts(h: Hashing, m: GrapheneMessage, block: set<Key>)
    requires Describe(h, m, block)
    ensures Announces(h, m.iblt, block) && Readable(m.iblt) && ValidShape(MessageShape(h, m.iblt))
    ensures m.txCount == |block| && m.txChecksum == Checksum(MessageShape(h, m.iblt), block)
  {
  }

  // ---------------------------------------------------------------------
  // Protocol 2
  // ---------------------------------------------------------------------

  // The sender answers with a second table and the ids the receiver's filter lacks.
  method SecondIblt(h: Hashing, block: set<Key>, receiver: BloomFilter, cells: nat, numHashes: nat)
    returns (t: Iblt, missing: seq<Key>)
    requires receiver.Valid() && cells > 0 && numHashes > 0
    ensures fresh(t) && fresh(t.table) && t.Valid() && t.sh == TableShape(h, numHashes, cells)
    ensures Encodes(t.sh, t.table[..], block, {})
    ensures NoDup(missing) && forall k :: k in missing <==> k in block && !receiver.Contains(k)
  {
    hide *;
    t := TableOf(h, numHashes, cells, {});
    missing := [];
    var rest := block;
    NoneMissing(receiver, block);
    t.ValidFacts();
    PickEnds(block);
    while rest != {}
      invariant fresh(t.table) && t.Valid() && rest <= block
      invariant Encodes(t.sh, t.table[..], block - rest, {})
      invariant MissingFrom(receiver, block - rest, missing)
      decreases |rest|
    {
      var k :| k in rest;
      InsertedOne(block, rest, k);
      Pick(block, rest, k);
      t.Insert(k);
      var passes := receiver.Test(k);
      MissingNext(receiver, block - rest, missing, k);
      if !passes {
        missing := missing + [k];
      }
      rest := rest - {k};
    }
    MissingMeans(receiver, block, missing);
  }

  ghost predicate MissingFrom(receiver: BloomFilter, ids: set<Key>, missing: seq<Key>)
    reads receiver, receiver.bits
    requires receiver.Valid()
  {
    NoDup(missing) && forall k :: k in missing <==> k in ids && !receiver.Contains(k)
  }

  lemma NoneMissing(receiver: BloomFilter, ids: set<Key>)
    requires receiver.Valid()
    ensures MissingFrom(receiver, ids - ids, [])
  {
  }

  lemma MissingNext(receiver: BloomFilter, ids: set<Key>, missing: seq<Key>, k: Key)
    requires receiver.Valid() && MissingFrom(receiver, ids, missing) && k !in ids
    ensures MissingFrom(receiver, ids + {k}, if receiver.Contains(k) then missing else missing + [k])
  {
    hide BloomFilter.Valid, BloomFilter.Contains;
  }

  lemma MissingMeans(receiver: BloomFilter, ids: set<Key>, missing: seq<Key>)
    requires receiver.Valid() && MissingFrom(receiver, ids, missing)
    ensures NoDup(missing) && forall k :: k in missing <==> k in ids && !receiver.Contains(k)
  {
    hide BloomFilter.Valid, BloomFilter.Contains;
  }

  datatype RecoveryResponse = RecoveryResponse(iblt: IbltMessage, missing: seq<Key>, txChecksum: bv64)

  method WithMissing(z: set<Key>, missing: seq<Key>) returns (w: set<Key>)
    ensures w == z + Elems(missing)
  {
    w := z;
    for i := 0 to |missing|
      invariant w == z + Elems(missing[..i])
    {
      assert missing[..i + 1] == missing[..i] + [missing[i]];
      ElemsConcat(missing[..i], [missing[i]]);
      w := w + {missing[i]};
    }
    assert missing[..|missing|] == missing;
  }

  // For every list of missing ids, success means exactly the sender's ids.
  method ReconstructRecoveryBlock(h: Hashing, m: RecoveryResponse, z: set<Key>, ghost block: set<Key>)
    returns (status: DecodeStatus, z': set<Key>)
    requires Announces(h, m.iblt, block)
    requires var w := z + Elems(m.missing); CollisionFree(MessageShape(h, m.iblt), block - w, w - block)
    ensures var w := z + Elems(m.missing);
      var left := Unpeeled(MessageShape(h, m.iblt), block, w);
      && status == (if left == {} then SUCCESS else FAIL_FATAL)
      && z' == if left == {} then block else w
  {
    hide *;
    AnnouncesReadable(h, m.iblt, block);
    var j := DeserializeIblt(h, m.iblt);
    AnnouncedTable(h, m.iblt, block, j.table[..]);
    z' := WithMissing(z, m.missing);
    var ok;
    ok, z' := Decode(j, z', block);
    status := if ok then SUCCESS else FAIL_FATAL;
  }

  lemma AnnouncesReadable(h: Hashing, m: IbltMessage, ids: set<Key>)
    requires Announces(h, m, ids)
    ensures Readable(m) && ValidShape(MessageShape(h, m))
  {
  }

  // The two sides of the ping-pong: the first difference lacks the missing ids.
  ghost function FirstSide(block: set<Key>, z: set<Key>, missing: set<Key>): Side {
    Side(block - z, z - block, missing - z, block - z, z - block)
  }

  ghost function SecondSide(block: set<Key>, z: set<Key>, missing: set<Key>): Side {
    Side(block - (z + missing), (z + missing) - block, {}, block - (z + missing), (z - block) + (missing - z))
  }

  lemma SidesOffset(block: set<Key>, z: set<Key>, missing: set<Key>)
    requires missing <= block
    ensures Bounded(FirstSide(block, z, missing)) && Bounded(SecondSide(block, z, missing))
    ensures Offset(FirstSide(block, z, missing), SecondSide(block, z, missing))
  {
    var a, b := FirstSide(block, z, missing), SecondSide(block, z, missing);
    forall k: Key
      ensures KeyOffset(a, b, k) && KeyOffset(b, a, k)
    {
    }
  }

  // What both recovery attempts assume of the two tables.
  ghost predicate RecoveryCollisionFree(sh1: Shape, sh2: Shape, block: set<Key>, z: set<Key>, missing: set<Key>): (r: bool)
    requires ValidShape(sh1) && ValidShape(sh2)
    ensures (forall k :: k in missing ==> k in block && k !in z) ==>
              (r <==> CollisionFree(sh1, block - z, z - block) && CollisionFree(sh2, block - (z + missing), (z - block) + missing))
  {
    assert missing !! z ==> missing - z == missing;
    && CollisionFree(sh1, block - z, z - block)
    && CollisionFree(sh2, block - (z + missing), (z - block) + (missing - z))
  }

  // Ping-pong decodes the block exactly when no missing id was new, no key of the
  // difference is stuck in both tables, and the depth bound is not met. With a new id the
  // two tables never agree.
  ghost predicate PingPongDecodes(sh1: Shape, sh2: Shape, block: set<Key>, z: set<Key>, missing: set<Key>): (r: bool)
    requires ValidShape(sh1) && ValidShape(sh2)
    ensures r <==>
              && missing <= z
              && (forall s :: s <= (block - z) + (z - block) && Stuck(sh1, s) && Stuck(sh2, s) ==> s == {})
              && !TooDeep(sh1, sh2, (block - z) + (z - block), 0)
  {
    var d := (block - z) + (z - block);
    missing <= z && HoldsStuck(sh1, sh2, d, {}) && !TooDeep(sh1, sh2, d, 0)
  }

  // Success is exact whatever path it takes, and comes exactly when the second table
  // decodes alone or both do by ping-pong. No checksum check ever fails.
  method ProcessRecoveryResponse(h: Hashing, m: RecoveryResponse, txCount: nat, z: set<Key>, diff1: Iblt, ghost block: set<Key>)
    returns (success: bool, txs: set<Key>)
    requires Announces(h, m.iblt, block)
    requires m.txChecksum == Checksum(MessageShape(h, m.iblt), block) && txCount == |block|
    requires Elems(m.missing) <= block
    requires diff1.Valid() && Encodes(diff1.sh, diff1.table[..], block - z, z - block)
    requires ValidShape(diff1.sh) && RecoveryCollisionFree(diff1.sh, MessageShape(h, m.iblt), block, z, Elems(m.missing))
    ensures success ==> txs == block
    ensures success <==>
              || Unpeeled(MessageShape(h, m.iblt), block, z + Elems(m.missing)) == {}
              || PingPongDecodes(diff1.sh, MessageShape(h, m.iblt), block, z, Elems(m.missing))
  {
    hide *;
    AnnouncesReadable(h, m.iblt, block);
    ghost var missing := Elems(m.missing);
    ghost var a, b := FirstSide(block, z, missing), SecondSide(block, z, missing);
    RecoveryFacts(diff1.sh, MessageShape(h, m.iblt), block, z, missing);
    var status, w := ReconstructRecoveryBlock(h, m, z, block);
    txs := {};
    if status == SUCCESS {
      var sum := ComputeChecksum(w, MessageShape(h, m.iblt));
      assert sum == m.txChecksum;
      return true, w;
    }
    var j := DeserializeIblt(h, m.iblt);
    AnnouncedTable(h, m.iblt, block, j.table[..]);
    var diff2 := Difference(j, w, block);
    diff1.ValidFacts();
    var copy := new Iblt.FromCells(diff1.sh, diff1.table[..]);
    SidesHold(diff1.sh, copy.table[..], MessageShape(h, m.iblt), diff2.table[..], block, z, missing);
    SidesOffset(block, z, missing);
    ghost var rest;
    var inBlock, notInBlock;
    status, inBlock, notInBlock, rest := TryPingPong(copy, diff2, {}, {}, 0, a, b);
    success := false;
    PingPongDecided(diff1.sh, MessageShape(h, m.iblt), block, z, missing, status, inBlock, notInBlock, rest);
    if status == SUCCESS {
      var ids := (w + inBlock) - notInBlock;
      if |ids| == txCount {
        var sum := ComputeChecksum(ids, MessageShape(h, m.iblt));
        if sum == m.txChecksum {
          return true, ids;
        }
      }
    }
  }

  lemma RecoveryFacts(sh1: Shape, sh2: Shape, block: set<Key>, z: set<Key>, missing: set<Key>)
    requires ValidShape(sh1) && ValidShape(sh2) && missing <= block
    requires RecoveryCollisionFree(sh1, sh2, block, z, missing)
    ensures var w := z + missing; CollisionFree(sh2, block - w, w - block)
  {
    hide CollisionFree;
    var w := z + missing;
    CollisionFreeShrinks(sh2, block - w, (z - block) + (missing - z), block - w, w - block);
  }

  lemma SidesHold(sh1: Shape, cells1: seq<Cell>, sh2: Shape, cells2: seq<Cell>, block: set<Key>, z: set<Key>, missing: set<Key>)
    requires ValidShape(sh1) && ValidShape(sh2) && missing <= block
    requires RecoveryCollisionFree(sh1, sh2, block, z, missing)
    requires Encodes(sh1, cells1, block - z, z - block)
    requires Encodes(sh2, cells2, block - (z + missing), (z + missing) - block)
    ensures Holds(sh1, cells1, FirstSide(block, z, missing)) && Holds(sh2, cells2, SecondSide(block, z, missing))
  {
    hide CollisionFree, Encodes;
    SidesOffset(block, z, missing);
  }

  lemma PingPongDecided(sh1: Shape, sh2: Shape, block: set<Key>, z: set<Key>, missing: set<Key>,
                        status: DecodeStatus, inBlock: set<Key>, notInBlock: set<Key>, rest: set<Key>)
    requires ValidShape(sh1) && ValidShape(sh2)
    requires Decides(sh1, sh2, FirstSide(block, z, missing), SecondSide(block, z, missing), 0, status,
                     ({}, {}), (inBlock, notInBlock), rest)
    requires Fatal(sh1, sh2, FirstSide(block, z, missing), SecondSide(block, z, missing), 0, status)
    ensures status == SUCCESS <==> PingPongDecodes(sh1, sh2, block, z, missing)
    ensures status == SUCCESS ==> ((z + missing) + inBlock) - notInBlock == block
  {
    hide TooDeep, Stuck;
    WithinIffNothingNew(missing, z);
    var a, b := FirstSide(block, z, missing), SecondSide(block, z, missing);
    assert a.extra + b.extra == missing - z;
    assert missing <= z && status == FAIL_RECOVERABLE && HoldsStuck(sh1, sh2, a.pos + a.neg, {}) ==> rest <= {};
  }

  lemma WithinIffNothingNew(missing: set<Key>, z: set<Key>)
    ensures missing <= z <==> missing - z == {}
  {
    forall k | k in missing && missing - z == {}
      ensures k in z
    {
      assert k in z || k in missing - z;
    }
  }

  // ---------------------------------------------------------------------
  // Sender and receiver together
  // ---------------------------------------------------------------------

  // What goes over the wire passes the same keys as the sender's filter.
  lemma FilterCarried(bf: BloomFilter, m: BloomMessage, mempool: seq<PoolEntry>, candidates: set<Key>)
    requires bf.Valid() && Usable(m) && Describes(m, bf.tableSize, bf.salts, bf.seed, bf.bits[..])
    requires ValidScheme(bf.scheme) && MessageCandidates(bf.scheme, m, mempool, candidates)
    ensures candidates == set k | k in PoolIds(mempool) && bf.Contains(k)
  {
    hide AreSalts, Passes, IsParsed, IsHexOf, ValidScheme;
    var salts, table :| MessageFilter(bf.scheme, m, salts, table)
      && candidates == set i | 0 <= i < |mempool| && Passes(bf.scheme, m.tableSize, salts, table, KeyOf(mempool[i])) :: KeyOf(mempool[i]);
    BloomRoundTrip(bf.scheme, m, bf.tableSize, bf.seed, bf.salts, bf.bits[..], salts, table);
  }

  ghost function PoolIds(mempool: seq<PoolEntry>): set<Key> {
    set i | 0 <= i < |mempool| :: KeyOf(mempool[i])
  }

  lemma SentCandidates(bf: BloomFilter, scheme: Scheme, z: Sizing, block: set<Key>,
                       m: BloomMessage, mempool: seq<PoolEntry>, candidates: set<Key>)
    requires Sensible(scheme, z) && FilterOf(bf, scheme, z, block)
    requires Usable(m) && Describes(m, bf.tableSize, bf.salts, bf.seed, bf.bits[..])
    requires MessageCandidates(scheme, m, mempool, candidates)
    ensures Passing(scheme, z, block, PoolIds(mempool), candidates)
  {
    hide BloomFilter.Valid, BloomFilter.Contains, ValidScheme, Usable, Describes, MessageCandidates, Passing, PoolIds;
    FilterCarried(bf, m, mempool, candidates);
    FilterPasses(bf, scheme, z, block, PoolIds(mempool), candidates);
  }

  // Protocol 1 from sender to receiver: a block is described, sent as text, and rebuilt
  // from any mempool; the receiver's count is the one its request carried. The only hypothesis is that the difference between the block and
  // the ids that pass its filter has no collision in the table built.
  method Relay(h: Hashing, scheme: Scheme, block: set<Key>, receiverCount: nat, mempool: seq<PoolEntry>, z: Sizing)
    returns (sent: bool, success: bool, txs: set<Key>, candidates: set<Key>, diff1: Iblt?)
    requires Sensible(scheme, z)
    requires forall c :: Passing(scheme, z, block, PoolIds(mempool), c)
               ==> CollisionFree(TableShape(h, z.numHashes, z.cells), block - c, c - block)
    ensures sent <==> |block| <= receiverCount + 16
    ensures sent ==> Passing(scheme, z, block, PoolIds(mempool), candidates)
    ensures sent ==> (success <==> Unpeeled(TableShape(h, z.numHashes, z.cells), block, candidates) == {})
    ensures sent && success ==> txs == block
    ensures sent && !success ==> diff1 != null && fresh(diff1) && fresh(diff1.table) && diff1.Valid()
    ensures sent && !success ==> diff1.sh == TableShape(h, z.numHashes, z.cells)
    ensures sent && !success ==> Encodes(diff1.sh, diff1.table[..], block - candidates, candidates - block)
  {
    hide *;
    var bf, t;
    success, txs, candidates, diff1 := false, {}, {}, null;
    sent, bf, t := BuildSenderComponents(h, scheme, block, receiverCount, z);
    if sent {
      var bloom := SerializeFilter(bf, scheme, z, block);
      var iblt := SerializeIblt(t);
      var sum := ComputeChecksum(block, t.sh);
      var m := GrapheneMessage(bloom, iblt, |block|, sum);
      TableFacts(h, scheme, z);
      t.ValidFacts();
      SentDescribes(h, m.iblt, block, t.sh, t.table[..]);
      DescribeFrom(h, m, block);
      forall c | MessageCandidates(scheme, bloom, mempool, c)
        ensures Passing(scheme, z, block, PoolIds(mempool), c)
      {
        SentCandidates(bf, scheme, z, block, bloom, mempool, c);
      }
      success, txs, candidates, diff1 := ProcessIncomingBlock(h, scheme, m, mempool, block);
    }
  }

  method SerializeFilter(bf: BloomFilter, ghost scheme: Scheme, ghost z: Sizing, ghost ids: set<Key>) returns (m: BloomMessage)
    requires FilterOf(bf, scheme, z, ids)
    ensures Usable(m) && Describes(m, bf.tableSize, bf.salts, bf.seed, bf.bits[..])
    ensures ValidScheme(scheme) && Supplied(scheme, m.saltCount, m.seed)
  {
    hide AreSalts, Supplied, IsHexOf;
    m := SerializeBloomFilter(bf);
    SaltsSupplied(scheme, |bf.salts|, bf.seed, bf.salts);
  }

  lemma TableFacts(h: Hashing, scheme: Scheme, z: Sizing)
    requires Sensible(scheme, z)
    ensures ValidScheme(scheme) && z.numHashes > 0 && z.cells > 0 && ValidShape(TableShape(h, z.numHashes, z.cells))
    ensures var sh := TableShape(h, z.numHashes, z.cells); sh == ShapeOf(h, sh.numHashes, sh.size)
  {
    hide LeastMultiple;
  }

  lemma SentDescribes(h: Hashing, m: IbltMessage, block: set<Key>, sh: Shape, cells: seq<Cell>)
    requires ValidShape(sh) && sh == ShapeOf(h, sh.numHashes, sh.size) && |cells| == sh.size
    requires m.numHashes == sh.numHashes && Readable(m) && Carries(m.entries, cells)
    requires Encodes(sh, cells, block, {})
    ensures MessageShape(h, m) == sh && Announces(h, m, block)
  {
    hide Encodes, CarriesCell;
  }

  lemma DescribeFrom(h: Hashing, m: GrapheneMessage, block: set<Key>)
    requires Announces(h, m.iblt, block)
    requires m.txCount == |block| && m.txChecksum == Checksum(MessageShape(h, m.iblt), block)
    ensures Describe(h, m, block)
  {
  }

  // The filter that arrives is the filter that was sent.
  lemma FilterSurvives(bf: BloomFilter, m: BloomMessage, bf': BloomFilter, scheme: Scheme, z: Sizing, ids: set<Key>)
    requires Sensible(scheme, z) && FilterOf(bf, scheme, z, ids)
    requires Describes(m, bf.tableSize, bf.salts, bf.seed, bf.bits[..])
    requires bf'.Valid() && bf'.scheme == scheme && bf'.tableSize == m.tableSize && bf'.seed == m.seed
    requires |bf'.salts| == m.saltCount && IsParsed(bf'.bits[..], m.bitTable)
    ensures FilterOf(bf', scheme, z, ids)
  {
    hide AreSalts, Passes, IsParsed, IsHexOf, ValidScheme, BitsOf, Union;
    BloomRoundTrip(scheme, m, bf.tableSize, bf.seed, bf.salts, bf.bits[..], bf'.salts, bf'.bits[..]);
  }

  // Protocol 2 from receiver to sender and back (graphene.cc:662-682, node.cc:1062-1109,
  // graphene.cc:687-752). `missing` are the block's ids that do not pass a filter of the
  // candidates, so none of them is a candidate, and ping-pong has a chance exactly when
  // there are none.
  method Recover(h: Hashing, scheme: Scheme, block: set<Key>, candidates: set<Key>, diff1: Iblt, z: Sizing)
    returns (success: bool, txs: set<Key>, ghost missing: set<Key>)
    requires Sensible(scheme, z) && diff1.Valid() && ValidShape(diff1.sh)
    requires Encodes(diff1.sh, diff1.table[..], block - candidates, candidates - block)
    requires forall p :: Passing(scheme, z, candidates, block, p)
               ==> RecoveryCollisionFree(diff1.sh, TableShape(h, z.numHashes, z.cells), block, candidates, block - p)
    ensures missing <= block && missing !! candidates && Passing(scheme, z, candidates, block, block - missing)
    ensures success ==> txs == block
    ensures success <==>
              || Unpeeled(TableShape(h, z.numHashes, z.cells), block, candidates + missing) == {}
              || (missing == {} && PingPongDecodes(diff1.sh, TableShape(h, z.numHashes, z.cells), block, candidates, {}))
  {
    hide *;
    TableFacts(h, scheme, z);
    var bf := BloomOf(scheme, z, candidates);
    var request := SerializeFilter(bf, scheme, z, candidates);
    var received := DeserializeBloomFilter(scheme, request);
    FilterSurvives(bf, request, received, scheme, z, candidates);
    var t, ids := SecondIblt(h, block, received, z.cells, z.numHashes);
    missing := Elems(ids);
    MissingPass(received, scheme, z, candidates, block, ids);
    var iblt := SerializeIblt(t);
    var sum := ComputeChecksum(block, t.sh);
    t.ValidFacts();
    SentDescribes(h, iblt, block, t.sh, t.table[..]);
    success, txs := ProcessRecoveryResponse(h, RecoveryResponse(iblt, ids, sum), |block|, candidates, diff1, block);
    NothingNew(diff1.sh, t.sh, block, candidates, missing);
  }

  lemma MissingPass(bf: BloomFilter, scheme: Scheme, z: Sizing, candidates: set<Key>, block: set<Key>, ids: seq<Key>)
    requires Sensible(scheme, z) && FilterOf(bf, scheme, z, candidates)
    requires forall k :: k in ids <==> k in block && !bf.Contains(k)
    ensures Elems(ids) <= block && Elems(ids) !! candidates
    ensures Passing(scheme, z, candidates, block, block - Elems(ids))
    ensures block - (block - Elems(ids)) == Elems(ids)
  {
    hide BloomFilter.Valid, BloomFilter.Contains, ValidScheme, Passing;
    var passing := block - Elems(ids);
    assert passing == set k | k in block && bf.Contains(k);
    FilterPasses(bf, scheme, z, candidates, block, passing);
    PassingKeeps(scheme, z, candidates, block, passing);
    forall k | k in Elems(ids)
      ensures k !in candidates
    {
      assert k in candidates ==> k in candidates * block;
    }
  }

  lemma NothingNew(sh1: Shape, sh2: Shape, block: set<Key>, candidates: set<Key>, missing: set<Key>)
    requires ValidShape(sh1) && ValidShape(sh2) && missing !! candidates
    ensures PingPongDecodes(sh1, sh2, block, candidates, missing)
       <==> missing == {} && PingPongDecodes(sh1, sh2, block, candidates, {})
  {
    hide HoldsStuck, TooDeep;
    assert missing * candidates == {};
    assert missing <= candidates ==> missing * candidates == missing;
  }

  // Both protocols, one after the other if need be: what arrives is the block, and it
  // arrives exactly when one of the three ways of decoding gets through.
  method Deliver(h: Hashing, scheme: Scheme, block: set<Key>, receiverCount: nat, mempool: seq<PoolEntry>,
                 z1: Sizing, z2: Sizing)
    returns (sent: bool, success: bool, txs: set<Key>, ghost candidates: set<Key>, ghost missing: set<Key>)
    requires Sensible(scheme, z1) && Sensible(scheme, z2)
    requires forall c :: Passing(scheme, z1, block, PoolIds(mempool), c)
               ==> CollisionFree(TableShape(h, z1.numHashes, z1.cells), block - c, c - block)
    requires forall c, p :: Passing(scheme, z1, block, PoolIds(mempool), c) && Passing(scheme, z2, c, block, p)
               ==> RecoveryCollisionFree(TableShape(h, z1.numHashes, z1.cells), TableShape(h, z2.numHashes, z2.cells), block, c, block - p)
    ensures sent <==> |block| <= receiverCount + 16
    ensures sent ==> Passing(scheme, z1, block, PoolIds(mempool), candidates)
    ensures sent && success ==> txs == block
    ensures var sh1 := TableShape(h, z1.numHashes, z1.cells);
      sent && Unpeeled(sh1, block, candidates) != {} ==>
        missing <= block && missing !! candidates && Passing(scheme, z2, candidates, block, block - missing)
    ensures var sh1, sh2 := TableShape(h, z1.numHashes, z1.cells), TableShape(h, z2.numHashes, z2.cells);
      sent ==>
        (success <==>
          || Unpeeled(sh1, block, candidates) == {}
          || Unpeeled(sh2, block, candidates + missing) == {}
          || (missing == {} && PingPongDecodes(sh1, sh2, block, candidates, {})))
  {
    hide *;
    var z, diff1;
    missing := {};
    sent, success, txs, z, diff1 := Relay(h, scheme, block, receiverCount, mempool, z1);
    candidates := z;
    if sent && !success {
      TableFacts(h, scheme, z1);
      success, txs, missing := Recover(h, scheme, block, z, diff1, z2);
    }
  }
}
