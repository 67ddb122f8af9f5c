/**
 * The invertible Bloom lookup table of thirdparty/iblt.h, keys only. The bucket hashes
 * and the checksum are arbitrary functions. A table encodes a signed difference: the
 * keys that went in positively and those that went in negatively.
 */
module Iblts {
  import opened Orders
  import opened Sums

  datatype Shape = Shape(numHashes: nat, size: nat, hash: (nat, Key) -> nat, check: Key -> bv32)

  predicate ValidShape(sh: Shape) {
    sh.numHashes > 0 && sh.size > 0 && sh.size % sh.numHashes == 0
  }

  function PerHash(sh: Shape): (n: nat)
    requires ValidShape(sh)
    ensures n > 0 && n * sh.numHashes == sh.size
  {
    PerHashFacts(sh.size, sh.numHashes);
    sh.size / sh.numHashes
  }

  lemma PerHashFacts(size: nat, n: nat)
    requires n > 0 && size > 0 && size % n == 0
    ensures size / n > 0 && (size / n) * n == size
  {
  }

  // Hash i owns the i-th sub-table (thirdparty/iblt.h:306-313).
  function Bucket(sh: Shape, i: nat, k: Key): nat
    requires ValidShape(sh)
  {
    i * PerHash(sh) + sh.hash(i, k) % PerHash(sh)
  }

  lemma BucketRange(sh: Shape, i: nat, k: Key)
    requires ValidShape(sh) && i < sh.numHashes
    ensures Bucket(sh, i, k) < sh.size
    ensures Bucket(sh, i, k) / PerHash(sh) == i
  {
    var n := PerHash(sh);
    var r := sh.hash(i, k) % n;
    DivOfSum(i, n, r);
    assert (i + 1) * n <= sh.numHashes * n by {
      MulMonotone(i + 1, sh.numHashes, n);
    }
  }

  lemma DivOfSum(i: nat, n: nat, r: nat)
    requires r < n
    ensures (i * n + r) / n == i && i * n + r < (i + 1) * n
  {
    var x := i * n + r;
    var q := x / n;
    NextMultiple(i, n);
    NextMultiple(q, n);
    QuotientBounds(x, n);
    if q < i {
      MulMonotone(q + 1, i, n);
    } else if q > i {
      MulMonotone(i + 1, q, n);
    }
  }

  lemma NextMultiple(i: nat, n: nat)
    ensures (i + 1) * n == i * n + n
  {
  }

  lemma QuotientBounds(x: nat, n: nat)
    requires n > 0
    ensures (x / n) * n <= x < (x / n) * n + n
  {
  }

  lemma MulMonotone(a: nat, b: nat, n: nat)
    requires a <= b
    ensures a * n <= b * n
  {
  }

  function SubTable(sh: Shape, c: nat): (i: nat)
    requires ValidShape(sh) && c < sh.size
    ensures i < sh.numHashes
  {
    SubTableBound(c, PerHash(sh), sh.numHashes);
    c / PerHash(sh)
  }

  lemma SubTableBound(c: nat, n: nat, m: nat)
    requires n > 0 && c < n * m
    ensures c / n < m
  {
    if c / n >= m {
      MulMonotone(m, c / n, n);
    }
  }

  // Keys of s that fall into cell c.
  ghost function At(sh: Shape, s: set<Key>, c: nat): set<Key>
    requires ValidShape(sh) && c < sh.size
  {
    set k | k in s && Bucket(sh, SubTable(sh, c), k) == c
  }

  datatype Cell = Cell(count: int, sum: Sum)

  const EMPTY_CELL: Cell := Cell(0, ZERO)

  predicate IsPure(sh: Shape, cell: Cell) {
    (cell.count == 1 || cell.count == -1) && sh.check(Key(cell.sum.key)) == cell.sum.check
  }

  predicate IsEmpty(cell: Cell) {
    cell.count == 0 && cell.sum == ZERO
  }

  // The cell a group of keys makes, some of them positive and some negative.
  ghost function CellOf(sh: Shape, pos: set<Key>, neg: set<Key>, group: set<Key>): Cell {
    Cell(|group * pos| - |group * neg|, SumOf(sh.check, group))
  }

  ghost predicate Encodes(sh: Shape, cells: seq<Cell>, pos: set<Key>, neg: set<Key>)
    requires ValidShape(sh)
  {
    && pos !! neg
    && |cells| == sh.size
    && forall c :: 0 <= c < sh.size ==> cells[c] == CellOf(sh, pos, neg, At(sh, pos + neg, c))
  }

  // ---------------------------------------------------------------------
  // Insertion and deletion
  // ---------------------------------------------------------------------

  function Toggled(sh: Shape, sign: int, k: Key, cell: Cell): Cell {
    Cell(cell.count + sign, Mix(cell.sum, Contribution(sh.check, k)))
  }

  // Where inserting with this sign moves key k.
  ghost function PosAfter(sign: int, k: Key, pos: set<Key>, neg: set<Key>): set<Key> {
    if sign == 1 then (if k in neg then pos else pos + {k}) else pos - {k}
  }

  ghost function NegAfter(sign: int, k: Key, pos: set<Key>, neg: set<Key>): set<Key> {
    if sign == 1 then neg - {k} else (if k in pos then neg else neg + {k})
  }

  // A key is not put in twice with the same sign.
  ghost predicate Insertable(sign: int, k: Key, pos: set<Key>, neg: set<Key>) {
    (sign == 1 && k !in pos) || (sign == -1 && k !in neg)
  }

  lemma ToggleCell(sh: Shape, sign: int, k: Key, pos: set<Key>, neg: set<Key>, c: nat)
    requires ValidShape(sh) && c < sh.size && pos !! neg && Insertable(sign, k, pos, neg)
    ensures var pos', neg' := PosAfter(sign, k, pos, neg), NegAfter(sign, k, pos, neg);
      && pos' !! neg'
      && CellOf(sh, pos', neg', At(sh, pos' + neg', c)) ==
         if Bucket(sh, SubTable(sh, c), k) == c
         then Toggled(sh, sign, k, CellOf(sh, pos, neg, At(sh, pos + neg, c)))
         else CellOf(sh, pos, neg, At(sh, pos + neg, c))
  {
    hide *;
    AfterDisjoint(sign, k, pos, neg);
    AtMembers(sh, pos + neg, c);
    AtAfter(sh, sign, k, pos, neg, c);
    var pos', neg' := PosAfter(sign, k, pos, neg), NegAfter(sign, k, pos, neg);
    var a, a' := At(sh, pos + neg, c), At(sh, pos' + neg', c);
    if Bucket(sh, SubTable(sh, c), k) == c {
      ToggleGroup(sh, sign, k, pos, neg, a, a');
    } else {
      GroupUnchanged(sh, sign, k, pos, neg, a);
    }
  }

  lemma AfterDisjoint(sign: int, k: Key, pos: set<Key>, neg: set<Key>)
    requires pos !! neg && Insertable(sign, k, pos, neg)
    ensures PosAfter(sign, k, pos, neg) !! NegAfter(sign, k, pos, neg)
    ensures PosAfter(sign, k, pos, neg) + NegAfter(sign, k, pos, neg)
         == if k in pos + neg then pos + neg - {k} else pos + neg + {k}
  {
  }

  lemma AtMembers(sh: Shape, s: set<Key>, c: nat)
    requires ValidShape(sh) && c < sh.size
    ensures At(sh, s, c) <= s
    ensures forall k :: k in At(sh, s, c) <==> k in s && Bucket(sh, SubTable(sh, c), k) == c
  {
    hide Bucket, SubTable;
  }

  lemma AtAfter(sh: Shape, sign: int, k: Key, pos: set<Key>, neg: set<Key>, c: nat)
    requires ValidShape(sh) && c < sh.size && pos !! neg && Insertable(sign, k, pos, neg)
    ensures var all := PosAfter(sign, k, pos, neg) + NegAfter(sign, k, pos, neg);
      At(sh, all, c) ==
        if Bucket(sh, SubTable(sh, c), k) != c then At(sh, pos + neg, c)
        else if k in pos + neg then At(sh, pos + neg, c) - {k}
        else At(sh, pos + neg, c) + {k}
    ensures Bucket(sh, SubTable(sh, c), k) != c ==> k !in At(sh, pos + neg, c)
  {
    hide Bucket, SubTable, PosAfter, NegAfter;
    AfterDisjoint(sign, k, pos, neg);
  }

  lemma GroupUnchanged(sh: Shape, sign: int, k: Key, pos: set<Key>, neg: set<Key>, a: set<Key>)
    requires pos !! neg && Insertable(sign, k, pos, neg) && a <= pos + neg && k !in a
    ensures CellOf(sh, PosAfter(sign, k, pos, neg), NegAfter(sign, k, pos, neg), a) == CellOf(sh, pos, neg, a)
  {
    hide SumOf;
    assert a * PosAfter(sign, k, pos, neg) == a * pos && a * NegAfter(sign, k, pos, neg) == a * neg;
  }

  lemma ToggleGroup(sh: Shape, sign: int, k: Key, pos: set<Key>, neg: set<Key>, a: set<Key>, a': set<Key>)
    requires pos !! neg && Insertable(sign, k, pos, neg) && a <= pos + neg
    requires k in pos + neg ==> k in a && a' == a - {k}
    requires k !in pos + neg ==> a' == a + {k}
    ensures CellOf(sh, PosAfter(sign, k, pos, neg), NegAfter(sign, k, pos, neg), a')
         == Toggled(sh, sign, k, CellOf(sh, pos, neg, a))
  {
    hide Mix, Contribution, SumOf;
    if k in pos + neg {
      SumDrop(sh.check, a, k);
      LeaveCount(sign, k, pos, neg, a);
    } else {
      SumPlus(sh.check, a, k);
      EnterCount(sign, k, pos, neg, a);
    }
  }

  lemma LeaveCount(sign: int, k: Key, pos: set<Key>, neg: set<Key>, a: set<Key>)
    requires pos !! neg && Insertable(sign, k, pos, neg) && a <= pos + neg
    requires k in pos + neg && k in a
    ensures |(a - {k}) * PosAfter(sign, k, pos, neg)| - |(a - {k}) * NegAfter(sign, k, pos, neg)|
         == |a * pos| - |a * neg| + sign
  {
    if sign == 1 {
      assert (a - {k}) * pos == a * pos;
      assert (a - {k}) * (neg - {k}) == a * neg - {k};
    } else {
      assert (a - {k}) * neg == a * neg;
      assert (a - {k}) * (pos - {k}) == a * pos - {k};
    }
  }

  lemma EnterCount(sign: int, k: Key, pos: set<Key>, neg: set<Key>, a: set<Key>)
    requires pos !! neg && Insertable(sign, k, pos, neg) && a <= pos + neg
    requires k !in pos + neg
    ensures |(a + {k}) * PosAfter(sign, k, pos, neg)| - |(a + {k}) * NegAfter(sign, k, pos, neg)|
         == |a * pos| - |a * neg| + sign
  {
    if sign == 1 {
      assert (a + {k}) * (pos + {k}) == a * pos + {k};
      assert (a + {k}) * (neg - {k}) == a * neg;
    } else {
      assert (a + {k}) * (neg + {k}) == a * neg + {k};
      assert (a + {k}) * (pos - {k}) == a * pos;
    }
  }

  // ---------------------------------------------------------------------
  // Subtraction
  // ---------------------------------------------------------------------

  function CellMinus(a: Cell, b: Cell): Cell {
    Cell(a.count - b.count, Mix(a.sum, b.sum))
  }

  lemma MinusIs(a: Cell, b: Cell)
    ensures CellMinus(a, b) == Cell(a.count - b.count, Sum(a.sum.key ^ b.sum.key, a.sum.check ^ b.sum.check))
  {
    hide Xor64, Xor32;
    Xor64Is(a.sum.key, b.sum.key);
    Xor32Is(a.sum.check, b.sum.check);
  }

  // Two tables over the same shape, each built from one set of keys: subtracting
  // cancels the common keys in every cell.
  lemma SubtractCell(sh: Shape, s: set<Key>, t: set<Key>, c: nat)
    requires ValidShape(sh) && c < sh.size
    ensures CellMinus(CellOf(sh, s, {}, At(sh, s + {}, c)), CellOf(sh, t, {}, At(sh, t + {}, c)))
         == CellOf(sh, s - t, t - s, At(sh, (s - t) + (t - s), c))
  {
    hide *;
    assert s + {} == s && t + {} == t;
    AtMembers(sh, s, c);
    AtMembers(sh, t, c);
    AtDifference(sh, s, t, c);
    SubtractGroups(sh, s, t, At(sh, s, c), At(sh, t, c));
  }

  lemma AtDifference(sh: Shape, s: set<Key>, t: set<Key>, c: nat)
    requires ValidShape(sh) && c < sh.size
    ensures At(sh, (s - t) + (t - s), c) == (At(sh, s, c) - At(sh, t, c)) + (At(sh, t, c) - At(sh, s, c))
    ensures At(sh, s, c) - At(sh, t, c) == At(sh, s, c) - t
    ensures At(sh, t, c) - At(sh, s, c) == At(sh, t, c) - s
  {
    hide Bucket, SubTable;
  }

  lemma SubtractGroups(sh: Shape, s: set<Key>, t: set<Key>, a: set<Key>, b: set<Key>)
    requires a <= s && b <= t && a - b == a - t && b - a == b - s
    ensures CellMinus(CellOf(sh, s, {}, a), CellOf(sh, t, {}, b))
         == CellOf(sh, s - t, t - s, (a - b) + (b - a))
  {
    hide SumOf, Mix;
    SumDifference(sh.check, a, b);
    SubtractCounts(s, t, a, b);
  }

  lemma SubtractCounts(s: set<Key>, t: set<Key>, a: set<Key>, b: set<Key>)
    requires a <= s && b <= t && a - b == a - t && b - a == b - s
    ensures (|a * s| - |a * {}|) - (|b * t| - |b * {}|)
         == |((a - b) + (b - a)) * (s - t)| - |((a - b) + (b - a)) * (t - s)|
  {
    assert a * s == a && a * {} == {} && b * t == b && b * {} == {};
    assert ((a - b) + (b - a)) * (s - t) == a - b;
    assert ((a - b) + (b - a)) * (t - s) == b - a;
    assert a == (a - b) + (a * b) && b == (b - a) + (a * b);
  }

  // ---------------------------------------------------------------------
  // Collisions and stuck sets
  // ---------------------------------------------------------------------

  // The accumulators of a group of two or more keys are neither those of a single key nor
  // all zero.
  ghost predicate Honest(sh: Shape, pos: set<Key>, neg: set<Key>, group: set<Key>) {
    var count, sum := |group * pos| - |group * neg|, SumOf(sh.check, group);
    |group| >= 2 ==>
      && !((count == 1 || count == -1) && sh.check(Key(sum.key)) == sum.check)
      && !(count == 0 && sum.key == 0 && sum.check == 0)
  }

  // The hypothesis of every decoding result: no group of keys of the difference that
  // shares a cell is mistaken for a single key or for nothing.
  ghost predicate CollisionFree(sh: Shape, pos: set<Key>, neg: set<Key>)
    requires ValidShape(sh)
  {
    forall c, group :: 0 <= c < sh.size && group <= At(sh, pos + neg, c) ==> Honest(sh, pos, neg, group)
  }

  // No cell holds exactly one key.
  ghost predicate Stuck(sh: Shape, s: set<Key>)
    requires ValidShape(sh)
  {
    forall c :: 0 <= c < sh.size ==> |At(sh, s, c)| != 1
  }

  // The largest stuck subset of a set of keys.
  ghost predicate IsCore(sh: Shape, all: set<Key>, core: set<Key>)
    requires ValidShape(sh)
  {
    && core <= all && Stuck(sh, core)
    && forall s :: s <= all && Stuck(sh, s) ==> s <= core
  }

  // The keys that some stuck subset holds.
  ghost function Core(sh: Shape, all: set<Key>): set<Key>
    requires ValidShape(sh)
  {
    set k | k in all && HeldStuck(sh, all, k)
  }

  ghost predicate HeldStuck(sh: Shape, all: set<Key>, k: Key)
    requires ValidShape(sh)
  {
    exists s :: s <= all && Stuck(sh, s) && k in s
  }

  // Together the stuck subsets are stuck.
  lemma CoreIsLargest(sh: Shape, all: set<Key>)
    requires ValidShape(sh)
    ensures IsCore(sh, all, Core(sh, all))
  {
    hide At, ValidShape;
    var core := Core(sh, all);
    forall s | s <= all && Stuck(sh, s)
      ensures s <= core
    {
      assert forall k :: k in s ==> HeldStuck(sh, all, k);
    }
    forall c | 0 <= c < sh.size
      ensures |At(sh, core, c)| != 1
    {
      NotAlone(sh, all, c);
    }
  }

  lemma NotAlone(sh: Shape, all: set<Key>, c: nat)
    requires ValidShape(sh) && c < sh.size
    requires forall s :: s <= all && Stuck(sh, s) ==> s <= Core(sh, all)
    ensures |At(sh, Core(sh, all), c)| != 1
  {
    hide At, ValidShape, Stuck, Core;
    var group := At(sh, Core(sh, all), c);
    AtMembers(sh, Core(sh, all), c);
    if |group| == 1 {
      var k :| k in group;
      SingleKey(group, k);
      AloneIsOutside(sh, all, c, k);
    }
  }

  lemma AloneIsOutside(sh: Shape, all: set<Key>, c: nat, k: Key)
    requires ValidShape(sh) && c < sh.size && At(sh, Core(sh, all), c) == {k}
    requires forall s :: s <= all && Stuck(sh, s) ==> s <= Core(sh, all)
    ensures k !in Core(sh, all)
  {
    hide At, ValidShape, Stuck;
    forall s | s <= all && Stuck(sh, s)
      ensures k !in s
    {
      PeeledIsNotStuck(sh, Core(sh, all), s, c, k);
    }
  }

  // ---------------------------------------------------------------------
  // The same by hash values
  // ---------------------------------------------------------------------

  // The keys whose hash i is v modulo the size of a sub-table.
  ghost function Sharing(sh: Shape, s: set<Key>, i: nat, v: nat): (r: set<Key>)
    requires ValidShape(sh)
    ensures sh.numHashes > 0 && sh.size / sh.numHashes > 0
    ensures r == set k | k in s && sh.hash(i, k) % (sh.size / sh.numHashes) == v
  {
    PerHashFacts(sh.size, sh.numHashes);
    set k | k in s && sh.hash(i, k) % (sh.size / sh.numHashes) == v
  }

  // They are what cell v of sub-table i holds.
  lemma AtByHash(sh: Shape, s: set<Key>, i: nat, v: nat)
    requires ValidShape(sh) && i < sh.numHashes && v < sh.size / sh.numHashes
    ensures i * (sh.size / sh.numHashes) + v < sh.size
    ensures At(sh, s, i * (sh.size / sh.numHashes) + v) == Sharing(sh, s, i, v)
  {
    var n := PerHash(sh);
    var c := i * n + v;
    DivOfSum(i, n, v);
    MulMonotone(i + 1, sh.numHashes, n);
    assert SubTable(sh, c) == i;
    forall k | k in s
      ensures Bucket(sh, i, k) == c <==> sh.hash(i, k) % n == v
    {
    }
  }

  // Stuck: no hash value is that of exactly one key.
  lemma StuckByHash(sh: Shape, s: set<Key>)
    requires ValidShape(sh)
    ensures sh.numHashes > 0
    ensures Stuck(sh, s) <==>
            forall i, v :: 0 <= i < sh.numHashes && 0 <= v < sh.size / sh.numHashes ==> |Sharing(sh, s, i, v)| != 1
  {
    hide At, Sharing, Stuck;
    PerHashFacts(sh.size, sh.numHashes);
    forall i, v | 0 <= i < sh.numHashes && 0 <= v < sh.size / sh.numHashes && Stuck(sh, s)
      ensures |Sharing(sh, s, i, v)| != 1
    {
      AtByHash(sh, s, i, v);
      StuckAt(sh, s, i * (sh.size / sh.numHashes) + v);
    }
    if forall i, v :: 0 <= i < sh.numHashes && 0 <= v < sh.size / sh.numHashes ==> |Sharing(sh, s, i, v)| != 1 {
      StuckFromHashes(sh, s);
    }
  }

  lemma StuckFromHashes(sh: Shape, s: set<Key>)
    requires ValidShape(sh)
    requires sh.numHashes > 0
    requires forall i, v :: 0 <= i < sh.numHashes && 0 <= v < sh.size / sh.numHashes ==> |Sharing(sh, s, i, v)| != 1
    ensures Stuck(sh, s)
  {
    hide *;
    forall c | 0 <= c < sh.size
      ensures |At(sh, s, c)| != 1
    {
      CellByHash(sh, c);
      AtByHash(sh, s, c / (sh.size / sh.numHashes), c % (sh.size / sh.numHashes));
    }
    StuckFromCells(sh, s);
  }

  lemma StuckAt(sh: Shape, s: set<Key>, c: nat)
    requires ValidShape(sh) && c < sh.size && Stuck(sh, s)
    ensures |At(sh, s, c)| != 1
  {
    hide At;
  }

  lemma StuckFromCells(sh: Shape, s: set<Key>)
    requires ValidShape(sh) && forall c :: 0 <= c < sh.size ==> |At(sh, s, c)| != 1
    ensures Stuck(sh, s)
  {
    hide At;
  }

  // Which sub-table a cell belongs to, and where it stands there.
  lemma CellByHash(sh: Shape, c: nat)
    requires ValidShape(sh) && c < sh.size
    ensures sh.numHashes > 0 && sh.size / sh.numHashes > 0
    ensures var n := sh.size / sh.numHashes; c / n < sh.numHashes && c % n < n && (c / n) * n + c % n == c
  {
    PerHashFacts(sh.size, sh.numHashes);
    var n := sh.size / sh.numHashes;
    SubTableBound(c, n, sh.numHashes);
  }

  // Keys that differ in the first hash value are all peeled.
  lemma ApartIsPeeled(sh: Shape, all: set<Key>)
    requires ValidShape(sh)
    requires forall a, b :: a in all && b in all && a != b ==>
               sh.hash(0, a) % (sh.size / sh.numHashes) != sh.hash(0, b) % (sh.size / sh.numHashes)
    ensures Core(sh, all) == {}
  {
    hide Core, Stuck;
    CoreIsLargest(sh, all);
    StuckByHash(sh, Core(sh, all));
    var n := sh.size / sh.numHashes;
    PerHashFacts(sh.size, sh.numHashes);
    forall k | k in Core(sh, all)
      ensures |Sharing(sh, Core(sh, all), 0, sh.hash(0, k) % n)| == 1
    {
      assert Sharing(sh, Core(sh, all), 0, sh.hash(0, k) % n) == {k};
    }
  }

  // Keys that agree in every hash value are not, if there are two or more.
  lemma TogetherIsStuck(sh: Shape, all: set<Key>)
    requires ValidShape(sh) && |all| >= 2
    requires forall i, a, b :: 0 <= i < sh.numHashes && a in all && b in all ==>
               sh.hash(i, a) % (sh.size / sh.numHashes) == sh.hash(i, b) % (sh.size / sh.numHashes)
    ensures Core(sh, all) == all
  {
    hide Core, Stuck;
    CoreIsLargest(sh, all);
    StuckByHash(sh, all);
    var n := sh.size / sh.numHashes;
    forall i, v | 0 <= i < sh.numHashes && 0 <= v < n
      ensures |Sharing(sh, all, i, v)| != 1
    {
      if k :| k in Sharing(sh, all, i, v) {
        assert Sharing(sh, all, i, v) == all;
      } else {
        assert Sharing(sh, all, i, v) == {};
      }
    }
  }

  lemma HonestMeans(sh: Shape, pos: set<Key>, neg: set<Key>, group: set<Key>)
    ensures Honest(sh, pos, neg, group) <==>
              || |group| < 2
              || (&& (|group * pos| - |group * neg| == 1 || |group * pos| - |group * neg| == -1
                      ==> sh.check(Key(SumOf(sh.check, group).key)) != SumOf(sh.check, group).check)
                  && (|group * pos| == |group * neg| ==> SumOf(sh.check, group) != Sum(0, 0)))
  {
    hide SumOf;
  }

  // The hypothesis of every decoding result, by hash values.
  lemma CollisionFreeMeans(sh: Shape, pos: set<Key>, neg: set<Key>)
    requires ValidShape(sh)
    ensures sh.numHashes > 0
    ensures CollisionFree(sh, pos, neg) <==>
              forall i, v, group ::
                (0 <= i < sh.numHashes && 0 <= v < sh.size / sh.numHashes && group <= Sharing(sh, pos + neg, i, v))
                ==> Honest(sh, pos, neg, group)
  {
    hide *;
    ShapeFacts(sh);
    if CollisionFree(sh, pos, neg) {
      forall i, v, group | 0 <= i < sh.numHashes && 0 <= v < sh.size / sh.numHashes && group <= Sharing(sh, pos + neg, i, v)
        ensures Honest(sh, pos, neg, group)
      {
        AtByHash(sh, pos + neg, i, v);
        HonestAt(sh, pos, neg, i * (sh.size / sh.numHashes) + v, group);
      }
    } else {
      var i, v, group := Dishonest(sh, pos, neg);
    }
  }

  lemma ShapeFacts(sh: Shape)
    requires ValidShape(sh)
    ensures sh.numHashes > 0 && sh.size / sh.numHashes > 0
  {
    PerHashFacts(sh.size, sh.numHashes);
  }

  lemma Dishonest(sh: Shape, pos: set<Key>, neg: set<Key>) returns (i: nat, v: nat, group: set<Key>)
    requires ValidShape(sh) && !CollisionFree(sh, pos, neg)
    ensures sh.numHashes > 0 && i < sh.numHashes && v < sh.size / sh.numHashes
    ensures group <= Sharing(sh, pos + neg, i, v) && !Honest(sh, pos, neg, group)
  {
    hide At, Honest, Sharing;
    ShapeFacts(sh);
    var c;
    c, group :| 0 <= c < sh.size && group <= At(sh, pos + neg, c) && !Honest(sh, pos, neg, group);
    CellByHash(sh, c);
    i, v := c / (sh.size / sh.numHashes), c % (sh.size / sh.numHashes);
    AtByHash(sh, pos + neg, i, v);
  }

  lemma HonestAt(sh: Shape, pos: set<Key>, neg: set<Key>, c: nat, group: set<Key>)
    requires ValidShape(sh) && CollisionFree(sh, pos, neg) && c < sh.size && group <= At(sh, pos + neg, c)
    ensures Honest(sh, pos, neg, group)
  {
    hide At, Honest;
  }

  // Keys that differ in every hash value share no cell, so nothing can collide.
  lemma ApartIsCollisionFree(sh: Shape, pos: set<Key>, neg: set<Key>)
    requires ValidShape(sh)
    requires forall i, a, b :: 0 <= i < sh.numHashes && a in pos + neg && b in pos + neg && a != b ==>
               sh.hash(i, a) % (sh.size / sh.numHashes) != sh.hash(i, b) % (sh.size / sh.numHashes)
    ensures CollisionFree(sh, pos, neg)
  {
    hide Honest, At;
    var n := PerHash(sh);
    forall c, group | 0 <= c < sh.size && group <= At(sh, pos + neg, c)
      ensures Honest(sh, pos, neg, group)
    {
      QuotientBounds(c, n);
      AtByHash(sh, pos + neg, SubTable(sh, c), c % n);
      AtMostOne(group);
      SmallIsHonest(sh, pos, neg, group);
    }
  }

  lemma AtMostOne(group: set<Key>)
    requires forall a, b :: a in group && b in group ==> a == b
    ensures |group| <= 1
  {
    if group != {} {
      var k :| k in group;
      assert group == {k};
    }
  }

  lemma SmallIsHonest(sh: Shape, pos: set<Key>, neg: set<Key>, group: set<Key>)
    requires |group| <= 1
    ensures Honest(sh, pos, neg, group)
  {
  }

  lemma CoreIsUnique(sh: Shape, all: set<Key>, a: set<Key>, b: set<Key>)
    requires ValidShape(sh) && IsCore(sh, all, a) && IsCore(sh, all, b)
    ensures a == b
  {
    hide Stuck;
  }

  lemma CollisionFreeShrinks(sh: Shape, pos: set<Key>, neg: set<Key>, pos': set<Key>, neg': set<Key>)
    requires ValidShape(sh) && CollisionFree(sh, pos, neg) && pos !! neg
    requires pos' <= pos && neg' <= neg
    ensures CollisionFree(sh, pos', neg')
  {
    hide At, Honest;
    forall c, group | 0 <= c < sh.size && group <= At(sh, pos' + neg', c)
      ensures Honest(sh, pos', neg', group)
    {
      AtMembers(sh, pos' + neg', c);
      AtMembers(sh, pos + neg, c);
      assert group <= At(sh, pos + neg, c);
      HonestShrinks(sh, pos, neg, pos', neg', group);
    }
  }

  lemma HonestShrinks(sh: Shape, pos: set<Key>, neg: set<Key>, pos': set<Key>, neg': set<Key>, group: set<Key>)
    requires Honest(sh, pos, neg, group) && pos !! neg
    requires pos' <= pos && neg' <= neg && group <= pos' + neg'
    ensures Honest(sh, pos', neg', group)
  {
    hide SumOf, IsPure, IsEmpty;
    assert group * pos' == group * pos && group * neg' == group * neg;
  }

  // Under the hypothesis a cell is pure exactly when it holds one key, and then shows
  // that key and its sign; it is empty exactly when it holds none.
  lemma PureCell(sh: Shape, pos: set<Key>, neg: set<Key>, cells: seq<Cell>, c: nat)
    requires ValidShape(sh) && Encodes(sh, cells, pos, neg) && CollisionFree(sh, pos, neg)
    requires c < sh.size
    ensures IsPure(sh, cells[c]) <==> |At(sh, pos + neg, c)| == 1
    ensures IsPure(sh, cells[c]) ==>
              var k := Key(cells[c].sum.key);
              && At(sh, pos + neg, c) == {k}
              && cells[c].count == (if k in pos then 1 else -1)
              && (k in pos || k in neg)
    ensures IsEmpty(cells[c]) <==> At(sh, pos + neg, c) == {}
  {
    hide At, SumOf, Mix;
    var group := At(sh, pos + neg, c);
    AtMembers(sh, pos + neg, c);
    assert Honest(sh, pos, neg, group);
    if |group| == 0 {
      assert group == {};
      SumOfNone(sh.check);
      assert group * pos == {} && group * neg == {};
    } else if |group| == 1 {
      var k :| k in group;
      SingleKey(group, k);
      SumOfOne(sh.check, k);
      OneKeyCount(pos, neg, k);
    }
  }

  lemma SingleKey(group: set<Key>, k: Key)
    requires k in group && |group| == 1
    ensures group == {k}
  {
    SubsetCard({k}, group);
  }

  lemma OneKeyCount(pos: set<Key>, neg: set<Key>, k: Key)
    requires pos !! neg && (k in pos || k in neg)
    ensures |{k} * pos| - |{k} * neg| == if k in pos then 1 else -1
  {
    if k in pos {
      assert {k} * pos == {k} && {k} * neg == {};
    } else {
      assert {k} * neg == {k} && {k} * pos == {};
    }
  }

  // A key alone in its cell belongs to no stuck subset.
  lemma PeeledIsNotStuck(sh: Shape, rest: set<Key>, s: set<Key>, c: nat, k: Key)
    requires ValidShape(sh) && c < sh.size
    requires At(sh, rest, c) == {k} && s <= rest && Stuck(sh, s)
    ensures k !in s
  {
    hide Bucket, SubTable;
    assert k in s ==> At(sh, s, c) == {k};
  }

  // Every key shows in the first sub-table, so empty cells there mean no key at all.
  lemma FirstSubTableSuffices(sh: Shape, s: set<Key>)
    requires ValidShape(sh)
    requires forall c :: 0 <= c < PerHash(sh) && c < sh.size ==> At(sh, s, c) == {}
    ensures s == {}
  {
    hide Bucket, SubTable;
    forall k: Key
      ensures k !in s
    {
      FirstBucket(sh, k);
      assert k in s ==> k in At(sh, s, Bucket(sh, 0, k));
    }
  }

  lemma FirstBucket(sh: Shape, k: Key)
    requires ValidShape(sh)
    ensures Bucket(sh, 0, k) < PerHash(sh) && Bucket(sh, 0, k) < sh.size
    ensures SubTable(sh, Bucket(sh, 0, k)) == 0
  {
    BucketRange(sh, 0, k);
  }

  lemma FirstSubTableWithin(sh: Shape)
    requires ValidShape(sh)
    ensures sh.size / sh.numHashes == PerHash(sh) <= sh.size
  {
    MulMonotone(1, sh.numHashes, PerHash(sh));
  }

  // ---------------------------------------------------------------------
  // The table
  // ---------------------------------------------------------------------

  // Cells after key k has been toggled in sub-tables below n.
  ghost predicate ToggledBelow(sh: Shape, sign: int, k: Key, n: nat, before: seq<Cell>, after: seq<Cell>)
    requires ValidShape(sh) && |before| == sh.size
  {
    && |after| == sh.size
    && forall c :: 0 <= c < sh.size ==>
         after[c] == if SubTable(sh, c) < n && Bucket(sh, SubTable(sh, c), k) == c
                     then Toggled(sh, sign, k, before[c]) else before[c]
  }

  lemma ToggledInWords(sh: Shape, sign: int, k: Key, before: seq<Cell>, after: seq<Cell>)
    requires ValidShape(sh) && |before| == sh.size && ToggledBelow(sh, sign, k, sh.numHashes, before, after)
    ensures sh.numHashes > 0 && sh.size / sh.numHashes > 0 && |after| == sh.size
    ensures forall c :: 0 <= c < sh.size ==>
              var n := sh.size / sh.numHashes;
              after[c] == if c == (c / n) * n + sh.hash(c / n, k) % n
                          then Cell(before[c].count + sign, Sum(before[c].sum.key ^ k.word, before[c].sum.check ^ sh.check(k)))
                          else before[c]
  {
    hide Xor64, Xor32;
    PerHashFacts(sh.size, sh.numHashes);
    forall c | 0 <= c < sh.size
      ensures Toggled(sh, sign, k, before[c])
           == Cell(before[c].count + sign, Sum(before[c].sum.key ^ k.word, before[c].sum.check ^ sh.check(k)))
    {
      ToggleIs(sh, sign, k, before[c]);
    }
  }

  lemma ToggleIs(sh: Shape, sign: int, k: Key, cell: Cell)
    ensures Toggled(sh, sign, k, cell) == Cell(cell.count + sign, Sum(cell.sum.key ^ k.word, cell.sum.check ^ sh.check(k)))
  {
    hide Xor64, Xor32;
    Xor64Is(cell.sum.key, k.word);
    Xor32Is(cell.sum.check, sh.check(k));
  }

  lemma ToggledNone(sh: Shape, sign: int, k: Key, cells: seq<Cell>)
    requires ValidShape(sh) && |cells| == sh.size
    ensures ToggledBelow(sh, sign, k, 0, cells, cells)
  {
  }

  lemma ToggledNext(sh: Shape, sign: int, k: Key, n: nat, before: seq<Cell>, after: seq<Cell>)
    requires ValidShape(sh) && |before| == sh.size && n < sh.numHashes
    requires ToggledBelow(sh, sign, k, n, before, after)
    ensures Bucket(sh, n, k) < sh.size
    ensures var b := Bucket(sh, n, k);
      ToggledBelow(sh, sign, k, n + 1, before, after[b := Toggled(sh, sign, k, after[b])])
  {
    hide Toggled, Bucket;
    BucketRange(sh, n, k);
    var b := Bucket(sh, n, k);
    assert SubTable(sh, b) == n;
  }

  // After every sub-table has been visited the table encodes the updated difference.
  lemma ToggledAll(sh: Shape, sign: int, k: Key, before: seq<Cell>, after: seq<Cell>, pos: set<Key>, neg: set<Key>)
    requires ValidShape(sh) && Encodes(sh, before, pos, neg) && Insertable(sign, k, pos, neg)
    requires ToggledBelow(sh, sign, k, sh.numHashes, before, after)
    ensures Encodes(sh, after, PosAfter(sign, k, pos, neg), NegAfter(sign, k, pos, neg))
  {
    hide Toggled, Bucket, CellOf, At, PosAfter, NegAfter;
    AfterDisjoint(sign, k, pos, neg);
    forall c | 0 <= c < sh.size
      ensures var pos', neg' := PosAfter(sign, k, pos, neg), NegAfter(sign, k, pos, neg);
        after[c] == CellOf(sh, pos', neg', At(sh, pos' + neg', c))
    {
      ToggleCell(sh, sign, k, pos, neg, c);
    }
  }

  lemma EmptyEncodes(sh: Shape, cells: seq<Cell>)
    requires ValidShape(sh) && |cells| == sh.size
    requires forall c :: 0 <= c < |cells| ==> cells[c] == EMPTY_CELL
    ensures Encodes(sh, cells, {}, {})
  {
    SumOfNone(sh.check);
    forall c | 0 <= c < sh.size ensures At(sh, {} + {}, c) == {} {
    }
  }

  lemma SubtractEncodes(sh: Shape, a: seq<Cell>, b: seq<Cell>, r: seq<Cell>, s: set<Key>, t: set<Key>)
    requires ValidShape(sh) && Encodes(sh, a, s, {}) && Encodes(sh, b, t, {})
    requires |r| == sh.size && forall c :: 0 <= c < sh.size ==> r[c] == CellMinus(a[c], b[c])
    ensures Encodes(sh, r, s - t, t - s)
  {
    hide CellMinus, CellOf, At;
    forall c | 0 <= c < sh.size
      ensures r[c] == CellOf(sh, s - t, t - s, At(sh, (s - t) + (t - s), c))
    {
      SubtractCell(sh, s, t, c);
    }
  }

  // The least multiple of m that is no smaller than n.
  function LeastMultiple(n: nat, m: nat): (size: nat)
    requires m > 0
    ensures size % m == 0 && n <= size < n + m
    ensures n % m == 0 ==> size == n
  {
    var q := (n + m - 1) / m;
    QuotientBounds(n + m - 1, m);
    ExactMultiple(q, m);
    MultiplesApart(n, q * m, m);
    q * m
  }

  lemma MultiplesApart(a: nat, b: nat, m: nat)
    requires m > 0 && a <= b < a + m && b % m == 0
    ensures a % m == 0 ==> a == b
  {
    if a % m == 0 {
      QuotientBounds(a, m);
      QuotientBounds(b, m);
      if a / m < b / m {
        MulMonotone(a / m + 1, b / m, m);
      } else {
        MulMonotone(b / m, a / m, m);
      }
    }
  }

  // Rounding the cell count up to a multiple of the number of hashes
  // (thirdparty/iblt.h:276-282); the float product is the caller's n.
  method RoundUp(n: nat, numHashes: nat) returns (size: nat)
    requires numHashes > 0
    ensures size == LeastMultiple(n, numHashes)
  {
    ghost var target := LeastMultiple(n, numHashes);
    QuotientBounds(target, numHashes);
    size := n;
    while numHashes * (size / numHashes) != size
      invariant n <= size <= target
      decreases target - size
    {
      size := size + 1;
    }
    ExactMultiple(size / numHashes, numHashes);
    MultiplesApart(size, target, numHashes);
  }

  lemma ExactMultiple(q: nat, m: nat)
    requires m > 0
    ensures (q * m) % m == 0 && (q * m) / m == q && m * q == q * m
  {
    DivOfSum(q, m, 0);
  }

  class Iblt {
    const sh: Shape
    const table: array<Cell>

    ghost predicate Valid()
      reads this
    {
      ValidShape(sh) && table.Length == sh.size
    }

    constructor (sh: Shape)
      requires ValidShape(sh)
      ensures this.sh == sh && Valid() && fresh(table)
      ensures Encodes(sh, table[..], {}, {})
    {
      this.sh := sh;
      table := new Cell[sh.size](_ => EMPTY_CELL);
      new;
      EmptyEncodes(sh, table[..]);
    }

    // A table rebuilt from its entries, and the copy constructor.
    constructor FromCells(sh: Shape, cells: seq<Cell>)
      requires |cells| == sh.size
      ensures this.sh == sh && fresh(table) && table[..] == cells
      ensures ValidShape(sh) ==> Valid()
    {
      this.sh := sh;
      table := new Cell[|cells|](i requires 0 <= i < |cells| => cells[i]);
    }

    // _insert (thirdparty/iblt.h:301-326), on any table: exactly the key's cell of each
    // sub-table changes, by the sign and the two sums.
    method Toggle(sign: int, k: Key)
      requires Valid()
      modifies table
      ensures ToggledBelow(sh, sign, k, sh.numHashes, old(table[..]), table[..])
      ensures forall c :: 0 <= c < table.Length ==>
                var n := sh.size / sh.numHashes;
                table[c] == if c == (c / n) * n + sh.hash(c / n, k) % n
                            then Cell(old(table[c]).count + sign,
                                      Sum(old(table[c]).sum.key ^ k.word, old(table[c]).sum.check ^ sh.check(k)))
                            else old(table[c])
    {
      hide *;
      ValidFacts();
      ghost var before := table[..];
      ToggledNone(sh, sign, k, before);
      for i := 0 to sh.numHashes
        invariant ToggledBelow(sh, sign, k, i, before, table[..])
      {
        ToggledNext(sh, sign, k, i, before, table[..]);
        var b := Bucket(sh, i, k);
        ghost var was := table[..];
        table[b] := Toggled(sh, sign, k, table[b]);
        assert table[..] == was[b := Toggled(sh, sign, k, was[b])];
      }
      ToggledInWords(sh, sign, k, before, table[..]);
    }

    lemma ValidFacts()
      requires Valid()
      ensures ValidShape(sh) && table.Length == sh.size
    {
    }

    // On any table; a table that encodes a difference without the key on the same side
    // then encodes the difference with it cancelled or added.
    method Insert(k: Key)
      requires Valid()
      modifies table
      ensures ToggledBelow(sh, 1, k, sh.numHashes, old(table[..]), table[..])
      ensures forall c :: 0 <= c < table.Length ==>
                var n := sh.size / sh.numHashes;
                table[c] == if c == (c / n) * n + sh.hash(c / n, k) % n
                            then Cell(old(table[c]).count + 1,
                                      Sum(old(table[c]).sum.key ^ k.word, old(table[c]).sum.check ^ sh.check(k)))
                            else old(table[c])
      ensures forall pos, neg :: Encodes(sh, old(table[..]), pos, neg) && k !in pos
                ==> Encodes(sh, table[..], if k in neg then pos else pos + {k}, neg - {k})
    {
      hide Encodes, ToggledBelow;
      ghost var before := table[..];
      Toggle(1, k);
      forall pos, neg | Encodes(sh, before, pos, neg) && k !in pos
        ensures Encodes(sh, table[..], if k in neg then pos else pos + {k}, neg - {k})
      {
        ToggledAll(sh, 1, k, before, table[..], pos, neg);
      }
    }

    method Erase(k: Key)
      requires Valid()
      modifies table
      ensures ToggledBelow(sh, -1, k, sh.numHashes, old(table[..]), table[..])
      ensures forall c :: 0 <= c < table.Length ==>
                var n := sh.size / sh.numHashes;
                table[c] == if c == (c / n) * n + sh.hash(c / n, k) % n
                            then Cell(old(table[c]).count - 1,
                                      Sum(old(table[c]).sum.key ^ k.word, old(table[c]).sum.check ^ sh.check(k)))
                            else old(table[c])
      ensures forall pos, neg :: Encodes(sh, old(table[..]), pos, neg) && k !in neg
                ==> Encodes(sh, table[..], pos - {k}, if k in pos then neg else neg + {k})
    {
      hide Encodes, ToggledBelow;
      ghost var before := table[..];
      Toggle(-1, k);
      forall pos, neg | Encodes(sh, before, pos, neg) && k !in neg
        ensures Encodes(sh, table[..], pos - {k}, if k in pos then neg else neg + {k})
      {
        ToggledAll(sh, -1, k, before, table[..], pos, neg);
      }
    }

    // operator- (thirdparty/iblt.h:460-483): cell by cell on any two tables of one
    // length; tables of two sets leave their signed difference.
    method Minus(other: Iblt) returns (r: Iblt)
      requires table.Length == sh.size == other.table.Length
      ensures fresh(r) && fresh(r.table) && r.sh == sh && r.table.Length == table.Length
      ensures forall c :: 0 <= c < table.Length ==> r.table[c] == CellMinus(table[c], other.table[c])
      ensures Valid() ==> r.Valid()
      ensures forall s, t :: Valid() && Encodes(sh, table[..], s, {}) && Encodes(sh, other.table[..], t, {})
                ==> Encodes(sh, r.table[..], s - t, t - s)
    {
      hide Encodes, CellMinus, ValidShape;
      r := new Iblt.FromCells(sh, table[..]);
      for i := 0 to table.Length
        invariant fresh(r) && fresh(r.table) && r.sh == sh && r.table.Length == sh.size
        invariant forall c :: 0 <= c < i ==> r.table[c] == CellMinus(table[c], other.table[c])
        invariant forall c :: i <= c < table.Length ==> r.table[c] == table[c]
      {
        r.table[i] := CellMinus(r.table[i], other.table[i]);
      }
      forall s, t | Valid() && Encodes(sh, table[..], s, {}) && Encodes(sh, other.table[..], t, {})
        ensures Encodes(sh, r.table[..], s - t, t - s)
      {
        SubtractEncodes(sh, table[..], other.table[..], r.table[..], s, t);
      }
    }

    // One sweep of the do-while loop (thirdparty/iblt.h:404-417), from what is left
    // before it, (p0, n0), to what is left after it, (p, n).
    method Sweep(positive: set<Key>, negative: set<Key>,
                 ghost pos: set<Key>, ghost neg: set<Key>, ghost p0: set<Key>, ghost n0: set<Key>)
      returns (nErased: nat, positive': set<Key>, negative': set<Key>, ghost p: set<Key>, ghost n: set<Key>)
      requires Valid() && Encodes(sh, table[..], p0, n0) && Peeling(sh, pos, neg, p0, n0)
      modifies table
      ensures Encodes(sh, table[..], p, n) && Peeling(sh, pos, neg, p, n)
      ensures Listed(positive, p0, positive', p) && Listed(negative, n0, negative', n)
      ensures |p + n| + nErased == |p0 + n0|
      ensures nErased == 0 ==> Stuck(sh, p + n)
    {
      hide *;
      ValidFacts();
      nErased, positive', negative', p, n := 0, positive, negative, p0, n0;
      StuckFrom(sh, p + n);
      ListedNone(positive, p);
      ListedNone(negative, n);
      for i := 0 to table.Length
        invariant Encodes(sh, table[..], p, n) && Peeling(sh, pos, neg, p, n)
        invariant Listed(positive, p0, positive', p) && Listed(negative, n0, negative', n)
        invariant |p + n| + nErased == |p0 + n0|
        invariant nErased == 0 ==> StuckBelow(sh, p + n, i)
      {
        var entry := table[i];
        PureEntry(sh, table[..], pos, neg, p, n, i);
        if IsPure(sh, entry) {
          var k := Key(entry.sum.key);
          ghost var p', n' := PosAfter(-entry.count, k, p, n), NegAfter(-entry.count, k, p, n);
          PeelStep(sh, pos, neg, p, n, i, k, -entry.count);
          if entry.count == 1 {
            ListedMore(positive, p0, positive', p, k);
            positive' := positive' + {k};
          } else {
            ListedMore(negative, n0, negative', n, k);
            negative' := negative' + {k};
          }
          ghost var before := table[..];
          Toggle(-entry.count, k);
          EncodesFacts(sh, before, p, n);
          ToggledAll(sh, -entry.count, k, before, table[..], p, n);
          p, n := p', n';
          nErased := nErased + 1;
        }
      }
      StuckFrom(sh, p + n);
    }

    // listEntries (thirdparty/iblt.h:393-427) on the difference (pos, neg).
    method ListEntries(positive: set<Key>, negative: set<Key>, ghost pos: set<Key>, ghost neg: set<Key>)
      returns (ok: bool, positive': set<Key>, negative': set<Key>)
      requires Valid() && Encodes(sh, table[..], pos, neg) && CollisionFree(sh, pos, neg)
      ensures positive' == positive + (pos - Core(sh, pos + neg))
      ensures negative' == negative + (neg - Core(sh, pos + neg))
      ensures ok <==> Core(sh, pos + neg) == {}
      ensures sh.numHashes > 0 && sh.size / sh.numHashes > 0
      ensures (forall a, b :: a in pos + neg && b in pos + neg && a != b ==>
                 sh.hash(0, a) % (sh.size / sh.numHashes) != sh.hash(0, b) % (sh.size / sh.numHashes))
              ==> ok && positive' == positive + pos && negative' == negative + neg
    {
      hide *;
      ValidFacts();
      EncodesFacts(sh, table[..], pos, neg);
      var peeled := new Iblt.FromCells(sh, table[..]);
      ghost var p, n := pos, neg;
      positive', negative' := positive, negative;
      PeelStarts(sh, pos, neg);
      ListedNone(positive, p);
      ListedNone(negative, n);
      var again := true;
      while again
        invariant fresh(peeled.table) && peeled.Valid() && peeled.sh == sh
        invariant Encodes(sh, peeled.table[..], p, n) && Peeling(sh, pos, neg, p, n)
        invariant Listed(positive, pos, positive', p) && Listed(negative, neg, negative', n)
        invariant !again ==> Stuck(sh, p + n)
        decreases |p + n|, again
      {
        var nErased, more, less, p', n' := peeled.Sweep(positive', negative', pos, neg, p, n);
        ListedOn(positive, pos, positive', p, more, p');
        ListedOn(negative, neg, negative', n, less, n');
        positive', negative', p, n := more, less, p', n';
        again := nErased > 0;
      }
      PeelEnds(sh, pos, neg, p, n);
      CoreIsLargest(sh, pos + neg);
      CoreIsUnique(sh, pos + neg, p + n, Core(sh, pos + neg));
      ListedAll(positive, pos, positive', p);
      ListedAll(negative, neg, negative', n);
      ok := peeled.FirstSubTableEmpty(pos, neg, p, n);
      PeelsApart(sh, pos, neg);
    }

    // The final check looks at the first sub-table only (thirdparty/iblt.h:421-424).
    method FirstSubTableEmpty(ghost pos: set<Key>, ghost neg: set<Key>, ghost p: set<Key>, ghost n: set<Key>)
      returns (ok: bool)
      requires Valid() && Encodes(sh, table[..], p, n) && Peeling(sh, pos, neg, p, n)
      ensures ok <==> p + n == {}
    {
      hide *;
      ValidFacts();
      FirstSubTableWithin(sh);
      for i := 0 to table.Length / sh.numHashes
        invariant forall c :: 0 <= c < i && c < sh.size ==> At(sh, p + n, c) == {}
      {
        PureEntry(sh, table[..], pos, neg, p, n, i);
        if !IsEmpty(table[i]) {
          AtMembers(sh, p + n, i);
          return false;
        }
      }
      FirstSubTableSuffices(sh, p + n);
      ok := true;
    }
  }

  lemma PeelsApart(sh: Shape, pos: set<Key>, neg: set<Key>)
    requires ValidShape(sh)
    ensures sh.numHashes > 0 && sh.size / sh.numHashes > 0
    ensures (forall a, b :: a in pos + neg && b in pos + neg && a != b ==>
               sh.hash(0, a) % (sh.size / sh.numHashes) != sh.hash(0, b) % (sh.size / sh.numHashes))
            ==> Core(sh, pos + neg) == {} && pos - Core(sh, pos + neg) == pos && neg - Core(sh, pos + neg) == neg
  {
    hide Core;
    PerHashFacts(sh.size, sh.numHashes);
    if forall a, b :: a in pos + neg && b in pos + neg && a != b ==>
         sh.hash(0, a) % (sh.size / sh.numHashes) != sh.hash(0, b) % (sh.size / sh.numHashes) {
      ApartIsPeeled(sh, pos + neg);
    }
  }

  lemma EncodesFacts(sh: Shape, cells: seq<Cell>, pos: set<Key>, neg: set<Key>)
    requires ValidShape(sh) && Encodes(sh, cells, pos, neg)
    ensures pos !! neg && |cells| == sh.size
  {
  }

  // What peeling keeps: (p, n) is what is left of (pos, neg), and no stuck subset has
  // lost a key.
  ghost predicate Peeling(sh: Shape, pos: set<Key>, neg: set<Key>, p: set<Key>, n: set<Key>)
    requires ValidShape(sh)
  {
    && pos !! neg && p <= pos && n <= neg
    && CollisionFree(sh, pos, neg)
    && forall s :: s <= pos + neg && Stuck(sh, s) ==> s <= p + n
  }

  lemma PeelStarts(sh: Shape, pos: set<Key>, neg: set<Key>)
    requires ValidShape(sh) && pos !! neg && CollisionFree(sh, pos, neg)
    ensures Peeling(sh, pos, neg, pos, neg) && pos - pos == {} && neg - neg == {}
  {
  }

  lemma PeelFacts(sh: Shape, pos: set<Key>, neg: set<Key>, p: set<Key>, n: set<Key>)
    requires ValidShape(sh) && Peeling(sh, pos, neg, p, n)
    ensures CollisionFree(sh, p, n) && p !! n
  {
    hide CollisionFree, Stuck;
    CollisionFreeShrinks(sh, pos, neg, p, n);
  }

  // What one entry shows while peeling.
  lemma PureEntry(sh: Shape, cells: seq<Cell>, pos: set<Key>, neg: set<Key>, p: set<Key>, n: set<Key>, c: nat)
    requires ValidShape(sh) && Encodes(sh, cells, p, n) && Peeling(sh, pos, neg, p, n) && c < sh.size
    ensures |cells| == sh.size
    ensures IsPure(sh, cells[c]) ==>
              var k := Key(cells[c].sum.key);
              && At(sh, p + n, c) == {k} && (k in p || k in n)
              && cells[c].count == (if k in p then 1 else -1)
    ensures !IsPure(sh, cells[c]) ==> forall m :: m == c && StuckBelow(sh, p + n, m) ==> StuckBelow(sh, p + n, m + 1)
    ensures IsEmpty(cells[c]) <==> At(sh, p + n, c) == {}
  {
    hide At, IsPure, IsEmpty, CollisionFree;
    EncodesFacts(sh, cells, p, n);
    PeelFacts(sh, pos, neg, p, n);
    PureCell(sh, p, n, cells, c);
  }

  // Cells below m hold no key alone.
  ghost predicate StuckBelow(sh: Shape, s: set<Key>, m: nat)
    requires ValidShape(sh)
  {
    forall c :: 0 <= c < m && c < sh.size ==> |At(sh, s, c)| != 1
  }

  // positive' is positive with everything that went from pos to p.
  ghost predicate Listed(positive: set<Key>, pos: set<Key>, positive': set<Key>, p: set<Key>) {
    p <= pos && positive' == positive + (pos - p)
  }

  lemma ListedNone(positive: set<Key>, pos: set<Key>)
    ensures Listed(positive, pos, positive, pos)
  {
  }

  lemma ListedMore(positive: set<Key>, pos: set<Key>, positive': set<Key>, p: set<Key>, k: Key)
    requires Listed(positive, pos, positive', p)
    ensures k in p ==> Listed(positive, pos, positive' + {k}, p - {k})
  {
  }

  lemma ListedOn(a: set<Key>, pos: set<Key>, b: set<Key>, p: set<Key>, c: set<Key>, p': set<Key>)
    requires Listed(a, pos, b, p) && Listed(b, p, c, p')
    ensures Listed(a, pos, c, p')
  {
  }

  lemma PeelStep(sh: Shape, pos: set<Key>, neg: set<Key>, p: set<Key>, n: set<Key>, c: nat, k: Key, sign: int)
    requires ValidShape(sh) && Peeling(sh, pos, neg, p, n) && c < sh.size
    requires At(sh, p + n, c) == {k} && (k in p || k in n)
    requires sign == if k in p then -1 else 1
    ensures Insertable(sign, k, p, n)
    ensures var p', n' := PosAfter(sign, k, p, n), NegAfter(sign, k, p, n);
      && Peeling(sh, pos, neg, p', n')
      && p' == (if sign == -1 then p - {k} else p) && n' == (if sign == -1 then n else n - {k})
      && |p' + n'| == |p + n| - 1
  {
    hide *;
    PeelFacts(sh, pos, neg, p, n);
    PeelSets(p, n, k, sign);
    PeelOn(sh, pos, neg, p, n, c, k, PosAfter(sign, k, p, n), NegAfter(sign, k, p, n));
  }

  lemma PeelSets(p: set<Key>, n: set<Key>, k: Key, sign: int)
    requires p !! n && (k in p || k in n) && sign == if k in p then -1 else 1
    ensures Insertable(sign, k, p, n)
    ensures var p', n' := PosAfter(sign, k, p, n), NegAfter(sign, k, p, n);
      && p' == (if sign == -1 then p - {k} else p) && n' == (if sign == -1 then n else n - {k})
      && p' + n' == (p + n) - {k} && |p' + n'| == |p + n| - 1
  {
    var p', n' := PosAfter(sign, k, p, n), NegAfter(sign, k, p, n);
    assert p' + n' == (p + n) - {k};
  }

  lemma PeelOn(sh: Shape, pos: set<Key>, neg: set<Key>, p: set<Key>, n: set<Key>, c: nat, k: Key, p': set<Key>, n': set<Key>)
    requires ValidShape(sh) && Peeling(sh, pos, neg, p, n) && c < sh.size
    requires At(sh, p + n, c) == {k}
    requires p' <= p && n' <= n && p' + n' == (p + n) - {k}
    ensures Peeling(sh, pos, neg, p', n')
  {
    hide CollisionFree, Stuck, At, ValidShape;
    forall s | s <= pos + neg && Stuck(sh, s)
      ensures s <= p' + n'
    {
      PeeledIsNotStuck(sh, p + n, s, c, k);
    }
  }

  lemma StuckFrom(sh: Shape, s: set<Key>)
    requires ValidShape(sh)
    ensures StuckBelow(sh, s, 0)
    ensures StuckBelow(sh, s, sh.size) ==> Stuck(sh, s)
  {
  }

  lemma PeelEnds(sh: Shape, pos: set<Key>, neg: set<Key>, p: set<Key>, n: set<Key>)
    requires ValidShape(sh) && Peeling(sh, pos, neg, p, n) && Stuck(sh, p + n)
    ensures IsCore(sh, pos + neg, p + n)
    ensures pos - (p + n) == pos - p && neg - (p + n) == neg - n
  {
    hide CollisionFree, Stuck;
  }

  lemma ListedAll(positive: set<Key>, pos: set<Key>, positive': set<Key>, p: set<Key>)
    requires Listed(positive, pos, positive', p)
    ensures positive' == positive + (pos - p)
  {
  }
}
