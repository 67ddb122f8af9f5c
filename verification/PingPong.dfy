/**
 * Ping-pong decoding of two IBLTs (graphene.cc:451-493): what one table gives up is taken
 * out of both. The two tables may encode different differences: a key of the first
 * side's `extra` counts one more in the first table than in the second.
 */
module PingPongs {
  import opened Orders
  import opened Sums
  import opened Iblts

  datatype DecodeStatus = SUCCESS | FAIL_RECOVERABLE | FAIL_FATAL

  // What one table encodes, which keys it holds beyond the other table, and the largest
  // difference it ever encodes.
  datatype Side = Side(pos: set<Key>, neg: set<Key>, extra: set<Key>, maxPos: set<Key>, maxNeg: set<Key>)

  ghost predicate Holds(sh: Shape, cells: seq<Cell>, s: Side)
    requires ValidShape(sh)
  {
    && Encodes(sh, cells, s.pos, s.neg)
    && Bounded(s) && CollisionFree(sh, s.maxPos, s.maxNeg)
  }

  ghost predicate Bounded(s: Side) {
    s.maxPos !! s.maxNeg && s.pos <= s.maxPos && s.neg <= s.maxNeg
  }

  // The signed difference between the sides is one on a.extra, minus one on b.extra and
  // zero elsewhere.
  ghost predicate Offset(a: Side, b: Side) {
    a.extra !! b.extra && forall k: Key :: KeyOffset(a, b, k) && KeyOffset(b, a, k)
  }

  ghost predicate KeyOffset(a: Side, b: Side, k: Key) {
    if k in a.extra then
      k !in b.pos && k !in a.neg && (k in a.pos <==> k !in b.neg) && k in a.maxPos && k in b.maxNeg
    else
      k !in b.extra ==> (k in a.pos <==> k in b.pos) && (k in a.neg <==> k in b.neg)
  }

  // ---------------------------------------------------------------------
  // Taking keys out of a table
  // ---------------------------------------------------------------------

  // The difference after every key of x has been erased and every key of y inserted.
  ghost function PosLess(p: set<Key>, n: set<Key>, x: set<Key>, y: set<Key>): set<Key> {
    (p - x) + (y - n)
  }

  ghost function NegLess(p: set<Key>, n: set<Key>, x: set<Key>, y: set<Key>): set<Key> {
    (n - y) + (x - p)
  }

  ghost function After(s: Side, x: set<Key>, y: set<Key>): Side {
    s.(pos := PosLess(s.pos, s.neg, x, y), neg := NegLess(s.pos, s.neg, x, y))
  }

  ghost predicate Movable(s: Side, x: set<Key>, y: set<Key>) {
    x !! s.neg && y !! s.pos && x !! y
  }

  lemma EraseStep(p: set<Key>, n: set<Key>, x: set<Key>, k: Key)
    requires k !in x && k !in n
    ensures k !in NegLess(p, n, x, {})
    ensures PosLess(p, n, x, {}) - {k} == PosLess(p, n, x + {k}, {})
    ensures (if k in PosLess(p, n, x, {}) then NegLess(p, n, x, {}) else NegLess(p, n, x, {}) + {k})
         == NegLess(p, n, x + {k}, {})
  {
  }

  lemma InsertStep(p: set<Key>, n: set<Key>, x: set<Key>, y: set<Key>, k: Key)
    requires k !in x && k !in y && k !in p
    ensures k !in PosLess(p, n, x, y)
    ensures (if k in NegLess(p, n, x, y) then PosLess(p, n, x, y) else PosLess(p, n, x, y) + {k})
         == PosLess(p, n, x, y + {k})
    ensures NegLess(p, n, x, y) - {k} == NegLess(p, n, x, y + {k})
  {
  }

  lemma LessNothing(p: set<Key>, n: set<Key>)
    ensures PosLess(p, n, {}, {}) == p && NegLess(p, n, {}, {}) == n
  {
  }

  lemma Pick(all: set<Key>, rest: set<Key>, k: Key)
    requires k in rest && rest <= all
    ensures (all - rest) + {k} == all - (rest - {k}) && k !in all - rest
    ensures rest - {k} <= all && |rest - {k}| < |rest|
  {
  }

  lemma PickEnds(all: set<Key>)
    ensures all - all == {} && all - {} == all
  {
  }

  // Both tables lose the keys that one of them listed.
  method TakeOut(first: Iblt, second: Iblt, positive: set<Key>, negative: set<Key>, ghost a: Side, ghost b: Side)
    requires first.Valid() && second.Valid() && first.table != second.table
    requires Encodes(first.sh, first.table[..], a.pos, a.neg) && Encodes(second.sh, second.table[..], b.pos, b.neg)
    requires Movable(a, positive, negative) && Movable(b, positive, negative)
    modifies first.table, second.table
    ensures var a' := After(a, positive, negative); Encodes(first.sh, first.table[..], a'.pos, a'.neg)
    ensures var b' := After(b, positive, negative); Encodes(second.sh, second.table[..], b'.pos, b'.neg)
  {
    hide *;
    first.ValidFacts();
    second.ValidFacts();
    MovableFacts(a, positive, negative);
    MovableFacts(b, positive, negative);
    EraseAll(first, second, positive, a.pos, a.neg, b.pos, b.neg);
    AddAll(first, second, positive, negative, a.pos, a.neg, b.pos, b.neg);
    AfterFacts(a, positive, negative);
    AfterFacts(b, positive, negative);
  }

  lemma MovableFacts(s: Side, x: set<Key>, y: set<Key>)
    requires Movable(s, x, y)
    ensures x !! s.neg && y !! s.pos && x !! y
  {
  }

  lemma AfterFacts(s: Side, x: set<Key>, y: set<Key>)
    ensures After(s, x, y).pos == PosLess(s.pos, s.neg, x, y)
    ensures After(s, x, y).neg == NegLess(s.pos, s.neg, x, y)
  {
  }

  method EraseAll(first: Iblt, second: Iblt, positive: set<Key>,
                  ghost p1: set<Key>, ghost n1: set<Key>, ghost p2: set<Key>, ghost n2: set<Key>)
    requires first.Valid() && second.Valid() && first.table != second.table
    requires Encodes(first.sh, first.table[..], p1, n1) && Encodes(second.sh, second.table[..], p2, n2)
    requires positive !! n1 && positive !! n2
    modifies first.table, second.table
    ensures Encodes(first.sh, first.table[..], PosLess(p1, n1, positive, {}), NegLess(p1, n1, positive, {}))
    ensures Encodes(second.sh, second.table[..], PosLess(p2, n2, positive, {}), NegLess(p2, n2, positive, {}))
  {
    hide *;
    first.ValidFacts();
    second.ValidFacts();
    LessNothing(p1, n1);
    LessNothing(p2, n2);
    PickEnds(positive);
    var rest := positive;
    while rest != {}
      invariant rest <= positive
      invariant var x := positive - rest; Encodes(first.sh, first.table[..], PosLess(p1, n1, x, {}), NegLess(p1, n1, x, {}))
      invariant var x := positive - rest; Encodes(second.sh, second.table[..], PosLess(p2, n2, x, {}), NegLess(p2, n2, x, {}))
      decreases |rest|
    {
      var k :| k in rest;
      ghost var x := positive - rest;
      Pick(positive, rest, k);
      EraseStep(p1, n1, x, k);
      EraseStep(p2, n2, x, k);
      second.Erase(k);
      first.Erase(k);
      rest := rest - {k};
    }
  }

  method AddAll(first: Iblt, second: Iblt, ghost x: set<Key>, negative: set<Key>,
                ghost p1: set<Key>, ghost n1: set<Key>, ghost p2: set<Key>, ghost n2: set<Key>)
    requires first.Valid() && second.Valid() && first.table != second.table
    requires Encodes(first.sh, first.table[..], PosLess(p1, n1, x, {}), NegLess(p1, n1, x, {}))
    requires Encodes(second.sh, second.table[..], PosLess(p2, n2, x, {}), NegLess(p2, n2, x, {}))
    requires negative !! x && negative !! p1 && negative !! p2
    modifies first.table, second.table
    ensures Encodes(first.sh, first.table[..], PosLess(p1, n1, x, negative), NegLess(p1, n1, x, negative))
    ensures Encodes(second.sh, second.table[..], PosLess(p2, n2, x, negative), NegLess(p2, n2, x, negative))
  {
    hide *;
    first.ValidFacts();
    second.ValidFacts();
    PickEnds(negative);
    var rest := negative;
    while rest != {}
      invariant rest <= negative
      invariant var y := negative - rest; Encodes(first.sh, first.table[..], PosLess(p1, n1, x, y), NegLess(p1, n1, x, y))
      invariant var y := negative - rest; Encodes(second.sh, second.table[..], PosLess(p2, n2, x, y), NegLess(p2, n2, x, y))
      decreases |rest|
    {
      var k :| k in rest;
      ghost var y := negative - rest;
      Pick(negative, rest, k);
      InsertStep(p1, n1, x, y, k);
      InsertStep(p2, n2, x, y, k);
      second.Insert(k);
      first.Insert(k);
      rest := rest - {k};
    }
  }

  // ---------------------------------------------------------------------
  // One exchange
  // ---------------------------------------------------------------------

  // What a table that encodes side b may list.
  ghost predicate Lists(b: Side, core: set<Key>, x: set<Key>, y: set<Key>) {
    core <= b.pos + b.neg && x == b.pos - core && y == b.neg - core
  }

  lemma ListedMovable(a: Side, b: Side, core: set<Key>, x: set<Key>, y: set<Key>)
    requires Bounded(a) && Bounded(b) && Offset(a, b) && Lists(b, core, x, y)
    ensures Movable(a, x, y) && Movable(b, x, y)
  {
    forall k | k in x
      ensures k !in a.neg && k !in b.neg
    {
      assert KeyOffset(a, b, k) && KeyOffset(b, a, k);
    }
    forall k | k in y
      ensures k !in a.pos && k !in b.pos
    {
      assert KeyOffset(a, b, k) && KeyOffset(b, a, k);
    }
  }

  lemma ExchangeKey(a: Side, b: Side, core: set<Key>, x: set<Key>, y: set<Key>, k: Key)
    requires Bounded(a) && Bounded(b) && a.extra !! b.extra && KeyOffset(a, b, k) && KeyOffset(b, a, k)
    requires Lists(b, core, x, y)
    ensures var a', b' := After(a, x, y), After(b, x, y);
      && KeyOffset(a', b', k) && KeyOffset(b', a', k)
      && (k in a'.pos ==> k in a.maxPos) && (k in a'.neg ==> k in a.maxNeg)
      && (k in b'.pos ==> k in b.maxPos) && (k in b'.neg ==> k in b.maxNeg)
  {
  }

  lemma Exchange(a: Side, b: Side, core: set<Key>, x: set<Key>, y: set<Key>)
    requires Bounded(a) && Bounded(b) && Offset(a, b) && Lists(b, core, x, y)
    ensures var a', b' := After(a, x, y), After(b, x, y); Bounded(a') && Bounded(b') && Offset(a', b')
  {
    hide After, Lists, KeyOffset;
    AfterKeeps(a, x, y);
    AfterKeeps(b, x, y);
    var a', b' := After(a, x, y), After(b, x, y);
    forall k: Key
      ensures KeyOffset(a', b', k) && KeyOffset(b', a', k)
      ensures (k in a'.pos ==> k in a.maxPos) && (k in a'.neg ==> k in a.maxNeg)
      ensures (k in b'.pos ==> k in b.maxPos) && (k in b'.neg ==> k in b.maxNeg)
    {
      ExchangeKey(a, b, core, x, y, k);
    }
  }

  lemma AfterKeeps(s: Side, x: set<Key>, y: set<Key>)
    ensures var s' := After(s, x, y); s'.extra == s.extra && s'.maxPos == s.maxPos && s'.maxNeg == s.maxNeg
  {
  }

  // ---------------------------------------------------------------------
  // The exchange to its end
  // ---------------------------------------------------------------------

  // No key that both tables are stuck on has been lost.
  ghost predicate HoldsStuck(sh1: Shape, sh2: Shape, all: set<Key>, rest: set<Key>)
    requires ValidShape(sh1) && ValidShape(sh2)
  {
    forall s :: s <= all && Stuck(sh1, s) && Stuck(sh2, s) ==> s <= rest
  }

  // What ping-pong answers when both tables encode (p, n).
  ghost predicate Outcome(sh1: Shape, sh2: Shape, p: set<Key>, n: set<Key>, depth: nat,
                          status: DecodeStatus, was: (set<Key>, set<Key>), now: (set<Key>, set<Key>), rest: set<Key>)
    requires ValidShape(sh1) && ValidShape(sh2)
  {
    && rest <= p + n && HoldsStuck(sh1, sh2, p + n, rest)
    && now.0 == was.0 + (p - rest) && now.1 == was.1 + (n - rest)
    && (status == SUCCESS ==> rest == {})
    && (status == FAIL_RECOVERABLE ==> rest != {} && Stuck(sh1, rest) && Stuck(sh2, rest))
    && (status == FAIL_FATAL ==> |(p + n) - rest| + depth > sh1.size || |(p + n) - rest| + depth > sh2.size)
  }

  ghost predicate Decides(sh1: Shape, sh2: Shape, a: Side, b: Side, depth: nat,
                          status: DecodeStatus, was: (set<Key>, set<Key>), now: (set<Key>, set<Key>), rest: set<Key>)
    requires ValidShape(sh1) && ValidShape(sh2)
  {
    if a.extra + b.extra == {} then Outcome(sh1, sh2, a.pos, a.neg, depth, status, was, now, rest)
    else status != SUCCESS
  }

  method TryPingPong(first: Iblt, second: Iblt, inBlock: set<Key>, notInBlock: set<Key>, depth: nat,
                     ghost a: Side, ghost b: Side)
    returns (status: DecodeStatus, inBlock': set<Key>, notInBlock': set<Key>, ghost rest: set<Key>)
    requires first.Valid() && second.Valid() && first.table != second.table
    requires Holds(first.sh, first.table[..], a) && Holds(second.sh, second.table[..], b) && Offset(a, b)
    modifies first.table, second.table
    ensures Decides(first.sh, second.sh, a, b, depth, status, (inBlock, notInBlock), (inBlock', notInBlock'), rest)
    ensures Fatal(first.sh, second.sh, a, b, depth, status)
    ensures a.extra + b.extra != {} ==> status != SUCCESS
    ensures a.extra + b.extra == {} ==>
              && rest <= a.pos + a.neg
              && (forall s :: s <= a.pos + a.neg && Stuck(first.sh, s) && Stuck(second.sh, s) ==> s <= rest)
              && inBlock' == inBlock + (a.pos - rest) && notInBlock' == notInBlock + (a.neg - rest)
              && (status == SUCCESS ==> rest == {})
              && (status == FAIL_RECOVERABLE ==> rest != {} && Stuck(first.sh, rest) && Stuck(second.sh, rest))
              && (status == FAIL_FATAL <==> TooDeep(first.sh, second.sh, a.pos + a.neg, depth))
    decreases (if first.sh.size > second.sh.size then first.sh.size else second.sh.size) + 1 - depth
  {
    hide *;
    first.ValidFacts();
    second.ValidFacts();
    HoldsFacts(first.sh, first.table[..], a);
    HoldsFacts(second.sh, second.table[..], b);
    if depth > first.sh.size {
      rest := a.pos + a.neg;
      Deep(first.sh, second.sh, a, b, depth, (inBlock, notInBlock));
      DeepNow(first.sh, second.sh, a, b, depth);
      InWords(first.sh, second.sh, a, b, depth, FAIL_FATAL, (inBlock, notInBlock), (inBlock, notInBlock), rest);
      return FAIL_FATAL, inBlock, notInBlock, rest;
    }
    var secondOk, positive, negative := second.ListEntries({}, {}, b.pos, b.neg);
    ghost var core := Core(second.sh, b.pos + b.neg);
    CoreIsLargest(second.sh, b.pos + b.neg);
    ListedSide(second.sh, b, core, positive, negative);
    if positive == {} && negative == {} {
      var firstOk, more, less := first.ListEntries(positive, negative, a.pos, a.neg);
      ghost var core' := Core(first.sh, a.pos + a.neg);
      CoreIsLargest(first.sh, a.pos + a.neg);
      ListedSide(first.sh, a, core', more, less);
      if more == {} && less == {} {
        rest := a.pos + a.neg;
        status := if firstOk && secondOk then SUCCESS else FAIL_RECOVERABLE;
        AtRest(first.sh, second.sh, a, b, core', core, depth, status, (inBlock, notInBlock));
        FatalAtRest(first.sh, second.sh, a, b, depth, status);
        InWords(first.sh, second.sh, a, b, depth, status, (inBlock, notInBlock), (inBlock, notInBlock), rest);
        return status, inBlock, notInBlock, rest;
      }
      OffsetTurns(a, b);
      ListedMovable(b, a, core', more, less);
      Exchange(b, a, core', more, less);
      TakeOut(first, second, more, less, a, b);
      HoldsAfter(first.sh, first.table[..], a, more, less);
      HoldsAfter(second.sh, second.table[..], b, more, less);
      OffsetTurns(After(b, more, less), After(a, more, less));
      status, inBlock', notInBlock', rest :=
        TryPingPong(first, second, inBlock + more, notInBlock + less, depth + 1, After(a, more, less), After(b, more, less));
      OneExchange(first.sh, second.sh, a, b, core', more, less, depth, status,
                  (inBlock, notInBlock), (inBlock', notInBlock'), rest);
      FatalFirst(first.sh, second.sh, a, b, more, less, depth, status);
      InWords(first.sh, second.sh, a, b, depth, status, (inBlock, notInBlock), (inBlock', notInBlock'), rest);
      return;
    }
    ListedMovable(a, b, core, positive, negative);
    Exchange(a, b, core, positive, negative);
    TakeOut(first, second, positive, negative, a, b);
    HoldsAfter(first.sh, first.table[..], a, positive, negative);
    HoldsAfter(second.sh, second.table[..], b, positive, negative);
    OffsetTurns(After(a, positive, negative), After(b, positive, negative));
    status, inBlock', notInBlock', rest :=
      TryPingPong(second, first, inBlock + positive, notInBlock + negative, depth + 1,
                  After(b, positive, negative), After(a, positive, negative));
    OffsetTurns(a, b);
    OneExchange(second.sh, first.sh, b, a, core, positive, negative, depth, status,
                (inBlock, notInBlock), (inBlock', notInBlock'), rest);
    DecidesTurns(second.sh, first.sh, b, a, depth, status, (inBlock, notInBlock), (inBlock', notInBlock'), rest);
    FatalSecond(first.sh, second.sh, a, b, positive, negative, depth, status);
    InWords(first.sh, second.sh, a, b, depth, status, (inBlock, notInBlock), (inBlock', notInBlock'), rest);
  }

  lemma InWords(sh1: Shape, sh2: Shape, a: Side, b: Side, depth: nat,
                status: DecodeStatus, was: (set<Key>, set<Key>), now: (set<Key>, set<Key>), rest: set<Key>)
    requires ValidShape(sh1) && ValidShape(sh2)
    requires Decides(sh1, sh2, a, b, depth, status, was, now, rest) && Fatal(sh1, sh2, a, b, depth, status)
    ensures a.extra + b.extra != {} ==> status != SUCCESS
    ensures a.extra + b.extra == {} ==>
              && rest <= a.pos + a.neg
              && (forall s :: s <= a.pos + a.neg && Stuck(sh1, s) && Stuck(sh2, s) ==> s <= rest)
              && now.0 == was.0 + (a.pos - rest) && now.1 == was.1 + (a.neg - rest)
              && (status == SUCCESS ==> rest == {})
              && (status == FAIL_RECOVERABLE ==> rest != {} && Stuck(sh1, rest) && Stuck(sh2, rest))
              && (status == FAIL_FATAL <==> TooDeep(sh1, sh2, a.pos + a.neg, depth))
  {
    hide Stuck, TooDeep;
  }

  lemma HoldsFacts(sh: Shape, cells: seq<Cell>, s: Side)
    requires ValidShape(sh) && Holds(sh, cells, s)
    ensures Encodes(sh, cells, s.pos, s.neg) && Bounded(s)
    ensures CollisionFree(sh, s.pos, s.neg) && CollisionFree(sh, s.maxPos, s.maxNeg)
  {
    hide CollisionFree, Encodes;
    CollisionFreeShrinks(sh, s.maxPos, s.maxNeg, s.pos, s.neg);
  }

  lemma HoldsAfter(sh: Shape, cells: seq<Cell>, s: Side, x: set<Key>, y: set<Key>)
    requires ValidShape(sh) && CollisionFree(sh, s.maxPos, s.maxNeg)
    requires Bounded(After(s, x, y)) && Encodes(sh, cells, After(s, x, y).pos, After(s, x, y).neg)
    ensures Holds(sh, cells, After(s, x, y))
  {
    hide CollisionFree, Encodes;
    AfterKeeps(s, x, y);
  }

  lemma ListedSide(sh: Shape, s: Side, core: set<Key>, x: set<Key>, y: set<Key>)
    requires ValidShape(sh) && IsCore(sh, s.pos + s.neg, core)
    requires x == {} + (s.pos - core) && y == {} + (s.neg - core)
    ensures Lists(s, core, x, y)
  {
  }

  lemma OffsetTurns(a: Side, b: Side)
    requires Offset(a, b)
    ensures Offset(b, a)
  {
    hide KeyOffset;
  }

  lemma SameSides(a: Side, b: Side)
    requires Offset(a, b) && a.extra + b.extra == {}
    ensures a.pos == b.pos && a.neg == b.neg
  {
    forall k: Key
      ensures (k in a.pos <==> k in b.pos) && (k in a.neg <==> k in b.neg)
    {
      assert KeyOffset(a, b, k);
      assert k !in a.extra + b.extra;
    }
  }

  lemma DecidesTurns(sh1: Shape, sh2: Shape, a: Side, b: Side, depth: nat,
                     status: DecodeStatus, was: (set<Key>, set<Key>), now: (set<Key>, set<Key>), rest: set<Key>)
    requires ValidShape(sh1) && ValidShape(sh2) && Offset(a, b)
    requires Decides(sh1, sh2, a, b, depth, status, was, now, rest)
    ensures Decides(sh2, sh1, b, a, depth, status, was, now, rest)
  {
    hide Stuck, Offset;
    if a.extra + b.extra == {} {
      SameSides(a, b);
    }
    assert a.extra + b.extra == b.extra + a.extra;
  }

  // Past the depth bound nothing is said but how much has come out.
  lemma Deep(sh1: Shape, sh2: Shape, a: Side, b: Side, depth: nat, was: (set<Key>, set<Key>))
    requires ValidShape(sh1) && ValidShape(sh2) && depth > sh1.size
    ensures Decides(sh1, sh2, a, b, depth, FAIL_FATAL, was, was, a.pos + a.neg)
  {
    hide Stuck;
    Nothing(a.pos, a.neg, was);
  }

  lemma Nothing(p: set<Key>, n: set<Key>, was: (set<Key>, set<Key>))
    ensures p - (p + n) == {} && n - (p + n) == {}
    ensures was.0 == was.0 + (p - (p + n)) && was.1 == was.1 + (n - (p + n))
    ensures (p + n) - (p + n) == {}
  {
  }

  lemma AtRest(sh1: Shape, sh2: Shape, a: Side, b: Side, core1: set<Key>, core2: set<Key>, depth: nat,
               status: DecodeStatus, was: (set<Key>, set<Key>))
    requires ValidShape(sh1) && ValidShape(sh2) && Offset(a, b)
    requires IsCore(sh1, a.pos + a.neg, core1) && Lists(a, core1, {}, {})
    requires IsCore(sh2, b.pos + b.neg, core2) && Lists(b, core2, {}, {})
    requires status == if core1 == {} && core2 == {} then SUCCESS else FAIL_RECOVERABLE
    ensures Decides(sh1, sh2, a, b, depth, status, was, was, a.pos + a.neg)
  {
    hide Stuck, Offset;
    NothingListed(a.pos, a.neg, core1);
    NothingListed(b.pos, b.neg, core2);
    if a.extra + b.extra == {} {
      SameSides(a, b);
      Nothing(a.pos, a.neg, was);
    }
    ExtraShows(a, b);
  }

  lemma NothingListed(p: set<Key>, n: set<Key>, core: set<Key>)
    requires core <= p + n && p - core == {} && n - core == {}
    ensures p + n == core
  {
    forall k | k in p + n
      ensures k in core
    {
      assert k in core || k in p - core || k in n - core;
    }
  }

  // Sides that differ are never both empty.
  lemma ExtraShows(a: Side, b: Side)
    requires Offset(a, b)
    ensures a.extra + b.extra <= (a.pos + a.neg) + (b.pos + b.neg)
  {
    forall k | k in a.extra + b.extra
      ensures k in (a.pos + a.neg) + (b.pos + b.neg)
    {
      assert KeyOffset(a, b, k) && KeyOffset(b, a, k);
    }
  }

  lemma OneExchange(sh1: Shape, sh2: Shape, a: Side, b: Side, core: set<Key>, x: set<Key>, y: set<Key>, depth: nat,
                    status: DecodeStatus, was: (set<Key>, set<Key>), now: (set<Key>, set<Key>), rest: set<Key>)
    requires ValidShape(sh1) && ValidShape(sh2) && Bounded(a) && Offset(a, b) && x + y != {}
    requires || (IsCore(sh1, a.pos + a.neg, core) && Lists(a, core, x, y))
             || (IsCore(sh2, b.pos + b.neg, core) && Lists(b, core, x, y))
    requires Decides(sh1, sh2, After(a, x, y), After(b, x, y), depth + 1, status, (was.0 + x, was.1 + y), now, rest)
    ensures Decides(sh1, sh2, a, b, depth, status, was, now, rest)
  {
    hide Stuck, Offset, Outcome;
    AfterKeeps(a, x, y);
    AfterKeeps(b, x, y);
    if a.extra + b.extra == {} {
      SameSides(a, b);
      AfterFacts(a, x, y);
      OutcomeStep(sh1, sh2, a.pos, a.neg, core, x, y, depth, status, was, now, rest);
    }
  }

  lemma OutcomeStep(sh1: Shape, sh2: Shape, p: set<Key>, n: set<Key>, core: set<Key>, x: set<Key>, y: set<Key>, depth: nat,
                    status: DecodeStatus, was: (set<Key>, set<Key>), now: (set<Key>, set<Key>), rest: set<Key>)
    requires ValidShape(sh1) && ValidShape(sh2) && p !! n && x + y != {}
    requires IsCore(sh1, p + n, core) || IsCore(sh2, p + n, core)
    requires x == p - core && y == n - core
    requires Outcome(sh1, sh2, PosLess(p, n, x, y), NegLess(p, n, x, y), depth + 1, status, (was.0 + x, was.1 + y), now, rest)
    ensures Outcome(sh1, sh2, p, n, depth, status, was, now, rest)
  {
    hide Stuck, PosLess, NegLess, HoldsStuck, IsCore, ValidShape;
    LessListed(p, n, core, x, y);
    StuckStep(sh1, sh2, p, n, core, rest);
    RecoveredMore(p, n, core, x, y, rest);
    MovedSets(was, x, y, (p * core) - rest, (n * core) - rest);
  }

  lemma MovedSets(was: (set<Key>, set<Key>), x: set<Key>, y: set<Key>, x': set<Key>, y': set<Key>)
    ensures (was.0 + x) + x' == was.0 + (x + x') && (was.1 + y) + y' == was.1 + (y + y')
  {
  }

  lemma StuckStep(sh1: Shape, sh2: Shape, p: set<Key>, n: set<Key>, core: set<Key>, rest: set<Key>)
    requires ValidShape(sh1) && ValidShape(sh2)
    requires IsCore(sh1, p + n, core) || IsCore(sh2, p + n, core)
    requires rest <= (p * core) + (n * core) && HoldsStuck(sh1, sh2, (p * core) + (n * core), rest)
    ensures rest <= p + n && HoldsStuck(sh1, sh2, p + n, rest)
  {
    hide Stuck;
    forall s | s <= p + n && Stuck(sh1, s) && Stuck(sh2, s)
      ensures s <= rest
    {
      assert s <= core;
      assert s <= (p * core) + (n * core);
    }
  }

  lemma LessListed(p: set<Key>, n: set<Key>, core: set<Key>, x: set<Key>, y: set<Key>)
    requires p !! n && x == p - core && y == n - core
    ensures PosLess(p, n, x, y) == p * core && NegLess(p, n, x, y) == n * core
  {
  }

  lemma RecoveredMore(p: set<Key>, n: set<Key>, core: set<Key>, x: set<Key>, y: set<Key>, rest: set<Key>)
    requires p !! n && x == p - core && y == n - core && x + y != {} && rest <= (p * core) + (n * core)
    ensures x + ((p * core) - rest) == p - rest && y + ((n * core) - rest) == n - rest
    ensures |((p * core) + (n * core)) - rest| + 1 <= |(p + n) - rest|
  {
    var less, more := ((p * core) + (n * core)) - rest, (p + n) - rest;
    assert less <= more;
    var k :| k in x + y;
    assert k in more && k !in less;
    SubsetCard(less, more);
  }

  // ---------------------------------------------------------------------
  // The depth bound
  // ---------------------------------------------------------------------

  lemma CoreSmaller(sh: Shape, d: set<Key>)
    requires ValidShape(sh)
    ensures Core(sh, d) <= d
    ensures Core(sh, d) != d ==> |Core(sh, d)| < |d|
  {
    hide HeldStuck;
    SubsetCard(Core(sh, d), d);
  }

  // More exchanges take something out of d, each time all that one table can give, than
  // the table that gave last has cells.
  ghost predicate TooDeep(sh1: Shape, sh2: Shape, d: set<Key>, depth: nat)
    requires ValidShape(sh1) && ValidShape(sh2)
    decreases |d|
  {
    CoreSmaller(sh1, d);
    CoreSmaller(sh2, d);
    if depth > sh1.size then true
    else if Core(sh2, d) != d then TooDeep(sh2, sh1, Core(sh2, d), depth + 1)
    else if Core(sh1, d) != d then TooDeep(sh1, sh2, Core(sh1, d), depth + 1)
    else false
  }

  // The bound step by step: the table asked first gives all it can; only if it has
  // nothing to give is the other asked.
  lemma TooDeepMeans(sh1: Shape, sh2: Shape, d: set<Key>, depth: nat)
    requires ValidShape(sh1) && ValidShape(sh2)
    ensures TooDeep(sh1, sh2, d, depth) <==>
              || depth > sh1.size
              || (Core(sh2, d) != d && TooDeep(sh2, sh1, Core(sh2, d), depth + 1))
              || (Core(sh2, d) == d && Core(sh1, d) != d && TooDeep(sh1, sh2, Core(sh1, d), depth + 1))
  {
    hide Core;
    CoreSmaller(sh1, d);
    CoreSmaller(sh2, d);
  }

  // Differences no larger than either table never meet the bound.
  lemma {:induction false} SmallIsNotTooDeep(sh1: Shape, sh2: Shape, d: set<Key>, depth: nat)
    requires ValidShape(sh1) && ValidShape(sh2)
    requires |d| + depth <= sh1.size && |d| + depth <= sh2.size
    ensures !TooDeep(sh1, sh2, d, depth)
    decreases |d|
  {
    hide Core, ValidShape;
    CoreSmaller(sh1, d);
    CoreSmaller(sh2, d);
    if Core(sh2, d) != d {
      SmallIsNotTooDeep(sh2, sh1, Core(sh2, d), depth + 1);
    } else if Core(sh1, d) != d {
      SmallIsNotTooDeep(sh1, sh2, Core(sh1, d), depth + 1);
    }
  }

  // For equal differences the bound, and nothing else, makes ping-pong fail for good.
  ghost predicate Fatal(sh1: Shape, sh2: Shape, a: Side, b: Side, depth: nat, status: DecodeStatus)
    requires ValidShape(sh1) && ValidShape(sh2)
  {
    a.extra + b.extra == {} ==> (status == FAIL_FATAL <==> TooDeep(sh1, sh2, a.pos + a.neg, depth))
  }

  lemma DeepNow(sh1: Shape, sh2: Shape, a: Side, b: Side, depth: nat)
    requires ValidShape(sh1) && ValidShape(sh2) && depth > sh1.size
    ensures Fatal(sh1, sh2, a, b, depth, FAIL_FATAL)
  {
  }

  // What is left after a listing, on either side.
  lemma LeftAfter(a: Side, b: Side, core: set<Key>, x: set<Key>, y: set<Key>)
    requires Bounded(b) && Offset(a, b) && a.extra + b.extra == {} && Lists(b, core, x, y)
    ensures After(a, x, y).pos + After(a, x, y).neg == core == After(b, x, y).pos + After(b, x, y).neg
    ensures After(a, x, y).extra + After(b, x, y).extra == {}
    ensures a.pos + a.neg == b.pos + b.neg
    ensures core == b.pos + b.neg <==> x == {} && y == {}
  {
    hide PosLess, NegLess, Offset;
    SameSides(a, b);
    LessListed(b.pos, b.neg, core, x, y);
    AfterFacts(a, x, y);
    AfterFacts(b, x, y);
    assert (b.pos * core) + (b.neg * core) == core;
    if x == {} && y == {} {
      NothingListed(b.pos, b.neg, core);
    }
  }

  lemma FatalSecond(sh1: Shape, sh2: Shape, a: Side, b: Side, x: set<Key>, y: set<Key>, depth: nat, status: DecodeStatus)
    requires ValidShape(sh1) && ValidShape(sh2) && Bounded(b) && Offset(a, b)
    requires Lists(b, Core(sh2, b.pos + b.neg), x, y) && !(x == {} && y == {}) && depth <= sh1.size
    requires Fatal(sh2, sh1, After(b, x, y), After(a, x, y), depth + 1, status)
    ensures Fatal(sh1, sh2, a, b, depth, status)
  {
    hide Core, Offset, Lists, After, Bounded;
    if a.extra + b.extra == {} {
      LeftAfter(a, b, Core(sh2, b.pos + b.neg), x, y);
      assert After(b, x, y).extra + After(a, x, y).extra == {};
    }
  }

  lemma FatalFirst(sh1: Shape, sh2: Shape, a: Side, b: Side, x: set<Key>, y: set<Key>, depth: nat, status: DecodeStatus)
    requires ValidShape(sh1) && ValidShape(sh2) && Bounded(a) && Bounded(b) && Offset(a, b) && Offset(b, a)
    requires Lists(b, Core(sh2, b.pos + b.neg), {}, {}) && depth <= sh1.size
    requires Lists(a, Core(sh1, a.pos + a.neg), x, y) && !(x == {} && y == {})
    requires Fatal(sh1, sh2, After(a, x, y), After(b, x, y), depth + 1, status)
    ensures Fatal(sh1, sh2, a, b, depth, status)
  {
    hide Core, Offset, Lists, After, Bounded;
    assert a.extra + b.extra == b.extra + a.extra;
    if a.extra + b.extra == {} {
      LeftAfter(a, b, Core(sh2, b.pos + b.neg), {}, {});
      LeftAfter(b, a, Core(sh1, a.pos + a.neg), x, y);
      assert After(a, x, y).extra + After(b, x, y).extra == {};
    }
  }

  lemma FatalAtRest(sh1: Shape, sh2: Shape, a: Side, b: Side, depth: nat, status: DecodeStatus)
    requires ValidShape(sh1) && ValidShape(sh2) && Bounded(a) && Bounded(b) && Offset(a, b)
    requires Lists(b, Core(sh2, b.pos + b.neg), {}, {}) && Lists(a, Core(sh1, a.pos + a.neg), {}, {})
    requires status != FAIL_FATAL && depth <= sh1.size
    ensures Fatal(sh1, sh2, a, b, depth, status)
  {
    hide Core, Offset, Lists, After, Bounded;
    OffsetTurns(a, b);
    assert a.extra + b.extra == b.extra + a.extra;
    if a.extra + b.extra == {} {
      LeftAfter(a, b, Core(sh2, b.pos + b.neg), {}, {});
      LeftAfter(b, a, Core(sh1, a.pos + a.neg), {}, {});
    }
  }
}
