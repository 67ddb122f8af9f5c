/**
 * The Bloom filter of thirdparty/bloom_filter.h, as Graphene uses it: ids go in, a
 * membership test comes out, and the table travels as text. The byte hash hash_ap, the
 * table of predefined salts and the C library's random numbers are parameters.
 */
module Blooms {
  import opened Sums
  import opened Hexes

  const PREDEFINED_SALTS: nat := 128

  // draw(seed, i) is the product of the random numbers 2 * i and 2 * i + 1 after srand(seed).
  datatype Scheme = Scheme(predefined: seq<bv32>, draw: (bv32, nat) -> bv32, hash: (Key, bv32) -> bv32)

  predicate ValidScheme(s: Scheme) {
    |s.predefined| == PREDEFINED_SALTS
  }

  function StoredSeed(randomSeed: bv64): bv64 {
    randomSeed * 0xA5A5A5A5 + 1
  }

  function LowHalf(seed: bv64): bv32 {
    (seed & 0xffff_ffff) as bv32
  }

  function Remix(a: bv32, b: bv32, seed: bv64): bv32 {
    a * b + LowHalf(seed)
  }

  // Each salt is multiplied by the one three places on, which has itself been rewritten
  // already once the index wraps around (thirdparty/bloom_filter.h:450-464).
  ghost predicate Stirred(base: seq<bv32>, seed: bv64, salts: seq<bv32>) {
    && |salts| == |base|
    && forall i :: 0 <= i < |base| ==> StirredAt(base, seed, salts, i)
  }

  ghost predicate StirredAt(base: seq<bv32>, seed: bv64, salts: seq<bv32>, i: nat)
    requires |salts| == |base| && i < |base|
  {
    var j := (i + 3) % |base|;
    salts[i] == Remix(base[i], if j < i then salts[j] else base[j], seed)
  }

  // The salts after the loop has rewritten those below n.
  ghost predicate StirredBelow(base: seq<bv32>, seed: bv64, salts: seq<bv32>, n: nat) {
    && |salts| == |base|
    && (forall i :: n <= i < |base| ==> salts[i] == base[i])
    && forall i :: 0 <= i < n && i < |base| ==> StirredAt(base, seed, salts, i)
  }

  lemma StirNext(base: seq<bv32>, seed: bv64, salts: seq<bv32>, n: nat)
    requires StirredBelow(base, seed, salts, n) && n < |base|
    ensures StirredBelow(base, seed, salts[n := Remix(salts[n], salts[(n + 3) % |salts|], seed)], n + 1)
  {
    hide Remix, StirredAt;
    var after := salts[n := Remix(salts[n], salts[(n + 3) % |salts|], seed)];
    forall i | 0 <= i <= n
      ensures StirredAt(base, seed, after, i)
    {
      StirredKept(base, seed, salts, n, i);
    }
  }

  lemma StirredKept(base: seq<bv32>, seed: bv64, salts: seq<bv32>, n: nat, i: nat)
    requires StirredBelow(base, seed, salts, n) && i <= n < |base|
    ensures StirredAt(base, seed, salts[n := Remix(salts[n], salts[(n + 3) % |salts|], seed)], i)
  {
    hide Remix;
    assert i < n ==> StirredAt(base, seed, salts, i);
  }

  lemma StirredInWords(base: seq<bv32>, seed: bv64, salts: seq<bv32>)
    requires Stirred(base, seed, salts)
    ensures |salts| == |base|
    ensures forall i :: 0 <= i < |salts| ==>
              var j := (i + 3) % |salts|;
              salts[i] == Remix(base[i], if j < i then salts[j] else base[j], seed)
  {
    hide Remix;
    forall i | 0 <= i < |salts|
      ensures var j := (i + 3) % |salts|;
        salts[i] == Remix(base[i], if j < i then salts[j] else base[j], seed)
    {
      assert StirredAt(base, seed, salts, i);
    }
  }

  lemma RemixIs(a: bv32, b: bv32, seed: bv64)
    ensures Remix(a, b, seed) == a * b + LowHalf(seed)
  {
  }

  lemma LowHalfIs(seed: bv64)
    ensures LowHalf(seed) == (seed & 0xffff_ffff) as bv32
  {
  }

  ghost predicate AreSalts(s: Scheme, count: nat, seed: bv64, salts: seq<bv32>)
    requires ValidScheme(s)
  {
    if count <= PREDEFINED_SALTS then Stirred(s.predefined[..count], seed, salts)
    else |salts| == count && exists n :: salts == Drawn(s, LowHalf(seed), n)
  }

  // The salts after n draws: zeros and repetitions are rejected
  // (thirdparty/bloom_filter.h:464-482).
  ghost function Drawn(s: Scheme, seed: bv32, n: nat): (salts: seq<bv32>)
    ensures |salts| >= |s.predefined|
  {
    if n == 0 then s.predefined else WithDraw(Drawn(s, seed, n - 1), s.draw(seed, n - 1))
  }

  ghost function WithDraw(salts: seq<bv32>, draw: bv32): seq<bv32> {
    if draw == 0 || draw in salts then salts else salts + [draw]
  }

  lemma {:induction false} DrawnGrows(s: Scheme, seed: bv32, m: nat, n: nat)
    requires m <= n
    ensures Drawn(s, seed, m) <= Drawn(s, seed, n)
  {
    if m < n {
      DrawnGrows(s, seed, m, n - 1);
    }
  }

  // x is among the first n numbers drawn.
  ghost predicate AmongDraws(s: Scheme, seed: bv32, n: nat, x: bv32): (r: bool)
    ensures r <==> exists i :: 0 <= i < n && s.draw(seed, i) == x
  {
    exists i :: 0 <= i < n && s.draw(seed, i) == x
  }

  // The predefined salts, then what was drawn, in the order of the first draws, without
  // zeros and repetitions.
  lemma DrawnInWords(s: Scheme, seed: bv32, n: nat)
    ensures var d, p := Drawn(s, seed, n), |s.predefined|;
      && s.predefined <= d
      && (forall x :: x in d[p..] <==> x != 0 && x !in s.predefined && AmongDraws(s, seed, n, x))
      && (forall a, b :: p <= a < b < |d| ==> d[a] != d[b])
      && forall a, b, j :: p <= a < b < |d| && 0 <= j < n && s.draw(seed, j) == d[b] ==> AmongDraws(s, seed, j, d[a])
  {
    hide Drawn, AmongDraws;
    DrawnMembers(s, seed, n);
    DrawnOnce(s, seed, n);
    DrawnInOrder(s, seed, n);
  }

  ghost predicate DrawnAre(s: Scheme, seed: bv32, n: nat, d: seq<bv32>) {
    var p := |s.predefined|;
    && s.predefined <= d
    && forall x :: x in d[p..] <==> x != 0 && x !in s.predefined && AmongDraws(s, seed, n, x)
  }

  ghost predicate OnceEach(d: seq<bv32>, p: nat) {
    forall a, b :: p <= a < b < |d| ==> d[a] != d[b]
  }

  ghost predicate FirstDrawnFirst(s: Scheme, seed: bv32, n: nat, d: seq<bv32>) {
    forall a, b, j :: |s.predefined| <= a < b < |d| && 0 <= j < n && s.draw(seed, j) == d[b] ==> AmongDraws(s, seed, j, d[a])
  }

  lemma DrawnNext(s: Scheme, seed: bv32, n: nat)
    ensures Drawn(s, seed, 0) == s.predefined
    ensures n > 0 ==> Drawn(s, seed, n) == WithDraw(Drawn(s, seed, n - 1), s.draw(seed, n - 1))
  {
  }

  lemma AmongNext(s: Scheme, seed: bv32, n: nat, x: bv32)
    ensures AmongDraws(s, seed, n + 1, x) <==> AmongDraws(s, seed, n, x) || s.draw(seed, n) == x
    ensures !AmongDraws(s, seed, 0, x)
  {
  }

  lemma {:induction false} DrawnMembers(s: Scheme, seed: bv32, n: nat)
    ensures DrawnAre(s, seed, n, Drawn(s, seed, n))
  {
    hide Drawn, AmongDraws, WithDraw, DrawnAre;
    DrawnNext(s, seed, n);
    if n == 0 {
      NothingAmong(s, seed);
    } else {
      DrawnMembers(s, seed, n - 1);
      MembersNext(s, seed, n - 1, Drawn(s, seed, n - 1));
    }
  }

  lemma NothingAmong(s: Scheme, seed: bv32)
    ensures DrawnAre(s, seed, 0, s.predefined)
  {
  }

  lemma MembersNext(s: Scheme, seed: bv32, n: nat, was: seq<bv32>)
    requires DrawnAre(s, seed, n, was)
    ensures DrawnAre(s, seed, n + 1, WithDraw(was, s.draw(seed, n)))
  {
    hide AmongDraws;
    var p, y := |s.predefined|, s.draw(seed, n);
    var d := WithDraw(was, y);
    assert was == s.predefined + was[p..];
    assert d[p..] == if d == was then was[p..] else was[p..] + [y];
    forall x
      ensures x in d[p..] <==> x != 0 && x !in s.predefined && AmongDraws(s, seed, n + 1, x)
    {
      AmongNext(s, seed, n, x);
    }
  }

  lemma {:induction false} DrawnOnce(s: Scheme, seed: bv32, n: nat)
    ensures OnceEach(Drawn(s, seed, n), |s.predefined|)
  {
    if n > 0 {
      var was := Drawn(s, seed, n - 1);
      DrawnOnce(s, seed, n - 1);
      assert forall a :: 0 <= a < |was| ==> was[a] in was;
    }
  }

  lemma {:induction false} DrawnInOrder(s: Scheme, seed: bv32, n: nat)
    ensures FirstDrawnFirst(s, seed, n, Drawn(s, seed, n))
  {
    hide Drawn, AmongDraws, WithDraw, DrawnAre, FirstDrawnFirst;
    DrawnNext(s, seed, n);
    if n == 0 {
      NothingFirst(s, seed);
    } else {
      DrawnInOrder(s, seed, n - 1);
      DrawnMembers(s, seed, n - 1);
      OrderNext(s, seed, n - 1, Drawn(s, seed, n - 1));
    }
  }

  lemma NothingFirst(s: Scheme, seed: bv32)
    ensures FirstDrawnFirst(s, seed, 0, s.predefined)
  {
  }

  lemma OrderNext(s: Scheme, seed: bv32, n: nat, was: seq<bv32>)
    requires DrawnAre(s, seed, n, was) && FirstDrawnFirst(s, seed, n, was)
    ensures FirstDrawnFirst(s, seed, n + 1, WithDraw(was, s.draw(seed, n)))
  {
    hide AmongDraws, WithDraw, DrawnAre, FirstDrawnFirst;
    var d := WithDraw(was, s.draw(seed, n));
    forall a, b, j | |s.predefined| <= a < b < |d| && 0 <= j < n + 1 && s.draw(seed, j) == d[b]
      ensures AmongDraws(s, seed, j, d[a])
    {
      OrderAt(s, seed, n, was, a, b, j);
    }
    OrderFrom(s, seed, n + 1, d);
  }

  lemma OrderFrom(s: Scheme, seed: bv32, n: nat, d: seq<bv32>)
    requires forall a, b, j :: |s.predefined| <= a < b < |d| && 0 <= j < n && s.draw(seed, j) == d[b] ==> AmongDraws(s, seed, j, d[a])
    ensures FirstDrawnFirst(s, seed, n, d)
  {
    hide AmongDraws;
  }

  lemma OrderAt(s: Scheme, seed: bv32, n: nat, was: seq<bv32>, a: nat, b: nat, j: nat)
    requires DrawnAre(s, seed, n, was) && FirstDrawnFirst(s, seed, n, was)
    requires |s.predefined| <= a < b < |WithDraw(was, s.draw(seed, n))| && j <= n
    requires s.draw(seed, j) == WithDraw(was, s.draw(seed, n))[b]
    ensures AmongDraws(s, seed, j, WithDraw(was, s.draw(seed, n))[a])
  {
    hide *;
    var y := s.draw(seed, n);
    DrawSplits(was, y, a, b);
    NotDrawnYet(s, seed, n, was, y);
    OrderGives(s, seed, n, was);
    AmongGives(s, seed, n, was, a);
  }

  lemma DrawSplits(was: seq<bv32>, y: bv32, a: nat, b: nat)
    requires a < b < |WithDraw(was, y)|
    ensures a < |was| && WithDraw(was, y)[a] == was[a]
    ensures b < |was| ==> WithDraw(was, y)[b] == was[b]
    ensures b >= |was| ==> WithDraw(was, y)[b] == y && y != 0 && y !in was
  {
  }

  lemma NotDrawnYet(s: Scheme, seed: bv32, n: nat, was: seq<bv32>, y: bv32)
    requires DrawnAre(s, seed, n, was)
    ensures y != 0 && y !in was ==> forall j :: 0 <= j < n ==> s.draw(seed, j) != y
  {
    assert was == s.predefined + was[|s.predefined|..];
    assert (exists j :: 0 <= j < n && s.draw(seed, j) == y) ==> AmongDraws(s, seed, n, y);
  }

  lemma OrderGives(s: Scheme, seed: bv32, n: nat, was: seq<bv32>)
    requires FirstDrawnFirst(s, seed, n, was)
    ensures forall a, b, j :: |s.predefined| <= a < b < |was| && 0 <= j < n && s.draw(seed, j) == was[b] ==> AmongDraws(s, seed, j, was[a])
  {
    hide AmongDraws;
  }

  lemma AmongGives(s: Scheme, seed: bv32, n: nat, was: seq<bv32>, a: nat)
    requires DrawnAre(s, seed, n, was) && |s.predefined| <= a < |was|
    ensures AmongDraws(s, seed, n, was[a])
  {
    hide AmongDraws;
    assert was[a] == was[|s.predefined|..][a - |s.predefined|];
    assert was[a] in was[|s.predefined|..];
  }

  // The random numbers hold as many salts as are asked for.
  ghost predicate Supplied(s: Scheme, count: nat, seed: bv64) {
    count <= PREDEFINED_SALTS || exists n :: |Drawn(s, LowHalf(seed), n)| == count
  }

  lemma SaltsSupplied(s: Scheme, count: nat, seed: bv64, salts: seq<bv32>)
    requires ValidScheme(s) && AreSalts(s, count, seed, salts)
    ensures Supplied(s, count, seed)
  {
    hide Stirred, Drawn;
  }

  lemma {:induction false} StirredAgree(base: seq<bv32>, seed: bv64, a: seq<bv32>, b: seq<bv32>, n: nat)
    requires Stirred(base, seed, a) && Stirred(base, seed, b) && n <= |base|
    ensures a[..n] == b[..n]
  {
    hide Remix;
    if n > 0 {
      StirredAgree(base, seed, a, b, n - 1);
      var i := n - 1;
      assert StirredAt(base, seed, a, i) && StirredAt(base, seed, b, i);
      var j := (i + 3) % |base|;
      assert j < i ==> a[j] == a[..i][j] && b[j] == b[..i][j];
      assert a[..n] == a[..i] + [a[i]] && b[..n] == b[..i] + [b[i]];
    }
  }

  // The salts are fixed by their number and the seed, which is all a message carries.
  lemma SaltsUnique(s: Scheme, count: nat, seed: bv64, a: seq<bv32>, b: seq<bv32>)
    requires ValidScheme(s) && AreSalts(s, count, seed, a) && AreSalts(s, count, seed, b)
    ensures a == b && |a| == count
  {
    hide Remix;
    if count <= PREDEFINED_SALTS {
      var base := s.predefined[..count];
      StirredAgree(base, seed, a, b, count);
      assert a[..count] == a && b[..count] == b;
    } else {
      var m :| a == Drawn(s, LowHalf(seed), m);
      var n :| b == Drawn(s, LowHalf(seed), n);
      if m <= n {
        DrawnGrows(s, LowHalf(seed), m, n);
      } else {
        DrawnGrows(s, LowHalf(seed), n, m);
      }
    }
  }

  // ---------------------------------------------------------------------
  // Bits of the table
  // ---------------------------------------------------------------------

  function BitMask(bit: nat): Byte
    requires bit < 8
  {
    if bit == 0 then 0x01 else if bit == 1 then 0x02 else if bit == 2 then 0x04 else if bit == 3 then 0x08
    else if bit == 4 then 0x10 else if bit == 5 then 0x20 else if bit == 6 then 0x40 else 0x80
  }

  lemma BitMasksAre()
    ensures BitMask(0) == 0x01 && BitMask(1) == 0x02 && BitMask(2) == 0x04 && BitMask(3) == 0x08
    ensures BitMask(4) == 0x10 && BitMask(5) == 0x20 && BitMask(6) == 0x40 && BitMask(7) == 0x80
  {
  }

  predicate HasBit(b: Byte, bit: nat)
    requires bit < 8
  {
    b & BitMask(bit) == BitMask(bit)
  }

  function WithBit(b: Byte, bit: nat): Byte
    requires bit < 8
  {
    b | BitMask(bit)
  }

  lemma HasBitIs(b: Byte, bit: nat)
    requires bit < 8
    ensures HasBit(b, bit) <==> b & BitMask(bit) != 0
  {
  }

  lemma WithBitHas(b: Byte, bit: nat, other: nat)
    requires bit < 8 && other < 8
    ensures HasBit(WithBit(b, bit), other) <==> other == bit || HasBit(b, other)
  {
  }

  lemma NoBits(bit: nat)
    requires bit < 8
    ensures !HasBit(0, bit)
  {
  }

  // The positions of the bits that are set.
  ghost function BitsOf(table: seq<Byte>): set<nat> {
    set p: nat | p < 8 * |table| && HasBit(table[p / 8], p % 8)
  }

  lemma BitsOfMembers(table: seq<Byte>, p: nat)
    ensures p in BitsOf(table) <==> p < 8 * |table| && HasBit(table[p / 8], p % 8)
  {
    hide HasBit;
  }

  lemma SetBit(table: seq<Byte>, p: nat)
    requires p < 8 * |table|
    ensures BitsOf(table[p / 8 := WithBit(table[p / 8], p % 8)]) == BitsOf(table) + {p}
  {
    hide HasBit, WithBit, BitsOf;
    var after := table[p / 8 := WithBit(table[p / 8], p % 8)];
    forall q: nat
      ensures q in BitsOf(after) <==> q in BitsOf(table) || q == p
    {
      BitsOfMembers(after, q);
      BitsOfMembers(table, q);
      WithBitHas(table[p / 8], p % 8, q % 8);
      assert q / 8 == p / 8 && q % 8 == p % 8 ==> q == p;
    }
  }

  lemma ZeroTable(table: seq<Byte>)
    requires forall i :: 0 <= i < |table| ==> table[i] == 0
    ensures BitsOf(table) == {}
  {
    hide HasBit;
    forall p: nat | p < 8 * |table|
      ensures !HasBit(table[p / 8], p % 8)
    {
      NoBits(p % 8);
    }
  }

  // Where the hashes of a key land.
  function Position(s: Scheme, tableSize: nat, k: Key, salt: bv32): (p: nat)
    requires tableSize > 0
    ensures p < tableSize
  {
    (s.hash(k, salt) as nat) % tableSize
  }

  ghost function Positions(s: Scheme, tableSize: nat, k: Key, salts: seq<bv32>): set<nat>
    requires tableSize > 0
  {
    set i | 0 <= i < |salts| :: Position(s, tableSize, k, salts[i])
  }

  lemma PositionsNext(s: Scheme, tableSize: nat, k: Key, salts: seq<bv32>, i: nat)
    requires tableSize > 0 && i < |salts|
    ensures Positions(s, tableSize, k, salts[..i + 1])
         == Positions(s, tableSize, k, salts[..i]) + {Position(s, tableSize, k, salts[i])}
  {
    hide Position;
    var a, b := salts[..i], salts[..i + 1];
    assert forall j :: 0 <= j < i ==> a[j] == b[j];
    assert b[i] == salts[i];
    forall p | p in Positions(s, tableSize, k, a)
      ensures p in Positions(s, tableSize, k, b)
    {
      var j :| 0 <= j < |a| && p == Position(s, tableSize, k, a[j]);
      assert p == Position(s, tableSize, k, b[j]);
    }
  }

  lemma NoPositions(s: Scheme, tableSize: nat, k: Key, salts: seq<bv32>)
    requires tableSize > 0
    ensures Positions(s, tableSize, k, salts[..0]) == {}
    ensures salts[..|salts|] == salts
  {
  }

  ghost predicate Passes(s: Scheme, tableSize: nat, salts: seq<bv32>, table: seq<Byte>, k: Key)
    requires tableSize > 0
  {
    Positions(s, tableSize, k, salts) <= BitsOf(table)
  }

  lemma MissedAt(s: Scheme, tableSize: nat, salts: seq<bv32>, table: seq<Byte>, k: Key, i: nat)
    requires tableSize > 0 && i < |salts| && Position(s, tableSize, k, salts[i]) !in BitsOf(table)
    ensures !Passes(s, tableSize, salts, table, k)
  {
    hide BitsOf, Position;
  }

  lemma PassesMeans(s: Scheme, tableSize: nat, salts: seq<bv32>, table: seq<Byte>, k: Key)
    requires tableSize > 0
    ensures Passes(s, tableSize, salts, table, k) <==> Positions(s, tableSize, k, salts) <= BitsOf(table)
  {
  }

  // The test on the bytes of the table: one bit for each salt.
  lemma PassesInBits(s: Scheme, tableSize: nat, salts: seq<bv32>, table: seq<Byte>, k: Key)
    requires tableSize > 0 && tableSize == 8 * |table|
    ensures Passes(s, tableSize, salts, table, k) <==>
              forall i :: 0 <= i < |salts| ==>
                var p := (s.hash(k, salts[i]) as nat) % tableSize;
                table[p / 8] & BitMask(p % 8) != 0
  {
    hide *;
    PassesAtEach(s, tableSize, salts, table, k);
    if Passes(s, tableSize, salts, table, k) {
      forall i | 0 <= i < |salts|
        ensures var p := (s.hash(k, salts[i]) as nat) % tableSize; table[p / 8] & BitMask(p % 8) != 0
      {
        LandsOn(s, tableSize, table, k, salts[i]);
      }
    } else {
      var i :| 0 <= i < |salts| && Position(s, tableSize, k, salts[i]) !in BitsOf(table);
      LandsOn(s, tableSize, table, k, salts[i]);
    }
  }

  lemma LandsOn(s: Scheme, tableSize: nat, table: seq<Byte>, k: Key, salt: bv32)
    requires tableSize > 0 && tableSize == 8 * |table|
    ensures var p := (s.hash(k, salt) as nat) % tableSize;
      Position(s, tableSize, k, salt) in BitsOf(table) <==> table[p / 8] & BitMask(p % 8) != 0
  {
    hide *;
    PositionIs(s, tableSize, k, salt);
    PositionInBits(table, (s.hash(k, salt) as nat) % tableSize);
  }

  lemma PassesAtEach(s: Scheme, tableSize: nat, salts: seq<bv32>, table: seq<Byte>, k: Key)
    requires tableSize > 0
    ensures Passes(s, tableSize, salts, table, k) <==>
              forall i :: 0 <= i < |salts| ==> Position(s, tableSize, k, salts[i]) in BitsOf(table)
  {
    hide BitsOf, Position;
    if Passes(s, tableSize, salts, table, k) {
      forall i | 0 <= i < |salts|
        ensures Position(s, tableSize, k, salts[i]) in BitsOf(table)
      {
        assert Position(s, tableSize, k, salts[i]) in Positions(s, tableSize, k, salts);
      }
    }
  }

  lemma PositionIs(s: Scheme, tableSize: nat, k: Key, salt: bv32)
    requires tableSize > 0
    ensures Position(s, tableSize, k, salt) == (s.hash(k, salt) as nat) % tableSize
  {
  }

  lemma PositionInBits(table: seq<Byte>, p: nat)
    requires p < 8 * |table|
    ensures p in BitsOf(table) <==> table[p / 8] & BitMask(p % 8) != 0
  {
    hide HasBit, BitsOf;
    BitsOfMembers(table, p);
    HasBitIs(table[p / 8], p % 8);
  }

  // Bits that went in, on the bytes of the table.
  lemma InsertedInBits(s: Scheme, tableSize: nat, k: Key, salts: seq<bv32>, before: seq<Byte>, after: seq<Byte>)
    requires tableSize > 0 && tableSize == 8 * |before| && |after| == |before|
    requires BitsOf(after) == BitsOf(before) + Positions(s, tableSize, k, salts)
    ensures forall j, b :: 0 <= j < |after| && 0 <= b < 8 ==>
              (after[j] & BitMask(b) != 0)
                == (before[j] & BitMask(b) != 0
                     || exists i :: 0 <= i < |salts| && (s.hash(k, salts[i]) as nat) % tableSize == 8 * j + b)
  {
    hide HasBit, BitsOf, Positions;
    forall j, b | 0 <= j < |after| && 0 <= b < 8
      ensures after[j] & BitMask(b) != 0
         <==> before[j] & BitMask(b) != 0
              || exists i :: 0 <= i < |salts| && (s.hash(k, salts[i]) as nat) % tableSize == 8 * j + b
    {
      HasBitIs(after[j], b);
      HasBitIs(before[j], b);
      InsertedBit(s, tableSize, k, salts, before, after, j, b);
    }
  }

  lemma InsertedBit(s: Scheme, tableSize: nat, k: Key, salts: seq<bv32>, before: seq<Byte>, after: seq<Byte>, j: nat, b: nat)
    requires tableSize > 0 && tableSize == 8 * |before| && |after| == |before| && j < |after| && b < 8
    requires BitsOf(after) == BitsOf(before) + Positions(s, tableSize, k, salts)
    ensures HasBit(after[j], b)
       <==> HasBit(before[j], b) || exists i :: 0 <= i < |salts| && (s.hash(k, salts[i]) as nat) % tableSize == 8 * j + b
  {
    hide HasBit, BitsOf;
    var q := 8 * j + b;
    assert q / 8 == j && q % 8 == b;
    BitsOfMembers(after, q);
    BitsOfMembers(before, q);
    assert q in Positions(s, tableSize, k, salts)
      <==> exists i :: 0 <= i < |salts| && Position(s, tableSize, k, salts[i]) == q;
  }

  // The positions a set of keys occupies.
  ghost function Union(s: Scheme, tableSize: nat, salts: seq<bv32>, keys: set<Key>): set<nat>
    requires tableSize > 0
  {
    set k, i | k in keys && 0 <= i < |salts| :: Position(s, tableSize, k, salts[i])
  }

  lemma UnionInBits(s: Scheme, tableSize: nat, salts: seq<bv32>, keys: set<Key>, table: seq<Byte>)
    requires tableSize > 0 && tableSize == 8 * |table| && BitsOf(table) == Union(s, tableSize, salts, keys)
    ensures forall c, b :: 0 <= c < |table| && 0 <= b < 8 ==>
              (table[c] & BitMask(b) != 0)
              == exists k, i :: k in keys && 0 <= i < |salts| && (s.hash(k, salts[i]) as nat) % tableSize == 8 * c + b
  {
    hide HasBit, BitsOf, Union;
    forall c, b | 0 <= c < |table| && 0 <= b < 8
      ensures (table[c] & BitMask(b) != 0)
           == exists k, i :: k in keys && 0 <= i < |salts| && (s.hash(k, salts[i]) as nat) % tableSize == 8 * c + b
    {
      HasBitIs(table[c], b);
      UnionBit(s, tableSize, salts, keys, table, c, b);
    }
  }

  lemma UnionBit(s: Scheme, tableSize: nat, salts: seq<bv32>, keys: set<Key>, table: seq<Byte>, c: nat, b: nat)
    requires tableSize > 0 && tableSize == 8 * |table| && BitsOf(table) == Union(s, tableSize, salts, keys)
    requires c < |table| && b < 8
    ensures HasBit(table[c], b)
         == exists k, i :: k in keys && 0 <= i < |salts| && (s.hash(k, salts[i]) as nat) % tableSize == 8 * c + b
  {
    hide HasBit, BitsOf;
    var q := 8 * c + b;
    assert q / 8 == c && q % 8 == b;
    BitsOfMembers(table, q);
    assert q in Union(s, tableSize, salts, keys)
      <==> exists k, i :: k in keys && 0 <= i < |salts| && Position(s, tableSize, k, salts[i]) == q;
  }

  // A key of the filter lands on p.
  ghost predicate Hit(s: Scheme, tableSize: nat, salts: seq<bv32>, keys: set<Key>, p: nat): (r: bool)
    requires tableSize > 0
    ensures r <==> exists k, j :: k in keys && 0 <= j < |salts| && (s.hash(k, salts[j]) as nat) % tableSize == p
  {
    p in Union(s, tableSize, salts, keys)
  }

  lemma CoveredMeans(s: Scheme, tableSize: nat, salts: seq<bv32>, keys: set<Key>, k: Key)
    requires tableSize > 0
    ensures Positions(s, tableSize, k, salts) <= Union(s, tableSize, salts, keys)
       <==> forall i :: 0 <= i < |salts| ==> Hit(s, tableSize, salts, keys, (s.hash(k, salts[i]) as nat) % tableSize)
  {
    hide Union, Position;
    forall i | 0 <= i < |salts|
      ensures Position(s, tableSize, k, salts[i]) in Positions(s, tableSize, k, salts)
      ensures Position(s, tableSize, k, salts[i]) == (s.hash(k, salts[i]) as nat) % tableSize
    {
      PositionIs(s, tableSize, k, salts[i]);
    }
  }

  lemma UnionNext(s: Scheme, tableSize: nat, salts: seq<bv32>, keys: set<Key>, k: Key)
    requires tableSize > 0
    ensures Union(s, tableSize, salts, {}) == {}
    ensures Union(s, tableSize, salts, keys + {k})
         == Union(s, tableSize, salts, keys) + Positions(s, tableSize, k, salts)
  {
    hide Position;
  }

  // ---------------------------------------------------------------------
  // The filter
  // ---------------------------------------------------------------------

  class BloomFilter {
    const scheme: Scheme
    const tableSize: nat
    const seed: bv64
    var salts: seq<bv32>
    const bits: array<Byte>

    ghost predicate Valid()
      reads this
    {
      && ValidScheme(scheme)
      && tableSize > 0 && tableSize % 8 == 0
      && bits.Length == tableSize / 8
      && AreSalts(scheme, |salts|, seed, salts)
    }

    // The keys that pass the test.
    ghost predicate Contains(k: Key)
      reads this, bits
      requires Valid()
    {
      Passes(scheme, tableSize, salts, bits[..], k)
    }

    constructor (scheme: Scheme, tableSize: nat, saltCount: nat, randomSeed: bv64)
      requires ValidScheme(scheme) && tableSize > 0 && tableSize % 8 == 0
      requires Supplied(scheme, saltCount, StoredSeed(randomSeed))
      ensures Valid() && fresh(bits)
      ensures this.scheme == scheme && this.tableSize == tableSize && |salts| == saltCount
      ensures seed == StoredSeed(randomSeed) && seed == randomSeed * 0xA5A5A5A5 + 1
      ensures BitsOf(bits[..]) == {} && forall i :: 0 <= i < bits.Length ==> bits[i] == 0
    {
      this.scheme := scheme;
      this.tableSize := tableSize;
      seed := StoredSeed(randomSeed);
      salts := [];
      bits := new Byte[tableSize / 8](_ => 0);
      new;
      ghost var n := GenerateUniqueSalt(saltCount);
      ZeroTable(bits[..]);
    }

    // From raw serialised data.
    constructor FromRaw(scheme: Scheme, tableSize: nat, saltCount: nat, seed: bv64, table: seq<Byte>)
      requires ValidScheme(scheme) && tableSize > 0 && tableSize % 8 == 0 && |table| == tableSize / 8
      requires Supplied(scheme, saltCount, seed)
      ensures Valid() && fresh(bits)
      ensures this.scheme == scheme && this.tableSize == tableSize && this.seed == seed && |salts| == saltCount
      ensures bits[..] == table
    {
      this.scheme := scheme;
      this.tableSize := tableSize;
      this.seed := seed;
      salts := [];
      bits := new Byte[|table|](i requires 0 <= i < |table| => table[i]);
      new;
      ghost var n := GenerateUniqueSalt(saltCount);
    }

    // Up to 128 salts are predefined ones mixed in place; past that, n numbers are drawn.
    method GenerateUniqueSalt(count: nat) returns (ghost n: nat)
      requires ValidScheme(scheme) && salts == [] && Supplied(scheme, count, seed)
      modifies this`salts
      ensures AreSalts(scheme, count, seed, salts) && |salts| == count
      ensures |scheme.predefined| == 128
      ensures count <= 128 ==>
                forall i :: 0 <= i < count ==>
                  var j := (i + 3) % count;
                  salts[i] == Remix(scheme.predefined[i], if j < i then salts[j] else scheme.predefined[j], seed)
      ensures count > 128 ==> scheme.predefined <= salts
      ensures count > 128 ==>
                forall x :: x in salts[128..] <==>
                  x != 0 && x !in scheme.predefined
                  && AmongDraws(scheme, LowHalf(seed), n, x)
      ensures count > 128 ==> forall a, b :: 128 <= a < b < count ==> salts[a] != salts[b]
      ensures count > 128 ==>
                forall a, b, j :: 128 <= a < b < count && 0 <= j < n && scheme.draw(LowHalf(seed), j) == salts[b]
                  ==> AmongDraws(scheme, LowHalf(seed), j, salts[a])
    {
      hide Remix;
      n := 0;
      if count <= PREDEFINED_SALTS {
        var base := scheme.predefined[..count];
        salts := base;
        for i := 0 to |salts|
          invariant StirredBelow(base, seed, salts, i)
        {
          StirNext(base, seed, salts, i);
          salts := salts[i := Remix(salts[i], salts[(i + 3) % |salts|], seed)];
        }
        StirredInWords(base, seed, salts);
      } else {
        n := DrawSalts(count);
      }
    }

    // Draws until there are enough; that there will be is the caller's hypothesis.
    method DrawSalts(count: nat) returns (ghost n: nat)
      requires ValidScheme(scheme) && count > PREDEFINED_SALTS && Supplied(scheme, count, seed)
      modifies this`salts
      ensures AreSalts(scheme, count, seed, salts) && |salts| == count
      ensures scheme.predefined <= salts
      ensures forall x :: x in salts[128..] <==>
                x != 0 && x !in scheme.predefined
                && AmongDraws(scheme, LowHalf(seed), n, x)
      ensures forall a, b :: 128 <= a < b < count ==> salts[a] != salts[b]
      ensures forall a, b, j :: 128 <= a < b < count && 0 <= j < n && scheme.draw(LowHalf(seed), j) == salts[b]
                ==> AmongDraws(scheme, LowHalf(seed), j, salts[a])
    {
      hide Drawn, LowHalf;
      ghost var bound: nat :| |Drawn(scheme, LowHalf(seed), bound)| == count;
      salts := scheme.predefined;
      NothingDrawn(scheme, LowHalf(seed));
      var i := 0;
      while |salts| < count
        invariant salts == Drawn(scheme, LowHalf(seed), i) && i <= bound && |salts| <= count
        decreases bound - i
      {
        OneDrawn(scheme, LowHalf(seed), i);
        DrawnGrows(scheme, LowHalf(seed), i + 1, bound);
        var current := scheme.draw(LowHalf(seed), i);
        i := i + 1;
        if current == 0 {
          continue;
        }
        if current !in salts {
          salts := salts + [current];
        }
      }
      n := i;
      DrawnInWords(scheme, LowHalf(seed), n);
    }

    lemma NothingDrawn(s: Scheme, seed: bv32)
      ensures Drawn(s, seed, 0) == s.predefined
    {
    }

    lemma OneDrawn(s: Scheme, seed: bv32, i: nat)
      ensures Drawn(s, seed, i + 1) == WithDraw(Drawn(s, seed, i), s.draw(seed, i))
    {
    }

    method Insert(k: Key)
      requires Valid()
      modifies bits
      ensures Valid()
      ensures BitsOf(bits[..]) == old(BitsOf(bits[..])) + Positions(scheme, tableSize, k, salts)
      ensures tableSize == 8 * bits.Length
      ensures forall j, b :: 0 <= j < bits.Length && 0 <= b < 8 ==>
                (bits[j] & BitMask(b) != 0)
                  == (old(bits[j]) & BitMask(b) != 0
                       || exists i :: 0 <= i < |salts| && (scheme.hash(k, salts[i]) as nat) % tableSize == 8 * j + b)
    {
      hide *;
      ValidFacts();
      ghost var start, was := bits[..], BitsOf(bits[..]);
      NoPositions(scheme, tableSize, k, salts);
      for i := 0 to |salts|
        invariant BitsOf(bits[..]) == was + Positions(scheme, tableSize, k, salts[..i])
      {
        var p := Position(scheme, tableSize, k, salts[i]);
        SetBit(bits[..], p);
        PositionsNext(scheme, tableSize, k, salts, i);
        ghost var before := bits[..];
        bits[p / 8] := WithBit(bits[p / 8], p % 8);
        assert bits[..] == before[p / 8 := WithBit(before[p / 8], p % 8)];
      }
      InsertedInBits(scheme, tableSize, k, salts, start, bits[..]);
    }

    lemma ValidFacts()
      requires Valid()
      ensures ValidScheme(scheme) && tableSize > 0 && tableSize == 8 * bits.Length
    {
    }

    method Test(k: Key) returns (r: bool)
      requires Valid()
      ensures r <==> Contains(k)
      ensures tableSize == 8 * bits.Length && tableSize > 0
      ensures r <==>
                forall i :: 0 <= i < |salts| ==>
                  var p := (scheme.hash(k, salts[i]) as nat) % tableSize;
                  bits[p / 8] & BitMask(p % 8) != 0
    {
      hide *;
      ValidFacts();
      NoPositions(scheme, tableSize, k, salts);
      PassesInBits(scheme, tableSize, salts, bits[..], k);
      for i := 0 to |salts|
        invariant Positions(scheme, tableSize, k, salts[..i]) <= BitsOf(bits[..])
      {
        var p := Position(scheme, tableSize, k, salts[i]);
        BitsOfMembers(bits[..], p);
        PositionsNext(scheme, tableSize, k, salts, i);
        ContainsMeans(k);
        if !HasBit(bits[p / 8], p % 8) {
          MissedAt(scheme, tableSize, salts, bits[..], k, i);
          return false;
        }
      }
      PassesMeans(scheme, tableSize, salts, bits[..], k);
      ContainsMeans(k);
      r := true;
    }

    lemma ContainsMeans(k: Key)
      requires Valid()
      ensures Contains(k) <==> Passes(scheme, tableSize, salts, bits[..], k)
    {
    }
  }

  // ---------------------------------------------------------------------
  // The filter in a message (graphene.cc:495-531)
  // ---------------------------------------------------------------------

  datatype BloomMessage = BloomMessage(tableSize: nat, saltCount: nat, seed: bv64, bitTable: seq<Byte>)

  // The text can be parsed into a usable filter.
  predicate Usable(m: BloomMessage) {
    m.tableSize > 0 && m.tableSize % 8 == 0 && (|m.bitTable| + 1) / 2 == m.tableSize / 8
  }

  // A message made from a filter with these fields.
  ghost predicate Describes(m: BloomMessage, tableSize: nat, salts: seq<bv32>, seed: bv64, table: seq<Byte>) {
    && m.tableSize == tableSize && m.saltCount == |salts| && m.seed == seed
    && IsHexOf(m.bitTable, table)
  }

  method SerializeBloomFilter(bf: BloomFilter) returns (m: BloomMessage)
    requires bf.Valid()
    ensures Usable(m) && Describes(m, bf.tableSize, bf.salts, bf.seed, bf.bits[..])
  {
    hide AreSalts, Digit;
    var text := HexEncode(bf.bits[..]);
    m := BloomMessage(bf.tableSize, |bf.salts|, bf.seed, text);
  }

  method DeserializeBloomFilter(scheme: Scheme, m: BloomMessage) returns (bf: BloomFilter)
    requires ValidScheme(scheme) && Usable(m) && Supplied(scheme, m.saltCount, m.seed)
    ensures fresh(bf) && fresh(bf.bits) && bf.Valid()
    ensures bf.scheme == scheme && bf.tableSize == m.tableSize && bf.seed == m.seed && |bf.salts| == m.saltCount
    ensures IsParsed(bf.bits[..], m.bitTable)
  {
    hide AreSalts, Joined;
    var table := HexDecode(m.bitTable);
    bf := new BloomFilter.FromRaw(scheme, m.tableSize, m.saltCount, m.seed, table);
  }

  // The rebuilt filter has the salts and the table of the original, so it passes exactly
  // the same keys.
  lemma BloomRoundTrip(s: Scheme, m: BloomMessage, tableSize: nat, seed: bv64,
                       salts: seq<bv32>, table: seq<Byte>, salts': seq<bv32>, table': seq<Byte>)
    requires ValidScheme(s) && tableSize > 0
    requires Describes(m, tableSize, salts, seed, table) && AreSalts(s, |salts|, seed, salts)
    requires |salts'| == m.saltCount && AreSalts(s, m.saltCount, m.seed, salts') && IsParsed(table', m.bitTable)
    ensures salts' == salts && table' == table
    ensures forall k :: Passes(s, tableSize, salts', table', k) <==> Passes(s, tableSize, salts, table, k)
  {
    hide AreSalts, Passes, IsParsed, IsHexOf;
    SaltsUnique(s, |salts|, seed, salts, salts');
    PrintedParsesBack(table, m.bitTable, table');
  }
}
