/**
 * The dense bit set over block indices of dag.h: a vector of 64-bit words that
 * grows on demand. `Members` is the mathematical set a word vector stands for;
 * every operation is proved to act on that set, whatever the lengths of the two
 * vectors it combines.
 */
module BitSets {
  import opened Orders

  type Words = seq<bv64>

  // ---------------------------------------------------------------------
  // One word
  // ---------------------------------------------------------------------

  predicate TestBit(w: bv64, i: nat)
    requires i < 64
  {
    (w >> i) & 1 == 1
  }

  function OneBit(i: nat): bv64
    requires i < 64
  {
    1 << i
  }

  // The word operations the loops below are made of.
  function Or(a: bv64, b: bv64): bv64 {
    a | b
  }

  function And(a: bv64, b: bv64): bv64 {
    a & b
  }

  function Minus(a: bv64, b: bv64): bv64 {
    a & !b
  }

  ghost function WordBits(w: bv64): set<nat> {
    set i: nat | i < 64 && TestBit(w, i)
  }

  // Bit arithmetic is proved on a 7-bit position, the type a shift amount has, and
  // carried over to natural-number positions by PositionAsNat.
  predicate TestAt(w: bv64, p: bv7)
    requires p < 64
  {
    (w >> p) & 1 == 1
  }

  lemma OrAt(a: bv64, b: bv64, p: bv7)
    requires p < 64
    ensures TestAt(a | b, p) == (TestAt(a, p) || TestAt(b, p))
  {
  }

  lemma AndAt(a: bv64, b: bv64, p: bv7)
    requires p < 64
    ensures TestAt(a & b, p) == (TestAt(a, p) && TestAt(b, p))
  {
  }

  lemma MinusAt(a: bv64, b: bv64, p: bv7)
    requires p < 64
    ensures TestAt(a & !b, p) == (TestAt(a, p) && !TestAt(b, p))
  {
  }

  lemma OneBitAt(q: bv7, p: bv7)
    requires p < 64 && q < 64
    ensures TestAt(1 << q, p) == (p == q)
  {
  }

  lemma ZeroAt(p: bv7)
    requires p < 64
    ensures !TestAt(0, p)
  {
  }

  lemma PositionAsNat(w: bv64, i: nat)
    requires i < 64
    ensures (i as bv7) < 64
    ensures TestBit(w, i) == TestAt(w, i as bv7)
  {
  }

  lemma OneBitAsShift(i: nat)
    requires i < 64
    ensures (i as bv7) < 64
    ensures OneBit(i) == 1 << (i as bv7)
  {
  }

  lemma PositionRoundTrip(i: nat)
    requires i < 64
    ensures (i as bv7) < 64 && (i as bv7) as nat == i
  {
  }

  lemma OrderOfPositions(p: bv7, q: bv7)
    requires p < 64 && q < 64 && p as nat < q as nat
    ensures p < q
  {
  }

  lemma OrBits(a: bv64, b: bv64, i: nat)
    requires i < 64
    ensures TestBit(Or(a, b), i) == (TestBit(a, i) || TestBit(b, i))
  {
    hide TestBit, TestAt;
    PositionAsNat(Or(a, b), i);
    PositionAsNat(a, i);
    PositionAsNat(b, i);
    OrAt(a, b, i as bv7);
  }

  lemma AndBits(a: bv64, b: bv64, i: nat)
    requires i < 64
    ensures TestBit(And(a, b), i) == (TestBit(a, i) && TestBit(b, i))
  {
    hide TestBit, TestAt;
    PositionAsNat(And(a, b), i);
    PositionAsNat(a, i);
    PositionAsNat(b, i);
    AndAt(a, b, i as bv7);
  }

  lemma MinusBits(a: bv64, b: bv64, i: nat)
    requires i < 64
    ensures TestBit(Minus(a, b), i) == (TestBit(a, i) && !TestBit(b, i))
  {
    hide TestBit, TestAt;
    PositionAsNat(Minus(a, b), i);
    PositionAsNat(a, i);
    PositionAsNat(b, i);
    MinusAt(a, b, i as bv7);
  }

  lemma OneBitBits(n: nat, i: nat)
    requires i < 64 && n < 64
    ensures TestBit(OneBit(n), i) == (i == n)
  {
    hide *;
    PositionAsNat(OneBit(n), i);
    OneBitAsShift(n);
    PositionRoundTrip(i);
    PositionRoundTrip(n);
    OneBitAt(n as bv7, i as bv7);
  }

  lemma ZeroHasNoBits(i: nat)
    requires i < 64
    ensures !TestBit(0, i)
  {
    hide *;
    PositionAsNat(0, i);
    ZeroAt(i as bv7);
  }

  // The scan for the lowest set bit: Low(w, n) says that no bit below n is set,
  // High(w, n) that some bit at or above n is.
  predicate LowAt(w: bv64, p: bv7)
    requires p < 64
  {
    w & ((1 << p) - 1) == 0
  }

  predicate HighAt(w: bv64, p: bv7)
    requires p < 64
  {
    w >> p != 0
  }

  predicate Low(w: bv64, n: nat)
    requires n < 64
  {
    PositionRoundTrip(n);
    LowAt(w, n as bv7)
  }

  predicate High(w: bv64, n: nat)
    requires n < 64
  {
    PositionRoundTrip(n);
    HighAt(w, n as bv7)
  }

  function ClearLowest(w: bv64): bv64 {
    w & (w - 1)
  }

  lemma HighUp(w: bv64, p: bv7)
    requires p < 63 && !TestAt(w, p) && HighAt(w, p)
    ensures HighAt(w, p + 1)
  {
  }

  lemma HighTop(w: bv64)
    requires HighAt(w, 63)
    ensures TestAt(w, 63)
  {
  }

  lemma TestAsMask(w: bv64, p: bv7)
    requires p < 64
    ensures TestAt(w, p) <==> w & (1 << p) != 0
  {
  }

  lemma MaskStep(w: bv64, x: bv64)
    requires x & (x - 1) == 0 && w & x == 0 && w & (x - 1) == 0
    ensures w & ((x + x) - 1) == 0
  {
  }

  lemma DoubleShift(p: bv7)
    requires p < 63
    ensures (1 as bv64) << (p + 1) == ((1 as bv64) << p) + ((1 as bv64) << p)
    ensures ((1 as bv64) << p) & (((1 as bv64) << p) - 1) == 0
  {
  }

  lemma LowUp(w: bv64, p: bv7)
    requires p < 63 && !TestAt(w, p) && LowAt(w, p)
    ensures LowAt(w, p + 1)
  {
    TestAsMask(w, p);
    DoubleShift(p);
    hide TestAt;
    MaskStep(w, (1 as bv64) << p);
  }

  lemma ClearLowestAt(w: bv64, p: bv7)
    requires p < 64 && TestAt(w, p) && LowAt(w, p)
    ensures ClearLowest(w) == Minus(w, 1 << p)
  {
  }

  lemma LowZeros(w: bv64, p: bv7, q: bv7)
    requires p < 64 && LowAt(w, p) && q < p
    ensures !TestAt(w, q)
  {
  }

  lemma PositionSuccessor(p: bv7)
    requires p < 63
    ensures (p + 1) as nat == p as nat + 1 && ((p + 1) as nat) as bv7 == p + 1
  {
  }

  lemma NextPosition(n: nat)
    requires n < 63
    ensures (n as bv7) < 63 && (n + 1) as bv7 == (n as bv7) + 1
  {
    PositionRoundTrip(n);
    PositionRoundTrip(63);
    OrderOfPositions(n as bv7, 63);
    PositionSuccessor(n as bv7);
  }

  lemma ScanStep(w: bv64, n: nat)
    requires n < 64 && !TestBit(w, n) && High(w, n) && Low(w, n)
    ensures n < 63 && High(w, n + 1) && Low(w, n + 1)
  {
    hide TestBit, TestAt, LowAt, HighAt;
    PositionAsNat(w, n);
    PositionRoundTrip(n);
    if n == 63 {
      assert (n as bv7) == 63;
      HighTop(w);
    } else {
      NextPosition(n);
      HighUp(w, n as bv7);
      LowUp(w, n as bv7);
    }
  }

  lemma StartOfScan(w: bv64)
    requires w != 0
    ensures High(w, 0) && Low(w, 0)
  {
  }

  lemma LowestIsCleared(w: bv64, n: nat)
    requires n < 64 && TestBit(w, n) && Low(w, n)
    ensures ClearLowest(w) == Minus(w, OneBit(n))
  {
    hide TestBit, TestAt, LowAt, OneBit, ClearLowest, Minus;
    PositionAsNat(w, n);
    OneBitAsShift(n);
    ClearLowestAt(w, n as bv7);
  }

  lemma LowMeansUnset(w: bv64, n: nat, j: nat)
    requires n < 64 && Low(w, n) && j < n
    ensures !TestBit(w, j)
  {
    hide TestBit, TestAt, LowAt;
    PositionAsNat(w, j);
    PositionRoundTrip(j);
    PositionRoundTrip(n);
    OrderOfPositions(j as bv7, n as bv7);
    LowZeros(w, n as bv7, j as bv7);
  }

  lemma LowestBitFacts(w: bv64, n: nat)
    requires n < 64 && TestBit(w, n) && Low(w, n)
    ensures n in WordBits(w)
    ensures forall j :: j in WordBits(w) ==> n <= j
    ensures WordBits(ClearLowest(w)) == WordBits(w) - {n}
  {
    hide TestBit, Low, OneBit, ClearLowest, Minus;
    forall j | j in WordBits(w)
      ensures n <= j
    {
      if j < n {
        LowMeansUnset(w, n, j);
      }
    }
    LowestIsCleared(w, n);
    forall j: nat | j < 64
      ensures TestBit(ClearLowest(w), j) == (TestBit(w, j) && j != n)
    {
      MinusBits(w, OneBit(n), j);
      OneBitBits(n, j);
    }
  }

  // Count-trailing-zeros by scanning up from position 0.
  method CountTrailingZeros(w: bv64) returns (n: nat)
    requires w != 0
    ensures n in WordBits(w)
    ensures forall j :: j in WordBits(w) ==> n <= j
    ensures WordBits(ClearLowest(w)) == WordBits(w) - {n}
  {
    hide *;
    n := 0;
    StartOfScan(w);
    while !TestBit(w, n)
      invariant n < 64
      invariant High(w, n) && Low(w, n)
      decreases 64 - n
    {
      ScanStep(w, n);
      n := n + 1;
    }
    LowestBitFacts(w, n);
  }

  lemma LowestPosition(w: bv64) returns (n: nat)
    requires w != 0
    ensures n in WordBits(w)
    ensures WordBits(ClearLowest(w)) == WordBits(w) - {n}
  {
    hide *;
    n := 0;
    StartOfScan(w);
    while !TestBit(w, n)
      invariant n < 64
      invariant High(w, n) && Low(w, n)
      decreases 64 - n
    {
      ScanStep(w, n);
      n := n + 1;
    }
    LowestBitFacts(w, n);
  }

  lemma NonZeroHasBit(w: bv64)
    ensures w == 0 <==> WordBits(w) == {}
  {
    hide TestBit, ClearLowest;
    if w == 0 {
      forall i: nat | i < 64 ensures !TestBit(0, i) { ZeroHasNoBits(i); }
    } else {
      var n := LowestPosition(w);
    }
  }

  // The population count the compiler intrinsic computes, by its usual recurrence
  // on the lowest set bit.
  function PopCount(w: bv64): nat
    decreases w
  {
    ClearingShrinks(w);
    if w == 0 then 0 else 1 + PopCount(ClearLowest(w))
  }

  lemma ClearingShrinks(w: bv64)
    ensures w != 0 ==> ClearLowest(w) < w
  {
  }

  lemma {:induction false} PopCountIsCardinality(w: bv64)
    ensures PopCount(w) == |WordBits(w)|
    decreases |WordBits(w)|
  {
    hide TestBit, WordBits, ClearLowest;
    NonZeroHasBit(w);
    if w != 0 {
      var n := LowestPosition(w);
      PopCountIsCardinality(ClearLowest(w));
    }
  }

  // ---------------------------------------------------------------------
  // Word vectors
  // ---------------------------------------------------------------------

  predicate TestIn(ws: Words, i: nat) {
    i / 64 < |ws| && TestBit(ws[i / 64], i % 64)
  }

  ghost function Members(ws: Words): set<nat> {
    set i: nat | i < 64 * |ws| && TestIn(ws, i)
  }

  lemma MembersTest(ws: Words, i: nat)
    ensures i in Members(ws) <==> TestIn(ws, i)
  {
    hide TestBit, Or, And, Minus, ClearLowest;
  }

  function Zeros(n: nat): (z: Words)
    ensures |z| == n && forall i :: 0 <= i < n ==> z[i] == 0
  {
    seq(n, _ => 0)
  }

  lemma GrowKeepsMembers(ws: Words, n: nat)
    ensures Members(ws + Zeros(n)) == Members(ws)
  {
    hide TestBit, Or, And, Minus, ClearLowest;
    forall i: nat
      ensures i in Members(ws + Zeros(n)) <==> i in Members(ws)
    {
      ZeroHasNoBits(i % 64);
    }
  }

  lemma SetMembers(ws: Words, i: nat)
    requires i / 64 < |ws|
    ensures Members(ws[i / 64 := Or(ws[i / 64], OneBit(i % 64))]) == Members(ws) + {i}
  {
    hide TestBit, OneBit, Or, Minus;
    var rs := ws[i / 64 := Or(ws[i / 64], OneBit(i % 64))];
    forall j: nat
      ensures j in Members(rs) <==> j == i || j in Members(ws)
    {
      OrBits(ws[i / 64], OneBit(i % 64), j % 64);
      OneBitBits(i % 64, j % 64);
    }
  }

  lemma ResetMembers(ws: Words, i: nat)
    requires i / 64 < |ws|
    ensures Members(ws[i / 64 := Minus(ws[i / 64], OneBit(i % 64))]) == Members(ws) - {i}
  {
    hide TestBit, OneBit, Or, Minus;
    var rs := ws[i / 64 := Minus(ws[i / 64], OneBit(i % 64))];
    forall j: nat
      ensures j in Members(rs) <==> j != i && j in Members(ws)
    {
      MinusBits(ws[i / 64], OneBit(i % 64), j % 64);
      OneBitBits(i % 64, j % 64);
    }
  }

  lemma UnionMembers(ws: Words, os: Words, rs: Words)
    requires |os| <= |ws| == |rs|
    requires forall wi :: 0 <= wi < |os| ==> rs[wi] == Or(ws[wi], os[wi])
    requires forall wi :: |os| <= wi < |ws| ==> rs[wi] == ws[wi]
    ensures Members(rs) == Members(ws) + Members(os)
  {
    hide TestBit, Or, And, Minus, ClearLowest;
    forall j: nat
      ensures j in Members(rs) <==> j in Members(ws) || j in Members(os)
    {
      if j / 64 < |os| {
        OrBits(ws[j / 64], os[j / 64], j % 64);
      }
    }
  }

  lemma IntersectionMembers(ws: Words, os: Words, rs: Words)
    requires |rs| == if |ws| < |os| then |ws| else |os|
    requires forall wi :: 0 <= wi < |rs| ==> rs[wi] == And(ws[wi], os[wi])
    ensures Members(rs) == Members(ws) * Members(os)
  {
    hide TestBit, Or, And, Minus, ClearLowest;
    forall j: nat
      ensures j in Members(rs) <==> j in Members(ws) && j in Members(os)
    {
      if j / 64 < |rs| {
        AndBits(ws[j / 64], os[j / 64], j % 64);
      }
    }
  }

  // Word wi of `this & ~o`: a missing word of o counts as all zeros.
  function AndNotWord(ws: Words, os: Words, wi: nat): bv64
    requires wi < |ws|
  {
    if wi < |os| then Minus(ws[wi], os[wi]) else Minus(ws[wi], 0)
  }

  lemma AndNotWordBits(ws: Words, os: Words, wi: nat, b: nat)
    requires wi < |ws| && b < 64
    ensures TestBit(AndNotWord(ws, os, wi), b)
       <==> TestBit(ws[wi], b) && 64 * wi + b !in Members(os)
  {
    hide TestBit, Or, And, Minus, ClearLowest;
    assert (64 * wi + b) / 64 == wi && (64 * wi + b) % 64 == b;
    MembersTest(os, 64 * wi + b);
    if wi < |os| {
      MinusBits(ws[wi], os[wi], b);
    } else {
      MinusBits(ws[wi], 0, b);
      ZeroHasNoBits(b);
    }
  }

  lemma AndNotMembers(ws: Words, os: Words, rs: Words)
    requires |rs| == |ws|
    requires forall wi :: 0 <= wi < |ws| ==> rs[wi] == AndNotWord(ws, os, wi)
    ensures Members(rs) == Members(ws) - Members(os)
  {
    hide TestBit, AndNotWord;
    forall i: nat
      ensures i in Members(rs) <==> i in Members(ws) && i !in Members(os)
    {
      if i / 64 < |ws| {
        AndNotWordBits(ws, os, i / 64, i % 64);
      }
    }
  }

  predicate Before(a: set<nat>, b: set<nat>) {
    forall i, j :: i in a && j in b ==> i < j
  }

  // The members contributed by a word w standing at position wi.
  ghost function Slice(w: bv64, wi: nat): set<nat> {
    set b | b in WordBits(w) :: 64 * wi + b
  }

  lemma InSlice(w: bv64, wi: nat, i: nat)
    ensures i in Slice(w, wi) <==> i / 64 == wi && TestBit(w, i % 64)
  {
    hide TestBit, Or, And, Minus, ClearLowest;
    if i / 64 == wi && TestBit(w, i % 64) {
      assert i == 64 * wi + i % 64 && i % 64 in WordBits(w);
    }
  }

  lemma {:induction false} SliceCard(bits: set<nat>, wi: nat)
    ensures |set b | b in bits :: 64 * wi + b| == |bits|
    decreases bits
  {
    var all := set b | b in bits :: 64 * wi + b;
    if bits != {} {
      var x :| x in bits;
      var rest := set b | b in bits - {x} :: 64 * wi + b;
      SliceCard(bits - {x}, wi);
      forall y | y in all
        ensures y in rest || y == 64 * wi + x
      {
        var b :| b in bits && y == 64 * wi + b;
        assert b != x ==> b in bits - {x};
      }
      assert all == rest + {64 * wi + x};
    }
  }

  lemma MembersSnoc(ws: Words, n: nat)
    requires n < |ws|
    ensures Members(ws[..n + 1]) == Members(ws[..n]) + Slice(ws[n], n)
    ensures Members(ws[..n]) !! Slice(ws[n], n)
    ensures Before(Members(ws[..n]), Slice(ws[n], n))
    ensures |Slice(ws[n], n)| == PopCount(ws[n])
  {
    hide TestBit, Slice, PopCount;
    forall i: nat
      ensures i in Members(ws[..n + 1]) <==> i in Members(ws[..n]) || i in Slice(ws[n], n)
      ensures i in Members(ws[..n]) ==> i / 64 < n
      ensures i in Slice(ws[n], n) ==> i / 64 == n
    {
      InSlice(ws[n], n, i);
    }
    PopCountIsCardinality(ws[n]);
    SliceIs(ws[n], n);
    SliceCard(WordBits(ws[n]), n);
  }

  lemma SliceIs(w: bv64, wi: nat)
    ensures Slice(w, wi) == set b | b in WordBits(w) :: 64 * wi + b
  {
    hide TestBit, Or, And, Minus, ClearLowest;
  }

  lemma SliceMinusLowest(w: bv64, wi: nat, bit: nat)
    requires bit in WordBits(w)
    requires forall j :: j in WordBits(w) ==> bit <= j
    requires WordBits(ClearLowest(w)) == WordBits(w) - {bit}
    ensures Slice(w, wi) == Slice(ClearLowest(w), wi) + {64 * wi + bit}
    ensures forall x :: x in Slice(ClearLowest(w), wi) ==> 64 * wi + bit < x
  {
    hide TestBit, WordBits, ClearLowest;
    forall x | x in Slice(ClearLowest(w), wi)
      ensures 64 * wi + bit < x && x in Slice(w, wi)
    {
      var b :| b in WordBits(ClearLowest(w)) && x == 64 * wi + b;
      assert b in WordBits(w) && b != bit;
    }
    forall x | x in Slice(w, wi)
      ensures x in Slice(ClearLowest(w), wi) || x == 64 * wi + bit
    {
      var b :| b in WordBits(w) && x == 64 * wi + b;
      if b != bit {
        assert b in WordBits(ClearLowest(w));
      }
    }
  }

  lemma EmptySlice(w: bv64, wi: nat)
    ensures w == 0 <==> Slice(w, wi) == {}
  {
    hide TestBit, Or, And, Minus, ClearLowest;
    NonZeroHasBit(w);
    if w != 0 {
      var b :| b in WordBits(w);
      assert 64 * wi + b in Slice(w, wi);
    }
  }

  lemma NothingVisited(ws: Words)
    ensures Sorted([]) && Elems<nat>([]) == {} == Members(ws[..0])
  {
  }

  // One turn of the inner loop of for_each.
  lemma VisitLowest(visited: seq<nat>, w: bv64, wi: nat, bit: nat)
    requires Sorted(visited) && Before(Elems(visited), Slice(w, wi))
    requires bit in WordBits(w)
    requires forall j :: j in WordBits(w) ==> bit <= j
    requires WordBits(ClearLowest(w)) == WordBits(w) - {bit}
    ensures var more: seq<nat> := visited + [64 * wi + bit];
      && Sorted(more)
      && Before(Elems(more), Slice(ClearLowest(w), wi))
      && Elems(more) + Slice(ClearLowest(w), wi) == Elems(visited) + Slice(w, wi)
  {
    hide TestBit, WordBits, ClearLowest, Slice;
    SliceMinusLowest(w, wi, bit);
    ElemsSnoc(visited, 64 * wi + bit);
    forall i | 0 <= i < |visited|
      ensures visited[i] < 64 * wi + bit
    {
      assert visited[i] in Elems(visited);
    }
  }

  class BitSet {
    var words: Words

    constructor ()
      ensures words == [] && Members(words) == {}
    {
      words := [];
    }

    constructor Copy(ws: Words)
      ensures words == ws
    {
      words := ws;
    }

    predicate Test(i: nat)
      reads this
      ensures Test(i) <==> i in Members(words)
    {
      hide TestBit, Or, And, Minus, ClearLowest;
      MembersTest(words, i);
      var w := i / 64;
      w < |words| && TestBit(words[w], i % 64)
    }

    method Set(i: nat)
      modifies this
      ensures Members(words) == old(Members(words)) + {i}
    {
      hide *;
      var w := i / 64;
      if w >= |words| {
        GrowKeepsMembers(words, w + 1 - |words|);
        words := words + Zeros(w + 1 - |words|);
      }
      SetMembers(words, i);
      words := words[w := Or(words[w], OneBit(i % 64))];
    }

    method Reset(i: nat)
      modifies this
      ensures Members(words) == old(Members(words)) - {i}
    {
      hide *;
      var w := i / 64;
      if w < |words| {
        ResetMembers(words, i);
        words := words[w := Minus(words[w], OneBit(i % 64))];
      } else {
        ResetBeyond(words, i);
      }
    }

    // operator|=
    method UnionWith(o: Words)
      modifies this
      ensures Members(words) == old(Members(words)) + Members(o)
    {
      hide *;
      if |o| > |words| {
        GrowKeepsMembers(words, |o| - |words|);
        words := words + Zeros(|o| - |words|);
      }
      ghost var grown := words;
      for i := 0 to |o|
        invariant |words| == |grown|
        invariant forall wi :: 0 <= wi < i ==> words[wi] == Or(grown[wi], o[wi])
        invariant forall wi :: i <= wi < |words| ==> words[wi] == grown[wi]
      {
        words := words[i := Or(words[i], o[i])];
      }
      UnionMembers(grown, o, words);
    }

    method Count() returns (c: nat)
      ensures c == |Members(words)|
    {
      hide *;
      c := 0;
      EmptyVector();
      assert words[..0] == [];
      for i := 0 to |words|
        invariant c == |Members(words[..i])|
      {
        MembersSnoc(words, i);
        c := c + PopCount(words[i]);
      }
      assert words[..|words|] == words;
    }

    method CountAnd(o: Words) returns (c: nat)
      ensures c == |Members(words) * Members(o)|
    {
      hide *;
      var n := if |words| < |o| then |words| else |o|;
      c := 0;
      ghost var both: Words := [];
      EmptyVector();
      for i := 0 to n
        invariant |both| == i
        invariant forall wi :: 0 <= wi < i ==> both[wi] == And(words[wi], o[wi])
        invariant c == |Members(both)|
      {
        ghost var more := both + [And(words[i], o[i])];
        MembersSnoc(more, i);
        assert more[..i] == both && more[..i + 1] == more;
        c := c + PopCount(And(words[i], o[i]));
        both := more;
      }
      IntersectionMembers(words, o, both);
    }

    // this & ~o, as a new bit set
    method AndNot(o: Words) returns (r: BitSet)
      ensures fresh(r)
      ensures Members(r.words) == Members(words) - Members(o)
    {
      hide Members, TestBit, AndNotWord;
      r := new BitSet();
      r.words := Zeros(|words|);
      for i := 0 to |words|
        invariant fresh(r) && |r.words| == |words|
        invariant forall wi :: 0 <= wi < i ==> r.words[wi] == AndNotWord(words, o, wi)
      {
        r.words := r.words[i := AndNotWord(words, o, i)];
      }
      AndNotMembers(words, o, r.words);
    }

    // The indices for_each hands to its callback, in call order.
    method ForEach() returns (visited: seq<nat>)
      ensures Sorted(visited)
      ensures Elems(visited) == Members(words)
    {
      hide Members, TestBit, WordBits, Slice, ClearLowest, Before, Sorted, Elems;
      visited := [];
      NothingVisited(words);
      for wi := 0 to |words|
        invariant Sorted(visited)
        invariant Elems(visited) == Members(words[..wi])
      {
        MembersSnoc(words, wi);
        var w := words[wi];
        while w != 0
          invariant Sorted(visited)
          invariant Elems(visited) + Slice(w, wi) == Members(words[..wi + 1])
          invariant Before(Elems(visited), Slice(w, wi))
          decreases |WordBits(w)|
        {
          var bit := CountTrailingZeros(w);
          VisitLowest(visited, w, wi, bit);
          visited := visited + [64 * wi + bit];
          w := ClearLowest(w);
        }
        EmptySlice(w, wi);
      }
      assert words[..|words|] == words;
    }

    method IsEmpty() returns (b: bool)
      ensures b <==> Members(words) == {}
    {
      hide Members, TestBit, WordBits, Slice, ClearLowest;
      EmptyVector();
      assert words[..0] == [];
      for i := 0 to |words|
        invariant Members(words[..i]) == {}
      {
        MembersSnoc(words, i);
        EmptySlice(words[i], i);
        if words[i] != 0 {
          PrefixMembers(words, i + 1);
          return false;
        }
      }
      assert words[..|words|] == words;
      b := true;
    }
  }

  lemma EmptyVector()
    ensures Members([]) == {}
  {
    hide TestBit, Or, And, Minus, ClearLowest;
  }

  lemma PrefixMembers(ws: Words, n: nat)
    requires n <= |ws|
    ensures Members(ws[..n]) <= Members(ws)
  {
    hide TestBit, Or, And, Minus, ClearLowest;
  }

  lemma ResetBeyond(ws: Words, i: nat)
    requires i / 64 >= |ws|
    ensures Members(ws) == Members(ws) - {i}
  {
    hide TestBit, Or, And, Minus, ClearLowest;
  }
}
