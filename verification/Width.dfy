/**
 * How wide blue sets can be. The greedy pass bounds the anticone of the candidate it
 * admits, not that of the blues already there, so a blue set need not be a k-cluster;
 * it is k-degenerate for incomparability, which bounds its antichains.
 */
module Width {
  import opened Orders
  import opened Dags
  import opened BlueSets

  // ---------------------------------------------------------------------
  // Every blue set has a narrow listing
  // ---------------------------------------------------------------------

  ghost function AnticoneIn(g: Dag, s: set<Id>, c: Id): set<Id> {
    set x | x in s && Incomparable(g, x, c)
  }

  // Each member is incomparable to at most k earlier ones.
  ghost predicate Narrow(g: Dag, k: nat, listing: seq<Id>) {
    forall i :: 0 <= i < |listing| ==> |AnticoneIn(g, Elems(listing[..i]), listing[i])| <= k
  }

  lemma NarrowSnoc(g: Dag, k: nat, listing: seq<Id>, c: Id)
    requires Narrow(g, k, listing) && |AnticoneIn(g, Elems(listing), c)| <= k
    ensures Narrow(g, k, listing + [c])
  {
    var more := listing + [c];
    forall i | 0 <= i < |more|
      ensures |AnticoneIn(g, Elems(more[..i]), more[i])| <= k
    {
      assert more[..i] == if i < |listing| then listing[..i] else listing;
    }
  }

  lemma ExtendListing(listing: seq<Id>, c: Id)
    requires NoDup(listing) && c !in Elems(listing)
    ensures NoDup(listing + [c]) && Elems(listing + [c]) == Elems(listing) + {c}
  {
    ElemsConcat(listing, [c]);
    assert Elems([c]) == {c};
    NoDupConcat(listing, [c]);
  }

  lemma {:induction false} ListGreedy(g: Dag, k: nat, blue: set<Id>, order: seq<Id>, listing: seq<Id>)
    returns (all: seq<Id>)
    requires Ahead(g, blue, order)
    requires NoDup(listing) && Elems(listing) == blue && Narrow(g, k, listing)
    ensures NoDup(all) && Elems(all) == Greedy(g, k, blue, order) && Narrow(g, k, all)
    decreases |order|
  {
    hide Narrow;
    if order == [] {
      all := listing;
    } else {
      var c := order[0];
      AheadTail(g, k, blue, order);
      AnticoneIsUncappedCount(g, blue, order);
      assert BlueAnticone(g, blue, c) == AnticoneIn(g, blue, c);
      if |BlueAnticone(g, blue, c)| <= k {
        ExtendListing(listing, c);
        NarrowSnoc(g, k, listing, c);
        all := ListGreedy(g, k, blue + {c}, order[1..], listing + [c]);
      } else {
        all := ListGreedy(g, k, blue, order[1..], listing);
      }
    }
  }

  lemma {:induction false} BlueListing(g: Dag, k: nat, b: Id) returns (listing: seq<Id>)
    requires Valid(g, k) && b in g
    ensures NoDup(listing) && Elems(listing) == g[b].blue && Narrow(g, k, listing)
    ensures forall i, j :: 0 <= i < j < |listing| ==> listing[i] != listing[j]
    ensures forall x :: x in listing <==> x in g[b].blue
    ensures forall i :: 0 <= i < |listing| ==>
              |set x | x in listing[..i] && x != listing[i] && x !in Past(g, listing[i]) && listing[i] !in Past(g, x)| <= k
    decreases |g[b].past|
  {
    hide Narrow, Greedy, Kahn, IsBest, LinkRule;
    assert ColourRule(g, k, b);
    BlueWithinPast(g, k, b);
    var before: seq<Id>;
    if g[b].selected.Some? {
      var sp := g[b].selected.value;
      ParentPast(g, b, sp);
      var inherited := BlueListing(g, k, sp);
      CandidatesAhead(g, k, b);
      before := ListGreedy(g, k, Blue(g, sp), Kahn(g, MergeSet(g, g[b].past, sp)), inherited);
      MergeSetSorted(g, b, sp);
      GreedyBounds(g, k, Blue(g, sp), Kahn(g, MergeSet(g, g[b].past, sp)));
    } else {
      before := [];
      NarrowEmpty(g, k);
    }
    PastInDag(g, b);
    ExtendListing(before, b);
    assert AnticoneIn(g, Elems(before), b) == {};
    NarrowSnoc(g, k, before, b);
    listing := before + [b];
    NarrowInWords(g, k, listing, g[b].blue);
  }

  lemma NarrowInWords(g: Dag, k: nat, listing: seq<Id>, s: set<Id>)
    requires NoDup(listing) && Elems(listing) == s && Narrow(g, k, listing)
    ensures forall i, j :: 0 <= i < j < |listing| ==> listing[i] != listing[j]
    ensures forall x :: x in listing <==> x in s
    ensures forall i :: 0 <= i < |listing| ==>
              |set x | x in listing[..i] && x != listing[i] && x !in Past(g, listing[i]) && listing[i] !in Past(g, x)| <= k
  {
    forall i | 0 <= i < |listing|
      ensures (set x | x in listing[..i] && x != listing[i] && x !in Past(g, listing[i]) && listing[i] !in Past(g, x))
           == AnticoneIn(g, Elems(listing[..i]), listing[i])
    {
    }
  }

  lemma NarrowEmpty(g: Dag, k: nat)
    ensures NoDup<Id>([]) && Elems<Id>([]) == {} && Narrow(g, k, [])
  {
  }

  lemma NarrowInit(g: Dag, k: nat, listing: seq<Id>)
    requires listing != [] && NoDup(listing) && Narrow(g, k, listing)
    ensures var n := |listing| - 1;
      && NoDup(listing[..n]) && Narrow(g, k, listing[..n])
      && |AnticoneIn(g, Elems(listing[..n]), listing[n])| <= k
      && Elems(listing) == Elems(listing[..n]) + {listing[n]} && listing[n] !in Elems(listing[..n])
  {
    hide AnticoneIn;
    var n := |listing| - 1;
    var init := listing[..n];
    assert listing == init + [listing[n]];
    ElemsConcat(init, [listing[n]]);
    assert Elems([listing[n]]) == {listing[n]};
    forall i | 0 <= i < |init|
      ensures |AnticoneIn(g, Elems(init[..i]), init[i])| <= k
    {
      assert init[..i] == listing[..i];
    }
  }

  ghost predicate Antichain(g: Dag, s: set<Id>) {
    forall x, y :: x in s && y in s && x != y ==> Incomparable(g, x, y)
  }

  lemma {:induction false} NarrowBoundsAntichains(g: Dag, k: nat, listing: seq<Id>, s: set<Id>)
    requires NoDup(listing) && Narrow(g, k, listing)
    requires s <= Elems(listing) && Antichain(g, s)
    ensures |s| <= k + 1
    decreases |listing|
  {
    hide Narrow, NoDup, Antichain, AnticoneIn;
    if listing == [] {
      assert s == {};
    } else {
      var n := |listing| - 1;
      NarrowInit(g, k, listing);
      if listing[n] in s {
        LastOfAntichain(g, s, Elems(listing[..n]), listing[n]);
      } else {
        NarrowBoundsAntichains(g, k, listing[..n], s);
      }
    }
  }

  lemma LastOfAntichain(g: Dag, s: set<Id>, before: set<Id>, c: Id)
    requires Antichain(g, s) && c in s && s <= before + {c}
    ensures |s| <= |AnticoneIn(g, before, c)| + 1
  {
    var others := s - {c};
    SubsetCard(others, AnticoneIn(g, before, c));
    assert s == others + {c};
  }

  // Pairwise incomparable blue blocks number at most k + 1.
  lemma BlueAntichainBound(g: Dag, k: nat, b: Id, s: set<Id>)
    requires Valid(g, k) && b in g
    requires s <= g[b].blue && forall x, y :: x in s && y in s && x != y ==> x !in Past(g, y)
    ensures |s| <= k + 1
  {
    var listing := BlueListing(g, k, b);
    NarrowBoundsAntichains(g, k, listing, s);
  }

  // ---------------------------------------------------------------------
  // Counting incomparable pairs
  // ---------------------------------------------------------------------

  ghost function PairUp(x: Id, y: Id): (Id, Id) {
    if x < y then (x, y) else (y, x)
  }

  ghost function IncomparablePairs(g: Dag, s: set<Id>): set<(Id, Id)> {
    set x, y | x in s && y in s && x < y && Incomparable(g, x, y) :: (x, y)
  }

  lemma {:induction false} PairsWithCard(e: set<Id>, c: Id)
    ensures |set x | x in e :: PairUp(x, c)| <= |e|
    decreases e
  {
    var all := set x | x in e :: PairUp(x, c);
    if e == {} {
      assert all == {};
    } else {
      var x :| x in e;
      PairsWithCard(e - {x}, c);
      var rest := set y | y in e - {x} :: PairUp(y, c);
      assert all == rest + {PairUp(x, c)};
    }
  }

  lemma {:induction false} NarrowBoundsPairs(g: Dag, k: nat, listing: seq<Id>)
    requires NoDup(listing) && Narrow(g, k, listing)
    ensures |IncomparablePairs(g, Elems(listing))| <= k * |listing|
    decreases |listing|
  {
    hide Narrow, NoDup, AnticoneIn, Incomparable;
    if listing == [] {
      assert IncomparablePairs(g, Elems(listing)) == {};
    } else {
      var n := |listing| - 1;
      var c := listing[n];
      NarrowInit(g, k, listing);
      var before := Elems(listing[..n]);
      var e := AnticoneIn(g, before, c);
      NarrowBoundsPairs(g, k, listing[..n]);
      PairsWithCard(e, c);
      hide IncomparablePairs;
      PairsSplit(g, before, c);
      assert k * (n + 1) == k * n + k;
    }
  }

  lemma PairsSplit(g: Dag, s: set<Id>, c: Id)
    ensures |IncomparablePairs(g, s + {c})| <=
            |IncomparablePairs(g, s)| + |set x | x in AnticoneIn(g, s, c) :: PairUp(x, c)|
  {
    var old' := IncomparablePairs(g, s);
    var more := set x | x in AnticoneIn(g, s, c) :: PairUp(x, c);
    var all := IncomparablePairs(g, s + {c});
    forall p | p in all
      ensures p in old' + more
    {
      if p.0 == c {
        assert PairUp(p.1, c) == p;
        assert p.1 in AnticoneIn(g, s, c);
      } else if p.1 == c {
        assert PairUp(p.0, c) == p;
        assert p.0 in AnticoneIn(g, s, c);
      }
    }
    SubsetCard(all, old' + more);
  }

  lemma PairsIn(g: Dag, s: set<Id>)
    ensures IncomparablePairs(g, s) == set x, y | x in s && y in s && x < y && x !in Past(g, y) && y !in Past(g, x) :: (x, y)
  {
  }

  // At most k * |blue| incomparable pairs.
  lemma BluePairBound(g: Dag, k: nat, b: Id)
    requires Valid(g, k) && b in g
    ensures |set x, y | x in g[b].blue && y in g[b].blue && x < y && x !in Past(g, y) && y !in Past(g, x) :: (x, y)|
         <= k * |g[b].blue|
  {
    PairsIn(g, g[b].blue);
    var listing := BlueListing(g, k, b);
    NarrowBoundsPairs(g, k, listing);
    NoDupCard(listing);
  }

  // ---------------------------------------------------------------------
  // k = 0
  // ---------------------------------------------------------------------

  ghost function SelectedChain(g: Dag, b: Id): set<Id>
    decreases |Past(g, b)|
  {
    if b in g && g[b].selected.Some? && |Past(g, g[b].selected.value)| < |Past(g, b)|
    then {b} + SelectedChain(g, g[b].selected.value)
    else {b}
  }

  // The chain of selected parents stays inside the blue set, for every k.
  lemma {:induction false} SelectedChainIsBlue(g: Dag, k: nat, b: Id)
    requires Valid(g, k) && b in g
    ensures SelectedChain(g, b) <= g[b].blue
    ensures SelectedChain(g, b) == {b} + if g[b].selected.Some? then SelectedChain(g, g[b].selected.value) else {}
    decreases |g[b].past|
  {
    hide ColourRule, LinkRule;
    BlueWithinPast(g, k, b);
    if g[b].selected.Some? {
      InheritsBlue(g, k, b);
      ParentPast(g, b, g[b].selected.value);
      SelectedChainIsBlue(g, k, g[b].selected.value);
    }
  }

  lemma {:induction false} NothingAdmitted(g: Dag, blue: set<Id>, order: seq<Id>, sp: Id)
    requires sp in blue
    requires forall c :: c in order ==> Incomparable(g, c, sp)
    ensures Greedy(g, 0, blue, order) == blue
    decreases |order|
  {
    if order != [] {
      assert order[0] in order;
      assert sp in BlueAnticone(g, blue, order[0]);
      NothingAdmitted(g, blue, order[1..], sp);
    }
  }

  // With k = 0 a blue set is exactly the selected-parent chain.
  lemma {:induction false} ZeroKIsSelectedChain(g: Dag, b: Id)
    requires Valid(g, 0) && b in g
    ensures g[b].blue == SelectedChain(g, b)
    decreases |g[b].past|
  {
    hide Kahn, LinkRule, IsBest, Greedy;
    assert ColourRule(g, 0, b);
    BlueWithinPast(g, 0, b);
    if g[b].selected.Some? {
      var sp := g[b].selected.value;
      ParentPast(g, b, sp);
      BlueWithinPast(g, 0, sp);
      ZeroKIsSelectedChain(g, sp);
      var m := MergeSet(g, g[b].past, sp);
      MergeSetSorted(g, b, sp);
      forall c | c in Kahn(g, m)
        ensures Incomparable(g, c, sp)
      {
        assert c in Elems(Kahn(g, m));
        MergeSetIncomparable(g, 0, b, c);
      }
      NothingAdmitted(g, Blue(g, sp), Kahn(g, m), sp);
    }
  }

  // ---------------------------------------------------------------------
  // Pasts that are clusters
  // ---------------------------------------------------------------------

  lemma {:induction false} GreedyAdmitsAll(g: Dag, k: nat, blue: set<Id>, order: seq<Id>, s: set<Id>)
    requires KCluster(g, k, s) && blue <= s && (forall c :: c in order ==> c in s) && Ahead(g, blue, order)
    ensures Greedy(g, k, blue, order) == blue + Elems(order)
    decreases |order|
  {
    hide *;
    HeadElems(order);
    GreedyNone(g, k, blue);
    if order != [] {
      var c := order[0];
      AnticoneIsUncappedCount(g, blue, order);
      CandidateAdmitted(g, k, blue, s, c);
      GreedyHead(g, k, blue, order);
      AheadTail(g, k, blue, order);
      GreedyAdmitsAll(g, k, blue + {c}, order[1..], s);
    }
  }

  lemma GreedyNone(g: Dag, k: nat, blue: set<Id>)
    ensures Greedy(g, k, blue, []) == blue
  {
  }

  lemma GreedyHead(g: Dag, k: nat, blue: set<Id>, order: seq<Id>)
    requires order != [] && |BlueAnticone(g, blue, order[0])| <= k
    ensures Greedy(g, k, blue, order) == Greedy(g, k, blue + {order[0]}, order[1..])
    ensures GreedyStep(g, k, blue, order[0]) == blue + {order[0]}
  {
    hide BlueAnticone;
  }

  lemma HeadElems(order: seq<Id>)
    ensures order == [] ==> Elems(order) == {}
    ensures order != [] ==> Elems(order) == {order[0]} + Elems(order[1..])
    ensures order != [] ==> order[0] in order && forall x :: x in order[1..] ==> x in order
  {
    if order != [] {
      assert order == [order[0]] + order[1..];
      ElemsConcat([order[0]], order[1..]);
      assert Elems([order[0]]) == {order[0]};
    }
  }

  lemma CandidateAdmitted(g: Dag, k: nat, blue: set<Id>, s: set<Id>, c: Id)
    requires KCluster(g, k, s) && blue <= s && c in s
    requires forall b :: b in BlueAnticone(g, blue, c) ==> Incomparable(g, b, c)
    ensures |BlueAnticone(g, blue, c)| <= k
  {
    SubsetCard(BlueAnticone(g, blue, c), AnticoneIn(g, s, c));
  }

  lemma ClusterMeans(g: Dag, k: nat, s: set<Id>)
    ensures KCluster(g, k, s)
       <==> forall c :: c in s ==> |set x | x in s && x != c && x !in Past(g, c) && c !in Past(g, x)| <= k
  {
    forall c | c in s
      ensures AnticoneIn(g, s, c) == set x | x in s && x != c && x !in Past(g, c) && c !in Past(g, x)
    {
    }
  }

  lemma {:induction false} ClusterAllBlue(g: Dag, k: nat, b: Id)
    requires Valid(g, k) && b in g && KCluster(g, k, g[b].past)
    ensures g[b].blue == g[b].past + {b}
    decreases |g[b].past|
  {
    hide KCluster, Greedy, Kahn, IsBest, LinkRule, Ahead;
    assert ColourRule(g, k, b);
    BlueWithinPast(g, k, b);
    if g[b].selected.Some? {
      var sp := g[b].selected.value;
      ParentPast(g, b, sp);
      SmallerCluster(g, k, g[sp].past, g[b].past);
      ClusterAllBlue(g, k, sp);
      CandidatesAhead(g, k, b);
      MergeSetSorted(g, b, sp);
      InOrderElems(Kahn(g, MergeSet(g, g[b].past, sp)));
      GreedyAdmitsAll(g, k, Blue(g, sp), Kahn(g, MergeSet(g, g[b].past, sp)), g[b].past);
    } else {
      NoParentsNoPast(g, b);
    }
  }

  // If no ancestor of b is incomparable to more than k other ancestors, all of them are
  // blue. A linear history is like that for every k.
  lemma ClusterPastIsAllBlue(g: Dag, k: nat, b: Id)
    requires Valid(g, k) && b in g
    requires forall c :: c in g[b].past ==> |set x | x in g[b].past && x != c && x !in Past(g, c) && c !in Past(g, x)| <= k
    ensures g[b].blue == g[b].past + {b}
  {
    hide KCluster, Valid;
    ClusterMeans(g, k, g[b].past);
    ClusterAllBlue(g, k, b);
  }

  lemma InOrderElems(order: seq<Id>)
    ensures forall c :: c in order <==> c in Elems(order)
  {
  }

  lemma NoParentsNoPast(g: Dag, b: Id)
    requires b in g && LinkRule(g, b) && Parents(g, b) == []
    ensures g[b].past == {}
  {
  }

  // ---------------------------------------------------------------------
  // When is a blue set a k-cluster?
  // ---------------------------------------------------------------------

  ghost predicate KCluster(g: Dag, k: nat, s: set<Id>) {
    forall x :: x in s ==> |AnticoneIn(g, s, x)| <= k
  }

  // The check the loop does not make: a candidate is admitted only while every blue
  // it is incomparable to still has fewer than k blues in its anticone.
  ghost predicate NoneSaturated(g: Dag, k: nat, blue: set<Id>, c: Id) {
    forall x :: x in BlueAnticone(g, blue, c) ==> |AnticoneIn(g, blue, x)| < k
  }

  ghost predicate GuardedPass(g: Dag, k: nat, blue: set<Id>, order: seq<Id>)
    decreases |order|
  {
    order == [] ||
    (&& (|BlueAnticone(g, blue, order[0])| <= k ==> NoneSaturated(g, k, blue, order[0]))
     && GuardedPass(g, k, GreedyStep(g, k, blue, order[0]), order[1..]))
  }

  lemma SmallerCluster(g: Dag, k: nat, s: set<Id>, t: set<Id>)
    requires s <= t && KCluster(g, k, t)
    ensures KCluster(g, k, s)
  {
    forall x | x in s ensures |AnticoneIn(g, s, x)| <= k {
      SubsetCard(AnticoneIn(g, s, x), AnticoneIn(g, t, x));
    }
  }

  lemma AdmissionKeepsCluster(g: Dag, k: nat, blue: set<Id>, c: Id)
    requires c !in blue && KCluster(g, k, blue)
    requires BlueAnticone(g, blue, c) == AnticoneIn(g, blue, c)
    requires |BlueAnticone(g, blue, c)| <= k
    ensures KCluster(g, k, blue + {c}) <==> NoneSaturated(g, k, blue, c)
  {
    AnticoneGrows(g, blue, c);
    hide AnticoneIn, BlueAnticone;
    if KCluster(g, k, blue + {c}) {
      forall x | x in BlueAnticone(g, blue, c)
        ensures |AnticoneIn(g, blue, x)| < k
      {
        assert x in blue;
      }
    }
  }

  // How anticones inside the blue set change when c joins it.
  lemma AnticoneGrows(g: Dag, blue: set<Id>, c: Id)
    requires c !in blue
    requires BlueAnticone(g, blue, c) == AnticoneIn(g, blue, c)
    ensures AnticoneIn(g, blue + {c}, c) == AnticoneIn(g, blue, c)
    ensures BlueAnticone(g, blue, c) <= blue
    ensures forall x :: x in blue && x in BlueAnticone(g, blue, c) ==>
              |AnticoneIn(g, blue + {c}, x)| == |AnticoneIn(g, blue, x)| + 1
    ensures forall x :: x in blue && x !in BlueAnticone(g, blue, c) ==>
              AnticoneIn(g, blue + {c}, x) == AnticoneIn(g, blue, x)
  {
    hide AnticoneIn, BlueAnticone;
    AnticoneWith(g, blue, c, c);
    AnticoneMembers(g, blue, c);
    forall x | x in blue
      ensures AnticoneIn(g, blue + {c}, x)
           == AnticoneIn(g, blue, x) + if x in BlueAnticone(g, blue, c) then {c} else {}
      ensures c !in AnticoneIn(g, blue, x)
    {
      AnticoneWith(g, blue, c, x);
    }
  }

  lemma AnticoneWith(g: Dag, blue: set<Id>, c: Id, x: Id)
    requires c !in blue
    ensures AnticoneIn(g, blue + {c}, x) == AnticoneIn(g, blue, x) + if Incomparable(g, x, c) then {c} else {}
    ensures c !in AnticoneIn(g, blue, x) && !Incomparable(g, c, c)
  {
    assert Incomparable(g, x, c) <==> Incomparable(g, c, x);
    assert !Incomparable(g, c, c);
    hide Incomparable;
  }

  lemma AnticoneMembers(g: Dag, s: set<Id>, c: Id)
    ensures forall x :: x in AnticoneIn(g, s, c) <==> x in s && Incomparable(g, x, c)
  {
    hide Incomparable;
  }

  lemma {:induction false} PassKeepsCluster(g: Dag, k: nat, blue: set<Id>, order: seq<Id>)
    requires Ahead(g, blue, order)
    ensures KCluster(g, k, Greedy(g, k, blue, order))
       <==> KCluster(g, k, blue) && GuardedPass(g, k, blue, order)
    decreases |order|
  {
    hide KCluster, NoneSaturated, Incomparable;
    if order != [] {
      var c := order[0];
      var next := GreedyStep(g, k, blue, c);
      AheadTail(g, k, blue, order);
      PassKeepsCluster(g, k, next, order[1..]);
      if KCluster(g, k, next) {
        SmallerCluster(g, k, blue, next);
      }
      if KCluster(g, k, blue) && |BlueAnticone(g, blue, c)| <= k {
        AnticoneIsUncappedCount(g, blue, order);
        AnticonesAgree(g, blue, c);
        AdmissionKeepsCluster(g, k, blue, c);
      }
    }
  }

  lemma AnticonesAgree(g: Dag, blue: set<Id>, c: Id)
    requires forall b :: b in BlueAnticone(g, blue, c) ==> Incomparable(g, b, c)
    ensures BlueAnticone(g, blue, c) == AnticoneIn(g, blue, c)
  {
  }

  // A blue set is a k-cluster exactly when the inherited one is and no admission hit
  // a blue whose anticone was already full.
  lemma ClusterExactly(g: Dag, k: nat, b: Id)
    requires Valid(g, k) && b in g && g[b].selected.Some?
    ensures var sp := g[b].selected.value;
      KCluster(g, k, g[b].blue) ==
      (KCluster(g, k, Blue(g, sp)) &&
       GuardedPass(g, k, Blue(g, sp), Kahn(g, MergeSet(g, g[b].past, sp))))
  {
    hide Kahn, LinkRule, IsBest, Greedy, GuardedPass, KCluster;
    assert ColourRule(g, k, b);
    BlueWithinPast(g, k, b);
    var sp := g[b].selected.value;
    var order := Kahn(g, MergeSet(g, g[b].past, sp));
    CandidatesAhead(g, k, b);
    PassKeepsCluster(g, k, Blue(g, sp), order);
    MergeSetSorted(g, b, sp);
    GreedyBounds(g, k, Blue(g, sp), order);
    PastInDag(g, b);
    TopKeepsCluster(g, k, Greedy(g, k, Blue(g, sp), order), b);
  }

  // The block itself is comparable to everything in its past.
  lemma TopKeepsCluster(g: Dag, k: nat, s: set<Id>, b: Id)
    requires s <= Past(g, b) && b !in s
    ensures KCluster(g, k, s + {b}) <==> KCluster(g, k, s)
  {
    forall x | x in s ensures AnticoneIn(g, s + {b}, x) == AnticoneIn(g, s, x) {
    }
    assert AnticoneIn(g, s + {b}, b) == {};
    if KCluster(g, k, s + {b}) {
      SmallerCluster(g, k, s, s + {b});
    }
  }

  // The same condition, followed down the selected-parent chain.
  ghost predicate GuardedThroughout(g: Dag, k: nat, b: Id)
    decreases |Past(g, b)|
  {
    b in g && g[b].selected.Some? && |Past(g, g[b].selected.value)| < |Past(g, b)| ==>
      var sp := g[b].selected.value;
      && GuardedPass(g, k, Blue(g, sp), Kahn(g, MergeSet(g, g[b].past, sp)))
      && GuardedThroughout(g, k, sp)
  }

  lemma {:induction false} ClusterIffGuarded(g: Dag, k: nat, b: Id)
    requires Valid(g, k) && b in g
    ensures KCluster(g, k, g[b].blue) <==> GuardedThroughout(g, k, b)
    ensures GuardedThroughout(g, k, b) <==>
              forall c :: c in g[b].blue ==>
                |set x | x in g[b].blue && x != c && x !in Past(g, c) && c !in Past(g, x)| <= k
    decreases |g[b].past|
  {
    hide Kahn, LinkRule, IsBest, GuardedPass;
    BlueWithinPast(g, k, b);
    ClusterMeans(g, k, g[b].blue);
    if g[b].selected.Some? {
      ParentPast(g, b, g[b].selected.value);
      ClusterExactly(g, k, b);
      ClusterIffGuarded(g, k, g[b].selected.value);
    } else {
      assert ColourRule(g, k, b);
      assert g[b].blue == {b};
      assert AnticoneIn(g, {b}, b) == {};
    }
  }

  // ---------------------------------------------------------------------
  // A blue set that is not a k-cluster
  // ---------------------------------------------------------------------

  lemma KahnOfNone(g: Dag)
    ensures Kahn(g, {}) == []
  {
    assert Sources(g, {}) == {};
  }

  lemma KahnOfOne(g: Dag, c: Id)
    requires c !in Parents(g, c)
    ensures Kahn(g, {c}) == [c]
  {
    var none: seq<Id> := [];
    assert ParentsIn(g, {c}, c) == {};
    assert Sources(g, {c}) == {c};
    OnlyOne(c);
    assert Elems(none) == {};
    assert none + [c] == [c];
    assert Released(g, {c}, Elems([c]), c) == {};
    AscendingEmpty();
    assert KahnQueue(g, {c}, [c], none) == none;
    calc {
      Kahn(g, {c});
      KahnFrom(g, {c}, [c], none);
      KahnFrom(g, {c}, none, [c]);
      [c];
    }
  }

  lemma OnlyOne(c: Id)
    ensures Ascending({c}) == [c]
  {
    var q := Ascending({c});
    assert |q| == 1 && q[0] in Elems(q);
  }

  function Entry(b: Id, parents: seq<Id>, past: set<Id>, blue: set<Id>, score: nat, selected: Option<Id>): Info {
    Info(Block(Header(b, 0, 0.0, parents), {}), past, blue, score, selected)
  }

  // Blocks 1{0}, 2{1}, 3{0}, 4{2,3}, 5{2}, 6{4,5} on top of genesis.
  function Witness(): Dag {
    map[0 := Entry(0, [], {}, {0}, 1, None),
        1 := Entry(1, [0], {0}, {0, 1}, 2, Some(0)),
        2 := Entry(2, [1], {0, 1}, {0, 1, 2}, 3, Some(1)),
        3 := Entry(3, [0], {0}, {0, 3}, 2, Some(0)),
        4 := Entry(4, [2, 3], {0, 1, 2, 3}, {0, 1, 2, 3, 4}, 5, Some(2)),
        5 := Entry(5, [2], {0, 1, 2}, {0, 1, 2, 5}, 4, Some(2)),
        6 := Entry(6, [4, 5], {0, 1, 2, 3, 4, 5}, {0, 1, 2, 3, 4, 5, 6}, 7, Some(4))]
  }

  lemma WitnessBlocks()
    ensures Witness().Keys == {0, 1, 2, 3, 4, 5, 6}
    ensures Witness()[0] == Entry(0, [], {}, {0}, 1, None)
    ensures Witness()[1] == Entry(1, [0], {0}, {0, 1}, 2, Some(0))
    ensures Witness()[2] == Entry(2, [1], {0, 1}, {0, 1, 2}, 3, Some(1))
    ensures Witness()[3] == Entry(3, [0], {0}, {0, 3}, 2, Some(0))
    ensures Witness()[4] == Entry(4, [2, 3], {0, 1, 2, 3}, {0, 1, 2, 3, 4}, 5, Some(2))
    ensures Witness()[5] == Entry(5, [2], {0, 1, 2}, {0, 1, 2, 5}, 4, Some(2))
    ensures Witness()[6] == Entry(6, [4, 5], {0, 1, 2, 3, 4, 5}, {0, 1, 2, 3, 4, 5, 6}, 7, Some(4))
  {
  }

  lemma PastOfParents(g: Dag, p: Id, q: Id)
    ensures PastOf(g, []) == {}
    ensures PastOf(g, [p]) == Past(g, p) + {p}
    ensures PastOf(g, [p, q]) == Past(g, p) + {p} + Past(g, q) + {q}
  {
    assert p in [p] && p in [p, q] && q in [p, q];
    forall x | x in Past(g, p) + {p} + Past(g, q) + {q}
      ensures x in PastOf(g, [p, q])
    {
      assert x in Past(g, p) + {p} || x in Past(g, q) + {q};
    }
  }

  lemma WitnessLinked()
    ensures Linked(Witness())
  {
    hide Witness, PastOf;
    WitnessBlocks();
    var g := Witness();
    PastOfParents(g, 0, 0);
    PastOfParents(g, 1, 1);
    PastOfParents(g, 2, 3);
    PastOfParents(g, 4, 5);
    assert forall b :: b in g ==> b in {0, 1, 2, 3, 4, 5, 6};
  }

  // A block whose merge set is empty, or one candidate the pass admits.
  lemma NoCandidate(g: Dag, k: nat, past: set<Id>, sp: Id)
    requires MergeSet(g, past, sp) == {}
    ensures BlueInPast(g, k, past, sp) == Blue(g, sp)
  {
    KahnOfNone(g);
  }

  lemma OneCandidate(g: Dag, k: nat, past: set<Id>, sp: Id, c: Id, anticone: set<Id>)
    requires MergeSet(g, past, sp) == {c} && c !in Parents(g, c)
    requires BlueAnticone(g, Blue(g, sp), c) == anticone && |anticone| <= k
    ensures BlueInPast(g, k, past, sp) == Blue(g, sp) + {c}
  {
    KahnOfOne(g, c);
    hide Kahn;
    assert [c][1..] == [];
    var admitted := GreedyStep(g, k, Blue(g, sp), c);
    assert Greedy(g, k, admitted, []) == admitted;
  }

  lemma OneParentBest(g: Dag, p: Id)
    ensures IsBest(g, Elems([p]), p)
  {
  }

  lemma SingleParentColour(g: Dag, k: nat, b: Id, sp: Id)
    requires b in g && Parents(g, b) == [sp] && g[b].selected == Some(sp)
    requires g[b].past == Past(g, sp) + {sp} && b !in g[b].past && Blue(g, sp) <= g[b].past
    requires g[b].blue == Blue(g, sp) + {b} && g[b].score == |Blue(g, sp)| + 1
    ensures ColourRule(g, k, b)
  {
    hide BlueInPast, IsBest;
    assert MergeSet(g, g[b].past, sp) == {};
    NoCandidate(g, k, g[b].past, sp);
    OneParentBest(g, sp);
    assert g[b].past * g[b].blue == Blue(g, sp);
  }

  lemma WitnessFour()
    ensures 4 in Witness() && ColourRule(Witness(), 2, 4)
  {
    hide Witness, BlueInPast;
    WitnessBlocks();
    var g := Witness();
    assert MergeSet(g, g[4].past, 2) == {3};
    assert BlueAnticone(g, Blue(g, 2), 3) == {1, 2};
    OneCandidate(g, 2, g[4].past, 2, 3, {1, 2});
    assert Elems([2, 3]) == {2, 3};
    assert g[4].past * g[4].blue == g[4].past;
  }

  lemma WitnessSix()
    ensures 6 in Witness() && ColourRule(Witness(), 2, 6)
  {
    hide Witness, BlueInPast;
    WitnessBlocks();
    var g := Witness();
    assert MergeSet(g, g[6].past, 4) == {5};
    assert BlueAnticone(g, Blue(g, 4), 5) == {3, 4};
    OneCandidate(g, 2, g[6].past, 4, 5, {3, 4});
    assert Elems([4, 5]) == {4, 5};
    assert g[6].past * g[6].blue == g[6].past;
  }

  lemma WitnessAnticone()
    ensures 6 in Witness() && 3 in Witness()[6].blue
    ensures AnticoneIn(Witness(), Witness()[6].blue, 3) == {1, 2, 5}
  {
    hide Witness;
    WitnessBlocks();
  }

  lemma WitnessColours()
    ensures forall b :: b in Witness() ==> ColourRule(Witness(), 2, b)
  {
    hide Witness, ColourRule;
    WitnessBlocks();
    var g := Witness();
    WitnessGenesis();
    SingleParentColour(g, 2, 1, 0);
    SingleParentColour(g, 2, 2, 1);
    SingleParentColour(g, 2, 3, 0);
    WitnessFour();
    SingleParentColour(g, 2, 5, 2);
    WitnessSix();
    assert forall b :: b in g ==> b in {0, 1, 2, 3, 4, 5, 6};
  }

  // In a valid chain with k = 2, block 3 has three blues in its anticone in blue(6).
  lemma BlueSetsNeedNotBeClusters()
    ensures Valid(Witness(), 2)
    ensures 6 in Witness() && AnticoneIn(Witness(), Witness()[6].blue, 3) == {1, 2, 5}
    ensures !KCluster(Witness(), 2, Witness()[6].blue)
  {
    hide Witness, ColourRule, AnticoneIn;
    WitnessLinked();
    WitnessColours();
    WitnessAnticone();
    assert |{1, 2, 5}| == 3;
  }

  lemma WitnessGenesis()
    ensures 0 in Witness() && ColourRule(Witness(), 2, 0)
  {
    hide Witness;
    WitnessBlocks();
    assert Witness()[0].past * Witness()[0].blue == {};
  }
}
