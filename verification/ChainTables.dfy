/**
 * The concrete tables of struct Blockchain (dag.h:285-332) and what they stand for:
 * value-level facts about id tables, bit sets, indegree maps and the annotation of a
 * block on its way in. The methods that use them are in Blockchain.dfy.
 */
module ChainTables {
  import opened Orders
  import opened BitSets
  import opened Dags
  import opened BlueSets
  import opened Convergence
  import opened Growth
  import opened Indexing
  import opened Orderings
  import opened Width

  datatype Accepted = Accepted(block: Block, blueScore: nat, isBlue: bool, selectedParent: Option<Id>)

  // ---------------------------------------------------------------------
  // What the tables stand for
  // ---------------------------------------------------------------------

  ghost predicate PastsStand(idOf: seq<Id>, pastOf: seq<Words>, g: Dag) {
    && |pastOf| == |idOf|
    && forall i :: 0 <= i < |idOf| ==> Stands(idOf, Members(pastOf[i]), Past(g, idOf[i]))
  }

  ghost predicate BluesStand(idOf: seq<Id>, blueOf: seq<Words>, g: Dag) {
    && |blueOf| <= |idOf|
    && forall i :: 0 <= i < |blueOf| ==> Stands(idOf, Members(blueOf[i]), Blue(g, idOf[i]))
  }

  ghost predicate BlocksStand(blocks: map<Id, Accepted>, g: Dag) {
    && blocks.Keys == g.Keys
    && forall b :: b in g ==>
         && blocks[b].block == g[b].block
         && blocks[b].blueScore == g[b].score
         && blocks[b].selectedParent == g[b].selected
  }

  ghost function Flagged(blocks: map<Id, Accepted>): set<Id> {
    set b | b in blocks && blocks[b].isBlue
  }

  // ---------------------------------------------------------------------
  // Choosing the best of several blocks
  // ---------------------------------------------------------------------

  lemma BestShows(g: Dag, s: set<Id>, best: Id)
    requires IsBest(g, s, best)
    ensures best in s
    ensures forall p :: p in s ==> Score(g, p) < Score(g, best) || (Score(g, p) == Score(g, best) && best <= p)
  {
  }

  lemma BestStep(g: Dag, s: set<Id>, best: Id, p: Id)
    requires IsBest(g, s, best)
    ensures IsBest(g, s + {p}, if Precedes(Score(g, p), p, Score(g, best), best) then p else best)
  {
  }

  lemma BestOfOne(g: Dag, p: Id)
    ensures IsBest(g, {p}, p)
  {
  }

  lemma PrefixElems(ps: seq<Id>, i: nat)
    requires i < |ps|
    ensures Elems(ps[..i + 1]) == Elems(ps[..i]) + {ps[i]}
    ensures Elems(ps[..0]) == {}
    ensures ps[..|ps|] == ps
  {
    assert ps[..i + 1] == ps[..i] + [ps[i]];
    ElemsConcat(ps[..i], [ps[i]]);
  }

  lemma PastOfSnoc(g: Dag, ps: seq<Id>, i: nat)
    requires i < |ps|
    ensures PastOf(g, ps[..i + 1]) == PastOf(g, ps[..i]) + Past(g, ps[i]) + {ps[i]}
    ensures PastOf(g, ps[..0]) == {}
    ensures ps[..|ps|] == ps
  {
    assert ps[i] in ps[..i + 1] by {
      assert ps[..i + 1][i] == ps[i];
    }
    forall p | p in ps[..i] ensures p in ps[..i + 1] {
      var j :| 0 <= j < i && ps[..i][j] == p;
      assert ps[..i + 1][j] == p;
    }
    forall p | p in ps[..i + 1] ensures p in ps[..i] || p == ps[i] {
      var j :| 0 <= j < i + 1 && ps[..i + 1][j] == p;
      assert j < i ==> ps[..i][j] == p;
    }
    forall x | x in PastOf(g, ps[..i]) + Past(g, ps[i]) + {ps[i]}
      ensures x in PastOf(g, ps[..i + 1])
    {
      if x in PastOf(g, ps[..i]) {
        var p :| p in ps[..i] && x in Past(g, p) + {p};
        assert p in ps[..i + 1];
      } else {
        assert x in Past(g, ps[i]) + {ps[i]};
      }
    }
  }

  // ---------------------------------------------------------------------
  // The blue anticone, in indices
  // ---------------------------------------------------------------------

  // Those of a set of indices whose block does not have C in its past.
  ghost function Unrelated(a: set<nat>, pastOf: seq<Words>, ci: nat): set<nat> {
    set i | i in a && i < |pastOf| && ci !in Members(pastOf[i])
  }

  lemma UnrelatedStands(idOf: seq<Id>, pastOf: seq<Words>, g: Dag, ci: nat,
                      blue: set<nat>, blueIds: set<Id>)
    requires NoDup(idOf) && PastsStand(idOf, pastOf, g) && ci < |idOf|
    requires Stands(idOf, blue, blueIds)
    ensures Stands(idOf, Unrelated(blue - Members(pastOf[ci]), pastOf, ci), BlueAnticone(g, blueIds, idOf[ci]))
  {
    hide Members, Past;
    var out := Unrelated(blue - Members(pastOf[ci]), pastOf, ci);
    forall i | 0 <= i < |idOf|
      ensures i in out <==> idOf[i] in BlueAnticone(g, blueIds, idOf[ci])
    {
      StandsMember(idOf, blue, blueIds, i);
      StandsMember(idOf, Members(pastOf[ci]), Past(g, idOf[ci]), i);
      StandsMember(idOf, Members(pastOf[i]), Past(g, idOf[i]), ci);
    }
    StandsElems(idOf, blue, blueIds);
    StandsByMembers(idOf, out, BlueAnticone(g, blueIds, idOf[ci]));
  }

  lemma UnrelatedSplit(a: set<nat>, rest: set<nat>, b: nat, pastOf: seq<Words>, ci: nat)
    requires a == rest + {b} && b !in rest && b < |pastOf|
    ensures |Unrelated(a, pastOf, ci)|
         == |Unrelated(rest, pastOf, ci)| + if TestIn(pastOf[b], ci) then 0 else 1
  {
    hide TestIn, Members;
    MembersTest(pastOf[b], ci);
    assert Unrelated(a, pastOf, ci) == Unrelated(rest, pastOf, ci) + if TestIn(pastOf[b], ci) then {} else {b};
  }

  lemma UnrelatedSum(a: set<nat>, b: set<nat>, pastOf: seq<Words>, ci: nat)
    requires a !! b
    ensures |Unrelated(a + b, pastOf, ci)| == |Unrelated(a, pastOf, ci)| + |Unrelated(b, pastOf, ci)|
    ensures |Unrelated({}, pastOf, ci)| == 0
  {
    hide Members;
    assert Unrelated(a + b, pastOf, ci) == Unrelated(a, pastOf, ci) + Unrelated(b, pastOf, ci);
    assert Unrelated({}, pastOf, ci) == {};
  }

  // The bits of one word of blue & ~past(C).
  method CountWord(k: nat, word: bv64, wi: nat, pastOf: seq<Words>, ci: nat, before: nat)
    returns (count: nat)
    requires forall i :: i in Slice(word, wi) ==> i < |pastOf|
    requires before <= k
    ensures var total := before + |Unrelated(Slice(word, wi), pastOf, ci)|;
      if count <= k then count == total else total > k
  {
    hide *;
    var w := word;
    count := before;
    while w != 0
      invariant Slice(w, wi) <= Slice(word, wi)
      invariant count + |Unrelated(Slice(w, wi), pastOf, ci)| == before + |Unrelated(Slice(word, wi), pastOf, ci)|
      decreases |WordBits(w)|
    {
      var bit := CountTrailingZeros(w);
      var b := 64 * wi + bit;
      SliceMinusLowest(w, wi, bit);
      UnrelatedSplit(Slice(w, wi), Slice(ClearLowest(w), wi), b, pastOf, ci);
      if !TestIn(pastOf[b], ci) {
        count := count + 1;
        if count > k {
          return;
        }
      }
      w := ClearLowest(w);
    }
    EmptySlice(w, wi);
    UnrelatedSum({}, {}, pastOf, ci);
  }

  // Blues outside past(C) that do not have C in their own past, counted up to one
  // more than k (dag.cc:221-229).
  method CountAnticone(k: nat, blue: Words, pastCand: Words, pastOf: seq<Words>, ci: nat)
    returns (count: nat)
    requires forall i :: i in Members(blue) ==> i < |pastOf|
    ensures count <= k <==> |Unrelated(Members(blue) - Members(pastCand), pastOf, ci)| <= k
    ensures count <= k ==> count == |Unrelated(Members(blue) - Members(pastCand), pastOf, ci)|
  {
    hide *;
    ghost var scanned: Words := [];
    EmptyVector();
    UnrelatedSum({}, {}, pastOf, ci);
    count := 0;
    for wi := 0 to |blue|
      invariant |scanned| == wi
      invariant forall j :: 0 <= j < wi ==> scanned[j] == AndNotWord(blue, pastCand, j)
      invariant count == |Unrelated(Members(scanned), pastOf, ci)| && count <= k
    {
      var w := AndNotWord(blue, pastCand, wi);
      ghost var before := scanned;
      scanned := scanned + [w];
      assert scanned[..wi] == before && scanned[..wi + 1] == scanned;
      MembersSnoc(scanned, wi);
      ScannedOutside(blue, pastCand, scanned);
      UnrelatedSum(Members(before), Slice(w, wi), pastOf, ci);
      count := CountWord(k, w, wi, pastOf, ci, count);
      if count > k {
        assert Members(scanned) <= Members(blue) - Members(pastCand);
        UnrelatedGrows(Members(scanned), Members(blue) - Members(pastCand), pastOf, ci);
        return;
      }
    }
    AndNotMembers(blue, pastCand, scanned);
  }

  lemma UnrelatedGrows(a: set<nat>, b: set<nat>, pastOf: seq<Words>, ci: nat)
    requires a <= b
    ensures |Unrelated(a, pastOf, ci)| <= |Unrelated(b, pastOf, ci)|
  {
    hide Members;
    SubsetCard(Unrelated(a, pastOf, ci), Unrelated(b, pastOf, ci));
  }

  lemma StandsByMembers(ids: seq<nat>, a: set<nat>, s: set<nat>)
    requires InRange(ids, a) && s <= Elems(ids)
    requires forall i :: 0 <= i < |ids| ==> (i in a <==> ids[i] in s)
    ensures Stands(ids, a, s)
  {
    forall x | x in s ensures x in IdsAt(ids, a) {
      var i :| 0 <= i < |ids| && ids[i] == x;
      assert i in a;
    }
  }

  // ---------------------------------------------------------------------
  // Indegrees in the Kahn sort
  // ---------------------------------------------------------------------

  ghost function Indegree(g: Dag, s: set<Id>, done: set<Id>, c: Id): nat {
    |ParentsIn(g, s, c) - done|
  }

  ghost predicate IndegreesAt(g: Dag, s: set<Id>, done: set<Id>, indeg: map<Id, nat>) {
    indeg.Keys == s && forall c :: c in s ==> indeg[c] == Indegree(g, s, done, c)
  }

  // While the children of cur are being visited: those visited already count cur.
  ghost predicate IndegreesDuring(g: Dag, s: set<Id>, done: set<Id>, cur: Id, visited: set<Id>, indeg: map<Id, nat>) {
    && indeg.Keys == s
    && forall c :: c in s ==>
         indeg[c] == Indegree(g, s, if c in visited then done + {cur} else done, c)
  }

  lemma IndegreeStep(g: Dag, s: set<Id>, done: set<Id>, cur: Id, c: Id)
    requires cur in s && cur !in done
    ensures Indegree(g, s, done + {cur}, c)
         == Indegree(g, s, done, c) - if cur in Parents(g, c) then 1 else 0
    ensures c in Released(g, s, done + {cur}, cur)
       <==> c in s && cur in Parents(g, c) && Indegree(g, s, done + {cur}, c) == 0
  {
    var ps := ParentsIn(g, s, c);
    if cur in ps {
      assert ps - done == (ps - (done + {cur})) + {cur};
    } else {
      assert ps - done == ps - (done + {cur});
    }
    if |ps - (done + {cur})| == 0 {
      assert ps - (done + {cur}) == {};
    }
  }

  lemma DuringStarts(g: Dag, s: set<Id>, done: set<Id>, cur: Id, indeg: map<Id, nat>)
    requires IndegreesAt(g, s, done, indeg)
    ensures IndegreesDuring(g, s, done, cur, {}, indeg)
  {
    hide Indegree;
  }

  lemma DuringEnds(g: Dag, s: set<Id>, done: set<Id>, cur: Id, indeg: map<Id, nat>)
    requires cur in s && cur !in done
    requires IndegreesDuring(g, s, done, cur, ChildrenOf(g, cur), indeg) && s <= g.Keys
    ensures IndegreesAt(g, s, done + {cur}, indeg)
  {
    hide Indegree;
    forall c | c in s
      ensures indeg[c] == Indegree(g, s, done + {cur}, c)
    {
      IndegreeStep(g, s, done, cur, c);
    }
  }

  lemma DuringVisit(g: Dag, s: set<Id>, done: set<Id>, cur: Id, visited: set<Id>, indeg: map<Id, nat>, ch: Id)
    requires cur in s && cur !in done && ch !in visited && ch in ChildrenOf(g, cur)
    requires IndegreesDuring(g, s, done, cur, visited, indeg)
    ensures ch in s ==>
              && indeg[ch] > 0
              && IndegreesDuring(g, s, done, cur, visited + {ch}, indeg[ch := indeg[ch] - 1])
              && (indeg[ch] - 1 == 0 <==> ch in Released(g, s, done + {cur}, cur))
    ensures ch !in s ==>
              && IndegreesDuring(g, s, done, cur, visited + {ch}, indeg)
              && ch !in Released(g, s, done + {cur}, cur)
  {
    hide Indegree;
    IndegreeStep(g, s, done, cur, ch);
  }

  // A subsequence of an ascending walk, picked out by membership in f.
  ghost predicate Picked(walk: seq<Id>, f: set<Id>, picked: seq<Id>) {
    Sorted(picked) && Elems(picked) == Elems(walk) * f
  }

  lemma PickedNone(f: set<Id>)
    ensures Picked([], f, [])
  {
  }

  lemma PickedSnoc(walk: seq<Id>, f: set<Id>, picked: seq<Id>, i: nat)
    requires i < |walk| && Sorted(walk) && Picked(walk[..i], f, picked)
    ensures Picked(walk[..i + 1], f, if walk[i] in f then picked + [walk[i]] else picked)
  {
    PrefixElems(walk, i);
    ElemsSnoc(picked, walk[i]);
    forall j | 0 <= j < |picked|
      ensures picked[j] < walk[i]
    {
      assert picked[j] in Elems(picked);
      var m :| 0 <= m < i && walk[..i][m] == picked[j];
    }
  }

  lemma PickedAll(walk: seq<Id>, f: set<Id>, picked: seq<Id>)
    requires Picked(walk, f, picked) && f <= Elems(walk)
    ensures picked == Ascending(f)
  {
    assert Elems(walk) * f == f;
    SortedUnique(picked, Ascending(f));
  }

  lemma WalkElement(walk: seq<Id>, i: nat)
    requires i < |walk| && Sorted(walk)
    ensures walk[i] in Elems(walk) && walk[i] !in Elems(walk[..i])
    ensures Elems(walk[..i + 1]) == Elems(walk[..i]) + {walk[i]}
  {
    PrefixElems(walk, i);
  }

  // ---------------------------------------------------------------------
  // Bookkeeping facts used by the loops above
  // ---------------------------------------------------------------------

  lemma InElems(xs: seq<Id>, x: Id)
    ensures x in Elems(xs) <==> x in xs
  {
  }

  lemma PrefixOfNone()
    ensures Elems<Id>([]) == {}
  {
  }

  lemma AscendingFacts(s: set<Id>)
    ensures Sorted(Ascending(s)) && Elems(Ascending(s)) == s
  {
  }

  lemma TableNoDup(idOf: seq<Id>, idxOf: map<Id, nat>)
    requires Table(idOf, idxOf)
    ensures NoDup(idOf)
  {
  }

  // idx_of_.find(c), then test: exactly membership in the id set.
  lemma InTable(idOf: seq<Id>, idxOf: map<Id, nat>, a: set<nat>, s: set<Id>, c: Id)
    requires Table(idOf, idxOf) && Stands(idOf, a, s)
    ensures c in s <==> c in idxOf && idxOf[c] in a
  {
    StandsElems(idOf, a, s);
    if c in idxOf {
      TableLookup(idOf, idxOf, c);
      StandsMember(idOf, a, s, idxOf[c]);
    }
  }

  lemma VisitedInRange(idOf: seq<Id>, visited: seq<nat>, s: set<Id>)
    requires Stands(idOf, Elems(visited), s)
    ensures forall i :: 0 <= i < |visited| ==> visited[i] < |idOf|
    ensures IdsAt(idOf, Elems(visited)) == s
  {
    forall i | 0 <= i < |visited| ensures visited[i] < |idOf| {
      assert visited[i] in Elems(visited);
    }
  }

  lemma VisitedNone(idOf: seq<Id>)
    ensures forall v: seq<nat> :: IdsAt(idOf, Elems(v[..0])) == {}
  {
  }

  lemma VisitedSnoc(idOf: seq<Id>, visited: seq<nat>, i: nat)
    requires i < |visited| && visited[i] < |idOf|
    ensures IdsAt(idOf, Elems(visited[..i + 1])) == IdsAt(idOf, Elems(visited[..i])) + {idOf[visited[i]]}
  {
    PrefixElems(visited, i);
    var before, after := Elems(visited[..i]), Elems(visited[..i + 1]);
    forall x | x in IdsAt(idOf, before) + {idOf[visited[i]]} ensures x in IdsAt(idOf, after) {
      if x != idOf[visited[i]] {
        var j :| j in before && j < |idOf| && idOf[j] == x;
        assert j in after;
      } else {
        assert visited[i] in after;
      }
    }
  }

  ghost function CountedParents(ps: seq<Id>, s: set<Id>): set<Id> {
    set p | p in ps && p in s
  }

  lemma CountedSnoc(ps: seq<Id>, s: set<Id>, i: nat)
    requires i < |ps| && NoDup(ps)
    ensures |CountedParents(ps[..i + 1], s)|
         == |CountedParents(ps[..i], s)| + if ps[i] in s then 1 else 0
    ensures CountedParents(ps[..0], s) == {}
  {
    PrefixElems(ps, i);
    forall p
      ensures p in ps[..i + 1] <==> p in ps[..i] || p == ps[i]
    {
      assert p in ps[..i + 1] <==> p in Elems(ps[..i + 1]);
    }
    assert ps[i] !in ps[..i];
    assert CountedParents(ps[..i + 1], s)
        == CountedParents(ps[..i], s) + if ps[i] in s then {ps[i]} else {};
  }

  lemma ReleasedAreChildren(g: Dag, s: set<Id>, done: set<Id>, cur: Id)
    requires s <= g.Keys
    ensures Released(g, s, done, cur) <= ChildrenOf(g, cur)
  {
  }

  lemma IndegreeKeys(g: Dag, s: set<Id>, done: set<Id>, cur: Id, visited: set<Id>, indeg: map<Id, nat>)
    requires IndegreesDuring(g, s, done, cur, visited, indeg)
    ensures indeg.Keys == s
  {
  }

  lemma SourceTest(g: Dag, s: set<Id>, b: Id)
    requires b in s
    ensures b in Sources(g, s) <==> Indegree(g, s, {}, b) == 0
  {
    assert ParentsIn(g, s, b) - {} == ParentsIn(g, s, b);
  }

  lemma SourcesWithin(g: Dag, s: set<Id>)
    ensures Sources(g, s) <= s
  {
  }

  lemma IndegreesStart(g: Dag, s: set<Id>, indeg: map<Id, nat>)
    requires indeg.Keys == s
    requires forall c :: c in indeg ==> indeg[c] == Indegree(g, s, {}, c)
    ensures IndegreesAt(g, s, Elems([]), indeg)
  {
    assert Elems<Id>([]) == {};
  }

  lemma QueueStep(g: Dag, s: set<Id>, q: seq<Id>, order: seq<Id>)
    requires q != [] && q[0] in s && q[0] !in order
    ensures KahnFrom(g, s, q, order) == KahnFrom(g, s, KahnQueue(g, s, q, order), order + [q[0]])
    ensures KahnQueue(g, s, q, order) == q[1..] + Ascending(Released(g, s, Elems(order) + {q[0]}, q[0]))
  {
    ElemsSnoc(order, q[0]);
  }

  lemma NoPast(g: Dag)
    ensures PastOf(g, []) == {}
  {
  }

  lemma ScannedOutside(blue: Words, pastCand: Words, scanned: Words)
    requires |scanned| <= |blue|
    requires forall wi :: 0 <= wi < |scanned| ==> scanned[wi] == AndNotWord(blue, pastCand, wi)
    ensures forall i :: i in Members(scanned) ==> i in Members(blue) && i !in Members(pastCand)
  {
    hide TestBit, AndNotWord;
    forall i | i in Members(scanned)
      ensures i in Members(blue) && i !in Members(pastCand)
    {
      AndNotWordBits(blue, pastCand, i / 64, i % 64);
    }
  }

  lemma MergeSetIs(g: Dag, past: set<Id>, sp: Id)
    ensures MergeSet(g, past, sp) == past - Past(g, sp) - {sp}
    ensures MergeSet(g, past, sp) <= past
  {
  }

  lemma GreedyStart(g: Dag, k: nat, blue: set<Id>, order: seq<Id>)
    ensures Greedy(g, k, blue, order[..0]) == blue
  {
  }

  lemma OrderElement(order: seq<Id>, i: nat, s: set<Id>)
    requires i < |order| && Elems(order) == s
    ensures order[i] in s
  {
  }

  lemma GreedySnoc(g: Dag, k: nat, blue: set<Id>, order: seq<Id>, i: nat)
    requires i < |order|
    ensures var sofar := Greedy(g, k, blue, order[..i]);
      Greedy(g, k, blue, order[..i + 1])
        == if |BlueAnticone(g, sofar, order[i])| <= k then sofar + {order[i]} else sofar
  {
    var sofar := Greedy(g, k, blue, order[..i]);
    assert order[..i + 1] == order[..i] + [order[i]];
    GreedyConcat(g, k, blue, order[..i], [order[i]]);
    assert [order[i]][1..] == [];
    var next := GreedyStep(g, k, sofar, order[i]);
    assert Greedy(g, k, next, []) == next;
  }

  lemma BlueInPastIs(g: Dag, k: nat, past: set<Id>, sp: Id)
    ensures BlueInPast(g, k, past, sp) == Greedy(g, k, Blue(g, sp), Kahn(g, MergeSet(g, past, sp)))
  {
  }

  // ---------------------------------------------------------------------
  // Tables while a block is being accepted
  // ---------------------------------------------------------------------

  // The annotation a block has between Link and Colour.
  ghost function Uncoloured(g: Dag, b: Block): Info {
    Info(b, PastOf(g, b.header.parents), {}, 0, None)
  }

  lemma UncolouredIs(g: Dag, b: Block)
    ensures Uncoloured(g, b) == Info(b, PastOf(g, b.header.parents), {}, 0, None)
  {
  }

  lemma BlueOfNew(g: Dag, id: Id, i: Info)
    ensures Blue(g[id := i], id) == i.blue
  {
  }

  lemma UncolouredFacts(g: Dag, b: Block)
    requires Linked(g) && b.header.id !in g
    ensures var g' := g[b.header.id := Uncoloured(g, b)];
      && g.Keys < g'.Keys && (forall x :: x in g ==> g'[x] == g[x])
      && Past(g', b.header.id) == PastOf(g, b.header.parents)
  {
  }

  lemma NoChildYet(children: map<Id, set<Id>>, id: Id)
    ensures ChildrenPlus(children, children, {}, id)
  {
  }

  lemma OneMoreChild(before: map<Id, set<Id>>, after: map<Id, set<Id>>, done: set<Id>, id: Id, p: Id)
    requires ChildrenPlus(before, after, done, id)
    ensures ChildrenPlus(before, after[p := (if p in after then after[p] else {}) + {id}], done + {p}, id)
  {
  }

  lemma BlocksGrown(blocks: map<Id, Accepted>, g: Dag, id: Id, i: Info)
    requires BlocksStand(blocks, g) && id !in g && i.score == 0 && i.selected == None
    ensures BlocksStand(blocks[id := Accepted(i.block, 0, false, None)], g[id := i])
  {
  }

  lemma PastsGrown(idOf: seq<Id>, pastOf: seq<Words>, g: Dag, id: Id, i: Info, words: Words)
    requires PastsStand(idOf, pastOf, g) && id !in g && Elems(idOf) == g.Keys
    requires Stands(idOf, Members(words), i.past)
    ensures PastsStand(idOf + [id], pastOf + [words], g[id := i])
  {
    hide Members, Stands;
    var idOf', pastOf', g' := idOf + [id], pastOf + [words], g[id := i];
    forall j | 0 <= j < |idOf'|
      ensures Stands(idOf', Members(pastOf'[j]), Past(g', idOf'[j]))
    {
      if j < |idOf| {
        assert idOf[j] in Elems(idOf);
        assert Past(g', idOf[j]) == Past(g, idOf[j]);
        StandsGrown(idOf, id, Members(pastOf[j]), Past(g, idOf[j]));
      } else {
        StandsGrown(idOf, id, Members(words), i.past);
      }
    }
  }

  lemma BluesGrown(idOf: seq<Id>, blueOf: seq<Words>, g: Dag, id: Id, i: Info)
    requires BluesStand(idOf, blueOf, g) && id !in g && Elems(idOf) == g.Keys
    ensures BluesStand(idOf + [id], blueOf, g[id := i])
  {
    hide Members, Stands;
    forall j | 0 <= j < |blueOf|
      ensures Stands(idOf + [id], Members(blueOf[j]), Blue(g[id := i], (idOf + [id])[j]))
    {
      assert idOf[j] in Elems(idOf);
      assert Blue(g[id := i], idOf[j]) == Blue(g, idOf[j]);
      StandsGrown(idOf, id, Members(blueOf[j]), Blue(g, idOf[j]));
    }
  }

  lemma LookupBefore(idOf: seq<Id>, idxOf: map<Id, nat>, x: Id, last: Id)
    requires Table(idOf, idxOf) && |idOf| > 0 && idOf[|idOf| - 1] == last
    requires x in idxOf && x != last
    ensures idxOf[x] < |idOf| - 1 && idOf[idxOf[x]] == x
  {
    TableLookup(idOf, idxOf, x);
  }

  lemma BlueInside(g: Dag, k: nat, sp: Id)
    requires Dags.Valid(g, k) && sp in g
    ensures Blue(g, sp) <= g.Keys
  {
    BlueWithinPast(g, k, sp);
    PastInDag(g, sp);
  }

  lemma NewInfoFrom(g: Dag, k: nat, id: Id, i: Info)
    requires i.block.header.id == id && NoDup(i.block.header.parents)
    requires forall p :: p in i.block.header.parents ==> p in g
    requires i.past == PastOf(g, i.block.header.parents)
    requires i.block.header.parents == [] <==> i.selected.None?
    requires i.selected.None? ==> i.blue == {id}
    requires i.selected.Some? ==>
               && IsBest(g, Elems(i.block.header.parents), i.selected.value)
               && i.blue == BlueInPast(g, k, i.past, i.selected.value) + {id}
    requires i.score == |i.past * i.blue| + 1
    ensures NewInfo(g, k, id, i)
  {
  }

  lemma BlocksRevised(blocks: map<Id, Accepted>, g: Dag, id: Id, i: Info, i': Info)
    requires BlocksStand(blocks, g[id := i]) && i'.block == i.block
    ensures BlocksStand(blocks[id := blocks[id].(selectedParent := i'.selected, blueScore := i'.score)], g[id := i'])
  {
  }

  lemma TablesRevised(idOf: seq<Id>, pastOf: seq<Words>, blueOf: seq<Words>, children: map<Id, set<Id>>,
                      g: Dag, id: Id, i: Info, i': Info)
    requires i'.block == i.block && i'.past == i.past
    requires PastsStand(idOf, pastOf, g[id := i]) && ChildrenAgree(g[id := i], children) && Linked(g[id := i])
    requires BluesStand(idOf, blueOf, g[id := i])
    requires |blueOf| + 1 == |idOf| && NoDup(idOf) && idOf[|blueOf|] == id
    ensures PastsStand(idOf, pastOf, g[id := i']) && ChildrenAgree(g[id := i'], children) && Linked(g[id := i'])
    ensures BluesStand(idOf, blueOf, g[id := i'])
  {
    hide Members, Stands, PastOf;
    var g1, g2 := g[id := i], g[id := i'];
    assert forall x :: Past(g1, x) == Past(g2, x) && Parents(g1, x) == Parents(g2, x);
    forall p ensures ChildrenOf(g1, p) == ChildrenOf(g2, p) {
    }
    forall b | b in g2 ensures LinkRule(g2, b) {
      assert LinkRule(g1, b);
      PastOfAgrees(g1, g2, Parents(g2, b));
    }
    forall j | 0 <= j < |blueOf|
      ensures Stands(idOf, Members(blueOf[j]), Blue(g2, idOf[j]))
    {
      assert Blue(g2, idOf[j]) == Blue(g1, idOf[j]);
    }
  }

  lemma BluesComplete(idOf: seq<Id>, blueOf: seq<Words>, g: Dag, words: Words)
    requires BluesStand(idOf, blueOf, g) && |blueOf| + 1 == |idOf|
    requires Stands(idOf, Members(words), Blue(g, idOf[|blueOf|]))
    ensures BluesStand(idOf, blueOf + [words], g)
  {
    hide Members, Stands;
  }

  lemma BlocksFacts(blocks: map<Id, Accepted>, g: Dag)
    requires BlocksStand(blocks, g)
    ensures blocks.Keys == g.Keys
  {
  }

  lemma BlocksRecoloured(blocks: map<Id, Accepted>, g: Dag, b: Id, blue: bool)
    requires BlocksStand(blocks, g) && b in blocks
    ensures BlocksStand(blocks[b := blocks[b].(isBlue := blue)], g)
  {
  }

  lemma FlaggedIs(blocks: map<Id, Accepted>, s: set<Id>)
    requires s <= blocks.Keys
    requires forall b :: b in blocks ==> (blocks[b].isBlue <==> b in s)
    ensures Flagged(blocks) == s
  {
  }

  lemma ColouredFrom(g: Dag, tips: set<Id>, blues: set<Id>, t: Id)
    requires IsBest(g, tips, t) && blues == Blue(g, t)
    ensures ColouredBy(g, tips, blues)
  {
  }

  function GenesisBlock(): Block {
    Block(Header(GENESIS, 0xFFFF_FFFF_FFFF_FFFF, 0.0, []), {})
  }

  ghost function GenesisDag(): Dag {
    map[GENESIS := Info(GenesisBlock(), {}, {GENESIS}, 1, None)]
  }

  lemma GenesisTables(blue: Words)
    requires Members(blue) == {0}
    ensures Table([GENESIS], map[GENESIS := 0])
    ensures Elems([GENESIS]) == GenesisDag().Keys
    ensures PastsStand([GENESIS], [[]], GenesisDag())
    ensures BluesStand([GENESIS], [blue], GenesisDag())
    ensures BlocksStand(map[GENESIS := Accepted(GenesisBlock(), 1, true, None)], GenesisDag())
  {
    hide Members;
    EmptyVector();
    StandsEmpty([GENESIS]);
    StandsOne([GENESIS], 0);
  }

  lemma GenesisConsistent(k: nat)
    ensures Linked(GenesisDag()) && ChildrenAgree(GenesisDag(), map[])
    ensures var s := State(GenesisDag(), map[], map[], {GENESIS}, Flagged(map[GENESIS := Accepted(GenesisBlock(), 1, true, None)]));
      Consistent(s, k) && Settled(s) && Delivered(s) == map[GENESIS := GenesisBlock()]
  {
    var g := GenesisDag();
    assert PastOf(g, []) == {};
    assert forall p :: ChildrenOf(g, p) == {};
    assert TipsOf(g) == {GENESIS};
    assert IsBest(g, {GENESIS}, GENESIS);
    assert Flagged(map[GENESIS := Accepted(GenesisBlock(), 1, true, None)]) == {GENESIS};
    assert g[GENESIS].past * g[GENESIS].blue == {};
  }

  // ---------------------------------------------------------------------
  // Facts used by the queries
  // ---------------------------------------------------------------------

  lemma AbsentIsEmpty(g: Dag, b: Id)
    ensures b !in g ==> Past(g, b) == {} && Blue(g, b) == {}
  {
  }

  lemma ChildrenLookup(g: Dag, children: map<Id, set<Id>>, b: Id)
    requires ChildrenAgree(g, children)
    ensures ChildrenOf(g, b) == if b in children then children[b] else {}
  {
  }

  lemma ChildInside(g: Dag, p: Id, c: Id)
    requires c in ChildrenOf(g, p)
    ensures c in g
  {
  }

  // The breadth-first search: everything seen is a descendant, and only queued
  // blocks may have children not seen yet.
  ghost predicate Searched(g: Dag, b: Id, future: set<Id>, q: seq<Id>) {
    && ChildrenOf(g, b) <= future <= Future(g, b)
    && Elems(q) <= future
    && forall y :: y in future && y !in Elems(q) ==> ChildrenOf(g, y) <= future
  }

  lemma SearchStarts(g: Dag, b: Id, q: seq<Id>)
    requires Linked(g) && Elems(q) == ChildrenOf(g, b)
    ensures Searched(g, b, ChildrenOf(g, b), q)
  {
    ChildrenAreFuture(g, b, b);
  }

  lemma SearchStep(g: Dag, b: Id, future: set<Id>, q: seq<Id>, unseen: set<Id>, more: seq<Id>)
    requires Linked(g) && q != [] && Searched(g, b, future, q)
    requires unseen == ChildrenOf(g, q[0]) - future
    requires Elems(more) == unseen && (unseen == {} ==> more == [])
    ensures Searched(g, b, future + unseen, q[1..] + more)
    ensures |Future(g, b)| >= |future + unseen|
    ensures |future + unseen| > |future| || (future + unseen == future && |q[1..] + more| < |q|)
  {
    hide Linked, Future, ChildrenOf, Elems;
    QueueParts(q, more);
    ChildrenAreFuture(g, b, q[0]);
    forall y | y in future + unseen && y !in Elems(q[1..] + more)
      ensures ChildrenOf(g, y) <= future + unseen
    {
      assert y == q[0] || y !in Elems(q);
    }
    SearchGrows(g, b, future, unseen);
  }

  lemma QueueParts(q: seq<Id>, more: seq<Id>)
    requires q != []
    ensures Elems(q) == {q[0]} + Elems(q[1..])
    ensures Elems(q[1..] + more) == Elems(q[1..]) + Elems(more)
  {
    assert q == [q[0]] + q[1..];
    ElemsConcat([q[0]], q[1..]);
    ElemsConcat(q[1..], more);
  }

  lemma SearchGrows(g: Dag, b: Id, future: set<Id>, unseen: set<Id>)
    requires future + unseen <= Future(g, b) && future !! unseen
    ensures |Future(g, b)| >= |future + unseen|
    ensures unseen != {} ==> |future + unseen| > |future|
    ensures unseen == {} ==> future + unseen == future
  {
    SubsetCard(future + unseen, Future(g, b));
    assert |future + unseen| == |future| + |unseen|;
  }

  lemma SearchEnds(g: Dag, b: Id, future: set<Id>)
    requires Linked(g) && Searched(g, b, future, [])
    ensures future == Future(g, b)
  {
    hide Linked;
    forall x | x in Future(g, b) ensures x in future {
      ClosedHoldsFuture(g, b, future, x);
    }
  }

  lemma AnticoneOfNone(g: Dag, b: Id)
    ensures AnticoneIn(g, {}, b) == {}
  {
  }

  lemma AnticoneSnoc(g: Dag, s: set<Id>, b: Id, x: Id)
    requires x !in s
    ensures |AnticoneIn(g, s + {x}, b)|
         == |AnticoneIn(g, s, b)| + if x != b && x !in Past(g, b) && b !in Past(g, x) then 1 else 0
  {
    assert AnticoneIn(g, s + {x}, b) == AnticoneIn(g, s, b) + if Incomparable(g, x, b) then {x} else {};
  }

  lemma NotCluster(g: Dag, k: nat, s: set<Id>, b: Id)
    requires b in s && |AnticoneIn(g, s, b)| > k
    ensures !KCluster(g, k, s)
  {
  }

  lemma ClusterFrom(g: Dag, k: nat, s: set<Id>)
    requires forall b :: b in s ==> b in g && |AnticoneIn(g, s, b)| <= k
    ensures s <= g.Keys && KCluster(g, k, s)
  {
  }

  lemma ReadyAtStart(g: Dag, b: Id)
    requires b in g
    ensures b in Ready(g, {}) <==> Indegree(g, g.Keys, {}, b) == 0
  {
    assert ParentsIn(g, g.Keys, b) - {} == ParentsIn(g, g.Keys, b);
  }

  lemma ReadyWithin(g: Dag, done: set<Id>)
    ensures Ready(g, done) <= g.Keys
    ensures Ready(g, done) - g.Keys == {} && Ready(g, done) - {} == Ready(g, done)
  {
  }

  lemma OrderingStarts(g: Dag, indeg: map<Id, nat>)
    requires indeg.Keys == g.Keys
    requires forall b :: b in indeg ==> indeg[b] == Indegree(g, g.Keys, {}, b)
    ensures NoDup<Id>([]) && BestEverywhere(g, []) && Elems<Id>([]) == {}
    ensures DownClosed(g, {}) && IndegreesAt(g, g.Keys, {}, indeg)
  {
  }

  lemma OrderingStep(g: Dag, ordering: seq<Id>, cur: Id)
    requires NoDup(ordering) && BestEverywhere(g, ordering)
    requires IsTop(g, Ready(g, Elems(ordering)), cur)
    ensures cur in Ready(g, Elems(ordering)) && cur in g && cur !in Elems(ordering)
    ensures NoDup(ordering + [cur]) && BestEverywhere(g, ordering + [cur])
    ensures Elems(ordering + [cur]) == Elems(ordering) + {cur}
  {
    hide IsTop;
    TopInside(g, Ready(g, Elems(ordering)), cur);
    ElemsSnoc(ordering, cur);
    var more := ordering + [cur];
    forall i | 0 <= i < |more|
      ensures IsTop(g, Ready(g, Elems(more[..i])), more[i])
    {
      assert more[..i] == if i < |ordering| then ordering[..i] else ordering;
    }
    forall i | 0 <= i < |ordering| ensures ordering[i] != cur {
      assert ordering[i] in Elems(ordering);
    }
  }

  lemma TopInside(g: Dag, s: set<Id>, t: Id)
    requires IsTop(g, s, t)
    ensures t in s
  {
  }

  lemma TopOfOne(g: Dag, t: Id)
    ensures IsTop(g, {t}, t)
  {
  }

  lemma GlobalOrderFrom(g: Dag, ordering: seq<Id>)
    requires NoDup(ordering) && BestEverywhere(g, ordering) && Elems(ordering) == g.Keys
    ensures IsGlobalOrder(g, ordering)
  {
  }

  lemma BlockOf(blocks: map<Id, Accepted>, g: Dag, b: Id)
    requires BlocksStand(blocks, g) && b in g
    ensures b in blocks && blocks[b].block.header.parents == Parents(g, b)
  {
  }

  lemma CountedNone(s: set<Id>)
    ensures CountedParents([], s) == {}
  {
  }

  lemma CountedAll(g: Dag, s: set<Id>, b: Id)
    ensures |CountedParents(Parents(g, b), s)| == Indegree(g, s, {}, b)
  {
    assert CountedParents(Parents(g, b), s) == ParentsIn(g, s, b) - {};
  }

  // The flags of the accepted blocks in insertion order.
  ghost function FlagsOf(idOf: seq<Id>, blues: set<Id>): (flags: seq<bool>)
    ensures |flags| == |idOf| && forall i :: 0 <= i < |idOf| ==> (flags[i] <==> idOf[i] in blues)
  {
    seq(|idOf|, i requires 0 <= i < |idOf| => idOf[i] in blues)
  }

  lemma FlagsOfNone(idOf: seq<Id>, blues: set<Id>)
    ensures FlagsOf(idOf[..0], blues) == []
  {
  }

  lemma FlagsOfSnoc(idOf: seq<Id>, blues: set<Id>, i: nat)
    requires i < |idOf|
    ensures FlagsOf(idOf[..i + 1], blues) == FlagsOf(idOf[..i], blues) + [idOf[i] in blues]
  {
  }

  lemma FlagAt(blocks: map<Id, Accepted>, b: Id)
    requires b in blocks
    ensures blocks[b].isBlue <==> b in Flagged(blocks)
  {
  }

  // Blue now, and not flagged at the same index of the snapshot.
  ghost function NewBlues(idOf: seq<Id>, blues: set<Id>, before: seq<bool>): set<Id> {
    set i | 0 <= i < |idOf| && idOf[i] in blues && !(i < |before| && before[i]) :: idOf[i]
  }

  lemma NewBluesNone(idOf: seq<Id>, blues: set<Id>, before: seq<bool>)
    ensures NewBlues(idOf[..0], blues, before) == {}
  {
  }

  lemma NewBluesSnoc(idOf: seq<Id>, blues: set<Id>, before: seq<bool>, i: nat)
    requires i < |idOf|
    ensures NewBlues(idOf[..i + 1], blues, before)
         == NewBlues(idOf[..i], blues, before)
          + if idOf[i] in blues && !(i < |before| && before[i]) then {idOf[i]} else {}
  {
    var p, q := idOf[..i], idOf[..i + 1];
    forall x | x in NewBlues(p, blues, before) ensures x in NewBlues(q, blues, before) {
      var j :| 0 <= j < |p| && p[j] in blues && !(j < |before| && before[j]) && p[j] == x;
      assert q[j] == x;
    }
    forall x | x in NewBlues(q, blues, before)
      ensures x in NewBlues(p, blues, before) || (x == idOf[i] && idOf[i] in blues && !(i < |before| && before[i]))
    {
      var j :| 0 <= j < |q| && q[j] in blues && !(j < |before| && before[j]) && q[j] == x;
      assert j < i ==> p[j] == x;
    }
    if idOf[i] in blues && !(i < |before| && before[i]) {
      assert q[i] == idOf[i];
    }
  }

  // Against the flags of an earlier moment, the result is exactly the set difference.
  lemma NewBluesIsDifference(earlier: seq<Id>, idOf: seq<Id>, bluesBefore: set<Id>, blues: set<Id>)
    requires NoDup(idOf) && earlier <= idOf
    requires bluesBefore <= Elems(earlier) && blues <= Elems(idOf)
    ensures NewBlues(idOf, blues, FlagsOf(earlier, bluesBefore)) == blues - bluesBefore
  {
    var before := FlagsOf(earlier, bluesBefore);
    forall x | x in blues - bluesBefore
      ensures x in NewBlues(idOf, blues, before)
    {
      assert x in Elems(idOf);
      var i :| 0 <= i < |idOf| && idOf[i] == x;
      assert i < |earlier| ==> earlier[i] == idOf[i];
    }
    forall x | x in NewBlues(idOf, blues, before)
      ensures x in blues - bluesBefore
    {
      var i :| 0 <= i < |idOf| && idOf[i] in blues && !(i < |before| && before[i]) && idOf[i] == x;
    }
  }

  // ---------------------------------------------------------------------
  // The state in plain words
  // ---------------------------------------------------------------------

  lemma BlocksInWords(s: State, k: nat, blocks: map<Id, Accepted>)
    requires Consistent(s, k) && BlocksStand(blocks, s.dag)
    ensures blocks.Keys == s.dag.Keys && s.orphans.Keys !! blocks.Keys
    ensures forall b :: b in blocks ==>
              && blocks[b].block == s.dag[b].block && blocks[b].block.header.id == b
              && blocks[b].blueScore == |Blue(s.dag, b)| && blocks[b].selectedParent == s.dag[b].selected
    ensures forall b, p :: b in blocks && p in blocks[b].block.header.parents ==> p in blocks
  {
    hide Dags.Valid, ColouredBy, ChildrenAgree, Blue;
    forall b | b in blocks
      ensures blocks[b].block.header.id == b && blocks[b].blueScore == |Blue(s.dag, b)|
      ensures forall p :: p in blocks[b].block.header.parents ==> p in blocks
    {
      BlockShows(s.dag, k, b);
    }
  }

  // The ordering rule on the table of blocks.
  lemma OrderInWords(g: Dag, blocks: map<Id, Accepted>, order: seq<Id>)
    requires IsGlobalOrder(g, order) && BlocksStand(blocks, g)
    requires forall b, p :: b in blocks && p in blocks[b].block.header.parents ==> p in blocks
    ensures NoDup(order) && Elems(order) == blocks.Keys && forall i :: 0 <= i < |order| ==> order[i] in blocks
    ensures forall i, p :: 0 <= i < |order| && p in blocks[order[i]].block.header.parents ==> p in order[..i]
    ensures forall i, x {:trigger order[i], blocks[x]} ::
              0 <= i < |order| && x in blocks && x !in order[..i] && x != order[i]
              && (forall p :: p in blocks[x].block.header.parents ==> p in order[..i])
              ==> || blocks[x].blueScore < blocks[order[i]].blueScore
                  || (blocks[x].blueScore == blocks[order[i]].blueScore
                      && blocks[order[i]].block.header.time < blocks[x].block.header.time)
                  || (blocks[x].blueScore == blocks[order[i]].blueScore
                      && blocks[order[i]].block.header.time == blocks[x].block.header.time && order[i] < x)
  {
    hide *;
    OrderedInTable(g, blocks, order);
    forall i, p | 0 <= i < |order| && p in blocks[order[i]].block.header.parents
      ensures p in order[..i]
    {
      ParentPlaced(g, blocks, order, i, p);
    }
    forall i, x | 0 <= i < |order| && x in blocks && x !in order[..i] && x != order[i]
                  && (forall p :: p in blocks[x].block.header.parents ==> p in order[..i])
      ensures || blocks[x].blueScore < blocks[order[i]].blueScore
              || (blocks[x].blueScore == blocks[order[i]].blueScore
                  && blocks[order[i]].block.header.time < blocks[x].block.header.time)
              || (blocks[x].blueScore == blocks[order[i]].blueScore
                  && blocks[order[i]].block.header.time == blocks[x].block.header.time && order[i] < x)
    {
      BestPlaced(g, blocks, order, i, x);
    }
  }

  lemma OrderedInTable(g: Dag, blocks: map<Id, Accepted>, order: seq<Id>)
    requires IsGlobalOrder(g, order) && BlocksStand(blocks, g)
    ensures NoDup(order) && Elems(order) == blocks.Keys && forall i :: 0 <= i < |order| ==> order[i] in blocks
  {
    hide NoDup, BestEverywhere;
    assert forall i :: 0 <= i < |order| ==> order[i] in Elems(order);
  }

  lemma FieldsAre(g: Dag, blocks: map<Id, Accepted>, b: Id)
    requires BlocksStand(blocks, g) && b in blocks
    ensures b in g && Score(g, b) == blocks[b].blueScore && Time(g, b) == blocks[b].block.header.time
    ensures Parents(g, b) == blocks[b].block.header.parents
  {
  }

  lemma ParentPlaced(g: Dag, blocks: map<Id, Accepted>, order: seq<Id>, i: nat, p: Id)
    requires IsGlobalOrder(g, order) && BlocksStand(blocks, g) && i < |order| && order[i] in blocks
    requires p in blocks[order[i]].block.header.parents && p in blocks
    ensures p in order[..i]
  {
    hide *;
    FieldsAre(g, blocks, order[i]);
    FieldsAre(g, blocks, p);
    GlobalOrderShows(g, order);
  }

  lemma BestPlaced(g: Dag, blocks: map<Id, Accepted>, order: seq<Id>, i: nat, x: Id)
    requires IsGlobalOrder(g, order) && BlocksStand(blocks, g) && i < |order| && order[i] in blocks
    requires x in blocks && x !in order[..i] && x != order[i]
    requires forall p :: p in blocks[x].block.header.parents ==> p in order[..i]
    ensures || blocks[x].blueScore < blocks[order[i]].blueScore
            || (blocks[x].blueScore == blocks[order[i]].blueScore
                && blocks[order[i]].block.header.time < blocks[x].block.header.time)
            || (blocks[x].blueScore == blocks[order[i]].blueScore
                && blocks[order[i]].block.header.time == blocks[x].block.header.time && order[i] < x)
  {
    hide *;
    FieldsAre(g, blocks, order[i]);
    FieldsAre(g, blocks, x);
    GlobalOrderShows(g, order);
  }

  lemma LinksInWords(s: State, k: nat, blocks: map<Id, Accepted>, p: Id, c: Id)
    requires Consistent(s, k) && BlocksStand(blocks, s.dag)
    ensures p in s.tips <==> p in blocks && forall x :: x in blocks ==> p !in blocks[x].block.header.parents
    ensures p in s.children && c in s.children[p] <==> c in blocks && p in blocks[c].block.header.parents
  {
    hide Dags.Valid, ColouredBy;
    assert c in ChildrenOf(s.dag, p) <==> c in blocks && p in blocks[c].block.header.parents;
    forall x | x in blocks
      ensures x in ChildrenOf(s.dag, p) <==> p in blocks[x].block.header.parents
    {
    }
  }

  lemma FlagsInWords(s: State, k: nat, blocks: map<Id, Accepted>) returns (t: Id)
    requires Consistent(s, k) && BlocksStand(blocks, s.dag) && s.blues == Flagged(blocks)
    ensures t in s.tips && t in blocks && s.tips <= blocks.Keys
    ensures forall x :: x in blocks ==> blocks[x].blueScore <= blocks[t].blueScore
    ensures forall x :: x in s.tips && blocks[x].blueScore == blocks[t].blueScore ==> t <= x
    ensures forall b :: b in blocks ==> (blocks[b].isBlue <==> b in Blue(s.dag, t))
  {
    hide Dags.Valid, IsBest, ChildrenAgree;
    var g := s.dag;
    t :| IsBest(g, s.tips, t) && s.blues == Blue(g, t);
    BestShows(g, s.tips, t);
    forall x | x in blocks
      ensures blocks[x].blueScore <= blocks[t].blueScore
    {
      SelectedTipScoresHighest(g, k, t, x);
    }
  }

  // What one delivery leaves of the tables: nothing accepted changes but its colour.
  lemma AddedInWords(before: State, was: map<Id, Accepted>, after: State, blocks: map<Id, Accepted>, b: Block)
    requires BlocksStand(was, before.dag) && BlocksStand(blocks, after.dag) && Extends(before, after)
    requires Delivered(after) == Delivered(before)[b.header.id := b]
    ensures blocks.Keys + after.orphans.Keys == (was.Keys + before.orphans.Keys) + {b.header.id}
    ensures forall x :: x in was ==> x in blocks && blocks[x].(isBlue := true) == was[x].(isBlue := true)
  {
    assert Delivered(after).Keys == after.dag.Keys + after.orphans.Keys;
    assert Delivered(before).Keys == before.dag.Keys + before.orphans.Keys;
  }

  lemma BlockShows(g: Dag, k: nat, b: Id)
    requires Dags.Valid(g, k) && b in g
    ensures g[b].block.header.id == b && g[b].score == |Blue(g, b)|
    ensures forall p :: p in g[b].block.header.parents ==> p in g
  {
    ScoreIsBlueCount(g, k, b);
    assert LinkRule(g, b);
  }

  lemma ClusterShows(g: Dag, k: nat, ids: set<Id>)
    ensures KCluster(g, k, ids) <==>
            forall b :: b in ids ==> |set x | x in ids && x != b && x !in Past(g, b) && b !in Past(g, x)| <= k
  {
    forall b
      ensures AnticoneIn(g, ids, b) == set x | x in ids && x != b && x !in Past(g, b) && b !in Past(g, x)
    {
    }
  }
}
