/**
 * The block DAG as a mathematical object. A `Dag` annotates every accepted block
 * with the data AddBlock computes for it; `Valid` says that each annotation obeys
 * the local rule of dag.cc for the block's own parents. Nothing in a rule mentions
 * insertion order or indices.
 */
module Dags {
  import opened Orders

  type Id = nat
  type TxId = nat

  datatype Header = Header(id: Id, minerId: nat, time: real, parents: seq<Id>)

  // What a caller hands to AddBlock.
  datatype Block = Block(header: Header, txs: set<TxId>)

  // What the chain keeps for an accepted block: its ancestors, its immutable blue
  // set, its blue score and its selected parent.
  datatype Info = Info(block: Block, past: set<Id>, blue: set<Id>, score: nat, selected: Option<Id>)

  type Dag = map<Id, Info>

  const GENESIS: Id := 0

  ghost function Parents(g: Dag, b: Id): seq<Id> {
    if b in g then g[b].block.header.parents else []
  }

  ghost function Past(g: Dag, b: Id): set<Id> {
    if b in g then g[b].past else {}
  }

  ghost function Blue(g: Dag, b: Id): set<Id> {
    if b in g then g[b].blue else {}
  }

  ghost function Score(g: Dag, b: Id): nat {
    if b in g then g[b].score else 0
  }

  // What the lookups show of an accepted block.
  lemma Lookups(g: Dag, b: Id)
    requires b in g
    ensures Parents(g, b) == g[b].block.header.parents && Past(g, b) == g[b].past
    ensures Blue(g, b) == g[b].blue && Score(g, b) == g[b].score
  {
  }

  ghost predicate Incomparable(g: Dag, a: Id, b: Id) {
    a != b && a !in Past(g, b) && b !in Past(g, a)
  }

  // ---------------------------------------------------------------------
  // The local rule
  // ---------------------------------------------------------------------

  // Union of every parent with its own ancestors (dag.cc:256-261).
  ghost function PastOf(g: Dag, ps: seq<Id>): set<Id> {
    set p, x | p in ps && x in Past(g, p) + {p} :: x
  }

  // Higher blue score first, lower id on ties.
  predicate Precedes(scoreA: nat, a: Id, scoreB: nat, b: Id) {
    scoreA > scoreB || (scoreA == scoreB && a < b)
  }

  ghost predicate IsBest(g: Dag, candidates: set<Id>, p: Id) {
    && p in candidates
    && forall q :: q in candidates && q != p ==> Precedes(Score(g, p), p, Score(g, q), q)
  }

  ghost function MergeSet(g: Dag, past: set<Id>, sp: Id): set<Id> {
    past - Past(g, sp) - {sp}
  }

  // Parents of b that lie in the subset being sorted.
  ghost function ParentsIn(g: Dag, subset: set<Id>, b: Id): set<Id> {
    set p | p in Parents(g, b) && p in subset
  }

  ghost function Sources(g: Dag, subset: set<Id>): set<Id> {
    set b | b in subset && ParentsIn(g, subset, b) == {}
  }

  // Members of the subset whose last missing parent was cur.
  ghost function Released(g: Dag, subset: set<Id>, done: set<Id>, cur: Id): set<Id> {
    set c | c in subset && cur in Parents(g, c) && ParentsIn(g, subset, c) <= done
  }

  // Kahn's algorithm with a FIFO queue. Sources enter in ascending id order, and so
  // do the blocks that one emitted block releases.
  ghost function KahnFrom(g: Dag, subset: set<Id>, queue: seq<Id>, done: seq<Id>): seq<Id>
    decreases subset - Elems(done)
  {
    if queue == [] || queue[0] !in subset || queue[0] in done then done
    else
      var done' := done + [queue[0]];
      ElemsConcat(done, [queue[0]]);
      assert queue[0] in subset - Elems(done) && queue[0] in Elems(done');
      KahnFrom(g, subset, KahnQueue(g, subset, queue, done), done')
  }

  ghost function KahnQueue(g: Dag, subset: set<Id>, queue: seq<Id>, done: seq<Id>): seq<Id>
    requires queue != []
  {
    queue[1..] + Ascending(Released(g, subset, Elems(done + [queue[0]]), queue[0]))
  }

  ghost function Kahn(g: Dag, subset: set<Id>): seq<Id> {
    KahnFrom(g, subset, Ascending(Sources(g, subset)), [])
  }

  // The blues that count against candidate c (dag.cc:224-229).
  ghost function BlueAnticone(g: Dag, blue: set<Id>, c: Id): set<Id> {
    set b | b in blue && b !in Past(g, c) && c !in Past(g, b)
  }

  ghost function GreedyStep(g: Dag, k: nat, blue: set<Id>, c: Id): set<Id> {
    if |BlueAnticone(g, blue, c)| <= k then blue + {c} else blue
  }

  ghost function Greedy(g: Dag, k: nat, blue: set<Id>, order: seq<Id>): set<Id>
    decreases |order|
  {
    if order == [] then blue
    else Greedy(g, k, GreedyStep(g, k, blue, order[0]), order[1..])
  }

  // Blue ancestors a block with this past and this selected parent gets.
  ghost function BlueInPast(g: Dag, k: nat, past: set<Id>, sp: Id): set<Id> {
    Greedy(g, k, Blue(g, sp), Kahn(g, MergeSet(g, past, sp)))
  }

  ghost predicate LinkRule(g: Dag, b: Id)
    requires b in g
  {
    var ps := g[b].block.header.parents;
    && g[b].block.header.id == b
    && NoDup(ps)
    && (forall p :: p in ps ==> p in g)
    && g[b].past == PastOf(g, ps)
    && b !in g[b].past
  }

  ghost predicate ColourRule(g: Dag, k: nat, b: Id)
    requires b in g
  {
    var i := g[b];
    var ps := i.block.header.parents;
    && (if ps == [] then
          i.selected.None? && i.blue == {b}
        else
          && i.selected.Some?
          && IsBest(g, Elems(ps), i.selected.value)
          && i.blue == BlueInPast(g, k, i.past, i.selected.value) + {b})
    && i.score == |i.past * i.blue| + 1
  }

  ghost predicate Linked(g: Dag) {
    forall b {:trigger LinkRule(g, b)} :: b in g ==> LinkRule(g, b)
  }

  ghost predicate Valid(g: Dag, k: nat) {
    && Linked(g)
    && forall b {:trigger ColourRule(g, k, b)} :: b in g ==> ColourRule(g, k, b)
  }

  // ---------------------------------------------------------------------
  // Ancestors
  // ---------------------------------------------------------------------

  lemma ParentPast(g: Dag, b: Id, p: Id)
    requires Linked(g) && b in g && p in Parents(g, b)
    ensures p in g && p in g[b].past && g[p].past < g[b].past && |g[p].past| < |g[b].past|
  {
    assert LinkRule(g, b) && LinkRule(g, p);
    assert forall x :: x in Past(g, p) + {p} ==> x in PastOf(g, Parents(g, b));
    SubsetCard(g[p].past, g[b].past);
  }

  // Which parent an ancestor comes through.
  lemma Through(g: Dag, b: Id, x: Id) returns (p: Id)
    requires Linked(g) && b in g && x in g[b].past
    ensures p in Parents(g, b) && p in g && (x == p || x in g[p].past)
    ensures |g[p].past| < |g[b].past| && g[p].past < g[b].past
  {
    assert LinkRule(g, b);
    p :| p in Parents(g, b) && x in Past(g, p) + {p};
    ParentPast(g, b, p);
  }

  // Ancestors are accepted, and ancestry is a strict order.
  lemma {:induction false} PastClosed(g: Dag, b: Id, x: Id)
    requires Linked(g) && b in g && x in g[b].past
    ensures x in g && g[x].past < g[b].past && |g[x].past| < |g[b].past| && b !in g[x].past
    decreases |g[b].past|
  {
    assert LinkRule(g, b);
    var p := Through(g, b, x);
    if x != p {
      PastClosed(g, p, x);
    }
  }

  lemma PastTransitive(g: Dag, b: Id, x: Id)
    requires Linked(g)
    ensures x in Past(g, b) ==> Past(g, x) <= Past(g, b)
  {
    if x in Past(g, b) {
      PastClosed(g, b, x);
    }
  }

  lemma PastInDag(g: Dag, b: Id)
    requires Linked(g) && b in g
    ensures g[b].past <= g.Keys && b !in g[b].past
  {
    assert LinkRule(g, b);
    forall x | x in g[b].past ensures x in g {
      PastClosed(g, b, x);
    }
  }

  // A walk of at least one step along parent references, from b down to x.
  ghost predicate IsWalk(g: Dag, walk: seq<Id>, b: Id, x: Id)
    decreases |walk|
  {
    && |walk| >= 2
    && walk[0] == b
    && b in g
    && walk[1] in Parents(g, b)
    && (if |walk| == 2 then walk[1] == x else IsWalk(g, walk[1..], walk[1], x))
  }

  lemma {:induction false} WalkFromPast(g: Dag, b: Id, x: Id) returns (walk: seq<Id>)
    requires Linked(g) && b in g && x in g[b].past
    ensures IsWalk(g, walk, b, x)
    decreases |g[b].past|
  {
    var p := Through(g, b, x);
    if x == p {
      walk := [b, x];
    } else {
      var rest := WalkFromPast(g, p, x);
      walk := [b] + rest;
      assert walk[1..] == rest;
    }
  }

  lemma {:induction false} WalkToPast(g: Dag, walk: seq<Id>, b: Id, x: Id)
    requires Linked(g) && IsWalk(g, walk, b, x)
    ensures x in g[b].past
    decreases |walk|
  {
    ParentPast(g, b, walk[1]);
    if |walk| > 2 {
      WalkToPast(g, walk[1..], walk[1], x);
    }
  }

  ghost predicate Reaches(g: Dag, b: Id, x: Id) {
    exists walk :: IsWalk(g, walk, b, x)
  }

  // The past bit sets are the transitive closure of the parent relation.
  lemma PastIsTransitiveClosure(g: Dag, b: Id, x: Id)
    requires Linked(g) && b in g
    ensures x in g[b].past <==> Reaches(g, b, x)
  {
    if x in g[b].past {
      var walk := WalkFromPast(g, b, x);
      assert Reaches(g, b, x);
    }
    if Reaches(g, b, x) {
      var walk :| IsWalk(g, walk, b, x);
      WalkToPast(g, walk, b, x);
    }
  }
}
