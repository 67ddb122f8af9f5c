/**
 * Block ids and the dense indices that stand for them in the bit sets of dag.cc:
 * id_of_ numbers the accepted blocks in insertion order, and a set of indices stands
 * for a set of ids.
 */
module Indexing {
  import opened Orders

  ghost predicate InRange(ids: seq<nat>, a: set<nat>) {
    forall i :: i in a ==> i < |ids|
  }

  ghost function IdsAt(ids: seq<nat>, a: set<nat>): set<nat> {
    set i | i in a && i < |ids| :: ids[i]
  }

  // The index set a stands for the id set s.
  ghost predicate Stands(ids: seq<nat>, a: set<nat>, s: set<nat>) {
    && InRange(ids, a)
    && IdsAt(ids, a) == s
  }

  lemma StandsMember(ids: seq<nat>, a: set<nat>, s: set<nat>, i: nat)
    requires NoDup(ids) && Stands(ids, a, s) && i < |ids|
    ensures ids[i] in s <==> i in a
  {
    if ids[i] in s {
      var j :| j in a && j < |ids| && ids[j] == ids[i];
    }
  }

  lemma StandsElems(ids: seq<nat>, a: set<nat>, s: set<nat>)
    requires Stands(ids, a, s)
    ensures s <= Elems(ids)
  {
  }

  lemma StandsEmpty(ids: seq<nat>)
    ensures Stands(ids, {}, {})
  {
  }

  lemma StandsUnion(ids: seq<nat>, a: set<nat>, s: set<nat>, b: set<nat>, t: set<nat>)
    requires Stands(ids, a, s) && Stands(ids, b, t)
    ensures Stands(ids, a + b, s + t)
  {
    forall x | x in s + t ensures x in IdsAt(ids, a + b) {
      if x in s {
        var i :| i in a && i < |ids| && ids[i] == x;
        assert i in a + b;
      } else {
        var i :| i in b && i < |ids| && ids[i] == x;
        assert i in a + b;
      }
    }
  }

  lemma StandsOne(ids: seq<nat>, i: nat)
    requires i < |ids|
    ensures Stands(ids, {i}, {ids[i]})
  {
    assert i in {i};
  }

  lemma StandsMinus(ids: seq<nat>, a: set<nat>, s: set<nat>, b: set<nat>, t: set<nat>)
    requires NoDup(ids) && Stands(ids, a, s) && Stands(ids, b, t)
    ensures Stands(ids, a - b, s - t)
  {
    forall x | x in s - t ensures x in IdsAt(ids, a - b) {
      var i :| i in a && i < |ids| && ids[i] == x;
      assert i in a - b;
    }
    forall x | x in IdsAt(ids, a - b) ensures x in s - t {
      var i :| i in a - b && i < |ids| && ids[i] == x;
      StandsMember(ids, b, t, i);
    }
  }

  lemma StandsMeet(ids: seq<nat>, a: set<nat>, s: set<nat>, b: set<nat>, t: set<nat>)
    requires NoDup(ids) && Stands(ids, a, s) && Stands(ids, b, t)
    ensures Stands(ids, a * b, s * t)
  {
    StandsMinus(ids, a, s, b, t);
    StandsMinus(ids, a, s, a - b, s - t);
    assert a - (a - b) == a * b && s - (s - t) == s * t;
  }

  lemma StandsNone(ids: seq<nat>, s: set<nat>)
    requires Stands(ids, {}, s)
    ensures s == {}
  {
  }

  lemma StandsRange(ids: seq<nat>, a: set<nat>, s: set<nat>)
    requires Stands(ids, a, s)
    ensures forall i :: i in a ==> i < |ids|
  {
  }

  lemma {:induction false} StandsCard(ids: seq<nat>, a: set<nat>, s: set<nat>)
    requires NoDup(ids) && Stands(ids, a, s)
    ensures |a| == |s|
    decreases a
  {
    hide Stands, NoDup;
    if a == {} {
      StandsNone(ids, s);
    } else {
      var i :| i in a;
      StandsRange(ids, a, s);
      StandsOne(ids, i);
      StandsMinus(ids, a, s, {i}, {ids[i]});
      StandsCard(ids, a - {i}, s - {ids[i]});
      StandsMember(ids, a, s, i);
      assert a == (a - {i}) + {i} && s == (s - {ids[i]}) + {ids[i]};
    }
  }

  lemma StandsGrown(ids: seq<nat>, x: nat, a: set<nat>, s: set<nat>)
    requires Stands(ids, a, s)
    ensures Stands(ids + [x], a, s)
  {
    forall i | i in a ensures (ids + [x])[i] == ids[i] {
    }
    forall y | y in s ensures y in IdsAt(ids + [x], a) {
      var i :| i in a && i < |ids| && ids[i] == y;
      assert (ids + [x])[i] == y;
    }
  }

  // The index table: ids are pairwise distinct and idxOf inverts idOf.
  ghost predicate Table(idOf: seq<nat>, idxOf: map<nat, nat>) {
    && NoDup(idOf)
    && idxOf.Keys == Elems(idOf)
    && forall i :: 0 <= i < |idOf| ==> idOf[i] in idxOf && idxOf[idOf[i]] == i
  }

  lemma TableLookup(idOf: seq<nat>, idxOf: map<nat, nat>, x: nat)
    requires Table(idOf, idxOf) && x in idxOf
    ensures idxOf[x] < |idOf| && idOf[idxOf[x]] == x
  {
    assert x in Elems(idOf);
    var i :| 0 <= i < |idOf| && idOf[i] == x;
  }

  lemma TableGrown(idOf: seq<nat>, idxOf: map<nat, nat>, x: nat)
    requires Table(idOf, idxOf) && x !in idxOf
    ensures Table(idOf + [x], idxOf[x := |idOf|])
    ensures Elems(idOf + [x]) == Elems(idOf) + {x}
  {
    ElemsConcat(idOf, [x]);
    assert Elems([x]) == {x};
    forall i | 0 <= i < |idOf| ensures idOf[i] in Elems(idOf) {
    }
  }
}
