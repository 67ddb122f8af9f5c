/**
 * The set of transaction ids a node has ever seen (node.h:272-300): a bit for each
 * sequence number in a row for each generating node.
 */
module TxIdSets {
  import opened BitSets

  const SEQUENCES: nat := 0x1_0000_0000

  function NodeOf(txId: nat): nat {
    txId / SEQUENCES
  }

  function SequenceOf(txId: nat): (s: nat)
    ensures s < SEQUENCES
  {
    txId % SEQUENCES
  }

  ghost predicate InRows(rows: seq<Words>, txId: nat) {
    NodeOf(txId) < |rows| && SequenceOf(txId) in Members(rows[NodeOf(txId)])
  }

  ghost function IdsIn(rows: seq<Words>): set<nat> {
    set id: nat | id < SEQUENCES * |rows| && InRows(rows, id)
  }

  lemma IdsInRows(rows: seq<Words>, txId: nat)
    ensures txId in IdsIn(rows) <==> InRows(rows, txId)
  {
    hide Members;
  }

  function EmptyRows(n: nat): (r: seq<Words>)
    ensures |r| == n && forall i :: 0 <= i < n ==> r[i] == []
  {
    seq(n, _ => [])
  }

  lemma MoreRows(rows: seq<Words>, n: nat)
    ensures IdsIn(rows + EmptyRows(n)) == IdsIn(rows)
  {
    hide IdsIn, Members;
    forall id: nat
      ensures id in IdsIn(rows + EmptyRows(n)) <==> id in IdsIn(rows)
    {
      IdsInRows(rows + EmptyRows(n), id);
      IdsInRows(rows, id);
      MembersTest([], SequenceOf(id));
    }
  }

  lemma RowSame(rows: seq<Words>, node: nat, row: Words)
    requires node < |rows| && Members(row) == Members(rows[node])
    ensures IdsIn(rows[node := row]) == IdsIn(rows)
  {
    hide IdsIn, Members;
    forall id: nat
      ensures id in IdsIn(rows[node := row]) <==> id in IdsIn(rows)
    {
      IdsInRows(rows[node := row], id);
      IdsInRows(rows, id);
    }
  }

  lemma RowPlus(rows: seq<Words>, txId: nat, row: Words)
    requires NodeOf(txId) < |rows| && Members(row) == Members(rows[NodeOf(txId)]) + {SequenceOf(txId)}
    ensures IdsIn(rows[NodeOf(txId) := row]) == IdsIn(rows) + {txId}
  {
    hide IdsIn, Members;
    forall id: nat
      ensures id in IdsIn(rows[NodeOf(txId) := row]) <==> id in IdsIn(rows) || id == txId
    {
      IdsInRows(rows[NodeOf(txId) := row], id);
      IdsInRows(rows, id);
      SameParts(id, txId);
    }
  }

  lemma SameParts(a: nat, b: nat)
    ensures NodeOf(a) == NodeOf(b) && SequenceOf(a) == SequenceOf(b) <==> a == b
  {
  }

  class TxIdSet {
    var bits: seq<Words>

    ghost function Ids(): set<nat>
      reads this
    {
      IdsIn(bits)
    }

    constructor ()
      ensures Ids() == {}
    {
      bits := [];
    }

    method Contains(txId: nat) returns (r: bool)
      ensures r <==> txId in Ids()
    {
      hide IdsIn, Members, TestBit;
      IdsInRows(bits, txId);
      var node, number := NodeOf(txId), SequenceOf(txId);
      if node >= |bits| {
        return false;
      }
      MembersTest(bits[node], number);
      r := TestIn(bits[node], number);
    }

    method Insert(txId: nat)
      modifies this
      ensures Ids() == old(Ids()) + {txId}
    {
      hide IdsIn, Members, TestBit, Or, OneBit, NodeOf, SequenceOf;
      var node, number := NodeOf(txId), SequenceOf(txId);
      if node >= |bits| {
        MoreRows(bits, node + 1 - |bits|);
        bits := bits + EmptyRows(node + 1 - |bits|);
      }
      var w := number / 64;
      if w >= |bits[node]| {
        var size := if w + 1 > 2 * |bits[node]| then w + 1 else 2 * |bits[node]|;
        var row := bits[node] + Zeros(size - |bits[node]|);
        GrowKeepsMembers(bits[node], size - |bits[node]|);
        RowSame(bits, node, row);
        bits := bits[node := row];
      }
      var v := bits[node];
      SetMembers(v, number);
      RowPlus(bits, txId, v[w := Or(v[w], OneBit(number % 64))]);
      bits := bits[node := v[w := Or(v[w], OneBit(number % 64))]];
    }
  }
}
