/**
 * The two exclusive-or accumulators of an IBLT cell (thirdparty/iblt.h:145-154): the
 * sum of a set of keys, independent of the order they were mixed in.
 */
module Sums {
  // A 64-bit transaction id.
  datatype Key = Key(word: bv64)

  datatype Sum = Sum(key: bv64, check: bv32)

  const ZERO: Sum := Sum(0, 0)

  function Mix(a: Sum, b: Sum): Sum {
    Sum(Xor64(a.key, b.key), Xor32(a.check, b.check))
  }

  function Xor64(a: bv64, b: bv64): bv64 {
    a ^ b
  }

  function Xor32(a: bv32, b: bv32): bv32 {
    a ^ b
  }

  lemma Xor64Is(a: bv64, b: bv64)
    ensures Xor64(a, b) == a ^ b
  {
  }

  lemma Xor32Is(a: bv32, b: bv32)
    ensures Xor32(a, b) == a ^ b
  {
  }

  function Contribution(check: Key -> bv32, k: Key): Sum {
    Sum(k.word, check(k))
  }

  lemma MixCommutes(a: Sum, b: Sum)
    ensures Mix(a, b) == Mix(b, a)
  {
  }

  lemma Xor64Associates(a: bv64, b: bv64, c: bv64)
    ensures Xor64(Xor64(a, b), c) == Xor64(a, Xor64(b, c))
  {
    assert (a ^ b) ^ c == a ^ (b ^ c);
  }

  lemma Xor32Associates(a: bv32, b: bv32, c: bv32)
    ensures Xor32(Xor32(a, b), c) == Xor32(a, Xor32(b, c))
  {
  }

  lemma MixAssociates(a: Sum, b: Sum, c: Sum)
    ensures Mix(Mix(a, b), c) == Mix(a, Mix(b, c))
  {
    hide Xor64, Xor32;
    Xor64Associates(a.key, b.key, c.key);
    Xor32Associates(a.check, b.check, c.check);
  }

  lemma MixZero(a: Sum)
    ensures Mix(a, ZERO) == a && Mix(a, a) == ZERO
  {
    assert a.key ^ 0 == a.key && a.check ^ 0 == a.check;
    assert a.key ^ a.key == 0 && a.check ^ a.check == 0;
  }

  lemma MixLaws(a: Sum, b: Sum, c: Sum)
    ensures Mix(a, b) == Mix(b, a)
    ensures Mix(Mix(a, b), c) == Mix(a, Mix(b, c))
    ensures Mix(a, ZERO) == a && Mix(ZERO, a) == a
    ensures Mix(a, a) == ZERO
  {
    hide Mix;
    MixCommutes(a, b);
    MixAssociates(a, b, c);
    MixZero(a);
    MixCommutes(a, ZERO);
  }

  // Mixing a value in twice takes it out again.
  lemma MixCancels(a: Sum, b: Sum)
    ensures Mix(Mix(a, b), b) == a
  {
    hide Mix;
    MixLaws(a, b, b);
    MixLaws(b, b, a);
    MixLaws(a, a, a);
  }

  ghost function SumOf(check: Key -> bv32, s: set<Key>): Sum
    decreases s
  {
    if s == {} then ZERO
    else
      var k :| k in s;
      Mix(Contribution(check, k), SumOf(check, s - {k}))
  }

  lemma {:induction false} SumMinus(check: Key -> bv32, s: set<Key>, k: Key)
    requires k in s
    ensures SumOf(check, s) == Mix(Contribution(check, k), SumOf(check, s - {k}))
    decreases s
  {
    hide Mix, Contribution;
    var x :| x in s && SumOf(check, s) == Mix(Contribution(check, x), SumOf(check, s - {x}));
    if x != k {
      SumMinus(check, s - {x}, k);
      SumMinus(check, s - {k}, x);
      assert s - {x} - {k} == s - {k} - {x};
      var rest := SumOf(check, s - {x} - {k});
      MixLaws(Contribution(check, x), Contribution(check, k), rest);
      MixLaws(Contribution(check, k), Contribution(check, x), rest);
    }
  }

  lemma SumPlus(check: Key -> bv32, s: set<Key>, k: Key)
    requires k !in s
    ensures SumOf(check, s + {k}) == Mix(SumOf(check, s), Contribution(check, k))
  {
    hide Mix, Contribution;
    SumMinus(check, s + {k}, k);
    assert (s + {k}) - {k} == s;
    MixLaws(Contribution(check, k), SumOf(check, s), ZERO);
  }

  lemma SumDrop(check: Key -> bv32, s: set<Key>, k: Key)
    requires k in s
    ensures SumOf(check, s - {k}) == Mix(SumOf(check, s), Contribution(check, k))
  {
    hide Mix, Contribution;
    SumMinus(check, s, k);
    var rest := SumOf(check, s - {k});
    MixLaws(Contribution(check, k), rest, ZERO);
    MixCancels(rest, Contribution(check, k));
  }

  lemma {:induction false} SumUnion(check: Key -> bv32, s: set<Key>, t: set<Key>)
    requires s !! t
    ensures SumOf(check, s + t) == Mix(SumOf(check, s), SumOf(check, t))
    decreases t
  {
    hide Mix, Contribution;
    MixLaws(SumOf(check, s), ZERO, ZERO);
    if t == {} {
      assert s + t == s;
    } else {
      var k :| k in t;
      SumUnion(check, s, t - {k});
      SumPlus(check, s + (t - {k}), k);
      SumPlus(check, t - {k}, k);
      assert s + (t - {k}) + {k} == s + t && (t - {k}) + {k} == t;
      MixLaws(SumOf(check, s), SumOf(check, t - {k}), Contribution(check, k));
    }
  }

  // Common keys cancel between two sums.
  lemma SumDifference(check: Key -> bv32, s: set<Key>, t: set<Key>)
    ensures Mix(SumOf(check, s), SumOf(check, t)) == SumOf(check, (s - t) + (t - s))
  {
    hide Mix;
    var both := s * t;
    SumUnion(check, s - t, both);
    SumUnion(check, t - s, both);
    SumUnion(check, s - t, t - s);
    assert (s - t) + both == s && (t - s) + both == t;
    var x, y, b := SumOf(check, s - t), SumOf(check, t - s), SumOf(check, both);
    MixLaws(x, b, Mix(y, b));
    MixLaws(b, Mix(y, b), ZERO);
    MixCancels(y, b);
  }

  lemma SumOfNone(check: Key -> bv32)
    ensures SumOf(check, {}) == ZERO
  {
  }

  lemma SumOfOne(check: Key -> bv32, k: Key)
    ensures SumOf(check, {k}) == Contribution(check, k)
  {
    hide Mix;
    SumMinus(check, {k}, k);
    assert {k} - {k} == {};
    MixLaws(Contribution(check, k), ZERO, ZERO);
  }
}
