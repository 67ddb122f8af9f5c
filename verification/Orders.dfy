/**
 * Sequences and finite sets as the containers of the simulator use them: ordered
 * iteration over a std::set or std::map, and duplicate-free vectors.
 */
module Orders {

  datatype Option<+T> = None | Some(value: T)

  ghost function Elems<T>(xs: seq<T>): set<T> {
    set x | x in xs
  }

  predicate NoDup<T(==)>(xs: seq<T>) {
    forall i, j :: 0 <= i < j < |xs| ==> xs[i] != xs[j]
  }

  predicate Sorted(xs: seq<nat>) {
    forall i, j :: 0 <= i < j < |xs| ==> xs[i] < xs[j]
  }

  lemma ElemsConcat<T>(xs: seq<T>, ys: seq<T>)
    ensures Elems(xs + ys) == Elems(xs) + Elems(ys)
  {
    forall x | x in Elems(xs) + Elems(ys) ensures x in xs + ys {
      if x in xs {
        var i :| 0 <= i < |xs| && xs[i] == x;
        assert (xs + ys)[i] == x;
      } else {
        var i :| 0 <= i < |ys| && ys[i] == x;
        assert (xs + ys)[|xs| + i] == x;
      }
    }
  }

  lemma ElemsSnoc<T>(xs: seq<T>, x: T)
    ensures Elems(xs + [x]) == Elems(xs) + {x} && Elems([x]) == {x}
  {
    ElemsConcat(xs, [x]);
    assert Elems([x]) == {x};
  }

  lemma NoDupConcat<T>(xs: seq<T>, ys: seq<T>)
    requires NoDup(xs) && NoDup(ys) && Elems(xs) !! Elems(ys)
    ensures NoDup(xs + ys)
  {
    var zs := xs + ys;
    forall i, j | 0 <= i < j < |zs|
      ensures zs[i] != zs[j]
    {
      if i < |xs| <= j {
        assert zs[i] in Elems(xs) && zs[j] in Elems(ys);
      }
    }
  }

  lemma {:induction false} NoDupCard<T>(xs: seq<T>)
    requires NoDup(xs)
    ensures |Elems(xs)| == |xs|
  {
    if xs == [] {
      assert Elems(xs) == {};
    } else {
      var n := |xs| - 1;
      var init := xs[..n];
      NoDupCard(init);
      assert xs == init + [xs[n]];
      ElemsConcat(init, [xs[n]]);
      assert Elems([xs[n]]) == {xs[n]};
    }
  }

  lemma {:induction false} SubsetCard<T>(a: set<T>, b: set<T>)
    requires a <= b
    ensures |a| <= |b|
    ensures a != b ==> |a| < |b|
    decreases b
  {
    if b != {} {
      if a == {} {
      } else {
        var x :| x in a;
        SubsetCard(a - {x}, b - {x});
        assert a == (a - {x}) + {x} && b == (b - {x}) + {x};
      }
    }
  }

  // ---------------------------------------------------------------------
  // Ascending iteration
  // ---------------------------------------------------------------------

  lemma {:induction false} HasLeast(s: set<nat>) returns (m: nat)
    requires s != {}
    ensures m in s && forall x :: x in s ==> m <= x
    decreases s
  {
    var first :| first in s;
    m := first;
    if s != {first} {
      var rest := HasLeast(s - {first});
      assert forall x :: x in s ==> x == first || x in s - {first};
      if rest < first {
        m := rest;
      }
    }
  }

  lemma LeastExists(s: set<nat>)
    requires s != {}
    ensures exists m :: m in s && forall x :: x in s ==> m <= x
  {
    var m := HasLeast(s);
  }

  ghost function Least(s: set<nat>): (m: nat)
    requires s != {}
    ensures m in s && forall x :: x in s ==> m <= x
  {
    LeastExists(s);
    var m :| m in s && forall x :: x in s ==> m <= x;
    m
  }

  // The order in which a std::set or std::map over these keys is walked.
  ghost function Ascending(s: set<nat>): (xs: seq<nat>)
    ensures Elems(xs) == s && Sorted(xs) && |xs| == |s|
    decreases s
  {
    if s == {} then []
    else
      var m := Least(s);
      var rest := Ascending(s - {m});
      AscendingCons(m, rest, s);
      [m] + rest
  }

  lemma AscendingCons(m: nat, rest: seq<nat>, s: set<nat>)
    requires m in s && (forall x :: x in s ==> m <= x)
    requires Elems(rest) == s - {m} && Sorted(rest)
    ensures Elems([m] + rest) == s && Sorted([m] + rest)
  {
    ElemsConcat([m], rest);
    assert Elems([m]) == {m};
    forall j | 0 <= j < |rest| ensures m < rest[j] {
      assert rest[j] in Elems(rest);
    }
  }

  lemma AscendingEmpty()
    ensures Ascending({}) == []
  {
  }

  lemma AscendingStep(s: set<nat>)
    requires s != {}
    ensures Least(s) in s && |s - {Least(s)}| < |s|
    ensures Ascending(s) == [Least(s)] + Ascending(s - {Least(s)})
  {
  }

  lemma SortedNoDup(xs: seq<nat>)
    requires Sorted(xs)
    ensures NoDup(xs)
  {
  }

  lemma {:induction false} SortedUnique(xs: seq<nat>, ys: seq<nat>)
    requires Sorted(xs) && Sorted(ys) && Elems(xs) == Elems(ys)
    ensures xs == ys
  {
    NoDupCard(xs);
    NoDupCard(ys);
    if xs != [] {
      assert xs[0] in Elems(ys);
      assert ys[0] in Elems(xs);
      var i :| 0 <= i < |ys| && ys[i] == xs[0];
      var j :| 0 <= j < |xs| && xs[j] == ys[0];
      assert xs[0] == ys[0];
      TailElems(xs);
      TailElems(ys);
      SortedUnique(xs[1..], ys[1..]);
      assert xs == [xs[0]] + xs[1..] && ys == [ys[0]] + ys[1..];
    }
  }

  lemma TailElems(xs: seq<nat>)
    requires xs != [] && Sorted(xs)
    ensures Sorted(xs[1..]) && Elems(xs[1..]) == Elems(xs) - {xs[0]}
  {
    forall x | x in Elems(xs) - {xs[0]} ensures x in xs[1..] {
      var i :| 0 <= i < |xs| && xs[i] == x;
      assert xs[1..][i - 1] == x;
    }
  }

  method FindLeast(s: set<nat>) returns (m: nat)
    requires s != {}
    ensures m == Least(s)
  {
    m :| m in s;
    var look := s - {m};
    while look != {}
      invariant look <= s && m in s
      invariant forall x :: x in s ==> m <= x || x in look
      decreases look
    {
      var y :| y in look;
      if y < m {
        m := y;
      }
      look := look - {y};
    }
  }

  // Ordered iteration, executable.
  method InOrder(s: set<nat>) returns (xs: seq<nat>)
    ensures xs == Ascending(s)
  {
    hide *;
    AscendingEmpty();
    xs := [];
    var rest := s;
    while rest != {}
      invariant xs + Ascending(rest) == Ascending(s)
      decreases |rest|
    {
      var m := FindLeast(rest);
      AscendingStep(rest);
      assert xs + ([m] + Ascending(rest - {m})) == xs + [m] + Ascending(rest - {m});
      xs := xs + [m];
      rest := rest - {m};
    }
  }
}
