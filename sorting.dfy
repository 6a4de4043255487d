/**
  Python's `sorted(xs, key=..., reverse=...)` and SQL `ORDER BY` as a stable
  insertion sort over an arbitrary ordering `le`, with the three facts that
  characterise a stable sort: the result is ordered, it is a permutation of the
  input, and elements that compare equal keep their input order.
*/
module Sorting {
  import opened Common


  /** `le` is total and transitive: the orders `sorted` is given through a key. */
  ghost predicate TotalPreorder<T(!new)>(le: (T, T) -> bool) {
    && (forall a, b :: le(a, b) || le(b, a))
    && (forall a, b, c {:trigger le(a, b), le(b, c), le(a, c)} :: le(a, b) && le(b, c) ==> le(a, c))
  }

  predicate SortedBy<T>(s: seq<T>, le: (T, T) -> bool) {
    forall i, j :: 0 <= i < j < |s| ==> le(s[i], s[j])
  }

  /** Places `x` after every element of `s` that is not above it. */
  function Insert<T>(x: T, s: seq<T>, le: (T, T) -> bool): seq<T>
  {
    if s == [] then [x]
    else if le(s[0], x) then [s[0]] + Insert(x, s[1..], le)
    else [x] + s
  }

  /** A stable sort: each element is inserted after the earlier ones it ties with. */
  function Sort<T>(s: seq<T>, le: (T, T) -> bool): seq<T>
  {
    if s == [] then []
    else Insert(s[|s| - 1], Sort(s[..|s| - 1], le), le)
  }

  lemma {:induction false} InsertPermutes<T>(x: T, s: seq<T>, le: (T, T) -> bool)
    ensures multiset(Insert(x, s, le)) == multiset(s) + multiset{x}
    decreases |s|
  {
    if s != [] && le(s[0], x) {
      InsertPermutes(x, s[1..], le);
      assert s == [s[0]] + s[1..];
    }
  }

  /** `Sort` returns a permutation of its input. */
  lemma {:induction false} SortPermutes<T>(s: seq<T>, le: (T, T) -> bool)
    ensures multiset(Sort(s, le)) == multiset(s)
    decreases |s|
  {
    if s != [] {
      SortPermutes(s[..|s| - 1], le);
      InsertPermutes(s[|s| - 1], Sort(s[..|s| - 1], le), le);
      assert s == s[..|s| - 1] + [s[|s| - 1]];
    }
  }

  lemma {:induction false} InsertSorted<T(!new)>(x: T, s: seq<T>, le: (T, T) -> bool)
    requires TotalPreorder(le) && SortedBy(s, le)
    ensures SortedBy(Insert(x, s, le), le)
    decreases |s|
  {
    if s != [] {
      if le(s[0], x) {
        InsertSorted(x, s[1..], le);
        InsertPermutes(x, s[1..], le);
        var tail := Insert(x, s[1..], le);
        forall j | 0 <= j < |tail|
          ensures le(s[0], tail[j])
        {
          assert tail[j] in multiset(tail);
          if tail[j] != x {
            assert tail[j] in multiset(s[1..]);
            var k :| 0 <= k < |s[1..]| && s[1..][k] == tail[j];
            assert s[k + 1] == tail[j];
          }
        }
      } else {
        assert le(x, s[0]);
      }
    }
  }

  /** `Sort` orders its result. */
  lemma {:induction false} SortSorted<T(!new)>(s: seq<T>, le: (T, T) -> bool)
    requires TotalPreorder(le)
    ensures SortedBy(Sort(s, le), le)
    decreases |s|
  {
    if s != [] {
      SortSorted(s[..|s| - 1], le);
      InsertSorted(s[|s| - 1], Sort(s[..|s| - 1], le), le);
    }
  }

  predicate Tied<T>(a: T, b: T, le: (T, T) -> bool) {
    le(a, b) && le(b, a)
  }

  /** The elements of `s` that compare equal to `v`, in their order in `s`. */
  function Ties<T>(s: seq<T>, v: T, le: (T, T) -> bool): seq<T>
  {
    if s == [] then [] else (if Tied(s[0], v, le) then [s[0]] else []) + Ties(s[1..], v, le)
  }

  function TiesOf<T>(x: T, v: T, le: (T, T) -> bool): seq<T>
  {
    if Tied(x, v, le) then [x] else []
  }

  lemma {:induction false} TiesAppend<T>(a: seq<T>, b: seq<T>, v: T, le: (T, T) -> bool)
    ensures Ties(a + b, v, le) == Ties(a, v, le) + Ties(b, v, le)
    decreases |a|
  {
    if a == [] {
      assert a + b == b;
    } else {
      var h := TiesOf(a[0], v, le);
      assert (a + b)[0] == a[0];
      assert (a + b)[1..] == a[1..] + b;
      assert Ties(a + b, v, le) == h + Ties(a[1..] + b, v, le);
      TiesAppend(a[1..], b, v, le);
      AppendAssoc(h, Ties(a[1..], v, le), Ties(b, v, le));
    }
  }

  /** Elements that all lie strictly above something tied with `v` are not tied with `v`. */
  lemma {:induction false} NoTiesAbove<T(!new)>(x: T, s: seq<T>, v: T, le: (T, T) -> bool)
    requires TotalPreorder(le) && Tied(x, v, le)
    requires forall j :: 0 <= j < |s| ==> !le(s[j], x)
    ensures Ties(s, v, le) == []
    decreases |s|
  {
    if s != [] {
      NoTiesAbove(x, s[1..], v, le);
    }
  }

  lemma {:induction false} InsertTies<T(!new)>(x: T, s: seq<T>, v: T, le: (T, T) -> bool)
    requires TotalPreorder(le) && SortedBy(s, le)
    ensures Ties(Insert(x, s, le), v, le) == Ties(s, v, le) + TiesOf(x, v, le)
    decreases |s|
  {
    if s == [] {
    } else if le(s[0], x) {
      InsertTies(x, s[1..], v, le);
      InsertTiesSkip(x, s, v, le);
    } else {
      InsertTiesFront(x, s, v, le);
    }
  }

  lemma InsertTiesSkip<T>(x: T, s: seq<T>, v: T, le: (T, T) -> bool)
    requires s != [] && le(s[0], x)
    requires Ties(Insert(x, s[1..], le), v, le) == Ties(s[1..], v, le) + TiesOf(x, v, le)
    ensures Ties(Insert(x, s, le), v, le) == Ties(s, v, le) + TiesOf(x, v, le)
  {
    var head := Ties([s[0]], v, le);
    var rest := Insert(x, s[1..], le);
    assert Insert(x, s, le) == [s[0]] + rest;
    TiesAppend([s[0]], rest, v, le);
    assert s == [s[0]] + s[1..];
    TiesAppend([s[0]], s[1..], v, le);
    calc {
      Ties(Insert(x, s, le), v, le);
      head + Ties(rest, v, le);
      head + (Ties(s[1..], v, le) + TiesOf(x, v, le));
      (head + Ties(s[1..], v, le)) + TiesOf(x, v, le);
      Ties(s, v, le) + TiesOf(x, v, le);
    }
  }

  lemma InsertTiesFront<T(!new)>(x: T, s: seq<T>, v: T, le: (T, T) -> bool)
    requires TotalPreorder(le) && SortedBy(s, le)
    requires s != [] && !le(s[0], x)
    ensures Ties(Insert(x, s, le), v, le) == Ties(s, v, le) + TiesOf(x, v, le)
  {
    assert Insert(x, s, le) == [x] + s;
    TiesAppend([x], s, v, le);
    if Tied(x, v, le) {
      forall j | 0 <= j < |s|
        ensures !le(s[j], x)
      {
        if j > 0 {
          assert le(s[0], s[j]);
        }
      }
      NoTiesAbove(x, s, v, le);
    }
  }

  /** Stability: the elements tied with any `v` come out in the order they went in. */
  lemma {:induction false} SortStable<T(!new)>(s: seq<T>, v: T, le: (T, T) -> bool)
    requires TotalPreorder(le)
    ensures Ties(Sort(s, le), v, le) == Ties(s, v, le)
    decreases |s|
  {
    if s != [] {
      var init := s[..|s| - 1];
      var x := s[|s| - 1];
      assert Sort(s, le) == Insert(x, Sort(init, le), le);
      SortStable(init, v, le);
      SortSorted(init, le);
      InsertTies(x, Sort(init, le), v, le);
      assert s == init + [x];
      TiesAppend(init, [x], v, le);
      assert Ties([x], v, le) == TiesOf(x, v, le);
    }
  }

  /** Sorting an already ordered sequence leaves it as it is. */
  lemma {:induction false} SortOfSorted<T(!new)>(s: seq<T>, le: (T, T) -> bool)
    requires TotalPreorder(le) && SortedBy(s, le)
    ensures Sort(s, le) == s
    decreases |s|
  {
    if s != [] {
      var init := s[..|s| - 1];
      var x := s[|s| - 1];
      assert Sort(s, le) == Insert(x, Sort(init, le), le);
      SortOfSorted(init, le);
      InsertAtEnd(x, init, le);
      assert init + [x] == s;
    }
  }

  lemma {:induction false} InsertAtEnd<T>(x: T, s: seq<T>, le: (T, T) -> bool)
    requires forall j :: 0 <= j < |s| ==> le(s[j], x)
    ensures Insert(x, s, le) == s + [x]
    decreases |s|
  {
    if s != [] {
      InsertAtEnd(x, s[1..], le);
      assert s == [s[0]] + s[1..];
    }
  }

  /** `le` orders distinct elements strictly: only equal elements tie. */
  ghost predicate Antisymmetric<T(!new)>(le: (T, T) -> bool) {
    forall a, b :: le(a, b) && le(b, a) ==> a == b
  }

  /** Two ordered sequences with the same elements are the same sequence. */
  lemma {:induction false} SortedUnique<T(!new)>(s: seq<T>, t: seq<T>, le: (T, T) -> bool)
    requires TotalPreorder(le) && Antisymmetric(le)
    requires SortedBy(s, le) && SortedBy(t, le) && multiset(s) == multiset(t)
    ensures s == t
    decreases |s|
  {
    assert |s| == |multiset(s)| == |multiset(t)| == |t|;
    if s != [] {
      SortedHeads(s, t, le);
      var x := s[0];
      assert s == [x] + s[1..] && t == [x] + t[1..];
      assert multiset(s[1..]) == multiset(s) - multiset{x};
      assert multiset(t[1..]) == multiset(t) - multiset{x};
      SortedUnique(s[1..], t[1..], le);
    }
  }

  /** The first element of an ordered sequence is decided by its elements alone. */
  lemma SortedHeads<T(!new)>(s: seq<T>, t: seq<T>, le: (T, T) -> bool)
    requires TotalPreorder(le) && Antisymmetric(le)
    requires SortedBy(s, le) && SortedBy(t, le) && multiset(s) == multiset(t) && s != [] && t != []
    ensures s[0] == t[0]
  {
    assert s[0] in multiset(t);
    var j :| 0 <= j < |t| && t[j] == s[0];
    assert t[0] in multiset(s);
    var i :| 0 <= i < |s| && s[i] == t[0];
    assert le(t[0], s[0]) by { if j > 0 { assert le(t[0], t[j]); } }
    assert le(s[0], t[0]) by { if i > 0 { assert le(s[0], s[i]); } }
  }

  /** Under an order where only equal elements tie, sorting forgets the input order. */
  lemma SortPermutationInvariant<T(!new)>(s: seq<T>, t: seq<T>, le: (T, T) -> bool)
    requires TotalPreorder(le) && Antisymmetric(le)
    ensures Sort(s, le) == Sort(t, le) <==> multiset(s) == multiset(t)
  {
    SortPermutes(s, le);
    SortPermutes(t, le);
    if multiset(s) == multiset(t) {
      SortSorted(s, le);
      SortSorted(t, le);
      SortedUnique(Sort(s, le), Sort(t, le), le);
    }
  }
}
