/** Failure-carrying values and sequence filtering shared by every module of the model. */
module Common {

  /** Python's `None` / a present value. */
  datatype Option<T> = None | Some(value: T)

  /** A value or the error a Python call would raise instead of returning it. */
  datatype Result<T, E> = Ok(value: T) | Err(error: E)

  /**
    The elements of `s` that satisfy `p`, in order: what a loop appending the
    matching elements to a list builds. Defined from the back, as such a loop
    grows its list.
  */
  function Filter<T(!new)>(s: seq<T>, p: T -> bool): (r: seq<T>)
    ensures |r| <= |s|
    ensures forall x :: x in r <==> x in s && p(x)
  {
    if s == [] then []
    else
      var init := s[..|s| - 1];
      assert s == init + [s[|s| - 1]];
      Filter(init, p) + (if p(s[|s| - 1]) then [s[|s| - 1]] else [])
  }

  /** One more element extends the filtered list by that element when it matches. */
  lemma FilterSnoc<T(!new)>(s: seq<T>, x: T, p: T -> bool)
    ensures Filter(s + [x], p) == Filter(s, p) + (if p(x) then [x] else [])
  {
    assert (s + [x])[..|s|] == s;
  }

  /** No element occurs twice. */
  ghost predicate Distinct<T>(s: seq<T>) {
    forall i, j :: 0 <= i < j < |s| ==> s[i] != s[j]
  }

  /** Distinct elements stay distinct after filtering. */
  lemma {:induction false} FilterDistinct<T(!new)>(s: seq<T>, p: T -> bool)
    requires Distinct(s)
    ensures Distinct(Filter(s, p))
    decreases |s|
  {
    if s != [] {
      var init := s[..|s| - 1];
      FilterDistinct(init, p);
      var r := Filter(s, p);
      var ri := Filter(init, p);
      var x := s[|s| - 1];
      if p(x) {
        assert r == ri + [x];
        assert x !in init;
        assert x !in ri;
        forall i, j | 0 <= i < j < |r| ensures r[i] != r[j] {
          assert r[i] == ri[i];
          if j == |r| - 1 {
            assert r[j] == x;
            assert ri[i] in ri;
          } else {
            assert r[j] == ri[j];
          }
        }
      } else {
        assert r == ri;
      }
    }
  }

  /** A slice of `x + y` that starts at or past the end of `x` is a slice of `y`, and one that ends before it a slice of `x`. */
  lemma SliceOfAppend<T>(x: seq<T>, y: seq<T>, a: nat, b: nat)
    requires a <= b <= |x| + |y|
    ensures b <= |x| ==> (x + y)[a..b] == x[a..b]
    ensures |x| <= a ==> (x + y)[a..b] == y[a - |x|..b - |x|]
  {
  }

  lemma AppendAssoc<T>(x: seq<T>, y: seq<T>, z: seq<T>)
    ensures x + y + z == x + (y + z)
  {
  }

  /** A prefix of a suffix is a slice. */
  lemma SliceOfSlice<T>(s: seq<T>, a: nat, k: nat)
    requires a + k <= |s|
    ensures s[a..][..k] == s[a..a + k]
  {
  }

  lemma SuffixOfAppend<T>(x: seq<T>, y: seq<T>)
    ensures (x + y)[|x|..] == y
  {
  }

  lemma RemoveAbsent<K, V>(m: map<K, V>, k: K)
    requires k !in m
    ensures m - {k} == m
  {
  }

  lemma PlaceThenRemove<K, V>(m: map<K, V>, k: K, v: V)
    requires k !in m
    ensures m[k := v] - {k} == m
  {
  }

  lemma MinusUnion<K, V>(m: map<K, V>, a: set<K>, k: K)
    ensures m - (a + {k}) == m - a - {k}
  {
  }

  /** In a list without repeats, the next element is not among those before it. */
  lemma NextUnseen<T>(s: seq<T>, i: nat)
    requires Distinct(s) && i < |s|
    ensures s[i] !in s[..i] && s[..i + 1] == s[..i] + [s[i]]
  {
  }

  /** One more image appended to the images of a prefix gives the images of the longer prefix. */
  lemma MapSnoc<A, B>(out: seq<B>, xs: seq<A>, i: nat, f: A -> B)
    requires i < |xs| && |out| == i && forall j :: 0 <= j < i ==> out[j] == f(xs[j])
    ensures forall j :: 0 <= j <= i ==> (out + [f(xs[i])])[j] == f(xs[j])
  {
  }

  /** The parts of a concatenation are found where they were put. */
  lemma HeadThenTail<T>(h: seq<T>, t: seq<T>)
    ensures (h + t)[..|h|] == h
    ensures forall i :: 0 <= i < |t| ==> (h + t)[|h| + i] == t[i]
  {
  }
}
