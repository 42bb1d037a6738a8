/** Order-preserving selection from a sequence: the shape shared by the
    fetch loop (keep the cities whose call succeeded) and by the humidity
    filter (keep the rows under the threshold). */
module Selection {

  /** The elements of `s` that satisfy `p`, in their original order. */
  function Filter<T>(p: T -> bool, s: seq<T>): (r: seq<T>)
    ensures |r| <= |s|
    ensures forall x :: x in r ==> x in s && p(x)
    decreases |s|
  {
    if s == [] then []
    else Filter(p, s[..|s| - 1]) + (if p(s[|s| - 1]) then [s[|s| - 1]] else [])
  }

  /** The positions in `s` of the elements `p` keeps, in ascending order. */
  function Positions<T>(p: T -> bool, s: seq<T>): seq<nat>
    decreases |s|
  {
    if s == [] then []
    else Positions(p, s[..|s| - 1]) + (if p(s[|s| - 1]) then [|s| - 1] else [])
  }

  predicate Ascending(xs: seq<nat>)
  {
    forall i, j :: 0 <= i < j < |xs| ==> xs[i] < xs[j]
  }

  /** The positions are ascending, in range, and hold exactly where `p` holds. */
  lemma {:induction false} PositionsExact<T>(p: T -> bool, s: seq<T>)
    ensures Ascending(Positions(p, s))
    ensures forall j :: 0 <= j < |Positions(p, s)| ==> Positions(p, s)[j] < |s|
    ensures forall i :: 0 <= i < |s| ==> (p(s[i]) <==> i in Positions(p, s))
    decreases |s|
  {
    if s != [] {
      var n := |s| - 1;
      var init, last := s[..n], s[n];
      PositionsExact(p, init);
      var pos' := Positions(p, init);
      var tail: seq<nat> := if p(last) then [n] else [];
      assert Positions(p, s) == pos' + tail;
      forall i | 0 <= i < |s|
        ensures p(s[i]) <==> i in Positions(p, s)
      {
        if i < n {
          assert s[i] == init[i];
          assert i !in tail;
        } else {
          assert i !in pos';
        }
      }
    }
  }

  /** The j-th kept element is the one at the j-th position. */
  lemma {:induction false} FilterAtPositions<T>(p: T -> bool, s: seq<T>)
    ensures |Positions(p, s)| == |Filter(p, s)|
    ensures forall j :: 0 <= j < |Positions(p, s)| ==>
              Positions(p, s)[j] < |s| && Filter(p, s)[j] == s[Positions(p, s)[j]]
    decreases |s|
  {
    if s != [] {
      var n := |s| - 1;
      var init, last := s[..n], s[n];
      FilterAtPositions(p, init);
      var pos', kept' := Positions(p, init), Filter(p, init);
      assert Positions(p, s) == pos' + (if p(last) then [n] else []);
      assert Filter(p, s) == kept' + (if p(last) then [last] else []);
      assert forall j :: 0 <= j < |pos'| ==> s[pos'[j]] == init[pos'[j]];
    }
  }

  /** `Filter(p, s)` is exactly the subsequence of `s` at the positions where `p`
      holds: the j-th kept element is the one at the j-th such position, and a
      position is selected if and only if `p` holds there. */
  lemma FilterPositions<T>(p: T -> bool, s: seq<T>)
    ensures |Positions(p, s)| == |Filter(p, s)|
    ensures Ascending(Positions(p, s))
    ensures forall j :: 0 <= j < |Positions(p, s)| ==>
              Positions(p, s)[j] < |s| && Filter(p, s)[j] == s[Positions(p, s)[j]]
    ensures forall i :: 0 <= i < |s| ==> (p(s[i]) <==> i in Positions(p, s))
  {
    PositionsExact(p, s);
    FilterAtPositions(p, s);
  }

  /** Every element is either kept by `p` or kept by its complement `q`. */
  lemma {:induction false} FilterPartition<T>(p: T -> bool, q: T -> bool, s: seq<T>)
    requires forall x :: x in s ==> q(x) == !p(x)
    ensures |Filter(p, s)| + |Filter(q, s)| == |s|
    decreases |s|
  {
    if s != [] {
      var init := s[..|s| - 1];
      assert forall x :: x in init ==> x in s;
      FilterPartition(p, q, init);
    }
  }

  /** Two predicates that agree on the elements of `s` select the same elements. */
  lemma {:induction false} FilterCongruent<T>(p: T -> bool, q: T -> bool, s: seq<T>)
    requires forall x :: x in s ==> p(x) == q(x)
    ensures Filter(p, s) == Filter(q, s)
    decreases |s|
  {
    if s != [] {
      var init := s[..|s| - 1];
      assert forall x :: x in init ==> x in s;
      FilterCongruent(p, q, init);
    }
  }

  /** `f` applied to every element of `s`, in order. */
  function Map<T, U>(f: T -> U, s: seq<T>): (r: seq<U>)
    ensures |r| == |s|
    ensures forall i :: 0 <= i < |s| ==> r[i] == f(s[i])
    decreases |s|
  {
    if s == [] then [] else Map(f, s[..|s| - 1]) + [f(s[|s| - 1])]
  }

  lemma MapSnoc<T, U>(f: T -> U, s: seq<T>, y: T)
    ensures Map(f, s + [y]) == Map(f, s) + [f(y)]
  {
    assert (s + [y])[..|s|] == s;
  }

  /** Filtering after mapping is mapping after filtering by the composed test `q`. */
  lemma {:induction false} FilterMap<T, U>(f: T -> U, p: U -> bool, q: T -> bool, s: seq<T>)
    requires forall x :: x in s ==> q(x) == p(f(x))
    ensures Filter(p, Map(f, s)) == Map(f, Filter(q, s))
    decreases |s|
  {
    if s != [] {
      var n := |s| - 1;
      var init, last := s[..n], s[n];
      forall x | x in init
        ensures q(x) == p(f(x))
      {
        assert x in s;
      }
      FilterMap(f, p, q, init);
      var mapped, mapped' := Map(f, s), Map(f, init);
      assert mapped == mapped' + [f(last)];
      assert mapped[..n] == mapped';
      assert Filter(p, mapped) == Filter(p, mapped') + (if p(f(last)) then [f(last)] else []);
      assert q(last) == p(f(last));
      if q(last) {
        assert Filter(q, s) == Filter(q, init) + [last];
        MapSnoc(f, Filter(q, init), last);
      } else {
        assert Filter(q, s) == Filter(q, init);
      }
    }
  }
}
