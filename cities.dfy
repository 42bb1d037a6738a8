/** The city list: every sampled coordinate is resolved to the name of its
    nearest city, and a name is added to `cities` only if it is not already
    there. The geocoding lookup is outside the model; its results, one per
    coordinate and in sampling order, are the input. */
module Cities {

  predicate NoDuplicates(s: seq<string>)
  {
    forall i, j :: 0 <= i < j < |s| ==> s[i] != s[j]
  }

  /** The names of `names` whose earlier part does not already contain them,
      in order: `names[k]` is kept exactly when it does not occur in `names[..k]`. */
  function FirstOccurrences(names: seq<string>): (r: seq<string>)
    ensures forall x :: x in r <==> x in names
    ensures NoDuplicates(r)
    ensures |r| <= |names|
    decreases |names|
  {
    if names == [] then []
    else
      var init := names[..|names| - 1];
      var last := names[|names| - 1];
      FirstOccurrences(init) + (if last in init then [] else [last])
  }

  /** The position of the first occurrence of `x` in `s`. */
  function FirstIndex(s: seq<string>, x: string): (k: nat)
    requires x in s
    ensures k < |s| && s[k] == x && x !in s[..k]
  {
    if s[0] == x then 0
    else
      var k' := FirstIndex(s[1..], x);
      assert s[..k' + 1] == [s[0]] + s[1..][..k'];
      k' + 1
  }

  /** The loop of the script: visit the resolved names in order and append each
      one the list does not hold yet. */
  method CollectCities(resolved: seq<string>) returns (cities: seq<string>)
    ensures cities == FirstOccurrences(resolved)
    ensures NoDuplicates(cities)
    ensures forall x :: x in cities <==> x in resolved
  {
    cities := [];
    for k := 0 to |resolved|
      invariant cities == FirstOccurrences(resolved[..k])
    {
      var city := resolved[k];
      assert resolved[..k + 1][..k] == resolved[..k];
      if city !in cities {
        cities := cities + [city];
      }
    }
    assert resolved[..|resolved|] == resolved;
  }

  lemma FirstIndexUnique(s: seq<string>, x: string, k: nat)
    requires k < |s| && s[k] == x && x !in s[..k]
    ensures FirstIndex(s, x) == k
  {
  }

  /** Every resolved name occurs in the list exactly once. */
  lemma {:induction false} FirstOccurrencesOnce(names: seq<string>, x: string)
    requires x in names
    ensures multiset(FirstOccurrences(names))[x] == 1
    decreases |names|
  {
    var init := names[..|names| - 1];
    var last := names[|names| - 1];
    if x in init {
      FirstOccurrencesOnce(init, x);
      assert x in FirstOccurrences(init);
    } else {
      assert x == last;
      assert x !in FirstOccurrences(init);
      assert multiset(FirstOccurrences(init))[x] == 0;
    }
  }

  /** The list is ordered by first occurrence in the resolved names, so each kept
      name stands where its first resolution put it. */
  lemma {:induction false} FirstOccurrencesOrder(names: seq<string>)
    ensures forall i, j :: 0 <= i < j < |FirstOccurrences(names)| ==>
              FirstIndex(names, FirstOccurrences(names)[i]) < FirstIndex(names, FirstOccurrences(names)[j])
    decreases |names|
  {
    if names != [] {
      var init := names[..|names| - 1];
      var last := names[|names| - 1];
      var r' := FirstOccurrences(init);
      var r := FirstOccurrences(names);
      FirstOccurrencesOrder(init);
      forall y | y in init
        ensures FirstIndex(names, y) == FirstIndex(init, y)
      {
        var k := FirstIndex(init, y);
        assert names[..k] == init[..k];
        FirstIndexUnique(names, y, k);
      }
      forall i, j | 0 <= i < j < |r|
        ensures FirstIndex(names, r[i]) < FirstIndex(names, r[j])
      {
        assert r[i] == r'[i] && r[i] in init;
        if j < |r'| {
          assert r[j] == r'[j] && r[j] in init;
        } else {
          assert r[j] == last && last !in init;
          assert names[..|names| - 1] == init;
          FirstIndexUnique(names, last, |names| - 1);
        }
      }
    }
  }

  /** The scenario where two coordinates resolve to the same city. */
  lemma TokyoParis()
    ensures FirstOccurrences(["tokyo", "tokyo", "paris"]) == ["tokyo", "paris"]
  {
    var s := ["tokyo", "tokyo", "paris"];
    assert s[..2] == ["tokyo", "tokyo"];
    assert s[..2][..1] == ["tokyo"];
    assert s[..2][..1][..0] == [];
  }
}
