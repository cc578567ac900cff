/** golang_task1/task1_01.go: counting occurrences into a package-level map
    that persists across calls, then returning some key whose count is 1. */
module SingleNumber {

  /** m[k], or 0 when k is absent (Go's zero value for a missing key). */
  function Get(m: map<int, int>, k: int): int {
    if k in m then m[k] else 0
  }

  /** The map after testMap[v]++ for each v of xs in turn. */
  function Counted(m: map<int, int>, xs: seq<int>): (r: map<int, int>)
    ensures m.Keys <= r.Keys
    ensures xs != [] ==> xs[|xs| - 1] in r
    decreases |xs|
  {
    if xs == [] then m
    else
      var before := Counted(m, xs[..|xs| - 1]);
      var v := xs[|xs| - 1];
      before[v := Get(before, v) + 1]
  }

  /** Counting adds to each key exactly its number of occurrences, and adds the values seen as keys. */
  lemma {:induction false} CountedAdds(m: map<int, int>, xs: seq<int>)
    ensures forall v :: Get(Counted(m, xs), v) == Get(m, v) + multiset(xs)[v]
    ensures forall v :: v in Counted(m, xs) <==> v in m || v in xs
    decreases |xs|
  {
    if xs != [] {
      var init := xs[..|xs| - 1];
      CountedAdds(m, init);
      assert xs == init + [xs[|xs| - 1]];
      assert multiset(xs) == multiset(init) + multiset{xs[|xs| - 1]};
    }
  }

  /** Two calls count as much as one call on both lists: nothing resets the map between calls. */
  lemma {:induction false} CountedAccumulates(m: map<int, int>, xs: seq<int>, ys: seq<int>)
    ensures Counted(Counted(m, xs), ys) == Counted(m, xs + ys)
    decreases |ys|
  {
    if ys == [] {
      assert xs + ys == xs;
    } else {
      var init := ys[..|ys| - 1];
      CountedAccumulates(m, xs, init);
      assert (xs + ys)[..|xs + ys| - 1] == xs + init;
    }
  }

  /** r is an admissible answer of the second loop: a key of count 1 if there is one, otherwise -1. */
  ghost predicate IsSingletonAnswer(m: map<int, int>, r: int) {
    if exists k :: k in m && m[k] == 1 then r in m && m[r] == 1 else r == -1
  }

  lemma SomeElement(s: set<int>)
    ensures s == {} || exists x :: x in s
  {
    if forall x :: x !in s {
      assert s == {};
    }
  }

  /** The second loop of test: visits the keys in an unspecified order (Go's
      map iteration order) and returns the first one whose count is 1. */
  method PickSingleton(m: map<int, int>) returns (r: int)
    ensures (exists k :: k in m && m[k] == 1) ==> r in m && m[r] == 1
    ensures (forall k :: k in m ==> m[k] != 1) ==> r == -1
  {
    var keys := m.Keys;
    while keys != {}
      invariant keys <= m.Keys
      invariant forall k :: k in m && k !in keys ==> m[k] != 1
      decreases keys
    {
      SomeElement(keys);
      var num :| num in keys;
      if m[num] == 1 {
        return num;
      }
      keys := keys - {num};
    }
    return -1;
  }

  /** The package-level testMap, as an object that callers share. */
  class Tally {
    var testMap: map<int, int>

    /** make(map[int]int): the map starts empty. */
    constructor ()
      ensures testMap == map[]
    {
      testMap := map[];
    }

    /** test: adds the occurrences of newList to testMap, then returns some key of count 1, or -1. */
    method Test(newList: seq<int>) returns (r: int)
      modifies this
      ensures testMap == Counted(old(testMap), newList)
      ensures forall v :: Get(testMap, v) == Get(old(testMap), v) + multiset(newList)[v]
      ensures IsSingletonAnswer(testMap, r)
    {
      var i := 0;
      while i < |newList|
        invariant 0 <= i <= |newList|
        invariant testMap == Counted(old(testMap), newList[..i])
      {
        var value := newList[i];
        assert newList[..i + 1][..i] == newList[..i];
        testMap := testMap[value := Get(testMap, value) + 1];
        i := i + 1;
      }
      assert newList[..i] == newList;
      CountedAdds(old(testMap), newList);
      r := PickSingleton(testMap);
    }
  }

  /** On a fresh map the demo list [1, 1, 2, 2, 3, 4, 4] has 3 as its only key of count 1. */
  lemma DemoFreshMap()
    ensures forall k :: Get(Counted(map[], [1, 1, 2, 2, 3, 4, 4]), k) == 1 <==> k == 3
  {
    var xs := [1, 1, 2, 2, 3, 4, 4];
    CountedAdds(map[], xs);
    assert multiset(xs) == multiset{1, 1, 2, 2, 3, 4, 4};
  }
}
