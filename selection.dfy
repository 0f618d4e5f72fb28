/** The pending word selection: a list of word indices that clicking a word
    toggles, kept in ascending order by re-sorting after every insertion. */
module Selection {

  predicate Sorted(s: seq<int>) {
    forall i, j :: 0 <= i < j < |s| ==> s[i] <= s[j]
  }

  /** Sorted ascending and free of duplicates. */
  predicate StrictlyIncreasing(s: seq<int>) {
    forall i, j :: 0 <= i < j < |s| ==> s[i] < s[j]
  }

  /** Inserts `x` before the first element not below it. */
  function InsertSorted(s: seq<int>, x: int): seq<int> {
    if s == [] then [x]
    else if x <= s[0] then [x] + s
    else [s[0]] + InsertSorted(s[1..], x)
  }

  /** `[...s].sort((a, b) => a - b)`, as insertion sort. A numeric sort of
      integers has exactly one possible result, so the algorithm the engine
      uses does not matter. */
  function SortAsc(s: seq<int>): seq<int> {
    if s == [] then [] else InsertSorted(SortAsc(s[..|s| - 1]), s[|s| - 1])
  }

  /** Insertion adds exactly `x`. */
  lemma {:induction false} InsertSortedElems(s: seq<int>, x: int)
    ensures multiset(InsertSorted(s, x)) == multiset(s) + multiset{x}
  {
    if s != [] && x > s[0] {
      InsertSortedElems(s[1..], x);
      assert s == [s[0]] + s[1..];
    }
  }

  /** Insertion adds `x` and keeps every element. */
  lemma {:induction false} InsertSortedMembers(s: seq<int>, x: int)
    ensures forall y :: y in InsertSorted(s, x) <==> y == x || y in s
  {
    if s != [] && x > s[0] {
      InsertSortedMembers(s[1..], x);
      assert s == [s[0]] + s[1..];
    }
  }

  /** Insertion into a sorted list gives a sorted list. */
  lemma {:induction false} InsertSortedSorted(s: seq<int>, x: int)
    requires Sorted(s)
    ensures Sorted(InsertSorted(s, x))
  {
    if s != [] && x > s[0] {
      InsertSortedSorted(s[1..], x);
      InsertSortedMembers(s[1..], x);
      var r := InsertSorted(s[1..], x);
      forall k | 0 <= k < |r|
        ensures s[0] <= r[k]
      {
        assert r[k] in r;
      }
      assert InsertSorted(s, x) == [s[0]] + r;
    }
  }

  /** The sort returns a sorted permutation of its input. */
  lemma {:induction false} SortAscSpec(s: seq<int>)
    ensures Sorted(SortAsc(s))
    ensures multiset(SortAsc(s)) == multiset(s)
  {
    if s != [] {
      SortAscSpec(s[..|s| - 1]);
      InsertSortedSorted(SortAsc(s[..|s| - 1]), s[|s| - 1]);
      InsertSortedElems(SortAsc(s[..|s| - 1]), s[|s| - 1]);
      assert s == s[..|s| - 1] + [s[|s| - 1]];
    }
  }

  /** The copy-and-sort of the save handler: a sorted permutation of `s`,
      which is `s` itself when `s` is already sorted. */
  method SortedCopy(s: seq<int>) returns (r: seq<int>)
    ensures Sorted(r) && multiset(r) == multiset(s)
    ensures Sorted(s) ==> r == s
  {
    SortAscSpec(s);
    if Sorted(s) {
      SortAscOfSorted(s);
    }
    r := SortAsc(s);
  }

  /** Inserting an element no smaller than every element appends it. */
  lemma {:induction false} InsertSortedAtEnd(s: seq<int>, x: int)
    requires Sorted(s)
    requires forall k :: 0 <= k < |s| ==> s[k] <= x
    ensures InsertSorted(s, x) == s + [x]
  {
    if s != [] {
      if x <= s[0] {
        assert s[0] == x;
        assert forall k :: 0 <= k < |s| ==> s[k] == x;
        assert [x] + s == s + [x];
      } else {
        InsertSortedAtEnd(s[1..], x);
        assert [s[0]] + (s[1..] + [x]) == s + [x];
      }
    }
  }

  /** Sorting an already sorted list leaves it as it is. */
  lemma {:induction false} SortAscOfSorted(s: seq<int>)
    requires Sorted(s)
    ensures SortAsc(s) == s
  {
    if s != [] {
      var init := s[..|s| - 1];
      SortAscOfSorted(init);
      InsertSortedAtEnd(init, s[|s| - 1]);
      assert init + [s[|s| - 1]] == s;
    }
  }

  /** Inserting a new element into a duplicate-free sorted list keeps it duplicate-free. */
  lemma {:induction false} InsertSortedStrict(s: seq<int>, x: int)
    requires StrictlyIncreasing(s) && x !in s
    ensures StrictlyIncreasing(InsertSorted(s, x))
  {
    if s != [] && x > s[0] {
      InsertSortedStrict(s[1..], x);
      InsertSortedMembers(s[1..], x);
      var r := InsertSorted(s[1..], x);
      forall k | 0 <= k < |r|
        ensures s[0] < r[k]
      {
        assert r[k] in r;
      }
      assert InsertSorted(s, x) == [s[0]] + r;
    } else if s != [] {
      assert s[0] in s;
    }
  }

  /** `s.filter((i) => i !== x)`. */
  function Without(s: seq<int>, x: int): (r: seq<int>)
    ensures forall y :: y in r <==> y in s && y != x
    ensures StrictlyIncreasing(s) ==> StrictlyIncreasing(r)
  {
    if s == [] then []
    else if s[0] == x then Without(s[1..], x)
    else
      var rest := Without(s[1..], x);
      assert forall k :: 0 <= k < |rest| ==> rest[k] in s[1..];
      [s[0]] + rest
  }

  /** The click handler's update: drop `x` when it is selected, otherwise add
      it and re-sort. */
  function Toggle(s: seq<int>, x: int): seq<int> {
    if x in s then Without(s, x) else SortAsc(s + [x])
  }

  /** On a duplicate-free sorted selection, adding re-sorts by inserting in place. */
  lemma AddIsInsert(s: seq<int>, x: int)
    requires StrictlyIncreasing(s)
    ensures SortAsc(s + [x]) == InsertSorted(s, x)
  {
    assert (s + [x])[..|s|] == s;
    SortAscOfSorted(s);
  }

  /** Toggling flips exactly the membership of `x` and keeps a duplicate-free
      sorted selection duplicate-free and sorted. */
  lemma ToggleSpec(s: seq<int>, x: int)
    requires StrictlyIncreasing(s)
    ensures StrictlyIncreasing(Toggle(s, x))
    ensures forall y :: y in Toggle(s, x) <==> (if y == x then x !in s else y in s)
  {
    if x !in s {
      AddIsInsert(s, x);
      InsertSortedStrict(s, x);
      InsertSortedMembers(s, x);
    }
  }

  lemma {:induction false} WithoutAbsent(s: seq<int>, x: int)
    requires x !in s
    ensures Without(s, x) == s
  {
    if s != [] {
      WithoutAbsent(s[1..], x);
      assert [s[0]] + s[1..] == s;
    }
  }

  lemma {:induction false} InsertWithout(s: seq<int>, x: int)
    requires StrictlyIncreasing(s) && x in s
    ensures InsertSorted(Without(s, x), x) == s
  {
    if s[0] == x {
      assert x !in s[1..];
      WithoutAbsent(s[1..], x);
      assert [x] + s[1..] == s;
    } else {
      assert x in s[1..];
      InsertWithout(s[1..], x);
      assert [s[0]] + s[1..] == s;
    }
  }

  lemma {:induction false} WithoutInsert(s: seq<int>, x: int)
    requires Sorted(s) && x !in s
    ensures Without(InsertSorted(s, x), x) == s
  {
    if s == [] {
    } else if x <= s[0] {
      WithoutAbsent(s, x);
    } else {
      WithoutInsert(s[1..], x);
      assert [s[0]] + s[1..] == s;
    }
  }

  /** Clicking the same word twice restores the selection. */
  lemma ToggleTwice(s: seq<int>, x: int)
    requires StrictlyIncreasing(s)
    ensures Toggle(Toggle(s, x), x) == s
  {
    if x in s {
      var w := Without(s, x);
      AddIsInsert(w, x);
      InsertWithout(s, x);
    } else {
      AddIsInsert(s, x);
      InsertSortedMembers(s, x);
      WithoutInsert(s, x);
    }
  }
}
