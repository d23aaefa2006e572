/** Sequences ordered by an integer key.

    Both `TvShow._sort` and `Season.sort` call Python's
    `list.sort(key=lambda x: x.number)`, a stable sort. SortByKey is that
    sort as a function (stable insertion sort, inserting the elements from
    left to right), StableSort computes it with loops, and the lemmas say
    what sorting an already sorted list with one element appended gives. */
module KeyedSeq {

  /** Keys never decrease from left to right. */
  predicate Sorted<T>(s: seq<T>, key: T -> int) {
    forall i, j :: 0 <= i < j < |s| ==> key(s[i]) <= key(s[j])
  }

  /** Keys strictly increase from left to right: sorted and free of
      duplicate keys. */
  predicate Ascending<T>(s: seq<T>, key: T -> int) {
    forall i, j :: 0 <= i < j < |s| ==> key(s[i]) < key(s[j])
  }

  /** Some element of s has key k. */
  predicate HasKey<T>(s: seq<T>, k: int, key: T -> int) {
    exists i :: 0 <= i < |s| && key(s[i]) == k
  }

  /** The set of keys of s. */
  function KeySet<T>(s: seq<T>, key: T -> int): set<int> {
    set i | 0 <= i < |s| :: key(s[i])
  }

  /** A strictly ascending sequence has as many elements as distinct keys. */
  lemma {:induction false} AscendingCountsKeys<T>(s: seq<T>, key: T -> int)
    requires Ascending(s, key)
    ensures |KeySet(s, key)| == |s|
    decreases |s|
  {
    if s != [] {
      var init, last := s[..|s| - 1], s[|s| - 1];
      assert Ascending(init, key);
      AscendingCountsKeys(init, key);
      assert KeySet(s, key) == KeySet(init, key) + {key(last)};
      assert key(last) !in KeySet(init, key);
    }
  }

  /** Inserts x after the last element whose key is at most key(x): the one
      step of a stable insertion sort. */
  function InsertByKey<T>(s: seq<T>, x: T, key: T -> int): (r: seq<T>)
    ensures |r| == |s| + 1
    decreases |s|
  {
    if s == [] || key(s[|s| - 1]) <= key(x) then s + [x]
    else InsertByKey(s[..|s| - 1], x, key) + [s[|s| - 1]]
  }

  /** The stable sort of s by key. */
  function SortByKey<T>(s: seq<T>, key: T -> int): (r: seq<T>)
    ensures |r| == |s|
    decreases |s|
  {
    if s == [] then []
    else InsertByKey(SortByKey(s[..|s| - 1], key), s[|s| - 1], key)
  }

  /** Insertion adds exactly x. */
  lemma {:induction false} InsertPermutes<T>(s: seq<T>, x: T, key: T -> int)
    ensures multiset(InsertByKey(s, x, key)) == multiset(s) + multiset{x}
    decreases |s|
  {
    if !(s == [] || key(s[|s| - 1]) <= key(x)) {
      InsertPermutes(s[..|s| - 1], x, key);
      assert s == s[..|s| - 1] + [s[|s| - 1]];
    }
  }

  /** The elements after an insertion are the old ones and x. */
  lemma InsertMembers<T>(s: seq<T>, x: T, key: T -> int)
    ensures forall y :: y in InsertByKey(s, x, key) <==> y in s || y == x
  {
    InsertPermutes(s, x, key);
    forall y ensures y in InsertByKey(s, x, key) <==> y in s || y == x {
      assert y in InsertByKey(s, x, key) <==> y in multiset(InsertByKey(s, x, key));
      assert y in s <==> y in multiset(s);
    }
  }

  /** The sort is a permutation. */
  lemma {:induction false} SortPermutes<T>(s: seq<T>, key: T -> int)
    ensures multiset(SortByKey(s, key)) == multiset(s)
    decreases |s|
  {
    if s != [] {
      SortPermutes(s[..|s| - 1], key);
      InsertPermutes(SortByKey(s[..|s| - 1], key), s[|s| - 1], key);
      assert s == s[..|s| - 1] + [s[|s| - 1]];
    }
  }

  /** In a sorted sequence, InsertByKey puts x at the one place p where
      everything before has key at most key(x) and everything after has a
      larger key. */
  lemma {:induction false} InsertPosition<T>(s: seq<T>, x: T, key: T -> int) returns (p: nat)
    requires Sorted(s, key)
    ensures p <= |s|
    ensures InsertByKey(s, x, key) == s[..p] + [x] + s[p..]
    ensures forall i :: 0 <= i < p ==> key(s[i]) <= key(x)
    ensures forall i :: p <= i < |s| ==> key(x) < key(s[i])
    decreases |s|
  {
    if s == [] || key(s[|s| - 1]) <= key(x) {
      p := |s|;
    } else {
      var init, last := s[..|s| - 1], s[|s| - 1];
      assert Sorted(init, key) by {
        forall i, j | 0 <= i < j < |init| ensures key(init[i]) <= key(init[j]) {
          assert init[i] == s[i] && init[j] == s[j];
        }
      }
      p := InsertPosition(init, x, key);
      assert InsertByKey(s, x, key) == InsertByKey(init, x, key) + [last];
      assert s[..p] == init[..p];
      assert s[p..] == init[p..] + [last];
      forall i | 0 <= i < p ensures key(s[i]) <= key(x) {
        assert s[i] == init[i];
      }
      forall i | p <= i < |s| ensures key(x) < key(s[i]) {
        if i < |init| { assert s[i] == init[i]; }
      }
    }
  }

  /** Inserting into a sorted sequence keeps it sorted. */
  lemma InsertKeepsSorted<T>(s: seq<T>, x: T, key: T -> int)
    requires Sorted(s, key)
    ensures Sorted(InsertByKey(s, x, key), key)
  {
    var p := InsertPosition(s, x, key);
    var r := InsertByKey(s, x, key);
    assert forall i :: 0 <= i < p ==> r[i] == s[i];
    assert r[p] == x;
    assert forall i :: p < i < |r| ==> r[i] == s[i - 1];
  }

  /** Inserting an element whose key is new into a strictly ascending
      sequence keeps it strictly ascending. */
  lemma InsertKeepsAscending<T>(s: seq<T>, x: T, key: T -> int)
    requires Ascending(s, key)
    requires !HasKey(s, key(x), key)
    ensures Ascending(InsertByKey(s, x, key), key)
  {
    var p := InsertPosition(s, x, key);
    var r := InsertByKey(s, x, key);
    assert forall i :: 0 <= i < p ==> r[i] == s[i] && key(s[i]) != key(x);
    assert r[p] == x;
    assert forall i :: p < i < |r| ==> r[i] == s[i - 1];
  }

  /** The keys present after an insertion are the old ones plus key(x). */
  lemma InsertHasKey<T>(s: seq<T>, x: T, k: int, key: T -> int)
    ensures HasKey(InsertByKey(s, x, key), k, key) <==> HasKey(s, k, key) || k == key(x)
  {
    var r := InsertByKey(s, x, key);
    InsertPermutes(s, x, key);
    if HasKey(r, k, key) {
      var i :| 0 <= i < |r| && key(r[i]) == k;
      assert r[i] in multiset(r);
      if r[i] != x {
        assert r[i] in multiset(s);
        var j :| 0 <= j < |s| && s[j] == r[i];
      }
    }
    if HasKey(s, k, key) {
      var j :| 0 <= j < |s| && key(s[j]) == k;
      assert s[j] in multiset(r);
      var i :| 0 <= i < |r| && r[i] == s[j];
    }
    if k == key(x) {
      assert x in multiset(r);
      var i :| 0 <= i < |r| && r[i] == x;
    }
  }

  /** The sort does sort. */
  lemma {:induction false} SortByKeyIsSorted<T>(s: seq<T>, key: T -> int)
    ensures Sorted(SortByKey(s, key), key)
    decreases |s|
  {
    if s != [] {
      SortByKeyIsSorted(s[..|s| - 1], key);
      InsertKeepsSorted(SortByKey(s[..|s| - 1], key), s[|s| - 1], key);
    }
  }

  /** Sorting a sorted sequence leaves it as it is. */
  lemma {:induction false} SortedIsFixpoint<T>(s: seq<T>, key: T -> int)
    requires Sorted(s, key)
    ensures SortByKey(s, key) == s
    decreases |s|
  {
    if s != [] {
      var init := s[..|s| - 1];
      assert Sorted(init, key);
      SortedIsFixpoint(init, key);
      assert s == init + [s[|s| - 1]];
    }
  }

  /** Appending to a sorted sequence and then sorting is InsertByKey: the
      way the source keeps its lists ordered. */
  lemma AppendThenSort<T>(s: seq<T>, x: T, key: T -> int)
    requires Sorted(s, key)
    ensures SortByKey(s + [x], key) == InsertByKey(s, x, key)
  {
    assert (s + [x])[..|s|] == s;
    SortedIsFixpoint(s, key);
  }

  /** The elements of s with key k, in their order in s. */
  function WithKey<T>(s: seq<T>, k: int, key: T -> int): (r: seq<T>)
    ensures |r| <= |s|
    decreases |s|
  {
    if s == [] then []
    else WithKey(s[..|s| - 1], k, key) + (if key(s[|s| - 1]) == k then [s[|s| - 1]] else [])
  }

  /** Insertion puts x after every element with its own key. */
  lemma {:induction false} InsertIsStable<T>(s: seq<T>, x: T, k: int, key: T -> int)
    ensures WithKey(InsertByKey(s, x, key), k, key) == WithKey(s, k, key) + (if key(x) == k then [x] else [])
    decreases |s|
  {
    var r := InsertByKey(s, x, key);
    if s == [] || key(s[|s| - 1]) <= key(x) {
      assert (s + [x])[..|s|] == s;
    } else {
      var init, last := s[..|s| - 1], s[|s| - 1];
      InsertIsStable(init, x, k, key);
      var t := InsertByKey(init, x, key);
      assert (t + [last])[..|t|] == t;
    }
  }

  /** The sort is stable: for every key, the elements with that key come
      out in the order they went in. */
  lemma {:induction false} SortIsStable<T>(s: seq<T>, k: int, key: T -> int)
    ensures WithKey(SortByKey(s, key), k, key) == WithKey(s, k, key)
    decreases |s|
  {
    if s != [] {
      var init := s[..|s| - 1];
      SortIsStable(init, k, key);
      InsertIsStable(SortByKey(init, key), s[|s| - 1], k, key);
    }
  }

  /** Where InsertByKey puts x: scans from the right past every element
      with a larger key. */
  method InsertionPoint<T>(done: seq<T>, x: T, key: T -> int) returns (j: nat)
    ensures j <= |done|
    ensures InsertByKey(done, x, key) == done[..j] + [x] + done[j..]
  {
    j := |done|;
    assert done[..j] == done && done[j..] == [];
    while j > 0 && key(done[j - 1]) > key(x)
      invariant 0 <= j <= |done|
      invariant InsertByKey(done, x, key) == InsertByKey(done[..j], x, key) + done[j..]
    {
      assert done[..j][..j - 1] == done[..j - 1];
      assert done[j - 1..] == [done[j - 1]] + done[j..];
      j := j - 1;
    }
  }

  /** Python's `list.sort(key=key)` on a list value: a stable insertion
      sort whose result is SortByKey. */
  method StableSort<T>(s: seq<T>, key: T -> int) returns (r: seq<T>)
    ensures r == SortByKey(s, key)
  {
    r := s;
    var i := 0;
    while i < |s|
      invariant 0 <= i <= |s|
      invariant |r| == |s|
      invariant r[..i] == SortByKey(s[..i], key)
      invariant r[i..] == s[i..]
    {
      var x, done := r[i], r[..i];
      var j := InsertionPoint(done, x, key);
      assert s[..i + 1][..i] == s[..i];
      assert x == s[i];
      var next := done[..j] + [x] + done[j..];
      assert next == SortByKey(s[..i + 1], key);
      r := next + r[i + 1..];
      assert r[..i + 1] == next;
      assert r[i + 1..] == s[i + 1..];
      i := i + 1;
    }
    assert s[..|s|] == s;
  }
}
