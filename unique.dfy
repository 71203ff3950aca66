/** Order-preserving, identity-based de-duplication (src/utils/unique.js). */
module Unique {

  /** No element occurs twice. */
  predicate Distinct<T(==)>(s: seq<T>) {
    forall i, j :: 0 <= i < j < |s| ==> s[i] != s[j]
  }

  /** The position of the first occurrence of `x` in `s`. */
  function FirstIndex<T(==)>(s: seq<T>, x: T): (i: nat)
    requires x in s
    ensures i < |s| && s[i] == x && x !in s[..i]
  {
    if s[0] == x then 0
    else
      var i := 1 + FirstIndex(s[1..], x);
      assert s[..i] == [s[0]] + s[1..][..i - 1];
      i
  }

  /** The elements of `s`, each kept at its first occurrence only. */
  function Dedup<T(==)>(s: seq<T>): (r: seq<T>)
    ensures Distinct(r)
    ensures forall i :: 0 <= i < |s| ==> s[i] in r
    ensures forall i :: 0 <= i < |r| ==> r[i] in s
    ensures |r| <= |s|
  {
    if s == [] then []
    else
      var front, last := s[..|s| - 1], s[|s| - 1];
      assert s == front + [last];
      if last in front then Dedup(front) else Dedup(front) + [last]
  }

  /** The JavaScript loop: push `arr[i]` when `result.indexOf(arr[i]) < 0`.
      `arr` is a value, so the caller's sequence is never changed and a new one is returned. */
  method Unique<T(==)>(arr: seq<T>) returns (result: seq<T>)
    ensures result == Dedup(arr)
  {
    result := [];
    for i := 0 to |arr|
      invariant result == Dedup(arr[..i])
    {
      assert arr[..i + 1] == arr[..i] + [arr[i]];
      if arr[i] !in result {
        result := result + [arr[i]];
      }
    }
    assert arr[..|arr|] == arr;
  }

  /** The first-occurrence position is determined by its defining property. */
  lemma FirstIndexIsUnique<T>(s: seq<T>, x: T, i: nat)
    requires i < |s| && s[i] == x && x !in s[..i]
    ensures FirstIndex(s, x) == i
  {
  }

  /** Kept elements appear in the order of their first occurrences in the input. */
  lemma {:induction false} DedupKeepsFirstOccurrenceOrder<T>(s: seq<T>)
    ensures forall j, k :: 0 <= j < k < |Dedup(s)| ==>
      FirstIndex(s, Dedup(s)[j]) < FirstIndex(s, Dedup(s)[k])
  {
    if s != [] {
      var n := |s|;
      var front, last := s[..n - 1], s[n - 1];
      assert s == front + [last];
      DedupKeepsFirstOccurrenceOrder(front);
      var d := Dedup(front);
      forall y | y in front
        ensures FirstIndex(s, y) == FirstIndex(front, y) < n - 1
      {
        var i := FirstIndex(front, y);
        assert s[..i] == front[..i];
        FirstIndexIsUnique(s, y, i);
      }
      if last !in front {
        assert s[..n - 1] == front;
        FirstIndexIsUnique(s, last, n - 1);
        var r := Dedup(s);
        assert r == d + [last];
        forall j, k | 0 <= j < k < |r|
          ensures FirstIndex(s, r[j]) < FirstIndex(s, r[k])
        {
          assert r[j] == d[j];
          assert r[j] in front;
          if k < |d| {
            assert r[k] == d[k] && r[k] in front;
          }
        }
      } else {
        forall j, k | 0 <= j < k < |d|
          ensures FirstIndex(s, d[j]) < FirstIndex(s, d[k])
        {
          assert d[j] in front && d[k] in front;
        }
      }
    }
  }

  /** An input without duplicates comes back unchanged. */
  lemma {:induction false} DedupOfDistinct<T>(s: seq<T>)
    requires Distinct(s)
    ensures Dedup(s) == s
  {
    if s != [] {
      var n := |s|;
      var front, last := s[..n - 1], s[n - 1];
      assert Distinct(front);
      DedupOfDistinct(front);
      assert last !in front by {
        forall i | 0 <= i < n - 1 ensures front[i] != last { assert s[i] != s[n - 1]; }
      }
      assert s == front + [last];
    }
  }

  /** A distinct sequence holds each of its elements exactly once. */
  lemma {:induction false} DistinctOccursOnce<T>(s: seq<T>, x: T)
    requires Distinct(s) && x in s
    ensures multiset(s)[x] == 1
  {
    assert s == [s[0]] + s[1..];
    assert Distinct(s[1..]);
    if s[0] == x {
      assert x !in s[1..] by {
        forall i | 0 <= i < |s| - 1 ensures s[1..][i] != x { assert s[i + 1] != s[0]; }
      }
      assert multiset(s[1..])[x] == 0;
    } else {
      DistinctOccursOnce(s[1..], x);
    }
  }

  /** One more element: kept at the end when it is new, dropped when it was seen. */
  lemma DedupSnoc<T>(s: seq<T>, x: T)
    ensures Dedup(s + [x]) == if x in s then Dedup(s) else Dedup(s) + [x]
  {
    assert (s + [x])[..|s|] == s;
  }

  /** A step of the loop of `unique` on a known prefix result: a new element is kept. */
  lemma DedupKeepsNew<T>(s: seq<T>, x: T, d: seq<T>)
    requires Dedup(s) == d && x !in s
    ensures Dedup(s + [x]) == d + [x]
  {
    DedupSnoc(s, x);
  }

  /** A step of the loop of `unique` on a known prefix result: a repeat is dropped. */
  lemma DedupDropsSeen<T>(s: seq<T>, x: T, d: seq<T>)
    requires Dedup(s) == d && x in s
    ensures Dedup(s + [x]) == d
  {
    DedupSnoc(s, x);
  }

  /** test/utils/unique.js: `[1, 1, 2, 3, 3, 4, 5, 5]` becomes `[1, 2, 3, 4, 5]`. */
  lemma RepeatedNumbersExample()
    ensures Dedup([1, 1, 2, 3, 3, 4, 5, 5]) == [1, 2, 3, 4, 5]
  {
    RepeatedNumbersUpToFour();
    DedupKeepsNew([1, 1, 2, 3, 3, 4], 5, [1, 2, 3, 4]);
    assert [1, 1, 2, 3, 3, 4] + [5] == [1, 1, 2, 3, 3, 4, 5];
    DedupDropsSeen([1, 1, 2, 3, 3, 4, 5], 5, [1, 2, 3, 4, 5]);
    assert [1, 1, 2, 3, 3, 4, 5] + [5] == [1, 1, 2, 3, 3, 4, 5, 5];
  }

  lemma RepeatedNumbersUpToFour()
    ensures Dedup([1, 1, 2, 3, 3, 4]) == [1, 2, 3, 4]
  {
    RepeatedNumbersUpToThree();
    DedupDropsSeen([1, 1, 2, 3], 3, [1, 2, 3]);
    assert [1, 1, 2, 3] + [3] == [1, 1, 2, 3, 3];
    DedupKeepsNew([1, 1, 2, 3, 3], 4, [1, 2, 3]);
    assert [1, 1, 2, 3, 3] + [4] == [1, 1, 2, 3, 3, 4];
  }

  lemma RepeatedNumbersUpToThree()
    ensures Dedup([1, 1, 2, 3]) == [1, 2, 3]
  {
    RepeatedNumbersUpToTwo();
    DedupKeepsNew([1, 1], 2, [1]);
    assert [1, 1] + [2] == [1, 1, 2];
    DedupKeepsNew([1, 1, 2], 3, [1, 2]);
    assert [1, 1, 2] + [3] == [1, 1, 2, 3];
  }

  lemma RepeatedNumbersUpToTwo()
    ensures Dedup([1, 1]) == [1]
  {
    DedupKeepsNew([], 1, []);
    assert [] + [1] == [1];
    DedupDropsSeen([1], 1, [1]);
    assert [1] + [1] == [1, 1];
  }

  /** test/utils/unique.js: `[1, 2, 3]` has no duplicates and comes back unchanged. */
  lemma NoDuplicatesExample()
    ensures Dedup([1, 2, 3]) == [1, 2, 3]
  {
    DedupOfDistinct([1, 2, 3]);
  }

  /** test/utils/unique.js: objects compare by identity, so `[o1, o2, o3, o2, o1]` keeps
      `[o1, o2, o3]`. */
  lemma RepeatedIdentitiesExample<T>(o1: T, o2: T, o3: T)
    requires o1 != o2 && o2 != o3 && o1 != o3
    ensures Dedup([o1, o2, o3, o2, o1]) == [o1, o2, o3]
  {
    RepeatedIdentitiesPrefix(o1, o2, o3);
    DedupDropsSeen([o1, o2, o3], o2, [o1, o2, o3]);
    assert [o1, o2, o3] + [o2] == [o1, o2, o3, o2];
    DedupDropsSeen([o1, o2, o3, o2], o1, [o1, o2, o3]);
    assert [o1, o2, o3, o2] + [o1] == [o1, o2, o3, o2, o1];
  }

  lemma RepeatedIdentitiesPrefix<T>(o1: T, o2: T, o3: T)
    requires o1 != o2 && o2 != o3 && o1 != o3
    ensures Dedup([o1, o2, o3]) == [o1, o2, o3]
  {
    DedupKeepsNew([], o1, []);
    assert [] + [o1] == [o1];
    DedupKeepsNew([o1], o2, [o1]);
    assert [o1] + [o2] == [o1, o2];
    DedupKeepsNew([o1, o2], o3, [o1, o2]);
    assert [o1, o2] + [o3] == [o1, o2, o3];
  }
}
