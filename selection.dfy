/**
 * Winner selection shared by both dispatchers: Python's `sorted(..., key=...)` and
 * `list.sort(key=...)` are stable sorts, and the dispatcher takes element 0 of the result.
 * SortBy is a stable insertion sort on an integer key; the lemmas show that its head is the
 * first element of minimal key, which is the tie-break "first arrival wins among equal distances".
 */
module Selection {
  import opened Common

  /** Inserts `x` in front of the first element whose key is not smaller than its own. */
  function InsertBy<T>(x: T, s: seq<T>, key: T -> int): (r: seq<T>)
    ensures |r| == |s| + 1
    ensures multiset(r) == multiset(s) + multiset{x}
  {
    if s == [] || key(x) <= key(s[0]) then [x] + s
    else
      assert s == [s[0]] + s[1..];
      [s[0]] + InsertBy(x, s[1..], key)
  }

  /** Stable sort by ascending key. */
  function SortBy<T>(s: seq<T>, key: T -> int): (r: seq<T>)
    ensures |r| == |s|
    ensures multiset(r) == multiset(s)
  {
    if s == [] then []
    else
      assert s == [s[0]] + s[1..];
      InsertBy(s[0], SortBy(s[1..], key), key)
  }

  ghost predicate SortedBy<T>(s: seq<T>, key: T -> int)
  {
    forall i, j :: 0 <= i < j < |s| ==> key(s[i]) <= key(s[j])
  }

  /** `i` is the position of the earliest element of minimal key. */
  ghost predicate IsFirstMinimum<T>(s: seq<T>, key: T -> int, i: int)
  {
    && 0 <= i < |s|
    && (forall j :: 0 <= j < |s| ==> key(s[i]) <= key(s[j]))
    && (forall j :: 0 <= j < i ==> key(s[j]) > key(s[i]))
  }

  /** The selected element: head of the stably sorted sequence, None when nothing was collected. */
  function SelectFirst<T>(s: seq<T>, key: T -> int): Option<T>
  {
    if s == [] then None else Some(SortBy(s, key)[0])
  }

  /** A bound below `x` and every element of `s` bounds the result of the insertion too. */
  lemma {:induction false} InsertByBounded<T>(x: T, s: seq<T>, key: T -> int, lo: int)
    requires lo <= key(x) && forall k :: 0 <= k < |s| ==> lo <= key(s[k])
    ensures forall k :: 0 <= k < |InsertBy(x, s, key)| ==> lo <= key(InsertBy(x, s, key)[k])
  {
    if s != [] && key(x) > key(s[0]) {
      InsertByBounded(x, s[1..], key, lo);
      var r := InsertBy(x, s, key);
      assert r == [s[0]] + InsertBy(x, s[1..], key);
      forall k | 0 < k < |r| ensures lo <= key(r[k]) {
        assert r[k] == InsertBy(x, s[1..], key)[k - 1];
      }
    }
  }

  lemma {:induction false} InsertBySorted<T>(x: T, s: seq<T>, key: T -> int)
    requires SortedBy(s, key)
    ensures SortedBy(InsertBy(x, s, key), key)
  {
    if s != [] && key(x) > key(s[0]) {
      var t := InsertBy(x, s[1..], key);
      var r := [s[0]] + t;
      assert r == InsertBy(x, s, key);
      forall i, j | 0 <= i < j < |r| ensures key(r[i]) <= key(r[j]) {
        assert r[j] == t[j - 1];
        if i > 0 {
          InsertBySorted(x, s[1..], key);
          assert r[i] == t[i - 1];
        } else {
          InsertByBounded(x, s[1..], key, key(s[0]));
        }
      }
    }
  }

  /** The sort really sorts (its permutation property is in SortBy's contract). */
  lemma {:induction false} SortBySorted<T>(s: seq<T>, key: T -> int)
    ensures SortedBy(SortBy(s, key), key)
  {
    if s != [] {
      SortBySorted(s[1..], key);
      InsertBySorted(s[0], SortBy(s[1..], key), key);
    }
  }

  lemma InsertByHead<T>(x: T, s: seq<T>, key: T -> int)
    ensures InsertBy(x, s, key)[0] == if s == [] || key(x) <= key(s[0]) then x else s[0]
  {
  }

  /** Reference definition of the tie-break: a left-to-right scan keeping the earliest minimum. */
  function FirstMinIndex<T>(s: seq<T>, key: T -> int): (i: nat)
    requires s != []
    ensures IsFirstMinimum(s, key, i)
  {
    if |s| == 1 then 0
    else
      var j := FirstMinIndex(s[1..], key);
      assert forall k :: 0 < k < |s| ==> s[k] == s[1..][k - 1];
      if key(s[0]) <= key(s[1 + j]) then 0 else 1 + j
  }

  /** Head of the stable sort = earliest element of minimal key. */
  lemma {:induction false} SortedHeadIsFirstMinimum<T>(s: seq<T>, key: T -> int)
    requires s != []
    ensures SortBy(s, key)[0] == s[FirstMinIndex(s, key)]
  {
    var t := s[1..];
    assert SortBy(s, key) == InsertBy(s[0], SortBy(t, key), key);
    InsertByHead(s[0], SortBy(t, key), key);
    if t != [] {
      SortedHeadIsFirstMinimum(t, key);
      assert s[1 + FirstMinIndex(t, key)] == t[FirstMinIndex(t, key)];
    }
  }

  /** Every element before the first minimum has a strictly larger key. */
  lemma BeforeFirstMinimum<T>(s: seq<T>, key: T -> int, f: int, x: T)
    requires IsFirstMinimum(s, key, f) && x in s[..f]
    ensures key(x) > key(s[f])
  {
    var m :| 0 <= m < f && s[..f][m] == x;
    assert s[m] == x;
  }

  /** What the dispatchers rely on: None exactly when nothing was collected; otherwise an element
      of minimal key that no earlier element ties with. */
  lemma SelectFirstSpec<T>(s: seq<T>, key: T -> int)
    ensures SelectFirst(s, key).None? <==> s == []
    ensures s != [] ==>
      IsFirstMinimum(s, key, FirstMinIndex(s, key)) && SelectFirst(s, key) == Some(s[FirstMinIndex(s, key)])
  {
    if s != [] {
      SortedHeadIsFirstMinimum(s, key);
    }
  }
}
