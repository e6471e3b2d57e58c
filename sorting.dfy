/**
 * The two in-place sorts both programs use on the first `n` slots of a
 * fixed-size array: selection sort (pick the first strict minimum of the
 * unsorted tail and swap it to the front) and insertion sort (shift larger
 * elements one slot right while the key strictly belongs before them).
 * Each is parameterised by the strict comparison `before(x, y)` — "x must
 * come before y" — that its call site in the program uses.
 */
module Sorting {

  /** Irreflexive, transitive, and incomparability is transitive too. */
  ghost predicate StrictWeakOrder<T(!new)>(before: (T, T) -> bool)
  {
    (forall x :: !before(x, x)) &&
    (forall x, y, z :: before(x, y) && before(y, z) ==> before(x, z)) &&
    (forall x, y, z :: !before(x, y) && !before(y, z) ==> !before(x, z))
  }

  /** No element is strictly before one that precedes it. */
  ghost predicate SortedBy<T>(s: seq<T>, before: (T, T) -> bool)
  {
    forall i, j :: 0 <= i < j < |s| ==> !before(s[j], s[i])
  }

  /** x and y have the same sort key. */
  predicate Equivalent<T>(x: T, y: T, before: (T, T) -> bool)
  {
    !before(x, y) && !before(y, x)
  }

  // ---------------------------------------------------------------------
  // The value that insertion sort computes

  /**
   * Inserting `key` behind a sorted prefix: it moves left past every
   * trailing element it is strictly before, as the inner loop does.
   */
  function Insert<T>(key: T, s: seq<T>, before: (T, T) -> bool): seq<T>
    decreases |s|
  {
    if |s| == 0 then [key]
    else if before(key, s[|s| - 1]) then Insert(key, s[..|s| - 1], before) + [s[|s| - 1]]
    else s + [key]
  }

  /** The outer loop: insert each element, left to right, into the sorted front. */
  function InsertionSorted<T>(s: seq<T>, before: (T, T) -> bool): seq<T>
    decreases |s|
  {
    if |s| == 0 then [] else Insert(s[|s| - 1], InsertionSorted(s[..|s| - 1], before), before)
  }

  /** The elements of s with the same key as k, in their order in s. */
  function SameKey<T>(s: seq<T>, k: T, before: (T, T) -> bool): seq<T>
    decreases |s|
  {
    if |s| == 0 then []
    else SameKey(s[..|s| - 1], k, before) + (if Equivalent(s[|s| - 1], k, before) then [s[|s| - 1]] else [])
  }

  lemma {:induction false} InsertPerm<T>(key: T, s: seq<T>, before: (T, T) -> bool)
    ensures multiset(Insert(key, s, before)) == multiset(s) + multiset{key}
    decreases |s|
  {
    if |s| > 0 && before(key, s[|s| - 1]) {
      InsertPerm(key, s[..|s| - 1], before);
      assert s == s[..|s| - 1] + [s[|s| - 1]];
    }
  }

  /** Insertion sort only rearranges: the result is a permutation of the input. */
  lemma {:induction false} InsertionSortedPerm<T>(s: seq<T>, before: (T, T) -> bool)
    ensures multiset(InsertionSorted(s, before)) == multiset(s)
    decreases |s|
  {
    if |s| > 0 {
      var init := s[..|s| - 1];
      InsertionSortedPerm(init, before);
      InsertPerm(s[|s| - 1], InsertionSorted(init, before), before);
      assert s == init + [s[|s| - 1]];
    }
  }

  lemma {:induction false} InsertionSortedLength<T>(s: seq<T>, before: (T, T) -> bool)
    ensures |InsertionSorted(s, before)| == |s|
  {
    InsertionSortedPerm(s, before);
    assert |multiset(InsertionSorted(s, before))| == |multiset(s)|;
  }

  lemma {:induction false} InsertSorted<T(!new)>(key: T, s: seq<T>, before: (T, T) -> bool)
    requires StrictWeakOrder(before)
    requires SortedBy(s, before)
    ensures SortedBy(Insert(key, s, before), before)
    decreases |s|
  {
    if |s| > 0 && before(key, s[|s| - 1]) {
      var init := s[..|s| - 1];
      var last := s[|s| - 1];
      InsertSorted(key, init, before);
      InsertPerm(key, init, before);
      var r := Insert(key, init, before);
      var t := r + [last];
      forall i, j | 0 <= i < j < |t| ensures !before(t[j], t[i]) {
        if j == |t| - 1 {
          assert t[i] in multiset(init) + multiset{key};
          if t[i] == key {
            assert !before(last, key);
          } else {
            assert t[i] in init;
            var m :| 0 <= m < |init| && init[m] == t[i];
            assert s[m] == t[i];
          }
        } else {
          assert t[i] == r[i] && t[j] == r[j];
        }
      }
    } else if |s| > 0 {
      var t := s + [key];
      forall i, j | 0 <= i < j < |t| ensures !before(t[j], t[i]) {
        if j == |t| - 1 && i < |s| - 1 {
          assert !before(s[|s| - 1], s[i]);
        }
      }
    }
  }

  /** Insertion sort sorts, for every strict weak order. */
  lemma {:induction false} InsertionSortedSorted<T(!new)>(s: seq<T>, before: (T, T) -> bool)
    requires StrictWeakOrder(before)
    ensures SortedBy(InsertionSorted(s, before), before)
    decreases |s|
  {
    if |s| > 0 {
      InsertionSortedSorted(s[..|s| - 1], before);
      InsertSorted(s[|s| - 1], InsertionSorted(s[..|s| - 1], before), before);
    }
  }

  lemma {:induction false} SameKeyAppend<T>(a: seq<T>, b: seq<T>, k: T, before: (T, T) -> bool)
    ensures SameKey(a + b, k, before) == SameKey(a, k, before) + SameKey(b, k, before)
    decreases |b|
  {
    if |b| == 0 {
      assert a + b == a;
    } else {
      var ab := a + b;
      assert ab[..|ab| - 1] == a + b[..|b| - 1];
      SameKeyAppend(a, b[..|b| - 1], k, before);
    }
  }

  /** Two elements one of which is strictly before the other never share a key class. */
  lemma NotBothSameKey<T(!new)>(x: T, y: T, k: T, before: (T, T) -> bool)
    requires StrictWeakOrder(before)
    requires before(x, y)
    ensures SameKey([x], k, before) + SameKey([y], k, before) == SameKey([y], k, before) + SameKey([x], k, before)
  {
    assert [x][..0] == [] && [y][..0] == [];
    assert before(x, k) || before(k, y);
  }

  lemma {:induction false} InsertStable<T(!new)>(key: T, s: seq<T>, k: T, before: (T, T) -> bool)
    requires StrictWeakOrder(before)
    ensures SameKey(Insert(key, s, before), k, before) == SameKey(s + [key], k, before)
    decreases |s|
  {
    if |s| > 0 && before(key, s[|s| - 1]) {
      var init := s[..|s| - 1];
      var last := s[|s| - 1];
      var one := (x: T) => SameKey([x], k, before);
      calc {
        SameKey(Insert(key, s, before), k, before);
        SameKey(Insert(key, init, before) + [last], k, before);
        { SameKeyAppend(Insert(key, init, before), [last], k, before); }
        SameKey(Insert(key, init, before), k, before) + one(last);
        { InsertStable(key, init, k, before); SameKeyAppend(init, [key], k, before); }
        SameKey(init, k, before) + one(key) + one(last);
        { NotBothSameKey(key, last, k, before); }
        SameKey(init, k, before) + one(last) + one(key);
        { SameKeyAppend(init, [last], k, before); assert init + [last] == s; }
        SameKey(s, k, before) + one(key);
        { SameKeyAppend(s, [key], k, before); }
        SameKey(s + [key], k, before);
      }
    } else if |s| == 0 {
      assert s + [key] == [key];
    }
  }

  /** Insertion sort is stable: elements with equal keys keep their relative order. */
  lemma {:induction false} InsertionSortedStable<T(!new)>(s: seq<T>, k: T, before: (T, T) -> bool)
    requires StrictWeakOrder(before)
    ensures SameKey(InsertionSorted(s, before), k, before) == SameKey(s, k, before)
    decreases |s|
  {
    if |s| > 0 {
      var init := s[..|s| - 1];
      var last := s[|s| - 1];
      InsertionSortedStable(init, k, before);
      InsertStable(last, InsertionSorted(init, before), k, before);
      SameKeyAppend(InsertionSorted(init, before), [last], k, before);
    }
  }

  // ---------------------------------------------------------------------
  // The in-place algorithms

  /**
   * Selection sort of a[..n]: for each slot i, the first strict minimum of
   * a[i..n] is found and swapped into slot i when it is not already there.
   */
  method SelectionSort<T(!new)>(a: array<T>, n: nat, before: (T, T) -> bool)
    requires n <= a.Length
    requires StrictWeakOrder(before)
    modifies a
    ensures SortedBy(a[..n], before)
    ensures multiset(a[..n]) == multiset(old(a[..n]))
    ensures a[n..] == old(a[n..])
  {
    var i := 0;
    while i + 1 < n
      invariant i <= n
      invariant multiset(a[..n]) == multiset(old(a[..n]))
      invariant a[n..] == old(a[n..])
      invariant Placed(a[..], i, n, before)
    {
      var minIdx := i;
      var j := i + 1;
      while j < n
        invariant i <= minIdx < j <= n
        invariant forall m :: i <= m < j ==> !before(a[m], a[minIdx])
      {
        if before(a[j], a[minIdx]) {
          minIdx := j;
        }
        j := j + 1;
      }
      ghost var pre := a[..];
      if minIdx != i {
        a[i], a[minIdx] := a[minIdx], a[i];
      }
      assert a[..] == pre[i := pre[minIdx]][minIdx := pre[i]];
      SelectStep(pre, i, minIdx, n, before);
      i := i + 1;
    }
    PlacedSorted(a[..], i, n, before);
  }

  /** The first `i` slots hold, in order, elements no later slot below `n` is strictly before. */
  ghost predicate Placed<T>(s: seq<T>, i: nat, n: nat, before: (T, T) -> bool)
  {
    n <= |s| && forall k, m :: 0 <= k < i && k < m < n ==> !before(s[m], s[k])
  }

  /** Swapping a minimum of s[i..n] into slot i places one more element. */
  lemma SelectStep<T>(pre: seq<T>, i: nat, mi: nat, n: nat, before: (T, T) -> bool)
    requires i <= mi < n && Placed(pre, i, n, before)
    requires forall m :: i <= m < n ==> !before(pre[m], pre[mi])
    ensures var post := pre[i := pre[mi]][mi := pre[i]];
      Placed(post, i + 1, n, before) && multiset(post[..n]) == multiset(pre[..n]) && post[n..] == pre[n..]
  {
    var post := pre[i := pre[mi]][mi := pre[i]];
    if mi != i {
      SwapPerm(pre, post, i, mi, n);
    } else {
      assert post == pre;
    }
    forall k, m | 0 <= k < i + 1 && k < m < n ensures !before(post[m], post[k]) {
      var m' := if m == mi then i else if m == i then mi else m;
      assert post[m] == pre[m'];
      if k < i {
        assert post[k] == pre[k];
      }
    }
  }

  lemma PlacedSorted<T>(s: seq<T>, i: nat, n: nat, before: (T, T) -> bool)
    requires Placed(s, i, n, before) && n <= i + 1
    ensures SortedBy(s[..n], before)
  {
    forall k, m | 0 <= k < m < n ensures !before(s[..n][m], s[..n][k]) {
      assert s[..n][m] == s[m] && s[..n][k] == s[k];
    }
  }

  lemma SwapPerm<T>(pre: seq<T>, post: seq<T>, i: nat, j: nat, n: nat)
    requires i < j < n <= |pre| == |post|
    requires post == pre[i := pre[j]][j := pre[i]]
    ensures multiset(post[..n]) == multiset(pre[..n])
  {
    assert pre[..n] == pre[..i] + [pre[i]] + pre[i + 1..j] + [pre[j]] + pre[j + 1..n];
    assert post[..n] == pre[..i] + [pre[j]] + pre[i + 1..j] + [pre[i]] + pre[j + 1..n];
  }

  /** One step of the inner loop: the key moves left past s[j]. */
  lemma InsertShift<T>(key: T, s: seq<T>, j: nat, before: (T, T) -> bool)
    requires j < |s| && before(key, s[j])
    requires Insert(key, s, before) == Insert(key, s[..j + 1], before) + s[j + 1..]
    ensures Insert(key, s, before) == Insert(key, s[..j], before) + s[j..]
  {
    assert s[..j + 1][..j] == s[..j];
    assert s[j..] == [s[j]] + s[j + 1..];
  }

  /** The inner loop stops: the key goes right behind s[..j + 1]. */
  lemma InsertStop<T>(key: T, s: seq<T>, j: int, before: (T, T) -> bool)
    requires -1 <= j < |s|
    requires j >= 0 ==> !before(key, s[j])
    requires Insert(key, s, before) == Insert(key, s[..j + 1], before) + s[j + 1..]
    ensures Insert(key, s, before) == s[..j + 1] + [key] + s[j + 1..]
  {
  }

  /** One step of the outer loop. */
  lemma InsertionSortedStep<T>(orig: seq<T>, i: nat, before: (T, T) -> bool)
    requires i < |orig|
    ensures InsertionSorted(orig[..i + 1], before) == Insert(orig[i], InsertionSorted(orig[..i], before), before)
  {
    assert orig[..i + 1][..i] == orig[..i];
  }

  /**
   * The inner loop of insertion sort: a[i] is held aside while the slots
   * of a[..i] it is strictly before move one place right; it then fills
   * the gap.
   */
  method InsertSlot<T>(a: array<T>, i: nat, before: (T, T) -> bool)
    requires i < a.Length
    modifies a
    ensures a[..i + 1] == Insert(old(a[i]), old(a[..i]), before)
    ensures a[i + 1..] == old(a[i + 1..])
  {
    var key := a[i];
    ghost var s := a[..i];
    var j := i - 1;
    assert s[..j + 1] == s && s[j + 1..] == [];
    while j >= 0 && before(key, a[j])
      invariant -1 <= j < i
      invariant forall k :: 0 <= k <= j ==> a[k] == s[k]
      invariant forall k :: j + 2 <= k <= i ==> a[k] == s[k - 1]
      invariant forall k :: i < k < a.Length ==> a[k] == old(a[k])
      invariant Insert(key, s, before) == Insert(key, s[..j + 1], before) + s[j + 1..]
    {
      InsertShift(key, s, j, before);
      a[j + 1] := a[j];
      j := j - 1;
    }
    a[j + 1] := key;
    InsertPlaced(a[..], s, key, i, j, before);
    assert a[i + 1..] == old(a[i + 1..]);
  }

  /** After the shifts, the array front holds exactly Insert(key, s). */
  lemma InsertPlaced<T>(t: seq<T>, s: seq<T>, key: T, i: nat, j: int, before: (T, T) -> bool)
    requires -1 <= j < i == |s| < |t|
    requires forall k :: 0 <= k <= j ==> t[k] == s[k]
    requires t[j + 1] == key
    requires forall k :: j + 2 <= k <= i ==> t[k] == s[k - 1]
    requires j >= 0 ==> !before(key, s[j])
    requires Insert(key, s, before) == Insert(key, s[..j + 1], before) + s[j + 1..]
    ensures t[..i + 1] == Insert(key, s, before)
  {
    InsertStop(key, s, j, before);
    var r := s[..j + 1] + [key] + s[j + 1..];
    forall k | 0 <= k <= i ensures t[k] == r[k] {
      if k > j + 1 {
        assert r[k] == s[k - 1];
      }
    }
  }

  /**
   * Insertion sort of a[..n]: each a[i], left to right, is inserted into
   * the sorted front a[..i].
   */
  method InsertionSort<T>(a: array<T>, n: nat, before: (T, T) -> bool)
    requires n <= a.Length
    modifies a
    ensures a[..n] == InsertionSorted(old(a[..n]), before)
    ensures a[n..] == old(a[n..])
  {
    if n == 0 {
      return;
    }
    ghost var full := a[..];
    assert full == InsertionSorted(full[..1], before) + full[1..];
    var i := 1;
    while i < n
      invariant 1 <= i <= n
      invariant a[..] == InsertionSorted(full[..i], before) + full[i..]
    {
      ghost var pre := a[..];
      InsertSlot(a, i, before);
      SortStep(pre, a[..], full, i, before);
      i := i + 1;
    }
    SortDone(a[..], full, n, before);
  }

  /** One pass of the outer loop, on the array contents before and after it. */
  lemma SortStep<T>(pre: seq<T>, post: seq<T>, full: seq<T>, i: nat, before: (T, T) -> bool)
    requires 1 <= i < |full| == |pre| == |post|
    requires pre == InsertionSorted(full[..i], before) + full[i..]
    requires post[..i + 1] == Insert(pre[i], pre[..i], before) && post[i + 1..] == pre[i + 1..]
    ensures post == InsertionSorted(full[..i + 1], before) + full[i + 1..]
  {
    InsertionSortedLength(full[..i], before);
    assert pre[..i] == InsertionSorted(full[..i], before) && pre[i] == full[i];
    InsertionSortedStep(full, i, before);
    assert post == post[..i + 1] + post[i + 1..];
  }

  lemma SortDone<T>(t: seq<T>, full: seq<T>, n: nat, before: (T, T) -> bool)
    requires 1 <= n <= |full| == |t|
    requires t == InsertionSorted(full[..n], before) + full[n..]
    ensures t[..n] == InsertionSorted(full[..n], before) && t[n..] == full[n..]
  {
    InsertionSortedLength(full[..n], before);
  }
}
