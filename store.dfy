/**
 * The fixed-capacity record store both programs are built on: a table is
 * an array of `cap` slots `daftar` with a count `n`, and only daftar[..n]
 * holds live entries. The operations here are the entity-independent
 * loops of the two programs; each takes the entity's ID or name as a
 * projection function.
 */
module Store {
  import opened Text

  /** The IDs of a sequence of entries. */
  function Ids<T>(s: seq<T>, idOf: T -> int): (ids: seq<int>)
    ensures |ids| == |s| && forall i :: 0 <= i < |s| ==> ids[i] == idOf(s[i])
  {
    seq(|s|, i requires 0 <= i < |s| => idOf(s[i]))
  }

  predicate StrictlyAscending(ids: seq<int>)
  {
    forall i, j :: 0 <= i < j < |ids| ==> ids[i] < ids[j]
  }

  predicate DistinctIds(ids: seq<int>)
  {
    forall i, j :: 0 <= i < j < |ids| ==> ids[i] != ids[j]
  }

  // ---------------------------------------------------------------------
  // Binary search by ID

  /**
   * The halving loop over the closed index range [lo, hi]: the middle
   * slot (lo + hi) / 2 is compared with id and the search continues in
   * the half that can still hold it; -1 when the range becomes empty.
   */
  function BinarySearch(ids: seq<int>, lo: int, hi: int, id: int): (r: int)
    requires 0 <= lo <= hi + 1 <= |ids|
    ensures r == -1 || (lo <= r <= hi && ids[r] == id)
    decreases hi - lo + 1
  {
    if lo > hi then -1
    else
      var mid := (lo + hi) / 2;
      if ids[mid] == id then mid
      else if ids[mid] < id then BinarySearch(ids, mid + 1, hi, id)
      else BinarySearch(ids, lo, mid - 1, id)
  }

  /**
   * The search lands on slot k whenever everything left of k is smaller
   * than id and everything right of k is larger. The topmost slot hi is
   * exempt: it is only ever read when the range has shrunk to [hi, hi].
   */
  lemma {:induction false} BinarySearchLocates(ids: seq<int>, lo: int, hi: int, id: int, k: int)
    requires 0 <= lo <= k <= hi < |ids| && ids[k] == id
    requires forall i :: lo <= i < k ==> ids[i] < id
    requires forall i :: k < i < hi ==> ids[i] > id
    ensures BinarySearch(ids, lo, hi, id) == k
    decreases hi - lo + 1
  {
    var mid := (lo + hi) / 2;
    if mid < k {
      BinarySearchLocates(ids, mid + 1, hi, id, k);
    } else if mid > k {
      BinarySearchLocates(ids, lo, mid - 1, id, k);
    }
  }

  /** On strictly ascending IDs every stored ID is found, at its own slot. */
  lemma BinarySearchFindsPresent(ids: seq<int>, id: int, k: int)
    requires StrictlyAscending(ids)
    requires 0 <= k < |ids| && ids[k] == id
    ensures BinarySearch(ids, 0, |ids| - 1, id) == k
  {
    BinarySearchLocates(ids, 0, |ids| - 1, id, k);
  }

  /** On strictly ascending IDs the search fails exactly when the ID is absent. */
  lemma BinarySearchComplete(ids: seq<int>, id: int)
    requires StrictlyAscending(ids)
    ensures BinarySearch(ids, 0, |ids| - 1, id) == -1 <==> id !in ids
  {
    if id in ids {
      var k :| 0 <= k < |ids| && ids[k] == id;
      BinarySearchFindsPresent(ids, id, k);
    }
  }

  /** The first slot carrying id, or -1: what a linear scan by ID finds. */
  function IndexOf(ids: seq<int>, id: int): (r: int)
    ensures -1 <= r < |ids|
    ensures r >= 0 ==> ids[r] == id && forall i :: 0 <= i < r ==> ids[i] != id
    ensures r == -1 <==> id !in ids
    decreases |ids|
  {
    if |ids| == 0 then -1
    else if ids[0] == id then 0
    else
      var k := IndexOf(ids[1..], id);
      if k == -1 then -1 else k + 1
  }

  // ---------------------------------------------------------------------
  // Max-based ID allocation

  function Max(a: int, b: int): int
  {
    if a < b then b else a
  }

  /** One more than the largest of start - 1 and every stored ID. */
  function NextIdOf(ids: seq<int>, start: int): int
    decreases |ids|
  {
    if |ids| == 0 then start else Max(NextIdOf(ids[..|ids| - 1], start), ids[|ids| - 1] + 1)
  }

  /** The allocated ID is at least start, above every stored ID, and no larger than needed. */
  lemma {:induction false} NextIdOfBounds(ids: seq<int>, start: int)
    ensures NextIdOf(ids, start) >= start
    ensures forall i :: 0 <= i < |ids| ==> ids[i] < NextIdOf(ids, start)
    ensures NextIdOf(ids, start) == start || NextIdOf(ids, start) - 1 in ids
    decreases |ids|
  {
    if |ids| > 0 {
      var init := ids[..|ids| - 1];
      NextIdOfBounds(init, start);
      assert ids == init + [ids[|ids| - 1]];
      forall i | 0 <= i < |ids| ensures ids[i] < NextIdOf(ids, start) {
        if i < |ids| - 1 {
          assert ids[i] == init[i];
        }
      }
    }
  }

  /** The three facts above pin the allocated ID down. */
  lemma NextIdOfUnique(ids: seq<int>, start: int, r: int)
    requires r >= start
    requires forall i :: 0 <= i < |ids| ==> ids[i] < r
    requires r == start || r - 1 in ids
    ensures r == NextIdOf(ids, start)
  {
    NextIdOfBounds(ids, start);
  }

  /** The allocated ID depends only on which IDs are stored, not on their order. */
  lemma NextIdOfPermutation(a: seq<int>, b: seq<int>, start: int)
    requires multiset(a) == multiset(b)
    ensures NextIdOf(a, start) == NextIdOf(b, start)
  {
    NextIdOfBounds(a, start);
    var r := NextIdOf(a, start);
    forall i | 0 <= i < |b| ensures b[i] < r {
      assert b[i] in multiset(a);
    }
    if r != start {
      assert r - 1 in multiset(b);
    }
    NextIdOfUnique(b, start, r);
  }

  /** Appending the freshly allocated ID keeps the IDs distinct. */
  lemma NextIdOfFresh(ids: seq<int>, start: int)
    requires DistinctIds(ids)
    ensures DistinctIds(ids + [NextIdOf(ids, start)])
    ensures StrictlyAscending(ids) ==> StrictlyAscending(ids + [NextIdOf(ids, start)])
  {
    NextIdOfBounds(ids, start);
  }

  // ---------------------------------------------------------------------
  // Invariants over the live entries

  /** No two entries share an ID. */
  ghost predicate DistinctBy<T>(s: seq<T>, idOf: T -> int)
  {
    DistinctIds(Ids(s, idOf))
  }

  /** Removing one entry keeps the IDs distinct. */
  lemma RemovePreservesDistinct<T>(s: seq<T>, k: nat, idOf: T -> int)
    requires k < |s| && DistinctBy(s, idOf)
    ensures DistinctBy(s[..k] + s[k + 1..], idOf)
  {
    var r := s[..k] + s[k + 1..];
    forall i, j | 0 <= i < j < |r| ensures idOf(r[i]) != idOf(r[j]) {
      var i' := if i < k then i else i + 1;
      var j' := if j < k then j else j + 1;
      assert r[i] == s[i'] && r[j] == s[j'];
    }
  }

  lemma MultisetWithout<T>(a: seq<T>, k: nat)
    requires k < |a|
    ensures multiset(a) == multiset(a[..k] + a[k + 1..]) + multiset{a[k]}
  {
    assert a == a[..k] + [a[k]] + a[k + 1..];
  }

  /** Reordering the entries keeps the IDs distinct. */
  lemma {:induction false} PermPreservesDistinct<T>(a: seq<T>, b: seq<T>, idOf: T -> int)
    requires multiset(a) == multiset(b) && DistinctBy(a, idOf)
    ensures DistinctBy(b, idOf)
    decreases |b|
  {
    if |b| > 0 {
      var x := b[|b| - 1];
      var b' := b[..|b| - 1];
      assert b == b' + [x];
      assert x in multiset(a);
      var k :| 0 <= k < |a| && a[k] == x;
      var a' := a[..k] + a[k + 1..];
      MultisetWithout(a, k);
      assert multiset(b) == multiset(b') + multiset{x};
      assert multiset(a') == multiset(b') by {
        assert multiset(a') == multiset(a) - multiset{x};
        assert multiset(b') == multiset(b) - multiset{x};
      }
      RemovePreservesDistinct(a, k, idOf);
      PermPreservesDistinct(a', b', idOf);
      forall p | 0 <= p < |b'| ensures idOf(b'[p]) != idOf(x) {
        assert b'[p] in multiset(a');
        OthersDiffer(a, k, b'[p], idOf);
      }
      SnocPreservesDistinct(b', x, idOf);
    }
  }

  /** Appending an entry that carries the allocated ID keeps every invariant of the live entries. */
  lemma AppendFresh<T>(s: seq<T>, x: T, idOf: T -> int, ok: T -> bool, start: int)
    requires All(s, ok) && ok(x) && DistinctBy(s, idOf)
    requires idOf(x) == NextIdOf(Ids(s, idOf), start)
    ensures All(s + [x], ok) && DistinctBy(s + [x], idOf)
    ensures Ids(s + [x], idOf) == Ids(s, idOf) + [idOf(x)]
    ensures StrictlyAscending(Ids(s, idOf)) ==> StrictlyAscending(Ids(s + [x], idOf))
  {
    NextIdOfBounds(Ids(s, idOf), start);
    NextIdOfFresh(Ids(s, idOf), start);
    SnocPreservesDistinct(s, x, idOf);
    assert Ids(s + [x], idOf) == Ids(s, idOf) + [idOf(x)];
  }

  /** Removing slot k keeps every invariant of the live entries. */
  lemma RemoveKeeps<T>(s: seq<T>, k: nat, idOf: T -> int, ok: T -> bool)
    requires k < |s| && All(s, ok) && DistinctBy(s, idOf)
    ensures All(s[..k] + s[k + 1..], ok) && DistinctBy(s[..k] + s[k + 1..], idOf)
    ensures StrictlyAscending(Ids(s, idOf)) ==> StrictlyAscending(Ids(s[..k] + s[k + 1..], idOf))
  {
    RemovePreservesAll(s, k, ok);
    RemovePreservesDistinct(s, k, idOf);
    if StrictlyAscending(Ids(s, idOf)) {
      RemovePreservesAscending(s, k, idOf);
    }
  }

  /** Overwriting slot k with an entry of the same ID keeps every invariant and every ID. */
  lemma ReplaceKeeps<T>(s: seq<T>, k: nat, x: T, idOf: T -> int, ok: T -> bool)
    requires k < |s| && All(s, ok) && DistinctBy(s, idOf) && ok(x) && idOf(x) == idOf(s[k])
    ensures All(s[k := x], ok) && DistinctBy(s[k := x], idOf)
    ensures Ids(s[k := x], idOf) == Ids(s, idOf)
  {
    assert Ids(s[k := x], idOf) == Ids(s, idOf);
  }

  /** Reordering keeps every invariant of the live entries. */
  lemma PermKeeps<T>(a: seq<T>, b: seq<T>, idOf: T -> int, ok: T -> bool)
    requires multiset(a) == multiset(b) && All(a, ok) && DistinctBy(a, idOf)
    ensures All(b, ok) && DistinctBy(b, idOf)
  {
    AllPerm(a, b, ok);
    PermPreservesDistinct(a, b, idOf);
  }

  /** An entry left after removing slot k has an ID other than that slot's. */
  lemma OthersDiffer<T>(a: seq<T>, k: nat, y: T, idOf: T -> int)
    requires k < |a| && DistinctBy(a, idOf) && y in multiset(a[..k] + a[k + 1..])
    ensures idOf(y) != idOf(a[k])
  {
    var a' := a[..k] + a[k + 1..];
    var q :| 0 <= q < |a'| && a'[q] == y;
    var q' := if q < k then q else q + 1;
    assert a[q'] == y;
  }

  /** Appending an entry whose ID is not yet present keeps the IDs distinct. */
  lemma SnocPreservesDistinct<T>(s: seq<T>, x: T, idOf: T -> int)
    requires DistinctBy(s, idOf)
    requires forall i :: 0 <= i < |s| ==> idOf(s[i]) != idOf(x)
    ensures DistinctBy(s + [x], idOf)
  {
    var r := s + [x];
    forall i, j | 0 <= i < j < |r| ensures idOf(r[i]) != idOf(r[j]) {
      if j < |s| {
        assert r[i] == s[i] && r[j] == s[j];
      } else {
        assert r[i] == s[i];
      }
    }
  }

  /** Every entry has property ok. */
  ghost predicate All<T>(s: seq<T>, ok: T -> bool)
  {
    forall i :: 0 <= i < |s| ==> ok(s[i])
  }

  /** A property of every entry survives any reordering. */
  lemma AllPerm<T>(a: seq<T>, b: seq<T>, ok: T -> bool)
    requires multiset(a) == multiset(b) && All(a, ok)
    ensures All(b, ok)
  {
    forall i | 0 <= i < |b| ensures ok(b[i]) {
      assert b[i] in multiset(a);
    }
  }

  /** Removing one entry keeps a property of every entry. */
  lemma RemovePreservesAll<T>(s: seq<T>, k: nat, ok: T -> bool)
    requires k < |s| && All(s, ok)
    ensures All(s[..k] + s[k + 1..], ok)
  {
    var r := s[..k] + s[k + 1..];
    forall i | 0 <= i < |r| ensures ok(r[i]) {
      assert r[i] == if i < k then s[i] else s[i + 1];
    }
  }

  /** Removing one entry keeps the IDs strictly ascending. */
  lemma RemovePreservesAscending<T>(s: seq<T>, k: nat, idOf: T -> int)
    requires k < |s| && StrictlyAscending(Ids(s, idOf))
    ensures StrictlyAscending(Ids(s[..k] + s[k + 1..], idOf))
  {
    var r := s[..k] + s[k + 1..];
    forall i, j | 0 <= i < j < |r| ensures idOf(r[i]) < idOf(r[j]) {
      var i' := if i < k then i else i + 1;
      var j' := if j < k then j else j + 1;
      assert r[i] == s[i'] && r[j] == s[j'];
    }
  }

  // ---------------------------------------------------------------------
  // The shift that the older program's delete performs

  /**
   * The array after the older delete of slot idx: every slot from idx up
   * to n - 1 takes the contents of its right neighbour but keeps its own
   * ID, and slot n is reset to the zero entry.
   */
  function KeepIdsShift<T>(s: seq<T>, idx: nat, n: nat, idOf: T -> int, withId: (T, int) -> T, zero: T): (r: seq<T>)
    requires idx <= n < |s|
    ensures |r| == |s|
  {
    seq(|s|, j requires 0 <= j < |s| =>
      if idx <= j < n then withId(s[j + 1], idOf(s[j]))
      else if j == n then zero
      else s[j])
  }

  /** IDs that equal their slot offset from a start value. */
  predicate Positional(ids: seq<int>, start: int)
  {
    forall i :: 0 <= i < |ids| ==> ids[i] == start + i
  }

  /** The older delete keeps IDs positional on the shortened live prefix. */
  lemma KeepIdsShiftPositional<T>(s: seq<T>, idx: nat, n: nat, idOf: T -> int, withId: (T, int) -> T, zero: T, start: int)
    requires idx <= n && 0 < n < |s|
    requires forall x, v :: idOf(withId(x, v)) == v
    requires Positional(Ids(s[..n], idOf), start)
    ensures var r := KeepIdsShift(s, idx, n, idOf, withId, zero);
      Positional(Ids(r[..n - 1], idOf), start) &&
      (forall j :: 0 <= j < idx ==> r[j] == s[j]) &&
      (forall j :: idx <= j < n - 1 ==> r[j] == withId(s[j + 1], idOf(s[j])))
  {
  }

  /** Slot n - 1 of the shortened table still carries ID start + (n - 1). */
  lemma KeepIdsShiftStaleSlot<T>(s: seq<T>, idx: nat, n: nat, idOf: T -> int, withId: (T, int) -> T, zero: T, start: int)
    requires idx < n < |s|
    requires forall x, v :: idOf(withId(x, v)) == v
    requires Positional(Ids(s[..n], idOf), start)
    ensures idOf(KeepIdsShift(s, idx, n, idOf, withId, zero)[n - 1]) == start + (n - 1)
  {
    assert Ids(s[..n], idOf)[n - 1] == idOf(s[n - 1]);
  }

  /**
   * After the older delete, the half-open search range [0, n - 1] of the
   * shortened table still ends on the stale slot: the closed search finds
   * the ID that slot carries although it is no longer live.
   */
  lemma ClosedSearchFindsStaleSlot<T>(s: seq<T>, idx: nat, n: nat, idOf: T -> int, withId: (T, int) -> T, zero: T, start: int)
    requires idx < n < |s|
    requires forall x, v :: idOf(withId(x, v)) == v
    requires Positional(Ids(s[..n], idOf), start)
    ensures var r := KeepIdsShift(s, idx, n, idOf, withId, zero);
      BinarySearch(Ids(r[..n], idOf), 0, n - 1, start + (n - 1)) == n - 1 &&
      start + (n - 1) !in Ids(r[..n - 1], idOf)
  {
    var r := KeepIdsShift(s, idx, n, idOf, withId, zero);
    KeepIdsShiftPositional(s, idx, n, idOf, withId, zero, start);
    KeepIdsShiftStaleSlot(s, idx, n, idOf, withId, zero, start);
    IdsPrefix(r, n - 1, idOf);
    StaleSearch(Ids(r[..n], idOf), Ids(r[..n - 1], idOf), start);
  }

  /**
   * The older delete at index n itself only resets slot n: the entry with
   * the last live ID drops out of the shortened live prefix.
   */
  lemma DeleteAtCountDrops<T>(s: seq<T>, n: nat, idOf: T -> int, withId: (T, int) -> T, zero: T, start: int)
    requires 0 < n < |s|
    requires forall x, v :: idOf(withId(x, v)) == v
    requires Positional(Ids(s[..n], idOf), start)
    ensures var r := KeepIdsShift(s, n, n, idOf, withId, zero);
      start + (n - 1) in Ids(s[..n], idOf) && start + (n - 1) !in Ids(r[..n - 1], idOf)
  {
    assert Ids(s[..n], idOf)[n - 1] == start + (n - 1);
    KeepIdsShiftPositional(s, n, n, idOf, withId, zero, start);
  }

  lemma IdsPrefix<T>(t: seq<T>, m: nat, idOf: T -> int)
    requires m < |t|
    ensures forall i :: 0 <= i < m ==> Ids(t[..m + 1], idOf)[i] == Ids(t[..m], idOf)[i]
    ensures Ids(t[..m + 1], idOf)[m] == idOf(t[m])
  {
    assert forall i :: 0 <= i < m ==> t[..m + 1][i] == t[..m][i];
  }

  lemma StaleSearch(ids: seq<int>, live: seq<int>, start: int)
    requires |ids| == |live| + 1 && Positional(live, start)
    requires forall i :: 0 <= i < |live| ==> ids[i] == live[i]
    requires ids[|live|] == start + |live|
    ensures BinarySearch(ids, 0, |live|, start + |live|) == |live| && start + |live| !in live
  {
    BinarySearchLocates(ids, 0, |live|, start + |live|, |live|);
  }

  /** On positional IDs the closed search over [0, n] finds every live ID, whatever slot n holds. */
  lemma ClosedSearchFindsLive(ids: seq<int>, n: nat, start: int, k: nat)
    requires |ids| == n + 1 && k < n
    requires Positional(ids[..n], start)
    ensures BinarySearch(ids, 0, n, start + k) == k
  {
    assert forall i :: 0 <= i < n ==> ids[i] == ids[..n][i];
    BinarySearchLocates(ids, 0, n, start + k, k);
  }

  /** Positional IDs are strictly ascending, so the live-range search is exact on them. */
  lemma PositionalAscending(ids: seq<int>, start: int)
    requires Positional(ids, start)
    ensures StrictlyAscending(ids)
  {
  }

  /** Appending the next count-based ID keeps IDs positional and a property of every entry. */
  lemma AppendPositional<T>(s: seq<T>, x: T, idOf: T -> int, ok: T -> bool, start: int)
    requires Positional(Ids(s, idOf), start) && idOf(x) == start + |s|
    requires All(s, ok) && ok(x)
    ensures Positional(Ids(s + [x], idOf), start) && All(s + [x], ok)
  {
    assert forall i :: 0 <= i < |s| ==> (s + [x])[i] == s[i];
  }

  /** Overwriting one slot with an entry that has the property keeps it on every slot. */
  lemma UpdateKeepsAll<T>(s: seq<T>, k: nat, x: T, ok: T -> bool)
    requires k < |s| && All(s, ok) && ok(x)
    ensures All(s[k := x], ok)
  {
  }

  /**
   * The older delete keeps a per-entry property, both on the live prefix
   * and on every slot of the array, when the property does not depend on
   * the ID and holds of the reset value.
   */
  lemma KeepIdsShiftAll<T>(s: seq<T>, idx: nat, n: nat, idOf: T -> int, withId: (T, int) -> T, zero: T, ok: T -> bool)
    requires idx <= n && 0 < n < |s|
    requires forall x, v :: ok(x) ==> ok(withId(x, v))
    ensures var r := KeepIdsShift(s, idx, n, idOf, withId, zero);
      (All(s, ok) && ok(zero) ==> All(r, ok)) && (All(s[..n], ok) ==> All(r[..n - 1], ok))
  {
    var r := KeepIdsShift(s, idx, n, idOf, withId, zero);
    if All(s, ok) && ok(zero) {
      forall j | 0 <= j < |s| ensures ok(r[j]) {
        KeepIdsShiftSlot(s, idx, n, idOf, withId, zero, ok, j);
      }
    }
    if All(s[..n], ok) {
      forall j | 0 <= j < n - 1 ensures ok(r[j]) {
        assert ok(s[..n][j]) && ok(s[..n][j + 1]);
        KeepIdsShiftSlot(s, idx, n, idOf, withId, zero, ok, j);
      }
      assert forall j :: 0 <= j < n - 1 ==> r[..n - 1][j] == r[j];
    }
  }

  lemma KeepIdsShiftSlot<T>(s: seq<T>, idx: nat, n: nat, idOf: T -> int, withId: (T, int) -> T, zero: T, ok: T -> bool, j: nat)
    requires idx <= n < |s| && j < |s|
    requires forall x, v :: ok(x) ==> ok(withId(x, v))
    requires j == n ==> ok(zero)
    requires idx <= j < n ==> ok(s[j + 1])
    requires (j < idx || n < j) ==> ok(s[j])
    ensures ok(KeepIdsShift(s, idx, n, idOf, withId, zero)[j])
  {
    var r := KeepIdsShift(s, idx, n, idOf, withId, zero);
    if idx <= j < n {
      assert r[j] == withId(s[j + 1], idOf(s[j]));
      WithIdKeeps(s[j + 1], idOf(s[j]), withId, ok);
    } else if j == n {
      assert r[j] == zero;
    } else {
      assert r[j] == s[j];
    }
  }

  lemma WithIdKeeps<T>(x: T, v: int, withId: (T, int) -> T, ok: T -> bool)
    requires forall x, v :: ok(x) ==> ok(withId(x, v))
    requires ok(x)
    ensures ok(withId(x, v))
  {
  }

  /** The names of a sequence of entries. */
  function Names<T>(s: seq<T>, nameOf: T -> string): (names: seq<string>)
    ensures |names| == |s| && forall i :: 0 <= i < |s| ==> names[i] == nameOf(s[i])
  {
    seq(|s|, i requires 0 <= i < |s| => nameOf(s[i]))
  }

  /** The last slot carrying name, or -1. */
  function LastIndexOf(names: seq<string>, name: string): (r: int)
    ensures -1 <= r < |names|
    ensures r >= 0 ==> names[r] == name && forall i :: r < i < |names| ==> names[i] != name
    ensures r == -1 <==> name !in names
    decreases |names|
  {
    if |names| == 0 then -1
    else if names[|names| - 1] == name then |names| - 1
    else LastIndexOf(names[..|names| - 1], name)
  }

  // ---------------------------------------------------------------------
  // The table

  class Table<T> {
    /** The capacity: the length of the fixed-size array. */
    const cap: nat
    const daftar: array<T>
    var n: nat

    ghost predicate Valid()
      reads this
    {
      daftar.Length == cap && n <= cap
    }

    /** The live entries. */
    function Items(): seq<T>
      reads this, daftar
      requires Valid()
    {
      daftar[..n]
    }

    /** An empty table of `capacity` slots holding the entity's zero value. */
    constructor (capacity: nat, zero: T)
      ensures Valid() && cap == capacity && n == 0 && fresh(daftar)
      ensures daftar[..] == seq(capacity, _ => zero)
    {
      cap := capacity;
      daftar := new T[capacity](_ => zero);
      n := 0;
    }

    /** A value copy of another table: same capacity, count and slots. */
    constructor Copy(other: Table<T>)
      requires other.Valid()
      ensures Valid() && cap == other.cap && n == other.n && fresh(daftar)
      ensures daftar[..] == other.daftar[..]
    {
      cap := other.cap;
      n := other.n;
      daftar := new T[other.cap](i reads other.daftar requires 0 <= i < other.daftar.Length => other.daftar[i]);
    }

    /** Writing a new entry at slot n and counting it. */
    method Append(x: T)
      requires Valid() && n < cap
      modifies this, daftar
      ensures Valid() && n == old(n) + 1
      ensures daftar[..] == old(daftar[..])[old(n) := x]
      ensures Items() == old(Items()) + [x]
    {
      daftar[n] := x;
      n := n + 1;
      assert daftar[..n] == old(daftar[..n]) + [x];
    }

    /** Overwriting one live slot in place. */
    method SetAt(idx: nat, x: T)
      requires Valid() && idx < n
      modifies daftar
      ensures daftar[..] == old(daftar[..])[idx := x]
      ensures Items() == old(Items())[idx := x]
    {
      daftar[idx] := x;
    }

    /**
     * Delete by shift-left: slots idx + 1 .. n - 1 move one place left;
     * the old last slot keeps its (now dead) contents.
     */
    method DeleteAt(idx: nat)
      requires Valid() && idx < n
      modifies this, daftar
      ensures Valid() && n == old(n) - 1
      ensures daftar[..] == old(daftar[..idx] + daftar[idx + 1..n] + daftar[n - 1..])
      ensures Items() == old(Items()[..idx] + Items()[idx + 1..])
    {
      ghost var s := daftar[..];
      var i := idx;
      while i + 1 < n
        invariant Valid() && n == old(n)
        invariant idx <= i < n
        invariant forall j :: 0 <= j < idx ==> daftar[j] == s[j]
        invariant forall j :: idx <= j < i ==> daftar[j] == s[j + 1]
        invariant forall j :: i <= j < cap ==> daftar[j] == s[j]
      {
        daftar[i] := daftar[i + 1];
        i := i + 1;
      }
      n := n - 1;
      assert daftar[..] == s[..idx] + s[idx + 1..n + 1] + s[n..];
      assert daftar[..n] == s[..idx] + s[idx + 1..n + 1];
    }

    /**
     * The older delete: slots idx .. n - 1 take their right neighbour's
     * contents but keep their own IDs, slot n is reset, and n drops by
     * one. The loop reads slot n, so n must be below capacity. With idx
     * equal to n only slot n is reset.
     */
    method DeleteKeepingIds(idx: nat, idOf: T -> int, withId: (T, int) -> T, zero: T)
      requires Valid() && idx <= n && 0 < n < cap
      modifies this, daftar
      ensures Valid() && n == old(n) - 1
      ensures daftar[..] == KeepIdsShift(old(daftar[..]), idx, old(n), idOf, withId, zero)
    {
      ghost var s := daftar[..];
      var i := idx;
      while i < n
        invariant Valid() && n == old(n)
        invariant idx <= i <= n
        invariant forall j :: 0 <= j < idx ==> daftar[j] == s[j]
        invariant forall j :: idx <= j < i ==> daftar[j] == withId(s[j + 1], idOf(s[j]))
        invariant forall j :: i <= j < cap ==> daftar[j] == s[j]
      {
        var temp := idOf(daftar[i]);
        daftar[i] := withId(daftar[i + 1], temp);
        i := i + 1;
      }
      daftar[i] := zero;
      n := n - 1;
      assert daftar[..] == KeepIdsShift(s, idx, n + 1, idOf, withId, zero);
    }

    /**
     * Case-insensitive substring search by name: the first live slot whose
     * lower-cased name contains the lower-cased query, or -1.
     */
    method SearchByName(nameOf: T -> string, query: string) returns (r: int)
      requires Valid()
      ensures -1 <= r < n
      ensures r >= 0 ==> Contains(Lower(nameOf(daftar[r])), Lower(query))
      ensures forall i :: 0 <= i < n && (r == -1 || i < r) ==> !Contains(Lower(nameOf(daftar[i])), Lower(query))
      ensures query == "" ==> r == (if n > 0 then 0 else -1)
    {
      var searchName := Lower(query);
      var i := 0;
      while i < n
        invariant i <= n
        invariant forall j :: 0 <= j < i ==> !Contains(Lower(nameOf(daftar[j])), searchName)
      {
        if Contains(Lower(nameOf(daftar[i])), searchName) {
          return i;
        }
        i := i + 1;
      }
      if query == "" && n > 0 {
        ContainsEmpty(Lower(nameOf(daftar[0])));
      }
      return -1;
    }

    /** Every live slot that satisfies `matches`, in slot order. */
    method MatchingIndices(matches: T -> bool) returns (found: seq<nat>)
      requires Valid()
      ensures forall i :: i in found <==> 0 <= i < n && matches(daftar[i])
      ensures forall a, b :: 0 <= a < b < |found| ==> found[a] < found[b]
    {
      found := [];
      var i := 0;
      while i < n
        invariant i <= n
        invariant forall k :: k in found <==> 0 <= k < i && matches(daftar[k])
        invariant forall a, b :: 0 <= a < b < |found| ==> found[a] < found[b]
        invariant forall a :: 0 <= a < |found| ==> found[a] < i
      {
        if matches(daftar[i]) {
          found := found + [i];
        }
        i := i + 1;
      }
    }

    /** Linear search: the first live slot that satisfies `matches`, or -1. */
    method FirstWhere(matches: T -> bool) returns (r: int)
      requires Valid()
      ensures -1 <= r < n
      ensures r >= 0 ==> matches(daftar[r])
      ensures forall i :: 0 <= i < n && (r == -1 || i < r) ==> !matches(daftar[i])
    {
      var i := 0;
      while i < n
        invariant i <= n
        invariant forall j :: 0 <= j < i ==> !matches(daftar[j])
      {
        if matches(daftar[i]) {
          return i;
        }
        i := i + 1;
      }
      return -1;
    }

    /**
     * The older lookup by exact name: it ranges over every slot of the
     * array, live or not, and keeps the last match.
     */
    method LastWithName(nameOf: T -> string, name: string) returns (r: int)
      requires Valid()
      ensures r == LastIndexOf(Names(daftar[..], nameOf), name)
    {
      ghost var names := Names(daftar[..], nameOf);
      r := -1;
      var i := 0;
      while i < cap
        invariant i <= cap
        invariant r == LastIndexOf(names[..i], name)
      {
        assert names[..i + 1][..i] == names[..i];
        if nameOf(daftar[i]) == name {
          r := i;
        }
        i := i + 1;
      }
      assert names[..cap] == names;
    }

    /** Binary search by ID over the live slots [0, n - 1]. */
    method BinarySearchById(idOf: T -> int, id: int) returns (r: int)
      requires Valid()
      ensures r == BinarySearch(Ids(Items(), idOf), 0, n - 1, id)
      ensures r == -1 || (0 <= r < n && idOf(daftar[r]) == id)
    {
      ghost var ids := Ids(Items(), idOf);
      var left, right := 0, n - 1;
      while left <= right
        invariant 0 <= left <= right + 1 <= n
        invariant BinarySearch(ids, left, right, id) == BinarySearch(ids, 0, n - 1, id)
        decreases right - left
      {
        var mid := (left + right) / 2;
        if idOf(daftar[mid]) == id {
          return mid;
        } else if idOf(daftar[mid]) < id {
          left := mid + 1;
        } else {
          right := mid - 1;
        }
      }
      return -1;
    }

    /**
     * The older binary search, over the closed range [0, n]: it also reads
     * slot n, one past the live entries, so n must be below capacity.
     */
    method BinarySearchClosed(idOf: T -> int, id: int) returns (r: int)
      requires Valid() && n < cap
      ensures r == BinarySearch(Ids(daftar[..n + 1], idOf), 0, n, id)
      ensures r == -1 || (0 <= r <= n && idOf(daftar[r]) == id)
    {
      ghost var ids := Ids(daftar[..n + 1], idOf);
      var left, right, index := 0, n as int, -1;
      while left <= right && index == -1
        invariant 0 <= left <= right + 1 <= n + 1
        invariant index == -1 ==> BinarySearch(ids, left, right, id) == BinarySearch(ids, 0, n, id)
        invariant index != -1 ==> index == BinarySearch(ids, 0, n, id)
        decreases right - left + (if index == -1 then 2 else 1)
      {
        var mid := (left + right) / 2;
        if id < idOf(daftar[mid]) {
          right := mid - 1;
        } else if id > idOf(daftar[mid]) {
          left := mid + 1;
        } else {
          index := mid;
        }
      }
      return index;
    }

    /** Max-based ID allocation: one more than the largest of start - 1 and every live ID. */
    method NextId(idOf: T -> int, start: int) returns (r: int)
      requires Valid()
      ensures r == NextIdOf(Ids(Items(), idOf), start)
    {
      ghost var ids := Ids(Items(), idOf);
      var maxId := start - 1;
      var i := 0;
      while i < n
        invariant i <= n
        invariant maxId + 1 == NextIdOf(ids[..i], start)
      {
        assert ids[..i + 1][..i] == ids[..i];
        if idOf(daftar[i]) > maxId {
          maxId := idOf(daftar[i]);
        }
        i := i + 1;
      }
      assert ids[..n] == ids;
      return maxId + 1;
    }
  }
}
