/**
 * Every comparison a sort call site uses orders entries by a key: a
 * lower-cased string, a number, or a (year, month, day) triple. Each key
 * kind yields a strict weak order, which is what the sorting proofs need.
 */
module Orders {
  import opened Text
  import opened Dates
  import Sorting

  lemma StringKeyed<T(!new)>(before: (T, T) -> bool, key: T -> string)
    requires forall x, y :: before(x, y) == Less(key(x), key(y))
    ensures Sorting.StrictWeakOrder(before)
  {
    forall x, y, z ensures !before(x, x)
      && (before(x, y) && before(y, z) ==> before(x, z))
      && (!before(x, y) && !before(y, z) ==> !before(x, z))
    {
      LessOrder(key(x), key(y), key(z));
    }
  }

  /** Descending on a string key. */
  lemma StringKeyedReversed<T(!new)>(before: (T, T) -> bool, key: T -> string)
    requires forall x, y :: before(x, y) == Less(key(y), key(x))
    ensures Sorting.StrictWeakOrder(before)
  {
    forall x, y, z ensures !before(x, x)
      && (before(x, y) && before(y, z) ==> before(x, z))
      && (!before(x, y) && !before(y, z) ==> !before(x, z))
    {
      LessIrreflexive(key(x));
      LessOrder(key(z), key(y), key(x));
    }
  }

  lemma IntKeyed<T(!new)>(before: (T, T) -> bool, key: T -> int)
    requires forall x, y :: before(x, y) == (key(x) < key(y))
    ensures Sorting.StrictWeakOrder(before)
  {
  }

  lemma RealKeyed<T(!new)>(before: (T, T) -> bool, key: T -> real)
    requires forall x, y :: before(x, y) == (key(x) < key(y))
    ensures Sorting.StrictWeakOrder(before)
  {
  }

  /** "Strictly later" on (year, month, day) keys; x comes before y when x is later. */
  lemma LaterKeyed<T(!new)>(before: (T, T) -> bool, key: T -> (int, int, int))
    requires forall x, y :: before(x, y) == Later(key(x).0, key(x).1, key(x).2, key(y).0, key(y).1, key(y).2)
    ensures Sorting.StrictWeakOrder(before)
  {
  }
}
