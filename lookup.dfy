/**
 * The read-only associative container behind the symbol tables: a sequence
 * of (key, value) entries with an exact-match find.  The container's own
 * storage and binary search live in a header that is not part of this
 * model; an exact find over distinct keys returns the same value whichever
 * way it searches.
 */
module Lookup {
  import opened Options

  /** A lookup table: its (key, value) entries in storage order. */
  type Table<K, V> = seq<(K, V)>

  /** No key is stored twice. */
  predicate DistinctKeys<K(==), V>(t: Table<K, V>) {
    forall i, j | 0 <= i < j < |t| :: t[i].0 != t[j].0
  }

  /** Exact-match find: the value stored under k, or None when k is no key of t. */
  function Find<K(==), V>(t: Table<K, V>, k: K): (r: Option<V>)
    ensures r.None? <==> forall i | 0 <= i < |t| :: t[i].0 != k
    ensures r.Some? ==> exists i | 0 <= i < |t| :: t[i] == (k, r.value)
  {
    if t == [] then None
    else if t[0].0 == k then Some(t[0].1)
    else Find(t[1..], k)
  }

  /** With distinct keys, finding an entry's key yields that entry's value. */
  lemma FindEntry<K, V>(t: Table<K, V>, i: nat)
    requires DistinctKeys(t) && i < |t|
    ensures Find(t, t[i].0) == Some(t[i].1)
  {
  }

  /** Strict lexicographic order on spellings, the order std::string_view's operator< gives. */
  predicate StrLess(a: string, b: string) {
    if a == [] then b != []
    else b != [] && (a[0] < b[0] || (a[0] == b[0] && StrLess(a[1..], b[1..])))
  }

  lemma {:induction false} StrLessIrreflexive(a: string)
    ensures !StrLess(a, a)
  {
    if a != [] {
      StrLessIrreflexive(a[1..]);
    }
  }

  lemma {:induction false} StrLessTransitive(a: string, b: string, c: string)
    requires StrLess(a, b) && StrLess(b, c)
    ensures StrLess(a, c)
  {
    if a != [] && a[0] == b[0] && b[0] == c[0] {
      StrLessTransitive(a[1..], b[1..], c[1..]);
    }
  }

  /**
   * Two spellings that agree on their first k characters compare as the
   * rest of them compare.
   */
  lemma {:induction false} StrLessAfterCommonPrefix(a: string, b: string, k: nat)
    requires k <= |a| && k <= |b| && a[..k] == b[..k]
    ensures StrLess(a, b) <==> StrLess(a[k..], b[k..])
  {
    if k > 0 {
      assert a[0] == a[..k][0] == b[..k][0] == b[0];
      assert a[1..][..k - 1] == a[1..k] == a[..k][1..];
      assert b[1..][..k - 1] == b[1..k] == b[..k][1..];
      StrLessAfterCommonPrefix(a[1..], b[1..], k - 1);
      assert a[1..][k - 1..] == a[k..] && b[1..][k - 1..] == b[k..];
    }
  }

  /**
   * Every entry's key is strictly below the next entry's key: the order the
   * container keeps its entries in, stated on neighbours.
   */
  predicate KeyOrdered<V>(t: Table<string, V>) {
    forall i | 0 <= i < |t| - 1 :: StrLess(t[i].0, t[i + 1].0)
  }

  /** Every earlier key is strictly below every later key. */
  predicate KeySorted<V>(t: Table<string, V>) {
    forall i, j {:trigger StrLess(t[i].0, t[j].0)} | 0 <= i < j < |t| :: StrLess(t[i].0, t[j].0)
  }

  lemma {:induction false} KeyOrderedSpan<V>(t: Table<string, V>, i: nat, j: nat)
    requires KeyOrdered(t) && i < j < |t|
    ensures StrLess(t[i].0, t[j].0)
    decreases j - i
  {
    if i + 1 < j {
      KeyOrderedSpan(t, i + 1, j);
      StrLessTransitive(t[i].0, t[i + 1].0, t[j].0);
    }
  }

  /** A strictly sorted table has distinct keys. */
  lemma KeySortedDistinct<V>(t: Table<string, V>)
    requires KeySorted(t)
    ensures DistinctKeys(t)
  {
    forall i, j | 0 <= i < j < |t|
      ensures t[i].0 != t[j].0
    {
      StrLessIrreflexive(t[i].0);
    }
  }

  /** Neighbour order gives the full order, and a fully ordered table has distinct keys. */
  lemma KeyOrderedIsSorted<V>(t: Table<string, V>)
    requires KeyOrdered(t)
    ensures KeySorted(t) && DistinctKeys(t)
  {
    forall i, j | 0 <= i < j < |t|
      ensures StrLess(t[i].0, t[j].0) && t[i].0 != t[j].0
    {
      KeyOrderedSpan(t, i, j);
      StrLessIrreflexive(t[i].0);
    }
  }

  /** In a sorted table, a key that sorts strictly between two neighbouring keys is not found. */
  lemma AbsentBetweenNeighbours<V>(t: Table<string, V>, i: nat, k: string)
    requires KeySorted(t) && i + 1 < |t|
    requires StrLess(t[i].0, k) && StrLess(k, t[i + 1].0)
    ensures Find(t, k) == None
  {
    forall j | 0 <= j < |t|
      ensures t[j].0 != k
    {
      StrLessIrreflexive(k);
      if j < i {
        StrLessTransitive(t[j].0, t[i].0, k);
      } else if j > i + 1 {
        StrLessTransitive(k, t[i + 1].0, t[j].0);
      }
    }
  }
}
