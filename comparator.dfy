/**
 * maximal_munch_comparator of source/tokens.cpp and the std::equal_range
 * call that uses it.
 *
 * The comparator is built for one character position idx.  Against the
 * character c just read it splits a run of table entries that already agree
 * on their first idx characters into three parts: entries that sort before c
 * (too short to have a character at idx, or a smaller one there), entries
 * that sort after c (a larger character at idx), and between them exactly
 * the entries whose character at idx is c.  equal_range returns that middle
 * part as a pair of positions.
 */
module MunchComparator {
  import opened Lookup

  /** The (entry, character) overload: the entry has no character at idx, or a smaller one. */
  predicate EntryBefore(idx: nat, e: string, c: int) {
    |e| <= idx || (e[idx] as int) < c
  }

  /** The (character, entry) overload: the entry has a character at idx, and c is smaller. */
  predicate CharBefore(idx: nat, c: int, e: string) {
    |e| > idx && c < (e[idx] as int)
  }

  /** No entry is on both sides of the same character. */
  lemma BeforeAndAfterExclusive(idx: nat, e: string, c: int)
    ensures !(EntryBefore(idx, e, c) && CharBefore(idx, c, e))
    ensures !EntryBefore(idx, e, c) && !CharBefore(idx, c, e) <==> |e| > idx && (e[idx] as int) == c
  {
  }

  /** Entries lo..hi of t all agree with entry lo on their first idx characters. */
  predicate SharePrefix<V>(t: Table<string, V>, lo: nat, hi: nat, idx: nat)
    requires lo <= hi <= |t|
  {
    forall i | lo <= i < hi :: idx <= |t[i].0| && idx <= |t[lo].0| && t[i].0[..idx] == t[lo].0[..idx]
  }

  /** The entries before c come first in lo..hi. */
  predicate PartitionedBelow<V>(t: Table<string, V>, lo: nat, hi: nat, idx: nat, c: int)
    requires lo <= hi <= |t|
  {
    forall i, j | lo <= i < j < hi :: EntryBefore(idx, t[j].0, c) ==> EntryBefore(idx, t[i].0, c)
  }

  /** The entries after c come last in lo..hi. */
  predicate PartitionedAbove<V>(t: Table<string, V>, lo: nat, hi: nat, idx: nat, c: int)
    requires lo <= hi <= |t|
  {
    forall i, j | lo <= i < j < hi :: CharBefore(idx, c, t[i].0) ==> CharBefore(idx, c, t[j].0)
  }

  /**
   * Of two sorted entries sharing their first idx characters, the earlier
   * one is before every character the later one is before, and the later
   * one is after every character the earlier one is after.
   */
  lemma OrderedPairComparesInOrder(a: string, b: string, idx: nat, c: int)
    requires StrLess(a, b)
    requires idx <= |a| && idx <= |b| && a[..idx] == b[..idx]
    ensures EntryBefore(idx, b, c) ==> EntryBefore(idx, a, c)
    ensures CharBefore(idx, c, a) ==> CharBefore(idx, c, b)
  {
    StrLessAfterCommonPrefix(a, b, idx);
    var a', b' := a[idx..], b[idx..];
    assert b' != [];
    assert |b| > idx && b'[0] == b[idx];
    if |a| > idx {
      assert a'[0] == a[idx];
      assert a[idx] <= b[idx];
    }
  }

  /**
   * The comparator partitions every sorted run of entries that share their
   * first idx characters, as std::equal_range requires of its range.
   */
  lemma ComparatorPartitions<V>(t: Table<string, V>, lo: nat, hi: nat, idx: nat, c: int)
    requires KeySorted(t) && lo <= hi <= |t| && SharePrefix(t, lo, hi, idx)
    ensures PartitionedBelow(t, lo, hi, idx, c) && PartitionedAbove(t, lo, hi, idx, c)
  {
    forall i, j | lo <= i < j < hi
      ensures EntryBefore(idx, t[j].0, c) ==> EntryBefore(idx, t[i].0, c)
      ensures CharBefore(idx, c, t[i].0) ==> CharBefore(idx, c, t[j].0)
    {
      OrderedPairComparesInOrder(t[i].0, t[j].0, idx, c);
    }
  }

  /**
   * In such a run an entry exactly idx characters long is a prefix of all
   * the others, so it can only be the first one.
   */
  lemma CompleteEntryIsFirst<V>(t: Table<string, V>, lo: nat, hi: nat, idx: nat, i: nat)
    requires KeySorted(t) && lo <= i < hi <= |t| && SharePrefix(t, lo, hi, idx)
    requires |t[i].0| == idx
    ensures i == lo
  {
    if lo < i {
      assert t[i].0[..idx] == t[i].0;
      StrLessAfterCommonPrefix(t[lo].0, t[i].0, idx);
      assert false;
    }
  }

  /** std::lower_bound with the (entry, character) overload: the first position not before c. */
  function LowerBound<V>(t: Table<string, V>, lo: nat, hi: nat, idx: nat, c: int): (r: nat)
    requires lo <= hi <= |t| && PartitionedBelow(t, lo, hi, idx, c)
    ensures lo <= r <= hi
    ensures forall i | lo <= i < r :: EntryBefore(idx, t[i].0, c)
    ensures forall i | r <= i < hi :: !EntryBefore(idx, t[i].0, c)
    decreases hi - lo
  {
    if lo == hi then lo
    else
      var mid := lo + (hi - lo) / 2;
      if EntryBefore(idx, t[mid].0, c) then LowerBound(t, mid + 1, hi, idx, c)
      else LowerBound(t, lo, mid, idx, c)
  }

  /** std::upper_bound with the (character, entry) overload: the first position c is before. */
  function UpperBound<V>(t: Table<string, V>, lo: nat, hi: nat, idx: nat, c: int): (r: nat)
    requires lo <= hi <= |t| && PartitionedAbove(t, lo, hi, idx, c)
    ensures lo <= r <= hi
    ensures forall i | lo <= i < r :: !CharBefore(idx, c, t[i].0)
    ensures forall i | r <= i < hi :: CharBefore(idx, c, t[i].0)
    decreases hi - lo
  {
    if lo == hi then lo
    else
      var mid := lo + (hi - lo) / 2;
      if CharBefore(idx, c, t[mid].0) then UpperBound(t, lo, mid, idx, c)
      else UpperBound(t, mid + 1, hi, idx, c)
  }

  /**
   * std::equal_range with maximal_munch_comparator(idx): over a sorted run
   * sharing its first idx characters, a sub-run whose entries share their
   * first idx + 1 characters.  EqualRangeSelects says which entries it holds.
   */
  function EqualRange<V>(t: Table<string, V>, lo: nat, hi: nat, idx: nat, c: int): (r: (nat, nat))
    requires KeySorted(t) && lo <= hi <= |t| && SharePrefix(t, lo, hi, idx)
    ensures lo <= r.0 <= r.1 <= hi
    ensures SharePrefix(t, r.0, r.1, idx + 1)
  {
    ComparatorPartitions(t, lo, hi, idx, c);
    var a := LowerBound(t, lo, hi, idx, c);
    var b := UpperBound(t, lo, hi, idx, c);
    assert a <= b by {
      if b < a {
        BeforeAndAfterExclusive(idx, t[b].0, c);
      }
    }
    assert SharePrefix(t, a, b, idx + 1) by {
      forall i | a <= i < b
        ensures t[i].0[..idx + 1] == t[a].0[..idx + 1]
      {
        BeforeAndAfterExclusive(idx, t[i].0, c);
        BeforeAndAfterExclusive(idx, t[a].0, c);
        assert t[i].0[..idx + 1] == t[i].0[..idx] + [t[i].0[idx]];
        assert t[a].0[..idx + 1] == t[a].0[..idx] + [t[a].0[idx]];
      }
    }
    (a, b)
  }

  /** The run EqualRange returns holds exactly the entries of lo..hi whose character at idx is c. */
  lemma EqualRangeSelects<V>(t: Table<string, V>, lo: nat, hi: nat, idx: nat, c: int)
    requires KeySorted(t) && lo <= hi <= |t| && SharePrefix(t, lo, hi, idx)
    ensures var r := EqualRange(t, lo, hi, idx, c);
      forall i | lo <= i < hi :: (r.0 <= i < r.1 <==> |t[i].0| > idx && (t[i].0[idx] as int) == c)
  {
    ComparatorPartitions(t, lo, hi, idx, c);
    forall i | lo <= i < hi
      ensures LowerBound(t, lo, hi, idx, c) <= i < UpperBound(t, lo, hi, idx, c) <==> |t[i].0| > idx && (t[i].0[idx] as int) == c
    {
      BeforeAndAfterExclusive(idx, t[i].0, c);
    }
  }
}
