/**
 * get_operator of source/tokens.cpp: the maximal-munch operator scanner.
 *
 * The scanner reads values from a push-back stream one at a time and keeps
 * the run of table entries whose first idx characters agree with what it
 * has read, narrowing that run with the comparator at every step.  Whenever
 * the first entry of the run is exactly idx characters long it remembers
 * that entry's kind.  It stops when it reads the end-of-input value or the
 * run becomes empty, then pushes the last value it read back onto the stream
 * once for every position from the remembered length to the stop position.
 *
 * get_operator runs this scan over the operator table.  The scan and its
 * specification are stated for any table t that is sorted and whose
 * spellings are 1 to MaxSpelling characters long; GetOperator instantiates
 * them with OperatorTokenMap().  Everything is described over s, all the
 * stream was going to deliver when the scan began.
 */
module Scanner {
  import opened Options
  import opened Tokens
  import opened Lookup
  import opened TokenTables
  import opened MunchComparator
  import opened Streams

  /** The length of the longest operator spelling. */
  const MaxSpelling: nat := 3

  /** A table the scan works on: keys sorted (hence distinct), each 1 to MaxSpelling characters long. */
  predicate Scannable(t: Table<string, ReservedToken>) {
    KeySorted(t) && forall i | 0 <= i < |t| :: 1 <= |t[i].0| <= MaxSpelling
  }

  /** The operator table is one. */
  lemma OperatorTableScannable()
    ensures Scannable(OperatorTokenMap())
  {
    OperatorTableSorted();
    OperatorSpellingLengths();
  }

  /** Spelling e agrees with the first n values of s. */
  ghost predicate Begins(e: string, s: seq<int>, n: nat) {
    n <= |e| && forall j | 0 <= j < n :: (e[j] as int) == At(s, j)
  }

  /** Some spelling of t agrees with the first n values of s: the scan's candidate run is not empty. */
  ghost predicate Viable(t: Table<string, ReservedToken>, s: seq<int>, n: nat) {
    exists i | 0 <= i < |t| :: Begins(t[i].0, s, n)
  }

  /**
   * Some spelling of t of length n stands at the front of s; when followed
   * holds, at least one more value (not the end of input) comes after it.
   */
  ghost predicate Completes(t: Table<string, ReservedToken>, s: seq<int>, n: nat, followed: bool) {
    exists i | 0 <= i < |t| :: |t[i].0| == n && Begins(t[i].0, s, n) && (followed ==> At(s, n) >= 0)
  }

  /** No spelling is longer than MaxSpelling or empty. */
  lemma NothingViablePastLongest(t: Table<string, ReservedToken>, s: seq<int>)
    requires Scannable(t)
    ensures !Viable(t, s, MaxSpelling + 1)
    ensures !Completes(t, s, 0, false)
  {
  }

  /**
   * Where a scan that has reached position n stops: the first position from
   * n on where the input has ended or no spelling agrees with the values
   * read so far.
   */
  ghost function StopFrom(t: Table<string, ReservedToken>, s: seq<int>, n: nat): (r: nat)
    requires Scannable(t) && n <= MaxSpelling + 1
    ensures n <= r <= MaxSpelling + 1
    ensures At(s, r) < 0 || !Viable(t, s, r)
    ensures forall m | n <= m < r :: At(s, m) >= 0 && Viable(t, s, m)
    decreases MaxSpelling + 1 - n
  {
    if At(s, n) < 0 || !Viable(t, s, n) then n
    else if n == MaxSpelling + 1 then NothingViablePastLongest(t, s); n
    else StopFrom(t, s, n + 1)
  }

  /** The position the scan of s stops at: the number of loop rounds it runs. */
  ghost function StopIndex(t: Table<string, ReservedToken>, s: seq<int>): nat
    requires Scannable(t)
  {
    StopFrom(t, s, 0)
  }

  /** A spelling standing at the front of s lies within the scan: it is no longer than the stop position, and shorter when a value follows it. */
  lemma {:induction false} SpelledWithinScan(t: Table<string, ReservedToken>, s: seq<int>, n: nat, followed: bool)
    requires Scannable(t) && Completes(t, s, n, followed)
    ensures n <= StopIndex(t, s)
    ensures followed ==> n < StopIndex(t, s)
  {
    var i :| 0 <= i < |t| && |t[i].0| == n && Begins(t[i].0, s, n) && (followed ==> At(s, n) >= 0);
    var r := StopIndex(t, s);
    if r < n {
      assert Begins(t[i].0, s, r);
      assert false;
    }
    if followed && r == n {
      assert false;
    }
  }

  /** The longest length below n at which a spelling completes at the front of s, or 0. */
  ghost function LongestBelow(t: Table<string, ReservedToken>, s: seq<int>, n: nat, followed: bool): (r: nat)
    ensures r == 0 || r < n
    ensures r > 0 ==> Completes(t, s, r, followed)
    ensures forall m | r < m < n :: !Completes(t, s, m, followed)
    decreases n
  {
    if n == 0 then 0
    else if Completes(t, s, n - 1, followed) then n - 1
    else LongestBelow(t, s, n - 1, followed)
  }

  /**
   * The length of the longest spelling at the front of s (followed by
   * another value when followed holds), or 0 when there is none.
   */
  ghost function Longest(t: Table<string, ReservedToken>, s: seq<int>, followed: bool): (r: nat)
    requires Scannable(t)
    ensures r > 0 ==> Completes(t, s, r, followed)
    ensures forall i | 0 <= i < |t| ::
      (Begins(t[i].0, s, |t[i].0|) && (followed ==> At(s, |t[i].0|) >= 0)) ==> |t[i].0| <= r
    ensures r <= StopIndex(t, s)
    ensures followed && r > 0 ==> r < StopIndex(t, s)
  {
    var r := LongestBelow(t, s, MaxSpelling + 1, followed);
    assert r > 0 ==> r <= StopIndex(t, s) && (followed ==> r < StopIndex(t, s)) by {
      if r > 0 {
        SpelledWithinScan(t, s, r, followed);
      }
    }
    assert forall i | 0 <= i < |t| ::
      (Begins(t[i].0, s, |t[i].0|) && (followed ==> At(s, |t[i].0|) >= 0)) ==> |t[i].0| <= r
    by {
      forall i | 0 <= i < |t| && Begins(t[i].0, s, |t[i].0|) && (followed ==> At(s, |t[i].0|) >= 0)
        ensures |t[i].0| <= r
      {
        assert Completes(t, s, |t[i].0|, followed);
      }
    }
    r
  }

  /** The kind of the spelling of length m at the front of s, if there is one. */
  ghost function SpelledKind(t: Table<string, ReservedToken>, s: seq<int>, m: nat): Option<ReservedToken> {
    if Completes(t, s, m, false) then
      var i :| 0 <= i < |t| && |t[i].0| == m && Begins(t[i].0, s, m);
      Some(t[i].1)
    else None
  }

  /** The spelling of a given length at the front of s is unique, so its kind is the one SpelledKind gives. */
  lemma SpelledKindIs(t: Table<string, ReservedToken>, s: seq<int>, m: nat, i: nat)
    requires Scannable(t) && i < |t|
    requires |t[i].0| == m && Begins(t[i].0, s, m)
    ensures SpelledKind(t, s, m) == Some(t[i].1)
  {
    assert Completes(t, s, m, false);
    var j :| 0 <= j < |t| && |t[j].0| == m && Begins(t[j].0, s, m) && SpelledKind(t, s, m) == Some(t[j].1);
    assert t[j].0 == t[i].0 by {
      forall k | 0 <= k < m
        ensures t[j].0[k] == t[i].0[k]
      {
        assert (t[j].0[k] as int) == At(s, k) == (t[i].0[k] as int);
      }
    }
    KeySortedDistinct(t);
  }

  /**
   * What the scan returns for s: the kind of the longest spelling at the
   * front of s that is followed by at least one more value, or None when no
   * such spelling is there.
   */
  ghost function Munch(t: Table<string, ReservedToken>, s: seq<int>): Option<ReservedToken>
    requires Scannable(t)
  {
    SpelledKind(t, s, Longest(t, s, true))
  }

  /**
   * The scan returns a kind exactly when some spelling followed by another
   * value stands at the front of s, and then it is the kind of a table entry
   * whose spelling is exactly the first Longest values of s, all of which
   * come before the end of the input.
   */
  lemma MunchSpelling(t: Table<string, ReservedToken>, s: seq<int>)
    requires Scannable(t)
    ensures Munch(t, s).Some? <==> Longest(t, s, true) > 0
    ensures Longest(t, s, true) == 0 || Longest(t, s, true) < |s|
    ensures Munch(t, s).Some? ==> exists i | 0 <= i < |t| ::
      t[i].1 == Munch(t, s).value && Values(t[i].0) == s[..Longest(t, s, true)]
  {
    var m := Longest(t, s, true);
    NothingViablePastLongest(t, s);
    if m > 0 {
      var i :| 0 <= i < |t| && |t[i].0| == m && Begins(t[i].0, s, m) && At(s, m) >= 0;
      SpelledKindIs(t, s, m, i);
      forall j | 0 <= j < m
        ensures Values(t[i].0)[j] == s[..m][j]
      {
        assert (t[i].0[j] as int) == At(s, j);
      }
    }
  }

  /** Past the stop position no spelling followed by another value completes, so the longest one lies below it. */
  lemma {:induction false} LongestBelowStop(t: Table<string, ReservedToken>, s: seq<int>, k: nat)
    requires Scannable(t) && StopIndex(t, s) <= k
    ensures LongestBelow(t, s, k, true) == LongestBelow(t, s, StopIndex(t, s), true)
    decreases k
  {
    if k > StopIndex(t, s) {
      if Completes(t, s, k - 1, true) {
        SpelledWithinScan(t, s, k - 1, true);
      }
      LongestBelowStop(t, s, k - 1);
    }
  }

  /** Entries that all agree with the first idx values of s agree with each other on their first idx characters. */
  lemma BeginsSharePrefix(t: Table<string, ReservedToken>, lo: nat, hi: nat, s: seq<int>, idx: nat)
    requires lo <= hi <= |t|
    requires forall i | lo <= i < hi :: Begins(t[i].0, s, idx)
    ensures SharePrefix(t, lo, hi, idx)
  {
    forall i | lo <= i < hi
      ensures t[i].0[..idx] == t[lo].0[..idx]
    {
      forall k | 0 <= k < idx
        ensures t[i].0[k] == t[lo].0[k]
      {
        assert (t[i].0[k] as int) == At(s, k) == (t[lo].0[k] as int);
      }
    }
  }

  /**
   * One round of the scan at position idx, while the candidate run lo..hi
   * holds exactly the entries agreeing with the first idx values of s and
   * the value read there is not the end of input: the run's first entry is
   * exactly idx characters long just when a followed spelling completes at
   * idx, and then it is the spelling SpelledKind finds.
   */
  lemma RoundRecords(t: Table<string, ReservedToken>, s: seq<int>, lo: nat, hi: nat, idx: nat)
    requires Scannable(t) && lo < hi <= |t| && At(s, idx) >= 0
    requires forall i | 0 <= i < |t| :: lo <= i < hi <==> Begins(t[i].0, s, idx)
    ensures Viable(t, s, idx) && idx < StopIndex(t, s)
    ensures Completes(t, s, idx, true) <==> |t[lo].0| == idx
    ensures |t[lo].0| == idx ==> SpelledKind(t, s, idx) == Some(t[lo].1)
  {
    assert Begins(t[lo].0, s, idx);
    BeginsSharePrefix(t, lo, hi, s, idx);
    if Completes(t, s, idx, true) {
      var i :| 0 <= i < |t| && |t[i].0| == idx && Begins(t[i].0, s, idx) && At(s, idx) >= 0;
      CompleteEntryIsFirst(t, lo, hi, idx, i);
    }
    if |t[lo].0| == idx {
      SpelledKindIs(t, s, idx, lo);
    }
  }

  /**
   * Narrowing the candidate run with the comparator at position idx and the
   * value read there leaves exactly the entries that agree with the first
   * idx + 1 values of s.
   */
  lemma RoundNarrows(t: Table<string, ReservedToken>, s: seq<int>, lo: nat, hi: nat, idx: nat)
    requires Scannable(t) && lo <= hi <= |t|
    requires forall i | 0 <= i < |t| :: lo <= i < hi <==> Begins(t[i].0, s, idx)
    ensures SharePrefix(t, lo, hi, idx)
    ensures var r := EqualRange(t, lo, hi, idx, At(s, idx));
      forall i | 0 <= i < |t| :: r.0 <= i < r.1 <==> Begins(t[i].0, s, idx + 1)
  {
    BeginsSharePrefix(t, lo, hi, s, idx);
    EqualRangeSelects(t, lo, hi, idx, At(s, idx));
    var r := EqualRange(t, lo, hi, idx, At(s, idx));
    forall i | 0 <= i < |t|
      ensures r.0 <= i < r.1 <==> Begins(t[i].0, s, idx + 1)
    {
      if lo <= i < hi && Begins(t[i].0, s, idx + 1) {
        assert (t[i].0[idx] as int) == At(s, idx);
      }
    }
  }

  /**
   * One round of the scan at position idx, while the candidate run lo..hi
   * is not empty and holds exactly the entries agreeing with the first idx
   * values of s, and the value read there is not the end of input: the scan
   * goes on to the next position, a spelling followed by another value
   * completes at idx just when the run's first entry is idx characters long,
   * and the narrowed run holds exactly the entries agreeing with the first
   * idx + 1 values.
   */
  lemma RoundStep(t: Table<string, ReservedToken>, s: seq<int>, lo: nat, hi: nat, idx: nat)
    requires Scannable(t) && lo < hi <= |t| && idx <= MaxSpelling + 1 && At(s, idx) >= 0
    requires forall i | 0 <= i < |t| :: lo <= i < hi <==> Begins(t[i].0, s, idx)
    ensures idx < MaxSpelling + 1 && SharePrefix(t, lo, hi, idx)
    ensures StopFrom(t, s, idx + 1) == StopFrom(t, s, idx)
    ensures LongestBelow(t, s, idx + 1, true) == if |t[lo].0| == idx then idx else LongestBelow(t, s, idx, true)
    ensures |t[lo].0| == idx ==> SpelledKind(t, s, idx) == Some(t[lo].1)
    ensures var r := EqualRange(t, lo, hi, idx, At(s, idx));
      forall i | 0 <= i < |t| :: r.0 <= i < r.1 <==> Begins(t[i].0, s, idx + 1)
  {
    RoundRecords(t, s, lo, hi, idx);
    RoundNarrows(t, s, lo, hi, idx);
  }

  /**
   * The loop of get_operator over table t.  idx is the round at which the
   * loop test fails, which is StopIndex; matchSize is the length of the
   * longest spelling below it that another value follows, and ret its kind;
   * c is the value read in the last round.  The loop has taken idx + 1
   * values from the stream.
   */
  method ScanRounds(t: Table<string, ReservedToken>, stream: PushBackStream)
    returns (ret: Option<ReservedToken>, c: int, idx: nat, matchSize: nat)
    requires Scannable(t)
    modifies stream
    ensures var s := old(stream.upcoming);
      idx == StopIndex(t, s) && matchSize == LongestBelow(t, s, idx, true) && ret == SpelledKind(t, s, matchSize)
    ensures c == At(old(stream.upcoming), idx) && stream.upcoming == Drop(old(stream.upcoming), idx + 1)
    ensures stream.pulls == old(stream.pulls) + idx + 1 && stream.pushes == old(stream.pushes)
  {
    ghost var s := stream.upcoming;
    assert SpelledKind(t, s, 0) == None by {
      NothingViablePastLongest(t, s);
    }
    var lo: nat, hi: nat := 0, |t|;
    ret := None;
    matchSize := 0;
    c := stream.PullAt(s, 0);
    idx := 0;
    while c >= 0 && lo != hi
      invariant idx <= MaxSpelling + 1 && lo <= hi <= |t|
      invariant forall i | 0 <= i < |t| :: lo <= i < hi <==> Begins(t[i].0, s, idx)
      invariant StopFrom(t, s, idx) == StopIndex(t, s)
      invariant matchSize == LongestBelow(t, s, idx, true) && ret == SpelledKind(t, s, matchSize)
      invariant c == At(s, idx) && stream.upcoming == Drop(s, idx + 1)
      invariant stream.pulls == old(stream.pulls) + idx + 1 && stream.pushes == old(stream.pushes)
      decreases MaxSpelling + 1 - idx
    {
      RoundStep(t, s, lo, hi, idx);
      if |t[lo].0| == idx {
        matchSize := idx;
        ret := Some(t[lo].1);
      }
      var narrowed := EqualRange(t, lo, hi, idx, c);
      lo, hi := narrowed.0, narrowed.1;
      idx := idx + 1;
      c := stream.PullAt(s, idx);
    }
  }

  /**
   * get_operator over table t: returns the kind Munch finds in everything
   * the stream was going to deliver; stop is StopIndex and matched the
   * length of the spelling found.  The scan read stop + 1 values and pushes
   * the last of them back once for every position from matched to stop, in
   * front of the rest of the input.
   */
  method ScanLongest(t: Table<string, ReservedToken>, stream: PushBackStream)
    returns (ret: Option<ReservedToken>, ghost stop: nat, ghost matched: nat)
    requires Scannable(t)
    modifies stream
    ensures var s := old(stream.upcoming); stop == StopIndex(t, s) && matched == Longest(t, s, true) && ret == Munch(t, s)
    ensures matched <= stop <= MaxSpelling + 1
    ensures stream.pulls == old(stream.pulls) + stop + 1 && stream.pushes == old(stream.pushes) + stop + 1 - matched
    ensures (stream.pulls - old(stream.pulls)) - (stream.pushes - old(stream.pushes)) == matched
    ensures stream.upcoming == Repeat(At(old(stream.upcoming), stop), stop + 1 - matched) + Drop(old(stream.upcoming), stop + 1)
  {
    ghost var s := stream.upcoming;
    LongestBelowStop(t, s, MaxSpelling + 1);
    var c, idx, matchSize;
    ret, c, idx, matchSize := ScanRounds(t, stream);
    stop, matched := idx, matchSize;
    stream.PushBackLast(s, idx, c, idx + 1 - matchSize);
  }

  /**
   * get_operator: the scan over the operator table.  It returns the
   * operator Munch finds in everything the stream was going to deliver, and
   * leaves the stream as ScanLongest describes.
   */
  method GetOperator(stream: PushBackStream) returns (ret: Option<ReservedToken>, ghost stop: nat, ghost matched: nat)
    modifies stream
    ensures (OperatorTableScannable(); var s := old(stream.upcoming);
      stop == StopIndex(OperatorTokenMap(), s) && matched == Longest(OperatorTokenMap(), s, true) && ret == Munch(OperatorTokenMap(), s))
    ensures matched <= stop <= MaxSpelling + 1
    ensures stream.pulls == old(stream.pulls) + stop + 1 && stream.pushes == old(stream.pushes) + stop + 1 - matched
    ensures (stream.pulls - old(stream.pulls)) - (stream.pushes - old(stream.pushes)) == matched
    ensures stream.upcoming == Repeat(At(old(stream.upcoming), stop), stop + 1 - matched) + Drop(old(stream.upcoming), stop + 1)
  {
    OperatorTableScannable();
    ret, stop, matched := ScanLongest(OperatorTokenMap(), stream);
  }
}
