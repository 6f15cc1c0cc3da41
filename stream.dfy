/**
 * The push-back stream get_operator reads from, seen as the sequence of
 * values it will deliver.  A pull returns the most recently pushed-back
 * value if there is one, otherwise the next input value, otherwise the
 * end-of-input value; a push-back puts one value in front of everything
 * still to come.  Values are character codes held in an int, and a
 * negative value means the input has ended.
 */
module Streams {
  /** What a pull returns once the input is exhausted. */
  const EndOfInput: int := -1

  /** The k-th value a stream that has s still to come delivers. */
  function At(s: seq<int>, k: nat): int {
    if k < |s| then s[k] else EndOfInput
  }

  /** What is left of s once n values were taken from its front. */
  function Drop(s: seq<int>, n: nat): seq<int>
    decreases |s|
  {
    if n == 0 || s == [] then s else Drop(s[1..], n - 1)
  }

  /** The values a stream delivers for the characters of w. */
  function Values(w: string): seq<int> {
    seq(|w|, j requires 0 <= j < |w| => w[j] as int)
  }

  /** Taking at least as many values as there are leaves nothing. */
  lemma {:induction false} DropAll(s: seq<int>, n: nat)
    requires |s| <= n
    ensures Drop(s, n) == []
    decreases |s|
  {
    if n > 0 && s != [] {
      DropAll(s[1..], n - 1);
    }
  }

  /** n copies of c. */
  function Repeat(c: int, n: nat): seq<int> {
    if n == 0 then [] else [c] + Repeat(c, n - 1)
  }

  /** Pushing one more copy of c in front of n copies followed by rest gives n + 1 copies followed by rest. */
  lemma RepeatPush(c: int, n: nat, rest: seq<int>)
    ensures [c] + (Repeat(c, n) + rest) == Repeat(c, n + 1) + rest
  {
  }

  /** Taking n values and then m more takes n + m. */
  lemma {:induction false} DropDrop(s: seq<int>, n: nat, m: nat)
    ensures Drop(Drop(s, n), m) == Drop(s, n + m)
    decreases |s|
  {
    if n > 0 && s != [] {
      DropDrop(s[1..], n - 1, m);
    }
  }

  /** The value at position k is the first value left once k values are taken. */
  lemma {:induction false} AtDrop(s: seq<int>, k: nat)
    ensures At(Drop(s, k), 0) == At(s, k)
    decreases |s|
  {
    if k > 0 && s != [] {
      AtDrop(s[1..], k - 1);
    }
  }

  class PushBackStream {
    /** Everything the stream will deliver, in order, before it starts returning the end-of-input value. */
    var upcoming: seq<int>
    /** How many values have been pulled, and how many pushed back, since the stream was made. */
    var pulls: nat
    var pushes: nat

    constructor (input: seq<int>)
      ensures upcoming == input && pulls == 0 && pushes == 0
    {
      upcoming := input;
      pulls, pushes := 0, 0;
    }

    /** The stream's call operator: the next value, or the end-of-input value once nothing is left. */
    method Pull() returns (c: int)
      modifies this
      ensures c == At(old(upcoming), 0)
      ensures upcoming == Drop(old(upcoming), 1)
      ensures pulls == old(pulls) + 1 && pushes == old(pushes)
    {
      pulls := pulls + 1;
      if upcoming != [] {
        c := upcoming[0];
        upcoming := upcoming[1..];
      } else {
        c := EndOfInput;
      }
    }

    /** A pull from a stream that had s to come and has delivered k values since delivers value k of s. */
    method PullAt(ghost s: seq<int>, ghost k: nat) returns (c: int)
      requires upcoming == Drop(s, k)
      modifies this
      ensures c == At(s, k) && upcoming == Drop(s, k + 1)
      ensures pulls == old(pulls) + 1 && pushes == old(pushes)
    {
      c := Pull();
      AtDrop(s, k);
      DropDrop(s, k, 1);
    }

    /** push_back: c becomes the next value pulled. */
    method PushBack(c: int)
      modifies this
      ensures upcoming == [c] + old(upcoming)
      ensures pulls == old(pulls) && pushes == old(pushes) + 1
    {
      upcoming := [c] + upcoming;
      pushes := pushes + 1;
    }

    /** push_back of the same value c, n times over. */
    method PushBackCopies(c: int, n: nat)
      modifies this
      ensures upcoming == Repeat(c, n) + old(upcoming)
      ensures pulls == old(pulls) && pushes == old(pushes) + n
    {
      for i := 0 to n
        invariant upcoming == Repeat(c, i) + old(upcoming)
        invariant pulls == old(pulls) && pushes == old(pushes) + i
      {
        RepeatPush(c, i, old(upcoming));
        PushBack(c);
      }
    }

    /** A stream that had s to come and has delivered k + 1 values since pushes the last of them back n times. */
    method PushBackLast(ghost s: seq<int>, ghost k: nat, c: int, n: nat)
      requires upcoming == Drop(s, k + 1) && c == At(s, k)
      modifies this
      ensures upcoming == Repeat(At(s, k), n) + Drop(s, k + 1)
      ensures pulls == old(pulls) && pushes == old(pushes) + n
    {
      PushBackCopies(c, n);
    }
  }
}
