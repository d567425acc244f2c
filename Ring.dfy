/** The ring buffer under `SlidingWindowRateLimiter`: a fixed number of
    slots, a head, a tail and a size, with the live entries stored from the
    head on and wrapping around the end. */
module RingBuffer {

  /** The slot after `i` in a ring of `limit` slots, as the source steps
      `head` and `tail`. */
  function Next(i: nat, limit: nat): (j: nat)
    requires i < limit
    ensures j < limit
  {
    if i + 1 == limit then 0 else i + 1
  }

  /** Stepping a slot is adding one modulo the ring size. */
  lemma NextIsSuccessorModulo(i: nat, limit: nat)
    requires i < limit
    ensures Next(i, limit) == (i + 1) % limit
  {
  }

  /** The slot k places after slot 0, for k below two laps of the ring. */
  function Slot(k: nat, limit: nat): (s: nat)
    requires k < 2 * limit
    ensures s < limit
  {
    if k < limit then k else k - limit
  }

  /** The slot `k` places after `head` holds entry `first + k`. */
  ghost predicate Stored(contents: seq<int>, head: nat, entries: seq<int>, first: nat, k: nat)
    requires head < |contents| && k < |contents| && first + k < |entries|
  {
    contents[Slot(head + k, |contents|)] == entries[first + k]
  }

  /** A ring buffer holding the entries from index `first` on: `size` of
      them, stored from slot `head` on, wrapping around, with `tail` the slot
      after the last of them. */
  ghost predicate Ring(contents: seq<int>, head: nat, tail: nat, size: nat, entries: seq<int>, first: nat) {
    && 0 < |contents| && head < |contents| && tail < |contents| && size <= |contents|
    && tail == Slot(head + size, |contents|) && first + size == |entries|
    && forall k :: 0 <= k < size ==> Stored(contents, head, entries, first, k)
  }

  /** The tail is the head plus the size, modulo the capacity. */
  lemma RingTailIsModulo(contents: seq<int>, head: nat, tail: nat, size: nat, entries: seq<int>, first: nat)
    requires Ring(contents, head, tail, size, entries, first)
    ensures tail == (head + size) % |contents|
  {
    var n := |contents|;
    if head + size >= n {
      assert head + size == 1 * n + tail;
    }
  }

  /** Stepping the head past the oldest entry leaves a ring of the others;
      the head slot held that oldest entry. */
  lemma RingPrune(contents: seq<int>, head: nat, tail: nat, size: nat, entries: seq<int>, first: nat)
    requires Ring(contents, head, tail, size, entries, first) && size > 0
    ensures contents[head] == entries[first]
    ensures Ring(contents, Next(head, |contents|), tail, size - 1, entries, first + 1)
  {
    assert Stored(contents, head, entries, first, 0);
    var head', first' := Next(head, |contents|), first + 1;
    forall k | 0 <= k < size - 1 ensures Stored(contents, head', entries, first', k) {
      assert Stored(contents, head, entries, first, k + 1);
      assert Slot(head' + k, |contents|) == Slot(head + (k + 1), |contents|);
    }
  }

  /** Writing at the tail of a ring with a free slot, and stepping the tail,
      adds the entry as the newest and overwrites none of the others. */
  lemma RingAppend(contents: seq<int>, head: nat, tail: nat, size: nat, entries: seq<int>, first: nat, t: int)
    requires Ring(contents, head, tail, size, entries, first) && size < |contents|
    ensures Ring(contents[tail := t], head, Next(tail, |contents|), size + 1, entries + [t], first)
  {
    var c := contents[tail := t];
    forall k | 0 <= k < size + 1 ensures Stored(c, head, entries + [t], first, k) {
      if k < size {
        assert Stored(contents, head, entries, first, k);
        assert Slot(head + k, |c|) != Slot(head + size, |c|);
      }
    }
  }
}
