/** Admission histories: the instants at which a limiter let callers
    through, oldest first, and the two equivalent ways of saying that no
    span of a given length holds too many of them; and the clock oracle
    that stands for the waits of a blocked caller. */
module Timeline {

  /** What happens to a waiting caller at one wait on a condition: how far
      the clock has moved when it next reads it, and whether it was
      interrupted while it waited. */
  datatype Step = Step(elapsed: nat, interrupted: bool)

  /** How long after admission i admission i+n came. */
  function Spread(s: seq<int>, i: nat, n: nat): int
    requires i + n < |s|
  {
    s[i + n] - s[i]
  }

  /** Instants in the order they were read from a clock that never goes
      back: each no earlier than the one before. */
  predicate Sorted(s: seq<int>) {
    forall i :: 0 <= i < |s| - 1 ==> Spread(s, i, 1) >= 0
  }

  /** In a sorted list every instant is no earlier than those before it. */
  lemma {:induction false} SortedOrder(s: seq<int>, i: nat, j: nat)
    requires Sorted(s) && i <= j < |s|
    ensures s[i] <= s[j]
    decreases j - i
  {
    if i < j {
      assert Spread(s, i, 1) >= 0;
      SortedOrder(s, i + 1, j);
    }
  }

  /** Admission k+n comes at least w after admission k. */
  predicate GapBound(s: seq<int>, n: nat, w: int) {
    forall i :: 0 <= i < |s| - n ==> Spread(s, i, n) >= w
  }

  /** Any run of admissions spanning less than w has fewer than n+1
      members: at most n admissions fit in any span shorter than w. */
  predicate SpanBound(s: seq<int>, n: nat, w: int) {
    forall i, j :: 0 <= i <= j < |s| && s[j] - s[i] < w ==> j - i < n
  }

  /** For a sorted history the two bounds say the same thing. */
  lemma GapBoundIffSpanBound(s: seq<int>, n: nat, w: int)
    requires Sorted(s)
    ensures GapBound(s, n, w) <==> SpanBound(s, n, w)
  {
    if GapBound(s, n, w) {
      forall i, j | 0 <= i <= j < |s| && j - i >= n ensures s[j] - s[i] >= w {
        assert Spread(s, i, n) >= w;
        SortedOrder(s, i + n, j);
      }
    }
    if SpanBound(s, n, w) {
      forall i | 0 <= i < |s| - n ensures Spread(s, i, n) >= w {
        assert !(i + n - i < n);
      }
    }
  }

  /** Appending an instant no earlier than the last keeps a history sorted. */
  lemma SortedAppend(s: seq<int>, t: int)
    requires Sorted(s)
    requires forall i :: 0 <= i < |s| ==> s[i] <= t
    ensures Sorted(s + [t])
  {
    var s' := s + [t];
    forall i | 0 <= i < |s'| - 1 ensures Spread(s', i, 1) >= 0 {
      if i + 1 < |s| {
        assert Spread(s', i, 1) == Spread(s, i, 1);
      }
    }
  }

  /** Appending an instant at least w after the admission n places back
      keeps the gap bound. */
  lemma GapBoundAppend(s: seq<int>, n: nat, w: int, t: int)
    requires n > 0 && GapBound(s, n, w)
    requires n <= |s| ==> t - s[|s| - n] >= w
    ensures GapBound(s + [t], n, w)
  {
    var s' := s + [t];
    forall i | 0 <= i < |s'| - n ensures Spread(s', i, n) >= w {
      if i + n < |s| {
        assert Spread(s', i, n) == Spread(s, i, n);
      } else {
        assert s'[i] == s[|s| - n];
      }
    }
  }
}
