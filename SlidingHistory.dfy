/** The history a sliding-window limiter keeps about its admissions, and
    the steps that preserve it. */
module SlidingHistory {
  import opened Timeline

  /** The history a limiter keeps: every admission so far, oldest first,
      of which the first `expired` have left the window by the last clock
      reading; no admission is later than that reading, and admission
      k+limit came at least a window after admission k. */
  ghost predicate History(admitted: seq<int>, expired: nat, clock: int, window: nat, limit: nat) {
    && expired <= |admitted|
    && Sorted(admitted)
    && (forall i :: 0 <= i < |admitted| ==> admitted[i] <= clock)
    && (forall i :: 0 <= i < expired ==> clock - admitted[i] >= window)
    && GapBound(admitted, limit, window)
  }

  /** A later clock reading keeps the history valid. */
  lemma HistoryObserve(admitted: seq<int>, expired: nat, clock: int, window: nat, limit: nat, now: int)
    requires History(admitted, expired, clock, window, limit) && now >= clock
    ensures History(admitted, expired, now, window, limit)
  {
  }

  /** Counting the oldest live admission as expired, once it has left the
      window, keeps the history valid. */
  lemma HistoryPrune(admitted: seq<int>, expired: nat, clock: int, window: nat, limit: nat)
    requires History(admitted, expired, clock, window, limit)
    requires expired < |admitted| && clock - admitted[expired] >= window
    ensures History(admitted, expired + 1, clock, window, limit)
  {
  }

  /** Admitting at the current reading, while fewer than `limit` admissions
      are live, keeps the history valid: the admission `limit` places back
      has expired. */
  lemma HistoryAppend(admitted: seq<int>, expired: nat, clock: int, window: nat, limit: nat, t: int)
    requires History(admitted, expired, clock, window, limit)
    requires limit > 0 && |admitted| - expired < limit && t >= clock
    ensures History(admitted + [t], expired, t, window, limit)
  {
    SortedAppend(admitted, t);
    GapBoundAppend(admitted, limit, window, t);
  }

  /** The sliding bound: in a valid history no span shorter than the window
      holds more than `limit` admissions. */
  lemma HistorySpan(admitted: seq<int>, expired: nat, clock: int, window: nat, limit: nat)
    requires History(admitted, expired, clock, window, limit)
    ensures SpanBound(admitted, limit, window)
  {
    GapBoundIffSpanBound(admitted, limit, window);
  }
}
