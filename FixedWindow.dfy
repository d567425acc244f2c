/** `FixedWindowSemaphoreLimiter`: at most `limit` admissions per window of
    `windowNanos`, counted by a semaphore of `limit` permits. A caller first
    tries to take a permit without looking at the clock; only when none is
    left does it take the lock, roll the window over if it has elapsed
    (lazily: no timer does it), try again, and otherwise wait for the
    window to end.

    The semaphore is its count of available permits. One caller's run of
    `acquire` is modelled sequentially; the clock readings and the waits on
    the condition are an oracle, as for the sliding limiter. */
module FixedWindow {
  import opened Wrappers
  import opened Strings
  import opened Timeline

  /** The end of one `acquire`: admitted at an instant, or cancelled by an
      `InterruptedException`. */
  datatype Admission = Admitted(at: nat) | Cancelled

  /** The rollover test of the slow path: the window that started at
      `windowStart` is over at `now`. */
  predicate Elapsed(windowStart: int, now: int, window: nat) {
    now - windowStart >= window
  }

  /** `waitNanos`: how long the slow path waits for the current window to
      end. It is positive exactly when the window has not elapsed. */
  function WaitNanos(windowStart: int, now: int, window: nat): (w: int)
    ensures w > 0 <==> !Elapsed(windowStart, now, window)
    ensures now + w == windowStart + window
  {
    windowStart + window - now
  }

  /** The instant of admission of a caller that finds no permit left, when
      every wait runs to its timeout: at once if the window has elapsed,
      otherwise when it ends. */
  function QuietAdmission(windowStart: nat, now: nat, window: nat): (t: nat)
    ensures t >= now && Elapsed(windowStart, t, window)
    ensures t == now <==> Elapsed(windowStart, now, window)
    ensures !Elapsed(windowStart, now, window) ==> t == windowStart + window
  {
    if Elapsed(windowStart, now, window) then now else windowStart + window
  }

  /** How many of the instants are later than `t`. */
  function CountAfter(s: seq<int>, t: int): (n: nat)
    ensures n <= |s|
    ensures n == 0 <==> forall i :: 0 <= i < |s| ==> s[i] <= t
    ensures n == |s| <==> forall i :: 0 <= i < |s| ==> s[i] > t
  {
    if s == [] then 0 else CountAfter(s[..|s| - 1], t) + if s[|s| - 1] > t then 1 else 0
  }

  /** When every instant but the last k is at most `t`, at most k of them
      are later than `t`. */
  lemma {:induction false} CountAfterAtMost(s: seq<int>, t: int, k: nat)
    requires forall i :: 0 <= i < |s| - k ==> s[i] <= t
    ensures CountAfter(s, t) <= k
  {
    if s != [] {
      var init := s[..|s| - 1];
      if k > 0 {
        forall i | 0 <= i < |init| - (k - 1) ensures init[i] <= t {
          assert init[i] == s[i];
        }
        CountAfterAtMost(init, t, k - 1);
      } else {
        forall i | 0 <= i < |init| ensures init[i] <= t {
          assert init[i] == s[i];
        }
        CountAfterAtMost(init, t, 0);
        assert s[|s| - 1] <= t;
      }
    }
  }

  /** The admissions of a fixed-window limiter. The last `segment` of them
      came in the current window, at or after its start; all the earlier
      ones came at or before that start, and those more than `limit`
      places before the current window came a whole window before it
      (they belong to a window before the previous one). No admission is
      later than the last clock reading, and admission k+2*limit came at
      least a window after admission k. */
  ghost predicate History(admitted: seq<int>, segment: nat, windowStart: int, clock: int, window: nat, limit: nat) {
    && segment <= limit && segment <= |admitted|
    && windowStart <= clock
    && Sorted(admitted)
    && (forall i :: 0 <= i < |admitted| ==> admitted[i] <= clock)
    && (forall i :: |admitted| - segment <= i < |admitted| ==> windowStart <= admitted[i])
    && (forall i :: 0 <= i < |admitted| - segment ==> admitted[i] <= windowStart)
    && (forall i :: 0 <= i < |admitted| - segment - limit ==> admitted[i] <= windowStart - window)
    && GapBound(admitted, 2 * limit, window)
  }

  /** A later clock reading keeps the history valid. */
  lemma HistoryObserve(admitted: seq<int>, segment: nat, windowStart: int, clock: int, window: nat, limit: nat, now: int)
    requires History(admitted, segment, windowStart, clock, window, limit) && now >= clock
    ensures History(admitted, segment, windowStart, now, window, limit)
  {
  }

  /** Rolling the window over once it has elapsed starts an empty window at
      the current reading. */
  lemma HistoryRollover(admitted: seq<int>, segment: nat, windowStart: int, clock: int, window: nat, limit: nat)
    requires History(admitted, segment, windowStart, clock, window, limit)
    requires Elapsed(windowStart, clock, window)
    ensures History(admitted, 0, clock, clock, window, limit)
  {
  }

  /** Admitting at the current reading while the window has a permit left
      keeps the history valid. */
  lemma HistoryAdmit(admitted: seq<int>, segment: nat, windowStart: int, clock: int, window: nat, limit: nat, t: int)
    requires History(admitted, segment, windowStart, clock, window, limit)
    requires limit > 0 && segment < limit && t >= clock
    ensures History(admitted + [t], segment + 1, windowStart, t, window, limit)
  {
    var s := admitted + [t];
    SortedAppend(admitted, t);
    if 2 * limit <= |admitted| {
      assert admitted[|admitted| - 2 * limit] <= windowStart - window;
    }
    GapBoundAppend(admitted, 2 * limit, window, t);
    forall i | 0 <= i < |s| - (segment + 1) - limit ensures s[i] <= windowStart - window {
      assert s[i] == admitted[i];
    }
  }

  /** No more than `limit` admissions come after the start of the current
      window. */
  lemma WindowHoldsAtMostLimit(admitted: seq<int>, segment: nat, windowStart: int, clock: int, window: nat, limit: nat)
    requires History(admitted, segment, windowStart, clock, window, limit)
    ensures CountAfter(admitted, windowStart) <= limit
  {
    CountAfterAtMost(admitted, windowStart, segment);
  }

  class FixedWindowLimiter {
    const windowNanos: nat
    const limit: nat
    /** The semaphore's available permits. */
    var permits: nat
    var windowStart: nat

    /** Every admission so far, oldest first. */
    ghost var admitted: seq<int>
    /** How many admissions the current window has had. */
    ghost var segment: nat
    /** The latest clock reading the limiter has seen. */
    ghost var clock: nat

    /** Every permit the current window has not handed out is still in the
        semaphore, and the admissions form a valid history. */
    ghost predicate Valid()
      reads this
    {
      && windowNanos > 0 && limit > 0
      && permits + segment == limit
      && History(admitted, segment, windowStart, clock, windowNanos, limit)
    }

    /** The constructor past its argument checks: a full semaphore and a
        window starting at the clock reading `start`. */
    constructor (windowNanos: nat, limit: nat, start: nat)
      requires windowNanos > 0 && limit > 0
      ensures Valid()
      ensures this.windowNanos == windowNanos && this.limit == limit
      ensures permits == limit && windowStart == start && admitted == [] && clock == start
    {
      this.windowNanos := windowNanos;
      this.limit := limit;
      permits := limit;
      windowStart := start;
      admitted, segment, clock := [], 0, start;
    }

    /** `new FixedWindowSemaphoreLimiter(windowNanos, limit)` at the clock
        reading `start`: rejects a non-positive window, then a non-positive
        limit. */
    static method Create(windowNanos: int, limit: int, start: nat) returns (r: Result<FixedWindowLimiter>)
      ensures r.Success? <==> windowNanos > 0 && limit > 0
      ensures windowNanos <= 0 ==> r == Failure(IllegalArgument(PositiveMessage("windowNanos")))
      ensures windowNanos > 0 && limit <= 0 ==> r == Failure(IllegalArgument(PositiveMessage("limit")))
      ensures r.Success? ==> fresh(r.value) && r.value.Valid()
      ensures r.Success? ==> r.value.windowNanos == windowNanos && r.value.limit == limit
      ensures r.Success? ==> r.value.permits == limit && r.value.windowStart == start && r.value.admitted == [] && r.value.clock == start
    {
      var w := RequirePositive(windowNanos, "windowNanos");
      if w.Failure? {
        return Failure(w.error);
      }
      var l := RequirePositive(limit, "limit");
      if l.Failure? {
        return Failure(l.error);
      }
      var limiter := new FixedWindowLimiter(windowNanos, limit, start);
      return Success(limiter);
    }

    /** `semaphore.tryAcquire()`: takes a permit if one is left, which
        admits the caller at the instant `at`; fails, changing nothing, if
        none is. */
    method TryAcquire(ghost at: nat) returns (ok: bool)
      requires Valid() && at >= clock
      modifies this
      ensures Valid() && windowStart == old(windowStart)
      ensures ok <==> old(permits) > 0
      ensures ok ==> permits == old(permits) - 1 && admitted == old(admitted) + [at] && clock == at
      ensures !ok ==> permits == 0 && admitted == old(admitted) && clock == old(clock)
    {
      if permits == 0 {
        return false;
      }
      HistoryAdmit(admitted, segment, windowStart, clock, windowNanos, limit, at);
      permits := permits - 1;
      admitted := admitted + [at];
      segment := segment + 1;
      clock := at;
      return true;
    }

    /** The rollover at the head of the slow-path loop: when the window has
        elapsed at `now`, a new one starts at `now` with every permit back
        (`drainPermits` then `release(limit)`); otherwise nothing changes. */
    method RollOverIfElapsed(now: nat) returns (rolled: bool)
      requires Valid() && now >= clock
      modifies this
      ensures Valid() && admitted == old(admitted) && clock == now
      ensures rolled <==> Elapsed(old(windowStart), now, windowNanos)
      ensures rolled ==> windowStart == now && permits == limit
      ensures !rolled ==> windowStart == old(windowStart) && permits == old(permits)
    {
      HistoryObserve(admitted, segment, windowStart, clock, windowNanos, limit, now);
      clock := now;
      rolled := now - windowStart >= windowNanos;
      if rolled {
        HistoryRollover(admitted, segment, windowStart, clock, windowNanos, limit);
        windowStart := now;
        permits := limit;
        segment := 0;
      }
    }

    /** `acquire`: the fast path takes a permit without reading the clock,
        even when the window has long elapsed. Failing that, the slow path
        reads the clock (`now` first, then once after each wait), rolls the
        window over if it has elapsed, tries again, and otherwise waits for
        the window to end. With no step left in the oracle the wait runs to
        its timeout. A cancelled call leaves no trace: it took no permit
        and rolled no window over. */
    method Acquire(now: nat, steps: seq<Step>) returns (result: Admission)
      requires Valid() && now >= clock
      modifies this
      ensures Valid()
      ensures old(permits) > 0 ==> result == Admitted(now) && permits == old(permits) - 1 && windowStart == old(windowStart)
      ensures result.Admitted? ==> admitted == old(admitted) + [result.at] && result.at >= now && clock == result.at
      ensures result.Admitted? && old(permits) == 0 ==> Elapsed(old(windowStart), result.at, windowNanos)
      ensures result.Admitted? && old(permits) == 0 ==> windowStart == result.at && permits == limit - 1
      ensures result.Cancelled? ==> admitted == old(admitted) && permits == old(permits) && windowStart == old(windowStart)
      ensures result.Cancelled? ==> exists i :: 0 <= i < |steps| && steps[i].interrupted
      ensures old(permits) == 0 && steps == [] ==> result == Admitted(QuietAdmission(old(windowStart), now, windowNanos))
      ensures old(permits) == 0 && !Elapsed(old(windowStart), now, windowNanos) && steps != [] && steps[0].interrupted ==> result == Cancelled
    {
      var ok := TryAcquire(now);
      if ok {
        return Admitted(now);
      }
      var current := now;
      var i := 0;
      ghost var waited := false;
      while true
        invariant Valid() && current >= now && current >= clock
        invariant permits == 0 && windowStart == old(windowStart) && admitted == old(admitted)
        invariant 0 <= i <= |steps|
        invariant steps == [] && !waited ==> current == now
        invariant steps == [] && waited ==> current == old(windowStart) + windowNanos && !Elapsed(old(windowStart), now, windowNanos)
        invariant old(permits) == 0 && !Elapsed(old(windowStart), now, windowNanos) && steps != [] && steps[0].interrupted ==> i == 0 && current == now
        decreases |steps| - i, if Elapsed(windowStart, current, windowNanos) then 0 else 1
      {
        var rolled := RollOverIfElapsed(current);
        ok := TryAcquire(current);
        if ok {
          return Admitted(current);
        }
        var waitNanos := WaitNanos(windowStart, current, windowNanos);
        if waitNanos > 0 {
          if i < |steps| {
            if steps[i].interrupted {
              return Cancelled;
            }
            current := current + steps[i].elapsed;
            i := i + 1;
          } else {
            current := current + waitNanos;
            waited := true;
          }
        }
      }
    }
  }
}
