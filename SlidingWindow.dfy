/** `SlidingWindowRateLimiter`: at most `limit` admissions in any trailing
    window of `windowNanos`. The instants of the admissions still inside the
    window sit in a ring buffer of exactly `limit` slots; a caller prunes
    the expired ones from the head, waits while the buffer is full until
    the oldest one expires, and then writes its own instant at the tail.

    One caller's run of `acquire` is modelled under the lock it holds
    throughout. The clock and the condition variable are an oracle: the
    instant the caller reads on entry, and one `Step` for each later wait or
    clock reading. */
module SlidingWindow {
  import opened Wrappers
  import opened Strings
  import opened Timeline
  import opened RingBuffer
  import opened SlidingHistory

  /** How many of the oldest instants have expired at `now`: the length of
      the longest prefix whose instants are at least `window` old. */
  function Prune(instants: seq<int>, now: int, window: nat): (r: nat)
    ensures r <= |instants|
    ensures r > 0 ==> now - instants[r - 1] >= window
    ensures r < |instants| ==> now - instants[r] < window
  {
    if instants != [] && now - instants[0] >= window then 1 + Prune(instants[1..], now, window) else 0
  }

  /** Every instant the prune removes has expired. */
  lemma {:induction false} PrunedHaveExpired(instants: seq<int>, now: int, window: nat)
    ensures forall i :: 0 <= i < Prune(instants, now, window) ==> now - instants[i] >= window
  {
    if instants != [] && now - instants[0] >= window {
      PrunedHaveExpired(instants[1..], now, window);
      forall i | 0 <= i < Prune(instants, now, window) ensures now - instants[i] >= window {
        if i > 0 {
          assert instants[i] == instants[1..][i - 1];
        }
      }
    }
  }

  /** `n` cuts `instants` at the reading `now`: the instant just before the
      cut has expired and the one just after it has not. */
  ghost predicate Cut(instants: seq<int>, n: nat, now: int, window: nat) {
    && n <= |instants|
    && (n > 0 ==> now - instants[n - 1] >= window)
    && (n < |instants| ==> now - instants[n] < window)
  }

  /** In a sorted list the cut is unique, and it is where the prune stops. */
  lemma CutIsPrune(instants: seq<int>, n: nat, now: int, window: nat)
    requires Sorted(instants) && Cut(instants, n, now, window)
    ensures n == Prune(instants, now, window)
  {
    var p := Prune(instants, now, window);
    if n < p {
      PrunedHaveExpired(instants, now, window);
    } else if p < n {
      SortedOrder(instants, p, n - 1);
    }
  }

  /** In a sorted list, everything the prune keeps is inside the window. */
  lemma {:induction false} PruneKeepsOnlyRecent(instants: seq<int>, now: int, window: nat)
    requires Sorted(instants)
    ensures forall i :: Prune(instants, now, window) <= i < |instants| ==> now - instants[i] < window
  {
    var p := Prune(instants, now, window);
    forall i | p <= i < |instants| ensures now - instants[i] < window {
      SortedOrder(instants, p, i);
    }
  }

  /** The wake-up `signalOnRemoved` sends to the callers waiting for a slot. */
  datatype Wake = NoWake | SignalOne | SignalAll

  /** `signalOnRemoved`: nobody is woken when nothing expired, one waiter
      when one slot was freed, all of them when more were. */
  function SignalOnRemoved(removed: nat): (w: Wake)
    ensures w == NoWake <==> removed == 0
    ensures w == SignalOne <==> removed == 1
    ensures w == SignalAll <==> removed > 1
  {
    if removed > 1 then SignalAll else if removed == 1 then SignalOne else NoWake
  }

  /** The end of one `acquire`: admitted at an instant, with the wake-up it
      sends, or cancelled by an `InterruptedException`. */
  datatype Admission = Admitted(at: nat, wake: Wake) | Cancelled

  /** The instant of admission when no other caller intervenes and every
      wait runs to its timeout: at once if the prune frees a slot, otherwise
      when the oldest surviving instant expires. */
  function QuietAdmission(instants: seq<int>, now: nat, window: nat, limit: nat): (t: int)
    requires limit > 0
    ensures t >= now
    ensures t > now <==> |instants| - Prune(instants, now, window) >= limit
  {
    var p := Prune(instants, now, window);
    if |instants| - p < limit then now else instants[p] + window
  }

  /** What `waitForNextExpiry` answers at the reading `now` for a
      `deadline`: with the deadline still ahead it waits. A wait that times
      out answers the deadline itself; one woken early answers a fresh
      reading; an interrupted one answers nothing. With the deadline passed
      it answers a fresh reading without waiting. With no step left in the
      oracle the wait runs to its timeout. */
  function WaitOutcome(deadline: int, now: nat, step: Option<Step>): (next: Option<nat>)
    ensures next.None? <==> deadline > now && step.Some? && step.value.interrupted
    ensures next.Some? ==> next.value >= now
    ensures next.Some? && deadline > now ==> next.value <= deadline
    ensures next.Some? && deadline > now ==> (next.value == deadline <==> step.None? || step.value.elapsed >= deadline - now)
    ensures next.Some? && deadline > now && step.Some? && step.value.elapsed < deadline - now ==> next.value == now + step.value.elapsed
    ensures next.Some? && deadline <= now ==> next.value == now + if step.Some? then step.value.elapsed else 0
  {
    if deadline - now > 0 then
      if step.None? then Some(deadline as nat)
      else if step.value.interrupted then None
      else if deadline - now - step.value.elapsed <= 0 then Some(deadline as nat)
      else Some(now + step.value.elapsed)
    else Some(now + if step.Some? then step.value.elapsed else 0)
  }

  /** A wait that times out late is recorded at its deadline, not at the
      instant its caller resumes. With one admission per 100 and an
      admission at 0, a caller that starts waiting at 10 and resumes at 150
      is recorded at 100; a caller at 200 then finds that record expired and
      passes at once, though the two callers resumed only 50 apart. */
  lemma LateTimeoutRecordsDeadline()
    ensures WaitOutcome(100, 10, Some(Step(140, false))) == Some(100)
    ensures QuietAdmission([100], 200, 100, 1) == 200
  {
  }

  class SlidingWindowLimiter {
    const windowNanos: nat
    const limit: nat
    const buffer: array<int>
    var head: nat
    var tail: nat
    var size: nat

    /** Every admission so far, oldest first; the buffer holds those from
        index `expired` on. */
    ghost var admitted: seq<int>
    /** How many of the admissions have been pruned from the buffer. */
    ghost var expired: nat
    /** The latest clock reading the limiter has seen. */
    ghost var clock: int

    /** A ring of exactly `limit` slots over the admissions not yet
        pruned, within a valid history. */
    ghost predicate Valid()
      reads this, buffer
    {
      && windowNanos > 0 && limit > 0 && buffer.Length == limit
      && Ring(buffer[..], head, tail, size, admitted, expired)
      && History(admitted, expired, clock, windowNanos, limit)
    }

    /** The constructor past its argument checks: an empty ring of `limit`
        slots. */
    constructor (windowNanos: nat, limit: nat)
      requires windowNanos > 0 && limit > 0
      ensures Valid() && fresh(buffer)
      ensures this.windowNanos == windowNanos && this.limit == limit
      ensures buffer.Length == limit && size == 0 && admitted == [] && clock == 0
    {
      this.windowNanos := windowNanos;
      this.limit := limit;
      buffer := new int[limit](_ => 0);
      head, tail, size := 0, 0, 0;
      admitted, expired, clock := [], 0, 0;
    }

    /** `new SlidingWindowRateLimiter(windowNanos, limit)`: rejects a
        non-positive window, then a non-positive limit. */
    static method Create(windowNanos: int, limit: int) returns (r: Result<SlidingWindowLimiter>)
      ensures r.Success? <==> windowNanos > 0 && limit > 0
      ensures windowNanos <= 0 ==> r == Failure(IllegalArgument(PositiveMessage("windowNanos")))
      ensures windowNanos > 0 && limit <= 0 ==> r == Failure(IllegalArgument(PositiveMessage("limit")))
      ensures r.Success? ==> fresh(r.value) && fresh(r.value.buffer) && r.value.Valid()
      ensures r.Success? ==> r.value.windowNanos == windowNanos && r.value.limit == limit
      ensures r.Success? ==> r.value.buffer.Length == limit && r.value.size == 0 && r.value.admitted == [] && r.value.clock == 0
    {
      var w := RequirePositive(windowNanos, "windowNanos");
      if w.Failure? {
        return Failure(w.error);
      }
      var l := RequirePositive(limit, "limit");
      if l.Failure? {
        return Failure(l.error);
      }
      var limiter := new SlidingWindowLimiter(windowNanos, limit);
      return Success(limiter);
    }

    /** `isFull`: in a valid limiter, every slot of the ring is taken,
        which is when `limit` recorded admissions are not yet pruned. */
    predicate IsFull()
      reads this, buffer
      ensures Valid() ==> (IsFull() <==> size == buffer.Length && |admitted| - expired == limit)
    {
      size >= limit
    }

    /** `oldestDeadlineNanos`: the instant the oldest admission in the
        buffer expires. */
    function OldestDeadline(): (d: int)
      reads this, buffer
      requires Valid() && size > 0
      ensures d == admitted[expired] + windowNanos
    {
      RingPrune(buffer[..], head, tail, size, admitted, expired);
      buffer[head] + windowNanos
    }

    /** `pruneExpired(now)`: drops from the head every instant that has
        left the window at `now`, and answers how many it dropped. What is
        pruned afterwards is exactly the expired prefix of the history. */
    method PruneExpired(now: nat) returns (removed: nat)
      requires Valid() && now >= clock
      modifies this
      ensures Valid() && admitted == old(admitted) && clock == now
      ensures expired == old(expired) + removed && old(size) == size + removed && size == |admitted| - expired
      ensures Cut(admitted, expired, now, windowNanos) && expired == Prune(admitted, now, windowNanos)
    {
      Observe(now);
      removed := 0;
      while size > 0 && now - buffer[head] >= windowNanos
        invariant Valid() && clock == now && admitted == old(admitted)
        invariant expired == old(expired) + removed && old(size) == size + removed
        decreases size
      {
        Advance();
        removed := removed + 1;
      }
      if size > 0 {
        RingPrune(buffer[..], head, tail, size, admitted, expired);
      }
      CutIsPrune(admitted, expired, now, windowNanos);
    }

    /** A clock reading the limiter acts on. */
    ghost method Observe(now: nat)
      requires Valid() && now >= clock
      modifies this
      ensures Valid() && head == old(head) && tail == old(tail) && size == old(size)
      ensures clock == now && expired == old(expired) && admitted == old(admitted)
    {
      HistoryObserve(admitted, expired, clock, windowNanos, limit, now);
      clock := now;
    }

    /** One step of the prune loop: the oldest instant leaves the ring. */
    method Advance()
      requires Valid() && size > 0 && clock - buffer[head] >= windowNanos
      modifies this
      ensures Valid()
      ensures head == Next(old(head), limit) && size == old(size) - 1 && expired == old(expired) + 1
      ensures admitted == old(admitted) && clock == old(clock)
    {
      RingPrune(buffer[..], head, tail, size, admitted, expired);
      HistoryPrune(admitted, expired, clock, windowNanos, limit);
      head := Next(head, limit);
      size := size - 1;
      expired := expired + 1;
    }

    /** `append(t)`: writes the instant at the tail of a ring with a free
        slot. */
    method Append(t: nat)
      requires Valid() && size < limit && t >= clock
      modifies this, buffer
      ensures Valid()
      ensures admitted == old(admitted) + [t] && expired == old(expired) && clock == t
      ensures size == old(size) + 1
    {
      RingAppend(buffer[..], head, tail, size, admitted, expired, t);
      HistoryAppend(admitted, expired, clock, windowNanos, limit, t);
      buffer[tail] := t;
      assert buffer[..] == old(buffer[..])[tail := t];
      tail := Next(tail, limit);
      size := size + 1;
      admitted := admitted + [t];
      clock := t;
    }

    /** `waitForNextExpiry(now)` on a full ring: waits for the oldest
        instant to expire, as `WaitOutcome` describes. */
    method WaitForNextExpiry(now: nat, step: Option<Step>) returns (next: Option<nat>)
      requires Valid() && IsFull() && now >= clock
      ensures next == WaitOutcome(admitted[expired] + windowNanos, now, step)
    {
      var deadline := OldestDeadline();
      var waitNanos := deadline - now;
      if waitNanos > 0 {
        if step.None? {
          return Some(deadline);
        }
        if step.value.interrupted {
          return None;
        }
        var remaining := waitNanos - step.value.elapsed;
        return Some(if remaining <= 0 then deadline else now + step.value.elapsed);
      }
      return Some(now + if step.Some? then step.value.elapsed else 0);
    }

    /** One turn of the waiting loop in `acquire`: wait for the oldest
        instant to expire, then prune at the reading the wait answers. */
    method WaitThenPrune(current: nat, step: Option<Step>) returns (next: Option<nat>, removed: nat)
      requires Valid() && IsFull() && clock == current
      modifies this
      ensures Valid() && admitted == old(admitted)
      ensures next == WaitOutcome(old(admitted[expired]) + windowNanos, current, step)
      ensures next.None? ==> expired == old(expired) && clock == old(clock) && size == old(size)
      ensures next.Some? ==> clock == next.value && Cut(admitted, expired, next.value, windowNanos)
      ensures next.Some? ==> expired == old(expired) + removed && old(size) == size + removed
      ensures next.Some? && next.value >= old(admitted[expired]) + windowNanos ==> removed > 0
    {
      next := WaitForNextExpiry(current, step);
      if next.None? {
        return next, 0;
      }
      removed := PruneExpired(next.value);
    }

    /** The `while (isFull())` loop of `acquire`: wait and prune until a
        slot is free or a wait is interrupted. With every wait running to
        its timeout the loop turns at most once, at the oldest deadline. */
    method AwaitRoom(now: nat, steps: seq<Step>) returns (at: Option<nat>, removed: nat)
      requires Valid() && clock == now && Cut(admitted, expired, now, windowNanos)
      modifies this
      ensures Valid() && admitted == old(admitted)
      ensures at.None? ==> exists i :: 0 <= i < |steps| && steps[i].interrupted
      ensures at.Some? ==> !IsFull() && clock == at.value && at.value >= now
      ensures at.Some? ==> Cut(admitted, expired, at.value, windowNanos) && expired == old(expired) + removed
      ensures steps == [] ==> at == Some(if old(size) < limit then now else old(admitted[expired]) + windowNanos)
      ensures old(size) >= limit && steps != [] && steps[0].interrupted ==> at.None?
      ensures at.None? ==> expired == old(expired) && size == old(size) && old(size) >= limit
    {
      ghost var quiet := if size < limit then now else admitted[expired] + windowNanos;
      var current := now;
      removed := 0;
      var i := 0;
      while IsFull()
        invariant Valid() && clock == current && current >= now && admitted == old(admitted)
        invariant 0 <= i <= |steps|
        invariant Cut(admitted, expired, current, windowNanos) && expired == old(expired) + removed
        invariant steps == [] && IsFull() ==> current == now && expired == old(expired)
        invariant steps == [] && !IsFull() ==> current == quiet
        invariant old(size) >= limit && steps != [] && steps[0].interrupted ==> i == 0 && current == now && IsFull()
        invariant IsFull() ==> expired == old(expired) && size == old(size)
        decreases |steps| - i, size
      {
        var step := if i < |steps| then Some(steps[i]) else None;
        var next, r := WaitThenPrune(current, step);
        if next.None? {
          return None, removed;
        }
        if step.Some? {
          i := i + 1;
        }
        current := next.value;
        removed := removed + r;
      }
      return Some(current), removed;
    }

    /** The last steps of `acquire`: records the instant of admission in a
        ring with a free slot, then wakes as many waiters as slots were
        freed. What was pruned is exactly what had expired at the
        admission, and at most `limit` admissions lie inside the window
        ending at it. */
    method Admit(at: nat, removed: nat) returns (result: Admission)
      requires Valid() && size < limit && at == clock && Cut(admitted, expired, at, windowNanos)
      modifies this, buffer
      ensures Valid()
      ensures result == Admitted(at, SignalOnRemoved(removed))
      ensures admitted == old(admitted) + [at] && expired == old(expired) && size == old(size) + 1 && clock == at
      ensures expired == Prune(old(admitted), at, windowNanos)
      ensures expired == Prune(admitted, at, windowNanos) && |admitted| - expired <= limit
    {
      CutIsPrune(admitted, expired, at, windowNanos);
      Append(at);
      assert Cut(admitted, expired, at, windowNanos);
      CutIsPrune(admitted, expired, at, windowNanos);
      return Admitted(at, SignalOnRemoved(removed));
    }

    /** `acquire`: prunes at the first reading, then, while the ring is
        full, waits for the oldest instant to expire and prunes at the
        reading the wait answers; then records the instant of admission and
        wakes as many waiters as slots were freed. The prunes together drop
        exactly the instants expired at the admission. An interrupted wait
        admits nobody. With no other caller and every wait running to its
        timeout, the caller is admitted at `QuietAdmission`. */
    method Acquire(now: nat, steps: seq<Step>) returns (result: Admission)
      requires Valid() && now >= clock
      modifies this, buffer
      ensures Valid()
      ensures result.Admitted? ==> admitted == old(admitted) + [result.at] && result.at >= now && clock == result.at
      ensures result.Admitted? ==> expired == Prune(old(admitted), result.at, windowNanos)
      ensures result.Admitted? ==> result.wake == SignalOnRemoved(expired - old(expired))
      ensures result.Admitted? ==> |admitted| - Prune(admitted, result.at, windowNanos) <= limit
      ensures result.Cancelled? ==> admitted == old(admitted) && exists i :: 0 <= i < |steps| && steps[i].interrupted
      ensures steps == [] ==> result == Admitted(QuietAdmission(old(admitted), now, windowNanos, limit), result.wake)
      ensures |old(admitted)| - Prune(old(admitted), now, windowNanos) >= limit && steps != [] && steps[0].interrupted ==> result == Cancelled
      ensures result.Cancelled? ==> expired == old(expired) && size == old(size)
    {
      var removed := PruneExpired(now);
      assert |old(admitted)| - Prune(old(admitted), now, windowNanos) == size;
      ghost var pruned := size;
      var at, more := AwaitRoom(now, steps);
      if at.None? {
        assert pruned >= limit;
        return Cancelled;
      }
      result := Admit(at.value, removed + more);
    }
  }
}
