/** Single-caller runs of the two limiters, each the sequential core of one
    of the repository's limiter tests, with instants in nanoseconds and
    every wait running to its timeout unless a step says otherwise. */
module Scenarios {
  import opened Wrappers
  import opened Strings
  import opened Timeline
  import SW = SlidingWindow
  import FW = FixedWindow

  /** The sliding limiter's constructor rejects a zero or negative window
      and a zero or negative limit, naming the argument. */
  method ConstructorsRejectNonPositive()
    returns (zeroWindow: Result<SW.SlidingWindowLimiter>, negativeWindow: Result<SW.SlidingWindowLimiter>,
             zeroLimit: Result<SW.SlidingWindowLimiter>, negativeLimit: Result<SW.SlidingWindowLimiter>)
    ensures zeroWindow == Failure(IllegalArgument(PositiveMessage("windowNanos")))
    ensures negativeWindow == Failure(IllegalArgument(PositiveMessage("windowNanos")))
    ensures zeroLimit == Failure(IllegalArgument(PositiveMessage("limit")))
    ensures negativeLimit == Failure(IllegalArgument(PositiveMessage("limit")))
  {
    zeroWindow := SW.SlidingWindowLimiter.Create(0, 1);
    negativeWindow := SW.SlidingWindowLimiter.Create(-1, 1);
    zeroLimit := SW.SlidingWindowLimiter.Create(100_000_000, 0);
    negativeLimit := SW.SlidingWindowLimiter.Create(100_000_000, -5);
  }

  /** A sliding limiter of two per 200: two callers at instant 0 pass at
      once; a third waits until the oldest expires at 200, when both slots
      free up and every waiter is woken. */
  method SlidingThirdWaitsForOldest() returns (first: SW.Admission, second: SW.Admission, third: SW.Admission)
    ensures first == SW.Admitted(0, SW.NoWake) && second == SW.Admitted(0, SW.NoWake)
    ensures third == SW.Admitted(200, SW.SignalAll)
  {
    var limiter := new SW.SlidingWindowLimiter(200, 2);
    first := limiter.Acquire(0, []);
    second := limiter.Acquire(0, []);
    third := limiter.Acquire(0, []);
  }

  /** A sliding limiter of two per 150 with admissions at 0 and 120: a
      caller at 120 waits only until the first of them leaves, at 150, and
      wakes one waiter. */
  method SlidingRollingWindow() returns (third: SW.Admission)
    ensures third == SW.Admitted(150, SW.SignalOne)
  {
    var limiter := new SW.SlidingWindowLimiter(150, 2);
    var first := limiter.Acquire(0, []);
    var second := limiter.Acquire(120, []);
    third := limiter.Acquire(120, []);
  }

  /** A sliding limiter of one per 500, already used at 0: a caller at 10
      interrupted in its wait is cancelled. */
  method SlidingInterruptedWait() returns (second: SW.Admission)
    ensures second == SW.Cancelled
  {
    var limiter := new SW.SlidingWindowLimiter(500, 1);
    var first := limiter.Acquire(0, []);
    second := limiter.Acquire(10, [Step(50, true)]);
  }

  /** A fixed limiter of one per 180 whose window started at 0 and whose
      permit is spent: a caller at 220 finds the window elapsed and passes
      at once. */
  method FixedIdleRollover() returns (second: FW.Admission)
    ensures second == FW.Admitted(220)
  {
    var limiter := new FW.FixedWindowLimiter(180, 1, 0);
    var first := limiter.Acquire(0, []);
    second := limiter.Acquire(220, []);
  }

  /** A fixed limiter of one per 220 whose window started at 0: the first
      caller passes at once, the second waits out the whole window, and a
      third arriving right after waits out the next one. */
  method FixedSequentialWaits() returns (first: FW.Admission, second: FW.Admission, third: FW.Admission)
    ensures first == FW.Admitted(0) && second == FW.Admitted(220) && third == FW.Admitted(440)
  {
    var limiter := new FW.FixedWindowLimiter(220, 1, 0);
    first := limiter.Acquire(0, []);
    second := limiter.Acquire(0, []);
    third := limiter.Acquire(220, []);
  }

  /** A fixed limiter of one per 10 whose window started at 0: a caller at
      9 takes the permit and a caller at 10 passes in the next window, so
      two admissions lie one nanosecond apart. */
  method FixedBoundaryBurst() returns (first: FW.Admission, second: FW.Admission)
    ensures first == FW.Admitted(9) && second == FW.Admitted(10)
  {
    var limiter := new FW.FixedWindowLimiter(10, 1, 0);
    first := limiter.Acquire(9, []);
    second := limiter.Acquire(10, []);
  }

  /** A fixed limiter of one per 100 whose permit is spent: a caller at 30
      interrupted in its wait is cancelled and takes no permit. */
  method FixedInterruptedWait() returns (second: FW.Admission)
    ensures second == FW.Cancelled
  {
    var limiter := new FW.FixedWindowLimiter(100, 1, 0);
    var first := limiter.Acquire(0, []);
    second := limiter.Acquire(30, [Step(20, true)]);
  }
}
