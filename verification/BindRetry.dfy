/** Retrying a bind while the address is in use, with a doubling delay and a deadline. */
module BindRetry {
  import opened Wrappers

  const MILLI: nat := 1_000_000
  const FIRST_DELAY: nat := 250 * MILLI
  const MAX_DELAY: nat := 5_000 * MILLI
  const BIND_RETRY_WINDOW: nat := 30_000 * MILLI

  datatype BindError = AddrInUse | OtherError(code: int)

  /** The world around the loop: what attempt `k` yields, and the clock when it has failed. */
  datatype World<T> = World(start: nat, outcome: nat -> Result<T, BindError>, clock: nat -> nat)

  /** The delay before attempt `k + 1`. */
  function Delay(k: nat): (d: nat)
    ensures FIRST_DELAY <= d <= MAX_DELAY
  {
    if k == 0 then FIRST_DELAY else Min(Delay(k - 1) * 2, MAX_DELAY)
  }

  /** The first `k` delays together. */
  function Slept(k: nat): nat {
    if k == 0 then 0 else Slept(k - 1) + Delay(k - 1)
  }

  /** Each sleep lasts at least its delay, and time does not run backwards. */
  ghost predicate SleepsFully<T(!new)>(w: World<T>) {
    && w.start <= w.clock(0)
    && forall k: nat :: w.clock(k) + Delay(k) <= w.clock(k + 1)
  }

  predicate Retries<T>(w: World<T>, maxWait: nat, k: nat) {
    w.outcome(k) == Err(AddrInUse) && w.clock(k) < w.start + maxWait
  }

  /** Attempt `last` is the final one: every earlier one found the address in use before the deadline. */
  ghost predicate StopsAt<T(!new)>(w: World<T>, maxWait: nat, last: nat) {
    (forall k: nat :: k < last ==> Retries(w, maxWait, k)) && !Retries(w, maxWait, last)
  }

  lemma {:induction false} ClockRuns<T(!new)>(w: World<T>, k: nat)
    requires SleepsFully(w)
    ensures w.start + Slept(k) <= w.clock(k)
  {
    if k > 0 {
      ClockRuns(w, k - 1);
      assert w.clock(k - 1) + Delay(k - 1) <= w.clock(k - 1 + 1);
    }
  }

  lemma {:induction false} SleptGrows(k: nat)
    ensures k * FIRST_DELAY <= Slept(k)
  {
    if k > 0 {
      SleptGrows(k - 1);
    }
  }

  /** Returns the outcome of the final attempt, which comes at the first success, the first error
      other than AddrInUse, or the first failure past the deadline. */
  method BindWithRetry<T(!new)>(w: World<T>, maxWait: nat) returns (r: Result<T, BindError>, last: nat)
    requires SleepsFully(w)
    ensures StopsAt(w, maxWait, last) && r == w.outcome(last)
  {
    var deadline := w.start + maxWait;
    var delay := FIRST_DELAY;
    last := 0;
    while true
      invariant delay == Delay(last)
      invariant forall k: nat :: k < last ==> Retries(w, maxWait, k)
      invariant last * FIRST_DELAY <= Slept(last) <= maxWait + MAX_DELAY
      decreases maxWait + MAX_DELAY - Slept(last)
    {
      ClockRuns(w, last);
      match w.outcome(last) {
        case Ok(v) =>
          return w.outcome(last), last;
        case Err(e) =>
          if e == AddrInUse && w.clock(last) < deadline {
            delay := Min(delay * 2, MAX_DELAY);
            last := last + 1;
          } else {
            return w.outcome(last), last;
          }
      }
    }
  }

  /** Delays never shrink and stay between 250 ms and 5 s. */
  lemma {:induction false} DelaysAreMonotone(i: nat, j: nat)
    requires i <= j
    ensures FIRST_DELAY <= Delay(i) <= Delay(j) <= MAX_DELAY
    decreases j
  {
    if i < j {
      DelaysAreMonotone(i, j - 1);
    }
  }

  /** The success that is returned is the first; an error other than AddrInUse is returned at once. */
  lemma FirstDecisiveOutcomeIsReturned<T(!new)>(w: World<T>, maxWait: nat, last: nat)
    requires StopsAt(w, maxWait, last)
    ensures forall k: nat :: k < last ==> w.outcome(k) == Err(AddrInUse) && w.clock(k) < w.start + maxWait
    ensures w.outcome(last) == Err(AddrInUse) ==> w.start + maxWait <= w.clock(last)
  {
    forall k: nat | k < last ensures w.outcome(k) == Err(AddrInUse) && w.clock(k) < w.start + maxWait {
      assert Retries(w, maxWait, k);
    }
  }

  /** The delays slept before the last retry was decided fit in the window. */
  lemma RetriesFitTheWindow<T(!new)>(w: World<T>, maxWait: nat, last: nat)
    requires SleepsFully(w) && StopsAt(w, maxWait, last) && last > 0
    ensures Slept(last - 1) < maxWait
  {
    assert Retries(w, maxWait, last - 1);
    ClockRuns(w, last - 1);
  }

  /** The thirty-second window allows at most eleven attempts. */
  lemma AtMostElevenAttempts<T(!new)>(w: World<T>, last: nat)
    requires SleepsFully(w) && StopsAt(w, BIND_RETRY_WINDOW, last)
    ensures last + 1 <= 11
  {
    if last > 0 {
      RetriesFitTheWindow(w, BIND_RETRY_WINDOW, last);
      TenDelaysFillTheWindow();
      if last - 1 >= 10 {
        SleptIsMonotone(10, last - 1);
      }
    }
  }

  lemma TenDelaysFillTheWindow()
    ensures Slept(9) == 27_750 * MILLI && Slept(10) == 32_750 * MILLI
  {
    assert Delay(1) == 500 * MILLI && Delay(2) == 1_000 * MILLI && Delay(3) == 2_000 * MILLI;
    assert Delay(4) == 4_000 * MILLI && Delay(5) == MAX_DELAY && Delay(6) == MAX_DELAY;
    assert Delay(7) == MAX_DELAY && Delay(8) == MAX_DELAY && Delay(9) == MAX_DELAY;
    assert Slept(4) == 3_750 * MILLI;
    assert Slept(7) == 17_750 * MILLI;
  }

  lemma {:induction false} SleptIsMonotone(i: nat, j: nat)
    requires i <= j
    ensures Slept(i) <= Slept(j)
    decreases j
  {
    if i < j {
      SleptIsMonotone(i, j - 1);
    }
  }

  /** Eleven is reached: sleeping exactly the delays against a port that stays taken. */
  lemma ElevenAttemptsHappen()
    ensures exists w: World<int> :: SleepsFully(w) && StopsAt(w, BIND_RETRY_WINDOW, 10)
  {
    var w: World<int> := World(0, k => Err(AddrInUse), k => Slept(k));
    TenDelaysFillTheWindow();
    forall k: nat | k < 10 ensures Retries(w, BIND_RETRY_WINDOW, k) {
      SleptIsMonotone(k, 9);
    }
    forall k: nat ensures w.clock(k) + Delay(k) <= w.clock(k + 1) {
    }
    assert SleepsFully(w);
    assert StopsAt(w, BIND_RETRY_WINDOW, 10);
  }
}
