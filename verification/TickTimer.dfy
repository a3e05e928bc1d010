/**
  The timers of app/eth_to_freertos.c on the kernel's 32-bit tick count: how `xTaskCheckForTimeOut` of
  components/freertos/tasks.c tells, with wrapping counters and in-place updates, that a tick has come.
  */
module TickTimer {
  type u32 = x: int | 0 <= x < 0x1_0000_0000

  const WRAP: nat := 0x1_0000_0000
  const MAX_DELAY: u32 := 0xFFFF_FFFF
  const TICK_PERIOD_MS: nat := 10

  /** `TimeOut_t`: `xNumOfOverflows` and `xTickCount` when it was set. */
  datatype TimeOut = TimeOut(overflows: nat, entered: u32)

  function At(now: nat): TimeOut {
    TimeOut(now / WRAP, now % WRAP)
  }

  datatype Answer = Answer(expired: bool, timeOut: TimeOut, left: u32)

  /** `xTaskCheckForTimeOut` at the tick `now`, counted without wrapping. */
  function Check(t: TimeOut, left: u32, now: nat): Answer {
    var count := now % WRAP;
    var elapsed := (count - t.entered) % WRAP;
    if left == MAX_DELAY then Answer(false, t, left)
    else if now / WRAP != t.overflows && count >= t.entered then Answer(true, t, 0)
    else if elapsed < left then Answer(false, At(now), left - elapsed)
    else Answer(true, t, 0)
  }

  /** The count has overflowed at least twice since, and come back to less than `left` ticks ahead. */
  predicate Lapped(since: nat, left: u32, now: nat) {
    now - since >= WRAP && now % WRAP < since % WRAP && (now - since) % WRAP < left
  }

  lemma {:induction false} Elapsed(since: nat, now: nat)
    requires since <= now
    ensures (now % WRAP - since % WRAP) % WRAP == (now - since) % WRAP
    ensures now - since < WRAP ==> (now - since) % WRAP == now - since
    ensures now / WRAP == since / WRAP ==> now - since < WRAP && since % WRAP <= now % WRAP
    ensures now - since < WRAP && now / WRAP != since / WRAP ==> now % WRAP < since % WRAP
    ensures now / WRAP != since / WRAP && now % WRAP >= since % WRAP ==> now - since >= WRAP
  {
    var a, b := now / WRAP, since / WRAP;
    assert now == WRAP * a + now % WRAP && since == WRAP * b + since % WRAP;
    assert a >= b;
    var d := now % WRAP - since % WRAP;
    assert now - since == WRAP * (a - b) + d;
    ModShift(d, a - b);
  }

  lemma {:induction false} ModShift(d: int, k: nat)
    ensures (WRAP * k + d) % WRAP == d % WRAP
    decreases k
  {
    if k > 0 {
      ModShift(d, k - 1);
      assert WRAP * k + d == WRAP * (k - 1) + d + WRAP;
    }
  }

  /** The wrapped check tells that the tick `since + left` has come exactly if it is not lapped, so always within 2^32 ticks. */
  lemma {:induction false} CheckIsRightUnlessLapped(since: nat, left: u32, now: nat)
    requires since <= now && left != 0xFFFF_FFFF
    ensures Check(At(since), left, now).expired == (since + left <= now) <==> !Lapped(since, left, now)
    ensures now - since < 0x1_0000_0000 ==> !Lapped(since, left, now)
    ensures var a := Check(At(since), left, now);
            !a.expired && !Lapped(since, left, now) ==> a.timeOut == At(now) && now + a.left == since + left
  {
    Elapsed(since, now);
  }

  /** The longest delay never runs out. */
  lemma {:induction false} ForeverIsNever(since: nat, now: nat)
    ensures Check(At(since), 0xFFFF_FFFF, now) == Answer(false, At(since), 0xFFFF_FFFF)
  {}

  class Timer {
    var xTicksToWait: u32
    var xTimeOut: TimeOut

    /** Runs out at the tick `due`; last looked at at the tick `since`. */
    ghost predicate RunsOut(due: nat, since: nat)
      reads this
    {
      && xTicksToWait as int * 10 < WRAP
      && if xTicksToWait == 0 then due <= since else xTimeOut == At(since) && due == since + xTicksToWait
    }

    /** `TimerInit` */
    constructor ()
      ensures RunsOut(0, 0)
    {
      xTicksToWait, xTimeOut := 0, TimeOut(0, 0);
    }

    /** `TimerCountdownMS` */
    method CountdownMS(timeout_ms: u32, now: nat)
      modifies this
      ensures RunsOut(now + timeout_ms / 10, now)
    {
      xTicksToWait := timeout_ms / TICK_PERIOD_MS;
      xTimeOut := At(now);
    }

    /** `xTaskCheckForTimeOut`, which keeps what is left up to date in place. */
    method CheckForTimeOut(now: nat, ghost due: nat, ghost since: nat) returns (expired: bool)
      requires RunsOut(due, since) && since <= now < since + 0x1_0000_0000
      modifies this
      ensures expired == (due <= now) && RunsOut(due, now) && (expired ==> xTicksToWait == 0)
    {
      if xTicksToWait > 0 {
        CheckIsRightUnlessLapped(since, xTicksToWait, now);
      }
      var count := now % WRAP;
      if xTicksToWait == MAX_DELAY {
        expired := false;
      } else if now / WRAP != xTimeOut.overflows && count >= xTimeOut.entered {
        expired, xTicksToWait := true, 0;
      } else {
        var elapsed := (count - xTimeOut.entered) % WRAP;
        if elapsed < xTicksToWait {
          xTicksToWait := xTicksToWait - elapsed;
          xTimeOut := At(now);
          expired := false;
        } else {
          expired, xTicksToWait := true, 0;
        }
      }
    }

    /** `TimerIsExpired`: looked at less than 2^32 ticks apart, it is whether the tick has come. */
    method IsExpired(now: nat, ghost due: nat, ghost since: nat) returns (expired: bool)
      requires RunsOut(due, since) && since <= now < since + 0x1_0000_0000
      modifies this
      ensures expired == (due <= now) && RunsOut(due, now)
    {
      expired := CheckForTimeOut(now, due, since);
    }

    /** `TimerLeftMS`: a countdown of what it returns, begun no earlier, runs out no earlier. */
    method LeftMS(now: nat, ghost due: nat, ghost since: nat) returns (ms: u32)
      requires RunsOut(due, since) && since <= now < since + 0x1_0000_0000
      modifies this
      ensures RunsOut(due, now) && ms / 10 == if due <= now then 0 else due - now
    {
      var _ := CheckForTimeOut(now, due, since);
      ms := xTicksToWait * TICK_PERIOD_MS;
    }
  }
}
