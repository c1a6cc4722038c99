/** The click budget of hooks/useClickLimit.ts: a counter of throttled actions
    (`clickCount`, starting at 0) checked against `maxClicks` on every call of
    `consumeClick`. A call either counts one click and returns true, or leaves the
    counter alone, fires the `onLimitReached` callback and returns false.

    `Budget` is the abstract state and `Budget.Consume` the specification of one
    call; `ClickLimiter` is the hook itself, with the counter as a mutable field. */
module UseClickLimit {

  function Min(a: int, b: int): int { if a <= b then a else b }
  function Max(a: int, b: int): int { if a >= b then a else b }

  /** The number of calls that can ever succeed: the guard `clickCount + 1 >= maxClicks`
      denies the call that would bring the counter up to `maxClicks`. */
  function AllowedClicks(maxClicks: int): nat
  {
    if maxClicks >= 1 then maxClicks - 1 else 0
  }

  /** The hook's state. `limitReachedCalls` counts how often `onLimitReached` has fired;
      the source keeps no such count, it stands for the callback's side effect. */
  datatype Budget = Budget(maxClicks: int, clickCount: nat, limitReachedCalls: nat)
  {
    /** The counter never passes the last click that the guard lets through. */
    ghost predicate Valid()
    {
      clickCount <= AllowedClicks(maxClicks)
    }

    /** `remainingClicks`: never below 1 while a positive limit is in force. */
    function Remaining(): (r: int)
      ensures Valid() && maxClicks >= 1 ==> 1 <= r <= maxClicks
      ensures Valid() && maxClicks >= 1 ==> (r == 1 <==> !Allows())
    {
      maxClicks - clickCount
    }

    /** Whether the next call of `consumeClick` is let through. */
    predicate Allows()
    {
      clickCount + 1 < maxClicks
    }

    /** One call of `consumeClick`: its return value and the state after it. */
    function Consume(): (r: (bool, Budget))
      ensures r.1.maxClicks == maxClicks
      // the answer is decided by the guard alone
      ensures r.0 <==> Allows()
      // the counter never goes down, and grows exactly when the call is allowed
      ensures r.1.clickCount >= clickCount
      ensures r.0 <==> r.1.clickCount == clickCount + 1
      // an allowed call never fires the callback; a denied one leaves the counter
      // alone and fires it exactly once
      ensures r.0 ==> r.1.limitReachedCalls == limitReachedCalls
      ensures !r.0 ==> r.1.clickCount == clickCount && r.1.limitReachedCalls == limitReachedCalls + 1
      // every call is accounted for exactly once: a counted click or one callback
      ensures r.1.clickCount + r.1.limitReachedCalls == clickCount + limitReachedCalls + 1
      // a denied call leaves a state that denies again
      ensures !r.0 ==> !r.1.Allows()
      ensures Valid() ==> r.1.Valid()
    {
      if clickCount + 1 >= maxClicks then
        (false, this.(limitReachedCalls := limitReachedCalls + 1))
      else
        (true, this.(clickCount := clickCount + 1))
    }
  }

  /** The state right after the hook mounts: `useState(0)`, no callback fired yet. */
  function Fresh(maxClicks: int): (b: Budget)
    ensures b.Valid() && b.Remaining() == maxClicks
  {
    Budget(maxClicks, 0, 0)
  }

  /** `n` calls of `consumeClick` one after another, each seeing the latest count:
      the answers in order and the final state. */
  function Run(b: Budget, n: nat): (r: (seq<bool>, Budget))
    ensures |r.0| == n
    ensures r.1.maxClicks == b.maxClicks
    ensures r.1.clickCount >= b.clickCount
    ensures b.Valid() ==> r.1.Valid()
    decreases n
  {
    if n == 0 then ([], b)
    else
      var (ok, next) := b.Consume();
      var (rest, last) := Run(next, n - 1);
      ([ok] + rest, last)
  }

  /** From any state, the i-th of n successive calls is allowed exactly when
      `clickCount + i + 1 < maxClicks`; the counter ends at the smaller of
      `clickCount + n` and the last click the guard lets through, and every
      call that was not counted fired the callback once. */
  lemma {:induction false} RunSpec(b: Budget, n: nat)
    ensures forall i :: 0 <= i < n ==> Run(b, n).0[i] == (b.clickCount + i + 1 < b.maxClicks)
    ensures Run(b, n).1.clickCount == Min(b.clickCount + n, Max(b.clickCount, AllowedClicks(b.maxClicks)))
    ensures Run(b, n).1.limitReachedCalls
         == b.limitReachedCalls + n - (Run(b, n).1.clickCount - b.clickCount)
    decreases n
  {
    if n > 0 {
      var (ok, next) := b.Consume();
      RunSpec(next, n - 1);
      var (rest, last) := Run(next, n - 1);
      assert Run(b, n) == ([ok] + rest, last);
      forall i | 0 <= i < n
        ensures Run(b, n).0[i] == (b.clickCount + i + 1 < b.maxClicks)
      {
        if i > 0 {
          assert Run(b, n).0[i] == rest[i - 1];
        }
      }
    }
  }

  /** From a freshly mounted hook, call number i (counting from 0) succeeds exactly
      when `i + 1 < maxClicks`: only `maxClicks - 1` calls get through and the
      `maxClicks`-th is the first one denied. */
  lemma {:induction false} FreshRun(maxClicks: int, n: nat)
    ensures forall i :: 0 <= i < n ==> Run(Fresh(maxClicks), n).0[i] == (i + 1 < maxClicks)
    ensures Run(Fresh(maxClicks), n).1.clickCount == Min(n, AllowedClicks(maxClicks))
    ensures Run(Fresh(maxClicks), n).1.limitReachedCalls == n - Min(n, AllowedClicks(maxClicks))
  {
    RunSpec(Fresh(maxClicks), n);
  }

  /** Once a call is denied, every later call is denied too: the counter stays
      where it is and the callback fires again on each call. */
  lemma {:induction false} DeniedStaysDenied(b: Budget, n: nat)
    requires !b.Allows()
    ensures forall i :: 0 <= i < n ==> !Run(b, n).0[i]
    ensures Run(b, n).1.clickCount == b.clickCount
    ensures Run(b, n).1.limitReachedCalls == b.limitReachedCalls + n
  {
    RunSpec(b, n);
  }

  /** With `maxClicks <= 1` the very first call, and every one after it, is denied. */
  lemma {:induction false} LowLimitDeniesAll(maxClicks: int, n: nat)
    requires maxClicks <= 1
    ensures forall i :: 0 <= i < n ==> !Run(Fresh(maxClicks), n).0[i]
    ensures Run(Fresh(maxClicks), n).1 == Budget(maxClicks, 0, n)
  {
    DeniedStaysDenied(Fresh(maxClicks), n);
  }

  /** A limit of 7: six calls succeed with the counter going 1..6, the
      seventh is denied, fires the callback once and leaves one remaining click. */
  lemma {:induction false} SevenClicks()
    ensures Run(Fresh(7), 7) == ([true, true, true, true, true, true, false], Budget(7, 6, 1))
    ensures Budget(7, 6, 1).Remaining() == 1
  {
    FreshRun(7, 7);
    var (answers, last) := Run(Fresh(7), 7);
    assert answers == [true, true, true, true, true, true, false];
  }

  /** The hook: `clickCount` is the `useState` slot, `maxClicks` the prop, and the
      ghost `limitReachedCalls` records each invocation of `onLimitReached`. */
  class ClickLimiter {
    const maxClicks: int
    var clickCount: nat
    ghost var limitReachedCalls: nat

    ghost function State(): Budget
      reads this
    {
      Budget(maxClicks, clickCount, limitReachedCalls)
    }

    ghost predicate Valid()
      reads this
    {
      State().Valid()
    }

    /** Mounting the hook: the counter starts at 0, so all of `maxClicks` remains. */
    constructor (maxClicks: int)
      ensures State() == Fresh(maxClicks)
      ensures Valid() && RemainingClicks() == maxClicks
    {
      this.maxClicks := maxClicks;
      clickCount := 0;
      limitReachedCalls := 0;
    }

    /** `consumeClick`: denied (callback fired, counter unchanged, false) when
        `clickCount + 1 >= maxClicks`, otherwise one click is counted and true returned. */
    method ConsumeClick() returns (allowed: bool)
      modifies this
      ensures (allowed, State()) == old(State()).Consume()
      ensures old(Valid()) ==> Valid()
    {
      if clickCount + 1 >= maxClicks {
        limitReachedCalls := limitReachedCalls + 1;
        return false;
      }
      clickCount := clickCount + 1;
      return true;
    }

    /** `remainingClicks`: at least 1 while the counter is in its invariant and the limit
        is positive, and exactly 1 once calls are being denied. */
    function RemainingClicks(): (r: int)
      reads this
      ensures r == State().Remaining()
      ensures Valid() && maxClicks >= 1 ==> 1 <= r <= maxClicks
    {
      maxClicks - clickCount
    }
  }

  /** A session with a limit of 7, calls made one after another on the
      hook object: six answers true, the seventh false, one click remaining, and
      `onLimitReached` fired exactly once. */
  method SevenClickSession() returns (answers: seq<bool>, remaining: int, ghost limitReached: nat)
    ensures answers == [true, true, true, true, true, true, false]
    ensures remaining == 1 && limitReached == 1
  {
    var limiter := new ClickLimiter(7);
    answers := [];
    var ok := limiter.ConsumeClick(); answers := answers + [ok];
    ok := limiter.ConsumeClick(); answers := answers + [ok];
    ok := limiter.ConsumeClick(); answers := answers + [ok];
    ok := limiter.ConsumeClick(); answers := answers + [ok];
    ok := limiter.ConsumeClick(); answers := answers + [ok];
    ok := limiter.ConsumeClick(); answers := answers + [ok];
    assert limiter.clickCount == 6;
    ok := limiter.ConsumeClick(); answers := answers + [ok];
    remaining := limiter.RemainingClicks();
    limitReached := limiter.limitReachedCalls;
  }
}
