# Click budget of the fuel-price client

This project models `useClickLimit` in `hooks/useClickLimit.ts`. It is the soft paywall of a fuel-price comparison app. The hook counts the navigation actions of a visitor who is not logged in. Once the budget is spent, each further action is refused and the hook fires `onLimitReached`, which its caller uses to ask for a login.

The hook keeps one piece of state, `clickCount`, which starts at 0. It takes two props: `maxClicks` and the callback `onLimitReached`. `consumeClick` tests `clickCount + 1 >= maxClicks`:
- If the test holds, the call is denied. It fires the callback, leaves the counter as it is and returns `false`.
- Otherwise the call is allowed. It adds 1 to the counter and returns `true`.

The hook also exposes `remainingClicks = maxClicks - clickCount`.

`click_limit.dfy` holds one module, `UseClickLimit`, with these parts:
- `Budget` is the hook's abstract state: the limit, the counter, and how many times `onLimitReached` has fired.
- `Budget.Consume` specifies one call of `consumeClick`.
- `Run` gives the answers and the final state after `n` calls made one after another.
- `ClickLimiter` is the hook as a class. `clickCount` is a mutable field. The ghost field `limitReachedCalls` records each time the callback fires. `ConsumeClick` is tied to `Budget.Consume` on the object's abstract state.

The guard stops the counter at `maxClicks - 1`. So with `maxClicks >= 1`, `remainingClicks` never drops below 1, and with a limit of 7 it is 1 after the denied seventh call. `Budget.Remaining`, `SevenClicks` and `SevenClickSession` state this.

## Model

| member | source | states |
|---|---|---|
| `UseClickLimit.Budget.Consume` | hooks/useClickLimit.ts:14-21 | Only the guard `clickCount + 1 >= maxClicks` decides the answer. The counter never goes down. It grows by exactly 1 if and only if the call is allowed. An allowed call never fires `onLimitReached`. A denied call leaves the counter unchanged and fires `onLimitReached` exactly once. So every call is either one counted click or one firing, never both. A denied call leaves a state that denies again. The counter invariant is preserved. |
| `UseClickLimit.Budget.Remaining` | hooks/useClickLimit.ts:25 | Under the counter invariant and a limit of at least 1, `remainingClicks` lies in `1..maxClicks`. It equals 1 exactly when the next call will be denied. |
| `UseClickLimit.Fresh` | hooks/useClickLimit.ts:12 | The mounted hook starts with counter 0. That state satisfies the invariant, and `remainingClicks` equals `maxClicks`. |
| `UseClickLimit.Run` | hooks/useClickLimit.ts:14-21 | `n` calls in a row give `n` answers and keep `maxClicks`. The counter never decreases over the run, and the invariant holds at the end. |
| `UseClickLimit.RunSpec` | hooks/useClickLimit.ts:15-20 | From any state, call `i` of a run is allowed if and only if `clickCount + i + 1 < maxClicks`. The counter ends at `min(clickCount + n, max(clickCount, maxClicks - 1))`. Every call that was not counted fired the callback exactly once. |
| `UseClickLimit.FreshRun` | hooks/useClickLimit.ts:12-20 | From a freshly mounted hook, call `i` (counting from 0) succeeds if and only if `i + 1 < maxClicks`. Only `maxClicks - 1` calls get through, and the `maxClicks`-th call is the first one denied. The final counter and the number of callback firings are given exactly. |
| `UseClickLimit.DeniedStaysDenied` | hooks/useClickLimit.ts:15-18 | Once a call is denied, every later call is denied too. The counter stays unchanged, and the callback fires again on each call. |
| `UseClickLimit.LowLimitDeniesAll` | hooks/useClickLimit.ts:15 | With `maxClicks <= 1`, the first call and every later call are denied. The counter stays 0 and the callback fires on every call. |
| `UseClickLimit.SevenClicks` | hooks/useClickLimit.ts:12-25 | With a limit of 7, the answers are six `true` and then one `false`. The counter ends at 6, the callback has fired once, and `remainingClicks` is 1. |
| `UseClickLimit.ClickLimiter.constructor` | hooks/useClickLimit.ts:8-12 | Mounting gives the fresh state: counter 0, no callback fired, and `remainingClicks == maxClicks`. |
| `UseClickLimit.ClickLimiter.ConsumeClick` | hooks/useClickLimit.ts:14-21 | The answer and the new state of the object are exactly those of `Budget.Consume` on the old state. The counter invariant is preserved. |
| `UseClickLimit.ClickLimiter.RemainingClicks` | hooks/useClickLimit.ts:25 | Agrees with `Budget.Remaining`. Under the invariant and a limit of at least 1, the result lies in `1..maxClicks`. |
| `UseClickLimit.SevenClickSession` | hooks/useClickLimit.ts:14-25 | Runs seven calls in a row on a hook object with limit 7. The answers are six `true` and then `false`. `remainingClicks` is 1 at the end, and `onLimitReached` fired exactly once. |

## Left out

- React closures and scheduling are not modelled. `consumeClick` reads `clickCount` from the render in which it was created, but increments it with a functional update. So two calls within one render can both pass the guard. The model treats calls as sequential, each seeing the latest count.
- `maxClicks` is a JavaScript number. The model takes it as an integer, so fractional values, `NaN` and infinities are not modelled.
- `onLimitReached` is an external callback. The model only counts how often it fires, in `limitReachedCalls`. What the callback does, such as showing `LoginModal`, is not modelled.
- A prop `maxClicks` that changes between renders is not modelled. The limit is fixed when the hook mounts.
- The remote version gate, the update poller, the navigation gate and the version comparison are not part of this model. `hooks/useOTAUpdate.ts` only wraps the `expo-updates` library.
- Not modelled, because they are UI, platform or network code with no logic to state: the UI components under `components/` and the screens under `app/`, `lib/push.ts`, and `hooks/useNotifications.ts`.
