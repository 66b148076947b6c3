# discordbump: a Dafny model of the bump scheduler

The program is a Discord self-bot. It sends the `/bump` slash command to a
channel at random intervals of 2 to 2.5 hours. It counts the successful bumps
and persists the count and the countdown in `bumpData.txt` as the text
`"<bumpCount>,<remainingTime>"`. It shows the countdown in its presence, at
most once every 10 minutes. It also answers `!status` to administrators and
to holders of a configured role, with a one-minute cooldown per
non-administrator.

This project models the logic of `index.js`. The I/O and the Discord calls are
left out. Each part is a pure function over an immutable `BotState` value that
mirrors the program's `state` record:

- `JsText` models the JavaScript semantics the program relies on: `parseInt`
  with no radix (whitespace, sign, `0x` prefix, longest digit prefix, `NaN` as
  `None`), the decimal text of a number, `split(',')`, and the truncating `%`
  and `Math.ceil`.
- `DataHandler` holds `save` and `load`, with the file content as a string.
- `StatusManager` holds the throttled presence `update`, `startCountdown`, and
  the one-second countdown tick.
- `BumpManager` holds `perform` with its re-entrancy flag and exponential
  backoff, the random interval of `schedule`, the bump timer's callback and the
  5-minute cool-off.
- `CommandHandler` holds the permission and cooldown decision of `!status`.
- `Scheduler` holds the `ready` handler and an event loop over the three timer
  callbacks. The validity invariant of `AppState.Valid` holds across any run.

Modelling choices:

- `state.remainingTime` is a number of seconds. It is modelled as an integer
  `remainingMs`, because every value it takes is a whole number of
  milliseconds divided by 1000.
- Timer handles are modelled by what they mean. `countdownActive` means the
  countdown handle is set. `liveCountdowns` counts the intervals actually
  running. `bumpTimeout` is the pending bump timer with its delay. `coolOffs` lists
  the delays of the untracked cool-off timers armed after a failed bump.
- Values from outside the program are parameters. `sendOk(k)` says whether
  the k-th bump command succeeds. `r` is the value of `Math.random()`. `now` is
  `Date.now()`. `sinkOk` says whether setting the presence succeeds. Member
  lookups also arrive as parameters.

`perform` is modelled as written. After a failed send below the retry
ceiling (index.js:166), it bumps `retryCount`, waits the backoff and calls
itself again. At the ceiling it returns false at once, with no wait and no
nested call. It does this inside the `try`,
before the `finally` clears `isBumping`. So the guard at the top rejects the
nested call, and one call of `perform` sends at most once (see Findings). The
scheduler keeps this behaviour, because it is what the program does. The
corrected retry is modelled next to it.

## Model

| member | source | states |
|---|---|---|
| `AppState.Init` | index.js:19-28 | The initial state has no bumps, no countdown and no pending timer, and `maxRetries` is 3. `lastUpdateTime` is 0. It satisfies the invariant. |
| `JsText.ParseInt` | index.js:50-51 | Blank text, and text whose first non-blank character is neither a digit nor a sign, read as NaN. A negative result needs a leading minus after the blanks. |
| `JsText.ParseIntOfNumberText` | index.js:50-51 | `parseInt` reads back the decimal text of any integer, followed by any text that does not start with a digit, `x` or `X`. |
| `JsText.ParseIntOfSecondsText` | index.js:51 | `parseInt` of the text of a non-negative time with milliseconds gives the whole seconds. The fraction is truncated. |
| `JsText.JoinSplit` | index.js:49 | Joining the pieces of `split(',')` with commas gives back the text. |
| `JsText.SplitJoin` | index.js:49 | Splitting the join of comma-free pieces gives back the pieces. |
| `JsText.SplitHasTwoPieces` | index.js:44-49 | Text that contains a comma splits into at least two fields, so both `count` and `time` are defined. |
| `DataHandler.Save` | index.js:75-83 | The saved text has exactly two comma-separated fields. `parseInt` reads them as the counter and as the whole seconds of the remaining time, with negative time written as 0. |
| `DataHandler.Load` | index.js:41-69 | Missing or empty text, or text without a comma, leaves the state unchanged. A field that parses as NaN keeps its old value. A parsed time is clamped at 0. Only the counter and the time can change, and a non-negative time stays non-negative. |
| `DataHandler.LoadSave` | index.js:49-58 | Loading saved text over any state restores the counter exactly. It restores the time truncated to whole seconds, with negative time as 0. |
| `DataHandler.LoadSaveExact` | index.js:77 | The time survives a save and a load exactly when it is a non-negative whole number of seconds. |
| `StatusManager.ClockOf` | index.js:98-99 | A non-negative time splits into minutes and seconds in `[0, 60)`, and `minutes*60 + seconds` equals the whole seconds. |
| `StatusManager.Update` | index.js:93-111 | The update is skipped exactly while `now - lastUpdateTime < STATUS_COOLDOWN`. Otherwise it shows the clock of the remaining time. It records `now` only when the sink accepts the presence, and changes nothing else. |
| `StatusManager.ShownAt` | index.js:95-107 | In any run of updates, each presence actually set is at least 10 minutes after the previous one. The first is at least 10 minutes after the last update before the run. |
| `StatusManager.UpdateThrottles` | index.js:95 | After a successful update at `now`, any update before `now + STATUS_COOLDOWN` is skipped and changes nothing. |
| `StatusManager.StartCountdown` | index.js:117-125 | The countdown is set to the requested time and is running. Exactly one countdown interval runs afterwards, because the previous one is cleared. The presence and `lastUpdateTime` are those of `Update` on the new time. |
| `StatusManager.Tick` | index.js:125-133 | One tick never yields a negative time. It never increases a non-negative time and strictly decreases a positive one. It clears the interval exactly when the time reaches 0. The presence and `lastUpdateTime` are those of `Update` on the new time. |
| `StatusManager.CountdownRuns` | index.js:125-133 | After `n` ticks, a countdown of `ms` holds `max(ms - 1000n, 0)`. It is still running exactly while `n < TicksToExpire(ms)`. |
| `BumpManager.Backoff` | index.js:168 | The first retry waits `RETRY_DELAY` (5 s), and no retry waits less. |
| `BumpManager.BackoffDoubles` | index.js:168 | Retries wait 5000, 10000 and 20000 ms, and each retry waits twice as long as the previous one. |
| `BumpManager.Perform` | index.js:146-180 | A call made while `isBumping` is set returns false and changes nothing. Any other call sends exactly once and leaves `isBumping` clear. Success adds exactly 1 to `bumpCount`, resets `retryCount` and saves. Failure keeps `bumpCount`. Below the ceiling, failure increments `retryCount` and waits `Backoff(retryCount)`. At the ceiling, failure leaves `retryCount` unchanged and does not wait. |
| `BumpManager.RetryCounterStaysBounded` | index.js:166-167 | `retryCount` never exceeds `maxRetries`. Once at the ceiling, only a success resets it. |
| `BumpManager.PerformSkipsRetry` | index.js:147-178 | From the initial state, when the first send fails and a second would succeed, `perform` sends once, waits 5 s and returns false. The intended retry sends twice and succeeds. |
| `BumpManager.PerformIntended` | index.js:166-172 | With the retry the code evidently intends, a rejected call changes nothing. Any other call sends at least once, with one wait between consecutive sends. Success adds exactly one bump and resets `retryCount`. |
| `BumpManager.PerformIntendedFailsBeforeLast` | index.js:166-172 | With the intended retry, every send before the last one failed. |
| `BumpManager.PerformIntendedOkIffLastSent` | index.js:166-172 | With the intended retry, the call succeeds exactly when its last send succeeded. |
| `BumpManager.PerformIntendedExhausts` | index.js:166-172 | With the intended retry, a call whose sends all fail makes one send per remaining retry plus the first, and leaves `retryCount` at the ceiling. The n-th retry waits `Backoff(n)`. |
| `BumpManager.PerformIntendedFromFresh` | index.js:166-168 | With the intended retry and a fresh counter, a send that keeps failing is tried 4 times, after waits of 5, 10 and 20 s. |
| `BumpManager.Draw` | index.js:187-188 | For every `r` in `[0, 1)`, the random interval lies in `[BUMP_MIN_INTERVAL, BUMP_MAX_INTERVAL]` inclusive. |
| `BumpManager.DrawCoversRange` | index.js:187-188 | Every interval in that range is drawn for some `r`. |
| `BumpManager.Schedule` | index.js:186-197 | Scheduling sets the countdown to `Draw(r)`, starts it, and arms one bump timer for that same interval. The presence and `lastUpdateTime` follow `Update` on the new time. Nothing else changes, and the invariant is preserved when no cool-off is pending. |
| `BumpManager.Fire` | index.js:197-205 | When the bump timer fires, it runs `perform`. Success leaves a bump timer armed and the cool-offs as they were. Failure adds one cool-off timer of `CoolOffDelay` (300000 ms) and nothing else, with no bump timer and no presence. The counter grows by one exactly on success, and the invariant is preserved. |
| `BumpManager.FireSchedulesOnSuccess` | index.js:198-200 | On success the bump timer's callback is exactly `Schedule` on the state `perform` left, with the same `Math.random()` value and presence outcome. |
| `BumpManager.CoolOffElapsed` | index.js:203 | When the oldest cool-off fires, it is consumed and the rest is exactly `Schedule`, which arms a bump timer of `Draw(r)`. The invariant is preserved. |
| `CommandHandler.CooldownWait` | index.js:245-247 | A user must wait exactly when a non-zero time is recorded for them and less than `COMMAND_COOLDOWN` has elapsed. The wait reported is `ceil(remaining/1000)`. It is at least 1 s, and at most 60 s when the clock has not gone back. |
| `CommandHandler.HasPermission` | index.js:235 | Administrators are always allowed. Anyone else is allowed exactly when they hold the configured role. |
| `CommandHandler.HandleStatus` | index.js:217-268 | Other messages are ignored. No channel access, no member or no permission each give their own reply and change nothing. Administrators always get the report and are never recorded. A permitted non-administrator gets `Wait(CooldownWait(...))` within the cooldown. Otherwise they get the report and have `now` recorded. Nothing else changes the cooldown map. |
| `CommandHandler.CooldownHoldsOneMinute` | index.js:244-255 | After a non-administrator is served at `now`, they are told to wait 1 to 60 s until `now + 60000`, and are served again from then on. |
| `Scheduler.Step` | index.js:125-205 | A timer callback never decreases the bump counter and adds at most one. Ticks and cool-offs never change it. |
| `Scheduler.StepKeepsValid` | index.js:117-205 | Every timer callback preserves the invariant. The time is non-negative, `retryCount` is at most `maxRetries` and no bump is in progress. One countdown handle matches one running interval. At most one route to the next bump is pending, and a pending cool-off waits `CoolOffDelay`. |
| `Scheduler.StepKeepsArmed` | index.js:197-205 | In a valid state with exactly one route to the next bump pending, every callback leaves exactly one pending. A fired bump timer is replaced by a new timer or by a cool-off, and a fired cool-off by a bump timer. |
| `Scheduler.RunKeepsArmed` | index.js:197-205 | Through any run of callbacks, a valid state with the next bump armed keeps it armed, so the bot never stops bumping. |
| `Scheduler.RunKeepsValid` | index.js:117-205 | Any sequence of callbacks keeps a valid state valid. The counter never decreases, and grows by at most one per callback. |
| `Scheduler.Ready` | index.js:291-315 | Startup loads the file. Without a channel, it exits after 5 minutes. Otherwise it bumps once, schedules whatever the outcome, and leaves the countdown running and a bump timer armed, with the counter up by one exactly when that bump succeeded. The trailing presence update at line 309 has its own time and outcome. Within the throttle it changes nothing. Past the throttle, when accepted, it records its time. Started from a state with no cool-off, it leaves exactly one route to the next bump armed. |
| `Scheduler.ReadyRetriesRejectedPresence` | index.js:191-309 | From the initial state, when the presence set inside `schedule` is rejected, the trailing update at line 309 sets it and records its time. |
| `Scheduler.StartedBotStaysValid` | index.js:291-315 | From the initial state, whatever the saved file and the first bump's outcome, startup succeeds with a channel and every later run of callbacks stays valid. Every such run also keeps exactly one route to the next bump armed. |

## Findings

| source | as written | input that shows it | evidently intended | confidence | as-written member | corrected member |
|---|---|---|---|---|---|---|
| index.js:166-172 | After a failed send, `perform` calls itself while `isBumping` is still set. The guard at line 147 turns the nested call away, so no retry is ever sent. | Initial state, first send fails, second would succeed: `perform` sends once, waits 5 s and returns false. | The nested call sends again, up to `MAX_RETRIES` times, after waits of 5, 10 and 20 s. | high; not executed | `BumpManager.PerformSkipsRetry` | `BumpManager.PerformIntended` |

The corrected `PerformIntended` is proved to stop at the first success, to
send once per remaining retry when every send fails, and to wait
`Backoff(n)` before the n-th retry. `Fire` and `Ready` keep the as-written
`Perform`, because they describe what the program does. With it, a failed bump
is only retried after the 5-minute cool-off and a new random interval.

## Left out

- Discord: login, `sendSlash`, `setPresence`, channel permissions, fetching members and roles, and sending replies and direct messages. They are external library calls, so their outcomes are parameters.
- Files and logs: reading and writing `bumpData.txt` and the console output. `Save` returns the text to be written, and `Load` takes the text read, or `None` when reading failed.
- `dotenv`, signal handlers, the `unhandledRejection` and `uncaughtException` handlers, and `process.exit`. These are process lifecycle. The text they save is `Save`'s.
- Interleaving inside `await`s. The countdown keeps ticking while `perform` waits its backoff, but each callback and each `perform` is one atomic step here.
- Floating point. `Math.random()` is an exact real in `[0, 1)`. The remaining time is exact milliseconds, without the rounding of repeated `- 1`. Numbers are exact integers, without the loss of precision past 2^53.
- `JsText.NumberText`: it does not model the exponent notation JavaScript uses from 1e21 on, because no reachable counter or time comes near it.
- `StatusManager.Tick`: it requires a running countdown, because the interval callback only runs while the interval exists.
- `CommandHandler.HandleStatus`: it reads the clock once, although the code calls `Date.now()` up to three times, at lines 246, 247 and 254.
- `CommandHandler.CooldownHoldsOneMinute`: it assumes `now != 0`, because a recorded time of 0 is falsy and would not block. That is noted, not relied on.
- The error replies of `handleStatus` (lines 269-279). They only report failures of the Discord calls left out above.
