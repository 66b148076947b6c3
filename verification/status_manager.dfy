/** The presence shown on the account ("next bump in Mm Ss"), throttled to
    one update per `StatusCooldown`, and the one-second countdown that drives it. */
module StatusManager {
  import opened Wrappers
  import opened JsText
  import opened AppState
  import Config

  /** The minutes and seconds the presence and the status reply show. */
  datatype Clock = Clock(minutes: int, seconds: int)

  /** `Math.floor(t / 60)` and `Math.floor(t % 60)` for `t = ms / 1000`
      seconds, with JavaScript's `%` keeping the sign of `t`. A non-negative
      time splits into whole minutes and the seconds left over. */
  function ClockOf(ms: int): (c: Clock)
    ensures ms >= 0 ==> c.minutes >= 0 && 0 <= c.seconds < 60
    ensures ms >= 0 ==> c.minutes * 60 + c.seconds == ms / 1000
  {
    SplitMinutes(ms);
    Clock(ms / 60000, TruncRem(ms, 60000) / 1000)
  }

  lemma SplitMinutes(ms: int)
    ensures ms / 60000 * 60 + ms % 60000 / 1000 == ms / 1000
  {
    var q := ms / 60000;
    var r := ms % 60000;
    assert ms == q * 60000 + r;
    assert q * 60000 + r == (q * 60 + r / 1000) * 1000 + r % 1000;
  }

  /** One call of the presence sink: the clock time of the call and whether
      setting the presence succeeded. */
  datatype UpdateCall = UpdateCall(now: int, sinkOk: bool)

  /** `statusManager.update()` at time `now`. It does nothing while less than
      `StatusCooldown` has passed since the last update; otherwise it shows the
      clock of the remaining time and, if the sink accepts it, records `now`.
      The second component is the presence it tried to set. */
  function Update(st: BotState, now: int, sinkOk: bool): (r: (BotState, Option<Clock>))
    ensures r.1.None? <==> now - st.lastUpdateTime < Config.StatusCooldown
    ensures r.1.Some? ==> r.1.value == ClockOf(st.remainingMs)
    ensures r.0 == st.(lastUpdateTime := r.0.lastUpdateTime)
    ensures r.0.lastUpdateTime != st.lastUpdateTime ==> r.1.Some? && sinkOk && r.0.lastUpdateTime == now
    ensures r.1.Some? && sinkOk ==> r.0.lastUpdateTime == now
  {
    if now - st.lastUpdateTime < Config.StatusCooldown then (st, None)
    else
      var shown := ClockOf(st.remainingMs);
      if sinkOk then (st.(lastUpdateTime := now), Some(shown)) else (st, Some(shown))
  }

  /** The times at which a run of updates actually set the presence. Each is
      at least `StatusCooldown` after the previous one, and the first at least
      that long after the last update before the run. */
  function ShownAt(st: BotState, calls: seq<UpdateCall>): (times: seq<int>)
    ensures |times| > 0 ==> times[0] - st.lastUpdateTime >= Config.StatusCooldown
    ensures forall i :: 0 < i < |times| ==> times[i] - times[i - 1] >= Config.StatusCooldown
    decreases |calls|
  {
    if |calls| == 0 then []
    else
      var step := Update(st, calls[0].now, calls[0].sinkOk);
      var later := ShownAt(step.0, calls[1..]);
      if step.1.Some? && calls[0].sinkOk then [calls[0].now] + later
      else
        assert step.0.lastUpdateTime == st.lastUpdateTime;
        later
  }

  /** Two presences are never set less than `StatusCooldown` apart: after a
      successful update at `now`, an update at any time before
      `now + StatusCooldown` is skipped. */
  lemma UpdateThrottles(st: BotState, now: int, later: int, sinkOk: bool)
    requires Update(st, now, true).1.Some?
    requires later < now + Config.StatusCooldown
    ensures Update(Update(st, now, true).0, later, sinkOk).1.None?
    ensures Update(Update(st, now, true).0, later, sinkOk).0 == Update(st, now, true).0
  {
  }

  /** `startCountdown(ms)`: clear the running countdown if there is one, set
      the remaining time to `ms`, update the presence, and start a new
      one-second interval. Exactly one countdown runs afterwards. */
  function StartCountdown(st: BotState, ms: int, now: int, sinkOk: bool): (r: (BotState, Option<Clock>))
    ensures r.0.remainingMs == ms && r.0.countdownActive
    ensures st.liveCountdowns == (if st.countdownActive then 1 else 0) ==> r.0.liveCountdowns == 1
    ensures r.1 == Update(st.(remainingMs := ms), now, sinkOk).1
    ensures r.0.lastUpdateTime == Update(st.(remainingMs := ms), now, sinkOk).0.lastUpdateTime
    ensures r.0 == st.(remainingMs := ms, countdownActive := true, liveCountdowns := r.0.liveCountdowns,
                       lastUpdateTime := r.0.lastUpdateTime)
  {
    var cleared :=
      if st.countdownActive then st.(countdownActive := false, liveCountdowns := st.liveCountdowns - 1)
      else st;
    var (shown, presence) := Update(cleared.(remainingMs := ms), now, sinkOk);
    (shown.(countdownActive := true, liveCountdowns := shown.liveCountdowns + 1), presence)
  }

  /** One firing of the countdown interval: take one second off, never going
      below zero, update the presence, and clear the interval once nothing
      remains. */
  function Tick(st: BotState, now: int, sinkOk: bool): (r: (BotState, Option<Clock>))
    requires st.countdownActive
    ensures r.0.remainingMs >= 0
    ensures st.remainingMs >= 0 ==> r.0.remainingMs <= st.remainingMs
    ensures st.remainingMs > 0 ==> r.0.remainingMs < st.remainingMs
    ensures r.0.remainingMs == Max(st.remainingMs - Config.TickPeriod, 0)
    ensures r.0.countdownActive <==> r.0.remainingMs > 0
    ensures r.0.liveCountdowns == (if r.0.countdownActive then st.liveCountdowns else st.liveCountdowns - 1)
    ensures r.1 == Update(st.(remainingMs := r.0.remainingMs), now, sinkOk).1
    ensures r.0.lastUpdateTime == Update(st.(remainingMs := r.0.remainingMs), now, sinkOk).0.lastUpdateTime
    ensures r.0 == st.(remainingMs := r.0.remainingMs, countdownActive := r.0.countdownActive,
                       liveCountdowns := r.0.liveCountdowns, lastUpdateTime := r.0.lastUpdateTime)
  {
    var remaining := Max(st.remainingMs - Config.TickPeriod, 0);
    var (shown, presence) := Update(st.(remainingMs := remaining), now, sinkOk);
    if remaining <= 0 then
      (shown.(countdownActive := false, liveCountdowns := shown.liveCountdowns - 1), presence)
    else (shown, presence)
  }

  /** The number of ticks after which a countdown holding `ms` clears itself. */
  function TicksToExpire(ms: int): (n: int)
    ensures n >= 1
    ensures ms >= 0 ==> (n - 1) * Config.TickPeriod < Max(ms, 1)
    ensures ms >= 0 ==> ms <= n * Config.TickPeriod
  {
    Max(CeilDiv(ms, Config.TickPeriod), 1)
  }

  /** The countdown after a run of interval firings; the interval stops firing once cleared. */
  function Countdown(st: BotState, calls: seq<UpdateCall>): BotState
    decreases |calls|
  {
    if |calls| == 0 || !st.countdownActive then st
    else Countdown(Tick(st, calls[0].now, calls[0].sinkOk).0, calls[1..])
  }

  /** A running countdown holding `ms >= 0` holds `max(ms - 1000 n, 0)` after
      `n` firings, and is still running exactly while `n` is below
      `TicksToExpire(ms)`: it only goes down, reaches zero, and then stops. */
  lemma {:induction false} CountdownRuns(st: BotState, calls: seq<UpdateCall>)
    requires st.countdownActive && st.remainingMs >= 0
    ensures Countdown(st, calls).remainingMs == Max(st.remainingMs - Config.TickPeriod * |calls|, 0)
    ensures Countdown(st, calls).countdownActive <==> |calls| < TicksToExpire(st.remainingMs)
    decreases |calls|
  {
    if |calls| > 0 {
      var next := Tick(st, calls[0].now, calls[0].sinkOk).0;
      if next.countdownActive {
        CountdownRuns(next, calls[1..]);
        assert TicksToExpire(next.remainingMs) == TicksToExpire(st.remainingMs) - 1;
      } else {
        assert Countdown(next, calls[1..]) == next;
      }
    }
  }
}
