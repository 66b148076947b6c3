/** Sending the bump command with a re-entrancy guard and exponential
    backoff, and scheduling the next bump at a random interval. The send
    itself is an oracle: `sendOk(k)` says whether the `k`-th send succeeds. */
module BumpManager {
  import opened Wrappers
  import opened AppState
  import opened DataHandler
  import opened StatusManager
  import Config

  /** What one call of `perform` did: the value it returned, the state it
      left, how many bump commands it sent, the backoff delays it waited, and
      the text it saved, if any. */
  datatype PerformResult = PerformResult(
    ok: bool,
    state: BotState,
    sends: nat,
    waits: seq<int>,
    written: Option<string>)

  /** `Math.pow(2, n)`. */
  function Pow2(n: nat): nat {
    if n == 0 then 1 else 2 * Pow2(n - 1)
  }

  /** The wait before retry number `attempt`: `RETRY_DELAY * 2^(attempt - 1)`. */
  function Backoff(attempt: nat): (wait: int)
    requires attempt >= 1
    ensures attempt == 1 ==> wait == Config.RetryDelay
    ensures wait >= Config.RetryDelay
  {
    Pow2Positive(attempt - 1);
    Config.RetryDelay * Pow2(attempt - 1)
  }

  lemma {:induction false} Pow2Positive(n: nat)
    ensures Pow2(n) >= 1
  {
    if n > 0 {
      Pow2Positive(n - 1);
    }
  }

  /** The first three retries wait 5, 10 and 20 seconds, and every retry
      waits twice as long as the one before. */
  lemma BackoffDoubles(attempt: nat)
    requires attempt >= 1
    ensures Backoff(attempt + 1) == 2 * Backoff(attempt)
    ensures Backoff(1) == 5000 && Backoff(2) == 10000 && Backoff(3) == 20000
  {
  }

  /** `bumpManager.perform` as written. A call made while a bump is in
      progress returns false and changes nothing. Otherwise it marks the bump
      in progress and sends once: success counts the bump, resets the retry
      counter and saves; failure below the retry ceiling bumps the retry
      counter, waits the backoff and calls `perform` again — but the flag is
      still set, so that nested call is turned away and the failure stands.
      The flag is cleared on the way out. */
  function Perform(st: BotState, sendOk: nat -> bool, k: nat): (r: PerformResult)
    ensures st.isBumping ==> r == PerformResult(false, st, 0, [], None)
    ensures !st.isBumping ==> !r.state.isBumping && r.sends == 1
    ensures r.ok <==> !st.isBumping && sendOk(k)
    ensures r.ok ==> && r.state.bumpCount == st.bumpCount + 1
                     && r.state.retryCount == 0
                     && r.written == Some(Save(r.state))
                     && r.waits == []
    ensures !r.ok ==> r.state.bumpCount == st.bumpCount && r.written.None?
    ensures !st.isBumping && !sendOk(k) ==>
      && r.state.retryCount == (if st.retryCount < st.maxRetries then st.retryCount + 1 else st.retryCount)
      && r.waits == (if st.retryCount < st.maxRetries then [Backoff(st.retryCount + 1)] else [])
    ensures r.state == st.(bumpCount := r.state.bumpCount, retryCount := r.state.retryCount,
                           isBumping := r.state.isBumping)
    decreases if st.isBumping then 0 else 1
  {
    if st.isBumping then PerformResult(false, st, 0, [], None)
    else
      var busy := st.(isBumping := true);
      if sendOk(k) then
        var sent := busy.(bumpCount := busy.bumpCount + 1, retryCount := 0);
        PerformResult(true, sent.(isBumping := false), 1, [], Some(Save(sent)))
      else if busy.retryCount < busy.maxRetries then
        var retrying := busy.(retryCount := busy.retryCount + 1);
        var wait := Backoff(retrying.retryCount);
        var nested := Perform(retrying, sendOk, k + 1);
        PerformResult(nested.ok, nested.state.(isBumping := false), 1 + nested.sends,
                      [wait] + nested.waits, nested.written)
      else PerformResult(false, busy.(isBumping := false), 1, [], None)
  }

  /** `perform` with the retry it evidently means to make: after a failed
      send below the retry ceiling, wait the backoff and send again, until a
      send succeeds or the ceiling is reached. */
  function PerformIntended(st: BotState, sendOk: nat -> bool, k: nat): (r: PerformResult)
    ensures st.isBumping ==> r == PerformResult(false, st, 0, [], None)
    ensures !st.isBumping ==> !r.state.isBumping && r.sends >= 1 && |r.waits| == r.sends - 1
    ensures r.ok ==> r.state.bumpCount == st.bumpCount + 1 && r.state.retryCount == 0
    ensures !r.ok ==> r.state.bumpCount == st.bumpCount
    decreases if st.retryCount < st.maxRetries then st.maxRetries - st.retryCount else 0
  {
    if st.isBumping then PerformResult(false, st, 0, [], None)
    else if sendOk(k) then
      var sent := st.(bumpCount := st.bumpCount + 1, retryCount := 0);
      PerformResult(true, sent, 1, [], Some(Save(sent)))
    else if st.retryCount < st.maxRetries then
      var retrying := st.(retryCount := st.retryCount + 1);
      var nested := PerformIntended(retrying, sendOk, k + 1);
      PerformResult(nested.ok, nested.state, 1 + nested.sends,
                    [Backoff(retrying.retryCount)] + nested.waits, nested.written)
    else PerformResult(false, st, 1, [], None)
  }

  /** With the intended retry, sends stop at the first success: every send
      before the last one failed. */
  lemma {:induction false} PerformIntendedFailsBeforeLast(st: BotState, sendOk: nat -> bool, k: nat)
    requires !st.isBumping
    ensures var r := PerformIntended(st, sendOk, k);
      forall j :: k <= j < k + r.sends - 1 ==> !sendOk(j)
    decreases if st.retryCount < st.maxRetries then st.maxRetries - st.retryCount else 0
  {
    var r := PerformIntended(st, sendOk, k);
    if !sendOk(k) && st.retryCount < st.maxRetries {
      var retrying := st.(retryCount := st.retryCount + 1);
      var nested := PerformIntended(retrying, sendOk, k + 1);
      assert r.sends == 1 + nested.sends;
      PerformIntendedFailsBeforeLast(retrying, sendOk, k + 1);
    }
  }

  /** With the intended retry, the call succeeds exactly when its last send did. */
  lemma {:induction false} PerformIntendedOkIffLastSent(st: BotState, sendOk: nat -> bool, k: nat)
    requires !st.isBumping
    ensures var r := PerformIntended(st, sendOk, k);
      r.ok <==> sendOk(k + r.sends - 1)
    decreases if st.retryCount < st.maxRetries then st.maxRetries - st.retryCount else 0
  {
    var r := PerformIntended(st, sendOk, k);
    if !sendOk(k) && st.retryCount < st.maxRetries {
      var retrying := st.(retryCount := st.retryCount + 1);
      var nested := PerformIntended(retrying, sendOk, k + 1);
      assert r.sends == 1 + nested.sends && r.ok == nested.ok;
      PerformIntendedOkIffLastSent(retrying, sendOk, k + 1);
      assert k + r.sends - 1 == (k + 1) + nested.sends - 1;
    }
  }

  /** With the intended retry, a call whose sends all fail makes one send per
      remaining retry plus the first one and leaves the retry counter at its
      ceiling; the `n`-th retry waits `Backoff(n)`. */
  lemma {:induction false} PerformIntendedExhausts(st: BotState, sendOk: nat -> bool, k: nat)
    requires !st.isBumping
    ensures var r := PerformIntended(st, sendOk, k);
      !r.ok ==> && r.sends == (if st.retryCount < st.maxRetries then st.maxRetries - st.retryCount + 1 else 1)
                && r.state.retryCount == (if st.retryCount < st.maxRetries then st.maxRetries else st.retryCount)
    ensures var r := PerformIntended(st, sendOk, k);
      forall j :: 0 <= j < |r.waits| ==> r.waits[j] == Backoff(st.retryCount + 1 + j)
    decreases if st.retryCount < st.maxRetries then st.maxRetries - st.retryCount else 0
  {
    if !sendOk(k) && st.retryCount < st.maxRetries {
      PerformIntendedExhausts(st.(retryCount := st.retryCount + 1), sendOk, k + 1);
    }
  }

  /** The discrepancy, on the state the program starts from: when the first
      send fails and the second would succeed, `perform` as written sends
      once, waits 5 seconds and reports failure, while the intended retry
      sends again and succeeds. */
  lemma PerformSkipsRetry()
    ensures var sendOk := (j: nat) => j >= 1;
      && Perform(Init(), sendOk, 0).ok == false
      && Perform(Init(), sendOk, 0).sends == 1
      && Perform(Init(), sendOk, 0).waits == [5000]
      && PerformIntended(Init(), sendOk, 0).ok == true
      && PerformIntended(Init(), sendOk, 0).sends == 2
  {
    var sendOk := (j: nat) => j >= 1;
    assert !sendOk(0) && sendOk(1);
    BackoffDoubles(1);
  }

  /** With the intended retry, a send that keeps failing from a fresh retry
      counter is tried four times, after waits of 5, 10 and 20 seconds. */
  lemma PerformIntendedFromFresh(st: BotState, sendOk: nat -> bool, k: nat)
    requires !st.isBumping && st.retryCount == 0 && st.maxRetries == Config.MaxRetries
    requires forall j :: k <= j ==> !sendOk(j)
    ensures !PerformIntended(st, sendOk, k).ok
    ensures PerformIntended(st, sendOk, k).sends == 4
    ensures PerformIntended(st, sendOk, k).waits == [5000, 10000, 20000]
  {
    var r := PerformIntended(st, sendOk, k);
    PerformIntendedOkIffLastSent(st, sendOk, k);
    PerformIntendedExhausts(st, sendOk, k);
    BackoffDoubles(1);
    BackoffDoubles(2);
  }

  /** Repeated failing calls of `perform` as written never push the retry
      counter past its ceiling, and leave it at the ceiling once reached:
      only a success resets it. */
  lemma RetryCounterStaysBounded(st: BotState, sendOk: nat -> bool, k: nat)
    requires st.retryCount <= st.maxRetries
    ensures Perform(st, sendOk, k).state.retryCount <= st.maxRetries
    ensures !Perform(st, sendOk, k).ok && st.retryCount == st.maxRetries ==>
      Perform(st, sendOk, k).state.retryCount == st.maxRetries
  {
  }

  // ---------------------------------------------------------------------------
  // Scheduling

  /** `Math.floor(r * (MAX - MIN + 1)) + MIN` for the value `r` of
      `Math.random()`, taken as an exact real in [0, 1). */
  function Draw(r: real): (ms: int)
    requires 0.0 <= r < 1.0
    ensures Config.BumpMinInterval <= ms <= Config.BumpMaxInterval
  {
    var span := Config.BumpMaxInterval - Config.BumpMinInterval + 1;
    (r * span as real).Floor + Config.BumpMinInterval
  }

  /** Every interval in the range is drawn for some value of `Math.random()`. */
  lemma DrawCoversRange(ms: int)
    requires Config.BumpMinInterval <= ms <= Config.BumpMaxInterval
    ensures exists r: real :: 0.0 <= r < 1.0 && Draw(r) == ms
  {
    var span := Config.BumpMaxInterval - Config.BumpMinInterval + 1;
    var r := (ms - Config.BumpMinInterval) as real / span as real;
    assert r * span as real == (ms - Config.BumpMinInterval) as real;
    assert Draw(r) == ms;
  }

  /** `schedule`: draw an interval, start the countdown for it (which shows
      the presence), and replace any pending bump timer by one for that
      interval. Nothing else in the state changes. */
  function Schedule(st: BotState, r: real, now: int, sinkOk: bool): (out: (BotState, Option<Clock>))
    requires 0.0 <= r < 1.0
    ensures Config.BumpMinInterval <= out.0.remainingMs <= Config.BumpMaxInterval
    ensures out.0.bumpTimeout == Some(out.0.remainingMs)
    ensures out.0.countdownActive
    ensures out.0.remainingMs == Draw(r)
    ensures out.0 == st.(remainingMs := Draw(r), countdownActive := true,
                         liveCountdowns := out.0.liveCountdowns,
                         lastUpdateTime := out.0.lastUpdateTime, bumpTimeout := Some(Draw(r)))
    ensures out.1 == Update(st.(remainingMs := Draw(r)), now, sinkOk).1
    ensures out.0.lastUpdateTime == Update(st.(remainingMs := Draw(r)), now, sinkOk).0.lastUpdateTime
    ensures out.0.bumpCount == st.bumpCount && out.0.retryCount == st.retryCount
    ensures Valid(st) && st.coolOffs == [] ==> Valid(out.0)
  {
    var interval := Draw(r);
    var (counting, shown) := StartCountdown(st, interval, now, sinkOk);
    (counting.(bumpTimeout := Some(interval)), shown)
  }

  /** What the bump timer's callback did: the `perform` it ran, the state it
      left, and the presence the new schedule showed, if one was made. */
  datatype FireResult = FireResult(perform: PerformResult, state: BotState, shown: Option<Clock>)

  /** The bump timer fires: `perform`, then either schedule the next bump at
      once (success) or arm a `CoolOffDelay` (5-minute) timer that schedules it
      later (failure). */
  function Fire(st: BotState, sendOk: nat -> bool, k: nat, r: real, now: int, sinkOk: bool): (out: FireResult)
    requires st.bumpTimeout.Some?
    requires 0.0 <= r < 1.0
    ensures out.perform == Perform(st.(bumpTimeout := None), sendOk, k)
    ensures out.perform.ok ==> out.state.bumpTimeout.Some? && out.state.coolOffs == st.coolOffs
    ensures !out.perform.ok ==>
      && out.state == out.perform.state.(coolOffs := st.coolOffs + [Config.CoolOffDelay])
      && out.state.bumpTimeout.None? && out.shown.None?
    ensures out.state.bumpCount == st.bumpCount + (if out.perform.ok then 1 else 0)
    ensures Valid(st) ==> Valid(out.state)
  {
    var p := Perform(st.(bumpTimeout := None), sendOk, k);
    if p.ok then
      var (next, shown) := Schedule(p.state, r, now, sinkOk);
      FireResult(p, next, shown)
    else FireResult(p, p.state.(coolOffs := p.state.coolOffs + [Config.CoolOffDelay]), None)
  }

  /** On success the bump timer's callback is exactly `schedule` on the state
      `perform` left: the next bump is scheduled at once. */
  lemma FireSchedulesOnSuccess(st: BotState, sendOk: nat -> bool, k: nat, r: real, now: int, sinkOk: bool)
    requires st.bumpTimeout.Some?
    requires 0.0 <= r < 1.0
    requires Fire(st, sendOk, k, r, now, sinkOk).perform.ok
    ensures var out := Fire(st, sendOk, k, r, now, sinkOk);
      (out.state, out.shown) == Schedule(out.perform.state, r, now, sinkOk)
  {
  }

  /** The oldest cool-off timer fires: schedule the next bump. */
  function CoolOffElapsed(st: BotState, r: real, now: int, sinkOk: bool): (out: (BotState, Option<Clock>))
    requires |st.coolOffs| > 0
    requires 0.0 <= r < 1.0
    ensures out.0.coolOffs == st.coolOffs[1..] && out.0.bumpTimeout == Some(Draw(r))
    ensures out == Schedule(st.(coolOffs := st.coolOffs[1..]), r, now, sinkOk)
    ensures Valid(st) ==> Valid(out.0)
  {
    Schedule(st.(coolOffs := st.coolOffs[1..]), r, now, sinkOk)
  }
}
