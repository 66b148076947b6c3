/** The program as a whole after login: the `ready` handler, then any order
    of the three timer callbacks the runtime may deliver. Every callback runs
    to completion before the next one starts. */
module Scheduler {
  import opened Wrappers
  import opened AppState
  import opened DataHandler
  import opened StatusManager
  import opened BumpManager
  import Config

  /** A timer callback together with the oracle values it consumes:
      `sendOk`/`k` for the bump command, `r` for `Math.random()`, `now` for
      `Date.now()`, `sinkOk` for the presence sink. */
  datatype Event =
    | CountdownTick(now: int, sinkOk: bool)
    | BumpTimerFires(sendOk: nat -> bool, k: nat, r: real, now: int, sinkOk: bool)
    | CoolOffFires(r: real, now: int, sinkOk: bool)

  /** An event can happen only while its timer is armed (and `r` is a value `Math.random()` returns). */
  predicate Enabled(st: BotState, e: Event) {
    match e
    case CountdownTick(_, _) => st.countdownActive
    case BumpTimerFires(_, _, r, _, _) => st.bumpTimeout.Some? && 0.0 <= r < 1.0
    case CoolOffFires(r, _, _) => |st.coolOffs| > 0 && 0.0 <= r < 1.0
  }

  /** The state after one callback. A countdown tick never touches the counter;
      a bump firing adds at most one. */
  function Step(st: BotState, e: Event): (next: BotState)
    requires Enabled(st, e)
    ensures st.bumpCount <= next.bumpCount <= st.bumpCount + 1
    ensures e.CountdownTick? || e.CoolOffFires? ==> next.bumpCount == st.bumpCount
  {
    match e
    case CountdownTick(now, sinkOk) => Tick(st, now, sinkOk).0
    case BumpTimerFires(sendOk, k, r, now, sinkOk) => Fire(st, sendOk, k, r, now, sinkOk).state
    case CoolOffFires(r, now, sinkOk) => CoolOffElapsed(st, r, now, sinkOk).0
  }

  /** Every callback keeps the state valid. */
  lemma StepKeepsValid(st: BotState, e: Event)
    requires Valid(st) && Enabled(st, e)
    ensures Valid(Step(st, e))
  {
    match e
    case CountdownTick(now, sinkOk) =>
    case BumpTimerFires(sendOk, k, r, now, sinkOk) =>
    case CoolOffFires(r, now, sinkOk) =>
  }

  /** Every callback leaves the next bump armed: a firing bump timer is
      replaced by a new one or by a cool-off, and a firing cool-off by a bump timer. */
  lemma StepKeepsArmed(st: BotState, e: Event)
    requires Valid(st) && Armed(st) && Enabled(st, e)
    ensures Armed(Step(st, e))
  {
  }

  /** The state after a run of callbacks; callbacks whose timer is not armed do not happen. */
  function Run(st: BotState, events: seq<Event>): BotState
    decreases |events|
  {
    if |events| == 0 then st
    else Run(if Enabled(st, events[0]) then Step(st, events[0]) else st, events[1..])
  }

  /** A valid state stays valid through any run, and the bump counter never goes down. */
  lemma {:induction false} RunKeepsValid(st: BotState, events: seq<Event>)
    requires Valid(st)
    ensures Valid(Run(st, events))
    ensures st.bumpCount <= Run(st, events).bumpCount <= st.bumpCount + |events|
    decreases |events|
  {
    if |events| > 0 {
      var next := if Enabled(st, events[0]) then Step(st, events[0]) else st;
      if Enabled(st, events[0]) {
        StepKeepsValid(st, events[0]);
      }
      RunKeepsValid(next, events[1..]);
    }
  }

  /** Through any run of callbacks, a valid state with the next bump armed
      keeps it armed: the bot never stops bumping. */
  lemma {:induction false} RunKeepsArmed(st: BotState, events: seq<Event>)
    requires Valid(st) && Armed(st)
    ensures Armed(Run(st, events))
    decreases |events|
  {
    if |events| > 0 {
      var next := if Enabled(st, events[0]) then Step(st, events[0]) else st;
      if Enabled(st, events[0]) {
        StepKeepsValid(st, events[0]);
        StepKeepsArmed(st, events[0]);
      }
      RunKeepsArmed(next, events[1..]);
    }
  }

  /** How the `ready` handler ends: with the bot running, or with the process
      set to exit (to be restarted) after a delay. */
  datatype Startup = Running(state: BotState) | Exiting(state: BotState, delay: int)

  /** The `ready` handler: load the saved data, then, if the bump channel is
      configured and found, bump once, schedule the next bump whatever the
      outcome, and update the presence; otherwise exit after 5 minutes.
      The presence update inside `schedule` happens at `now` with outcome
      `sinkOk`, the trailing one at `later` with outcome `laterOk`. */
  function Ready(st: BotState, file: Option<string>, channelFound: bool,
                 sendOk: nat -> bool, k: nat, r: real, now: int, sinkOk: bool,
                 later: int, laterOk: bool): (out: Startup)
    requires 0.0 <= r < 1.0
    ensures !channelFound <==> out.Exiting?
    ensures out.Exiting? ==> out.state == Load(st, file) && out.delay == Config.RestartDelay
    ensures out.Running? ==> out.state.countdownActive && out.state.bumpTimeout.Some?
    ensures out.Running? ==>
      out.state.bumpCount == Load(st, file).bumpCount + (if Perform(Load(st, file), sendOk, k).ok then 1 else 0)
    ensures var scheduled := Schedule(Perform(Load(st, file), sendOk, k).state, r, now, sinkOk).0;
      out.Running? ==>
        && out.state == scheduled.(lastUpdateTime := out.state.lastUpdateTime)
        && (later - scheduled.lastUpdateTime < Config.StatusCooldown ==> out.state == scheduled)
        && (later - scheduled.lastUpdateTime >= Config.StatusCooldown && laterOk ==>
              out.state.lastUpdateTime == later)
    ensures Valid(st) && st.coolOffs == [] ==> Valid(out.state)
    ensures out.Running? && st.coolOffs == [] ==> Armed(out.state)
  {
    var loaded := Load(st, file);
    if !channelFound then Exiting(loaded, Config.RestartDelay)
    else
      var bumped := Perform(loaded, sendOk, k).state;
      var (scheduled, _) := Schedule(bumped, r, now, sinkOk);
      Running(Update(scheduled, later, laterOk).0)
  }

  /** When the presence set inside `schedule` is rejected, the trailing update
      of the `ready` handler sets it and records its own time. */
  lemma ReadyRetriesRejectedPresence(file: Option<string>, sendOk: nat -> bool, k: nat, r: real,
                                     now: int, later: int)
    requires 0.0 <= r < 1.0
    requires Config.StatusCooldown <= now <= later
    ensures Ready(Init(), file, true, sendOk, k, r, now, false, later, true).state.lastUpdateTime == later
  {
  }

  /** From the initial state, whatever the saved file and the outcome of the
      first bump, every run after a successful start keeps the state valid and
      the next bump armed. */
  lemma StartedBotStaysValid(file: Option<string>, sendOk: nat -> bool, k: nat, r: real, now: int,
                             sinkOk: bool, later: int, laterOk: bool, events: seq<Event>)
    requires 0.0 <= r < 1.0
    ensures Ready(Init(), file, true, sendOk, k, r, now, sinkOk, later, laterOk).Running?
    ensures Valid(Run(Ready(Init(), file, true, sendOk, k, r, now, sinkOk, later, laterOk).state, events))
    ensures Armed(Run(Ready(Init(), file, true, sendOk, k, r, now, sinkOk, later, laterOk).state, events))
  {
    var started := Ready(Init(), file, true, sendOk, k, r, now, sinkOk, later, laterOk).state;
    RunKeepsValid(started, events);
    RunKeepsArmed(started, events);
  }
}
