/** The program's mutable `state` record, as an immutable value that every
    operation of the model takes and returns. */
module AppState {
  import opened Wrappers
  import Config

  /** The fields of `state`, with the timer handles replaced by what they stand for.
      - `remainingMs` is `state.remainingTime` in milliseconds: the program holds
        seconds, possibly fractional, that always come from a whole number of
        milliseconds divided by 1000.
      - `countdownActive` is `state.countdownInterval !== null`; `liveCountdowns`
        counts the countdown intervals the runtime is actually running.
      - `bumpTimeout` is the one-shot bump timer still waiting to fire, with its delay.
      - `coolOffs` holds the delays of the untracked one-shot timers armed after
        a failed bump, oldest first; each one schedules the next bump when it fires. */
  datatype BotState = BotState(
    bumpCount: int,
    remainingMs: int,
    countdownActive: bool,
    liveCountdowns: int,
    lastUpdateTime: int,
    isBumping: bool,
    bumpTimeout: Option<int>,
    coolOffs: seq<int>,
    retryCount: nat,
    maxRetries: nat)

  /** What holds of `state` whenever no handler is running: the countdown is
      never negative, the retry counter stays within its ceiling, no bump is
      in progress, the countdown handle matches the one interval the runtime
      runs, and at most one route to the next bump is pending. */
  predicate Valid(st: BotState) {
    && st.remainingMs >= 0
    && st.retryCount <= st.maxRetries
    && !st.isBumping
    && st.liveCountdowns == (if st.countdownActive then 1 else 0)
    && (st.coolOffs == [] || st.coolOffs == [Config.CoolOffDelay])
    && (st.bumpTimeout.Some? ==> st.coolOffs == [])
  }

  /** Exactly one route to the next bump is pending: the bump timer or a
      cool-off timer. The bot keeps bumping only while this holds. */
  predicate Armed(st: BotState) {
    st.bumpTimeout.Some? != (st.coolOffs != [])
  }

  /** The record the program starts from. */
  function Init(): (st: BotState)
    ensures Valid(st)
    ensures st.bumpCount == 0 && st.remainingMs == 0 && st.retryCount == 0 && st.lastUpdateTime == 0
    ensures st.maxRetries == Config.MaxRetries
    ensures !st.countdownActive && st.bumpTimeout.None? && st.coolOffs == []
  {
    BotState(
      bumpCount := 0,
      remainingMs := 0,
      countdownActive := false,
      liveCountdowns := 0,
      lastUpdateTime := 0,
      isBumping := false,
      bumpTimeout := None,
      coolOffs := [],
      retryCount := 0,
      maxRetries := Config.MaxRetries)
  }
}
