/** The program's fixed configuration (the `CONFIG` object and the literal
    delays written inline). All durations are in milliseconds. */
module Config {

  /** Minimum time between two presence updates (10 minutes). */
  const StatusCooldown: int := 600000

  /** Bounds of the random interval between two bumps (2 h and 2.5 h). */
  const BumpMinInterval: int := 7200000
  const BumpMaxInterval: int := 9000000

  /** Minimum time between two `!status` commands of one non-admin user (1 minute). */
  const CommandCooldown: int := 60000

  /** Base of the exponential backoff after a failed send (5 seconds). */
  const RetryDelay: int := 5000

  /** Initial value of `state.maxRetries`. */
  const MaxRetries: int := 3

  /** Delay before a new schedule after `perform` reported failure (5 minutes). */
  const CoolOffDelay: int := 300000

  /** Delay before the process exits when the bump channel cannot be set up (5 minutes). */
  const RestartDelay: int := 300000

  /** Period of the countdown interval (one second). */
  const TickPeriod: int := 1000

  /** The text command the status handler answers. */
  const StatusCommand: string := "!status"
}
