/** The `!status` command: who may use it, the per-user cooldown that
    non-administrators are held to, and the answer it gives. Discord lookups
    (channel permissions, the member, their roles) arrive as parameters. */
module CommandHandler {
  import opened Wrappers
  import opened JsText
  import opened AppState
  import opened StatusManager
  import Config

  /** The member who sent the message, as far as the command needs to know them. */
  datatype Member = Member(isAdmin: bool, roles: set<string>)

  /** The answer to a message. */
  datatype Reply =
    | Ignored                              // not the status command
    | NoChannelAccess                      // cannot view or send in the channel
    | NoMember                             // the member could not be fetched
    | PermissionDenied                     // told so by direct message
    | Wait(seconds: int)                   // still in the cooldown
    | Status(bumps: int, clock: Clock)     // the status report

  /** Administrators and holders of the configured role may use the command. */
  function HasPermission(m: Member, roleId: string): (allowed: bool)
    ensures m.isAdmin ==> allowed
    ensures !m.isAdmin ==> (allowed <==> roleId in m.roles)
  {
    m.isAdmin || roleId in m.roles
  }

  /** The seconds a non-administrator still has to wait, or `None` when they
      may go ahead. A recorded time of 0 counts as no record, as it is falsy. */
  function CooldownWait(cooldowns: map<string, int>, author: string, now: int): (w: Option<int>)
    ensures w.Some? <==> author in cooldowns && cooldowns[author] != 0
                         && now - cooldowns[author] < Config.CommandCooldown
    ensures w.Some? ==> w.value >= 1
    ensures w.Some? && now >= cooldowns[author] ==> w.value <= Config.CommandCooldown / 1000
    ensures w.Some? ==>
      (w.value - 1) * 1000 < Config.CommandCooldown - (now - cooldowns[author]) <= w.value * 1000
  {
    if author in cooldowns && cooldowns[author] != 0
       && now - cooldowns[author] < Config.CommandCooldown
    then Some(CeilDiv(Config.CommandCooldown - (now - cooldowns[author]), 1000))
    else None
  }

  /** `commandHandler.handleStatus` for a message with text `content` from
      `author`, at time `now`. Returns the reply and the cooldown map after it:
      only a non-administrator who gets the status report has `now` recorded. */
  function HandleStatus(st: BotState, content: string, canReply: bool, member: Option<Member>,
                        author: string, roleId: string, cooldowns: map<string, int>, now: int)
    : (r: (Reply, map<string, int>))
    ensures content != Config.StatusCommand ==> r == (Ignored, cooldowns)
    ensures r.1 != cooldowns ==> r.0.Status? && r.1 == cooldowns[author := now]
    ensures r.0.Status? || r.0.Wait? ==>
      content == Config.StatusCommand && canReply && member.Some? && HasPermission(member.value, roleId)
    ensures r.0.Status? ==> r.0.bumps == st.bumpCount && r.0.clock == ClockOf(st.remainingMs)
    ensures r.0.Status? && !member.value.isAdmin ==> r.1 == cooldowns[author := now]
    ensures r.0.Wait? ==> !member.value.isAdmin && CooldownWait(cooldowns, author, now) == Some(r.0.seconds)
    ensures content == Config.StatusCommand && canReply && member.Some? && member.value.isAdmin ==>
      r == (Status(st.bumpCount, ClockOf(st.remainingMs)), cooldowns)
    ensures content == Config.StatusCommand && canReply && member.Some?
            && HasPermission(member.value, roleId) && !member.value.isAdmin ==>
      r == (match CooldownWait(cooldowns, author, now)
            case Some(w) => (Wait(w), cooldowns)
            case None => (Status(st.bumpCount, ClockOf(st.remainingMs)), cooldowns[author := now]))
    ensures content == Config.StatusCommand && !canReply ==> r == (NoChannelAccess, cooldowns)
    ensures content == Config.StatusCommand && canReply && member.None? ==> r == (NoMember, cooldowns)
    ensures content == Config.StatusCommand && canReply && member.Some? && !HasPermission(member.value, roleId) ==>
      r == (PermissionDenied, cooldowns)
  {
    if content != Config.StatusCommand then (Ignored, cooldowns)
    else if !canReply then (NoChannelAccess, cooldowns)
    else if member.None? then (NoMember, cooldowns)
    else
      var m := member.value;
      if !HasPermission(m, roleId) then (PermissionDenied, cooldowns)
      else
        var report := Status(st.bumpCount, ClockOf(st.remainingMs));
        if m.isAdmin then (report, cooldowns)
        else
          match CooldownWait(cooldowns, author, now)
          case Some(seconds) => (Wait(seconds), cooldowns)
          case None => (report, cooldowns[author := now])
  }

  /** After a non-administrator's report at `now` (a non-zero time), the same
      user is told to wait between 1 and 60 seconds until `now + 60000`, and
      gets the report again from then on. */
  lemma CooldownHoldsOneMinute(st: BotState, roleId: string, m: Member, author: string,
                               cooldowns: map<string, int>, now: int, later: int)
    requires HasPermission(m, roleId) && !m.isAdmin && now != 0
    requires HandleStatus(st, Config.StatusCommand, true, Some(m), author, roleId, cooldowns, now).0.Status?
    requires now <= later
    ensures var after := HandleStatus(st, Config.StatusCommand, true, Some(m), author, roleId, cooldowns, now).1;
      var again := HandleStatus(st, Config.StatusCommand, true, Some(m), author, roleId, after, later).0;
      && (later < now + Config.CommandCooldown ==>
            again.Wait? && 1 <= again.seconds <= 60
            && again.seconds == CeilDiv(Config.CommandCooldown - (later - now), 1000))
      && (later >= now + Config.CommandCooldown ==> again.Status?)
  {
  }
}
