/** The monitor's arithmetic: how inactivity is measured against the threshold and
    when the monitor asks for a handover. */
module InactivityMonitor {
  import opened Wrappers
  import opened Handover

  datatype HandoverStatus = Normal | ReminderPhase | InGracePeriod | HandoverActive

  datatype ActivityStatus = ActivityStatus(
    inactivityDuration: int,
    thresholdPercentage: real,
    handoverStatus: HandoverStatus,
    timeRemaining: int)

  function Min(a: real, b: real): real {
    if a < b then a else b
  }

  function Max(a: int, b: int): int {
    if a > b then a else b
  }

  function RawPercentage(duration: int, thresholdMs: int): real
    requires thresholdMs > 0
  {
    duration as real / thresholdMs as real * 100.0
  }

  function CalculateThresholdPercentage(duration: int, thresholdMs: int): real
    requires thresholdMs > 0
  {
    Min(RawPercentage(duration, thresholdMs), 100.0)
  }

  function CalculateTimeRemaining(duration: int, thresholdMs: int): int {
    Max(0, thresholdMs - duration)
  }

  function DetermineHandoverStatus(duration: int, thresholdMs: int, active: Option<Status>): HandoverStatus
    requires thresholdMs > 0
  {
    if active == Some(GracePeriod) then InGracePeriod
    else if active in {Some(AwaitingSuccessors), Some(VerificationPending), Some(ReadyForTransfer)} then HandoverActive
    else
      var percentage := RawPercentage(duration, thresholdMs);
      if percentage >= 100.0 then InGracePeriod
      else if percentage >= 75.0 then ReminderPhase
      else Normal
  }

  function GetUserActivityStatus(duration: int, thresholdMs: int, active: Option<Status>): ActivityStatus
    requires thresholdMs > 0
  {
    ActivityStatus(
      duration,
      CalculateThresholdPercentage(duration, thresholdMs),
      DetermineHandoverStatus(duration, thresholdMs, active),
      CalculateTimeRemaining(duration, thresholdMs))
  }

  // Takes recorded downtime off the inactivity; the status is passed through.
  function AdjustForSystemDowntime(status: ActivityStatus, downtimeMs: int, thresholdMs: int): ActivityStatus
    requires thresholdMs > 0
  {
    if downtimeMs == 0 then status
    else
      var duration := Max(0, status.inactivityDuration - downtimeMs);
      status.(
        inactivityDuration := duration,
        thresholdPercentage := CalculateThresholdPercentage(duration, thresholdMs),
        timeRemaining := Max(0, thresholdMs - duration))
  }

  datatype Reaction = Initiate | NoReaction | FinalWarning | SecondReminder | FirstReminder

  function ProcessUserInactivity(status: ActivityStatus): Reaction {
    if status.thresholdPercentage >= 100.0 then
      if status.handoverStatus != InGracePeriod && status.handoverStatus != HandoverActive then Initiate else NoReaction
    else if status.thresholdPercentage >= 95.0 then FinalWarning
    else if status.thresholdPercentage >= 85.0 then SecondReminder
    else if status.thresholdPercentage >= 75.0 then FirstReminder
    else NoReaction
  }

  // What the monitor does for a user that is neither paused nor under maintenance.
  function CheckUserInactivity(duration: int, thresholdMs: int, active: Option<Status>, downtimeMs: int): Reaction
    requires thresholdMs > 0
  {
    ProcessUserInactivity(
      AdjustForSystemDowntime(GetUserActivityStatus(duration, thresholdMs, active), downtimeMs, thresholdMs))
  }

  lemma PercentageReaches(duration: int, thresholdMs: int, percent: int)
    requires thresholdMs > 0
    ensures RawPercentage(duration, thresholdMs) >= percent as real <==> duration * 100 >= percent * thresholdMs
  {
    var d, t := duration as real, thresholdMs as real;
    var q := d / t;
    assert q * t == d;
    if q * 100.0 >= percent as real {
      assert (q * 100.0) * t >= percent as real * t;
      assert (q * 100.0) * t == d * 100.0;
      assert (duration * 100) as real >= (percent * thresholdMs) as real;
    }
    if duration * 100 >= percent * thresholdMs {
      assert (duration * 100) as real >= (percent * thresholdMs) as real;
      assert d * 100.0 >= percent as real * t;
      if q * 100.0 < percent as real {
        assert (q * 100.0) * t < percent as real * t;
        assert (q * 100.0) * t == d * 100.0;
      }
    }
  }

  /** The percentage test is the millisecond test of the state machine. */
  lemma HundredPercentIsDue(s: State, user: UserId, downtime: nat, active: Option<Status>)
    requires user in s.users && user in s.lastCheckIn
    requires s.users[user].thresholdMs > 0 && s.users[user].lastActivity <= s.now
    ensures
      var t := s.users[user].thresholdMs;
      var status := GetUserActivityStatus(s.now - s.users[user].lastActivity, t, active);
      AdjustForSystemDowntime(status, downtime, t).thresholdPercentage >= 100.0 <==> Due(s, user, downtime)
  {
    var t := s.users[user].thresholdMs;
    PercentageReaches(AdjustedInactivity(s, user, downtime), t, 100);
    PercentageReaches(s.now - s.users[user].lastActivity, t, 100);
  }

  /** Exactly when the monitor initiates: no handover is active, the user is still
      under the threshold, and negative recorded downtime lifts it over. */
  lemma InitiatesIff(duration: int, thresholdMs: int, active: Option<Status>, downtimeMs: int)
    requires thresholdMs > 0
    requires active.Some? ==> Active(active.value)
    ensures CheckUserInactivity(duration, thresholdMs, active, downtimeMs) == Initiate
            <==> active == None && duration < thresholdMs <= duration - downtimeMs
  {
    PercentageReaches(duration, thresholdMs, 100);
    PercentageReaches(Max(0, duration - downtimeMs), thresholdMs, 100);
  }

  /** So with downtime records that end after they start the monitor never
      initiates a handover, however long the user is away. */
  lemma MonitorNeverInitiates(duration: int, thresholdMs: int, active: Option<Status>, downtimeMs: nat)
    requires thresholdMs > 0
    requires active.Some? ==> Active(active.value)
    ensures CheckUserInactivity(duration, thresholdMs, active, downtimeMs) != Initiate
  {
    InitiatesIff(duration, thresholdMs, active, downtimeMs);
  }

  /** The reaction depends on the adjusted inactivity alone: reminders in bands that begin at 75, 85 and
      95 percent of the threshold, and from the threshold on none any more. */
  lemma ReminderBands(duration: int, thresholdMs: int, active: Option<Status>, downtimeMs: nat)
    requires thresholdMs > 0 && (active.Some? ==> Active(active.value))
    ensures var d := if duration < downtimeMs then 0 else 100 * (duration - downtimeMs);
      CheckUserInactivity(duration, thresholdMs, active, downtimeMs) ==
        if d >= 100 * thresholdMs then NoReaction
        else if d >= 95 * thresholdMs then FinalWarning
        else if d >= 85 * thresholdMs then SecondReminder
        else if d >= 75 * thresholdMs then FirstReminder
        else NoReaction
  {
    MonitorNeverInitiates(duration, thresholdMs, active, downtimeMs);
    var d := if downtimeMs == 0 then duration else Max(0, duration - downtimeMs);
    PercentageReaches(d, thresholdMs, 100);
    PercentageReaches(d, thresholdMs, 95);
    PercentageReaches(d, thresholdMs, 85);
    PercentageReaches(d, thresholdMs, 75);
  }

  /** What a user's activity status says, in milliseconds: an active process decides the phase, without
      one the inactivity does; the time remaining completes the inactivity to the threshold. */
  lemma StatusInMilliseconds(duration: int, thresholdMs: int, active: Option<Status>)
    requires thresholdMs > 0 && (active.Some? ==> Active(active.value))
    ensures var status := GetUserActivityStatus(duration, thresholdMs, active);
      && (status.handoverStatus == InGracePeriod <==>
           active == Some(GracePeriod) || (active.None? && thresholdMs <= duration))
      && (status.handoverStatus == HandoverActive <==> active.Some? && active.value != GracePeriod)
      && (status.handoverStatus == ReminderPhase <==>
           active.None? && duration < thresholdMs && 75 * thresholdMs <= 100 * duration)
      && status.inactivityDuration == duration
      && (if duration < thresholdMs then status.timeRemaining + duration == thresholdMs else status.timeRemaining == 0)
      && (status.thresholdPercentage >= 100.0 <==> thresholdMs <= duration)
      && (duration < thresholdMs ==> status.thresholdPercentage * thresholdMs as real == 100.0 * duration as real)
  {
    PercentageReaches(duration, thresholdMs, 100);
    PercentageReaches(duration, thresholdMs, 75);
    var q := duration as real / thresholdMs as real;
    assert q * thresholdMs as real == duration as real;
    assert q * 100.0 * thresholdMs as real == 100.0 * (q * thresholdMs as real);
  }

  /** Recorded downtime counts as if it had not passed, except that the phase stays what it was. */
  lemma DowntimeTakenOff(duration: nat, thresholdMs: int, active: Option<Status>, downtimeMs: nat)
    requires thresholdMs > 0
    ensures var status := GetUserActivityStatus(duration, thresholdMs, active);
      var shorter := if duration < downtimeMs then 0 else duration - downtimeMs;
      AdjustForSystemDowntime(status, downtimeMs, thresholdMs)
      == GetUserActivityStatus(shorter, thresholdMs, active).(handoverStatus := status.handoverStatus)
  {
  }
}
