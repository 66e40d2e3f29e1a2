/**
 The handover protocol as a state machine: the rows it reads and writes, one
 function per orchestrator operation, and the events that drive it.
 */
module Handover {
  import opened Sequences
  import opened Wrappers

  type UserId = string
  type SuccessorId = string

  datatype Status =
    | GracePeriod
    | AwaitingSuccessors
    | VerificationPending
    | ReadyForTransfer
    | Completed
    | Cancelled
    | Expired

  predicate Active(status: Status) {
    status.GracePeriod? || status.AwaitingSuccessors? || status.VerificationPending? || status.ReadyForTransfer?
  }

  datatype Verdict = Pending | Verified | Declined

  datatype Notification = Notification(successor: SuccessorId, verdict: Verdict)

  // A handover row with the notification rows that refer to it. Its id is its
  // position in creation order.
  datatype Process = Process(
    user: UserId,
    status: Status,
    initiatedAt: int,
    graceEnds: int,
    notifications: seq<Notification>)

  datatype User = User(
    lastActivity: int,
    thresholdMs: int,
    requireMajority: bool,
    successors: seq<SuccessorId>)

  // History, for stating properties only: what held when a process was initiated.
  datatype Basis = Basis(lastCheckIn: int, thresholdMs: int, downtime: nat, majority: bool)

  datatype State = State(
    now: int,
    grace: nat,
    processes: seq<Process>,
    users: map<UserId, User>,
    bases: seq<Basis>,
    lastCheckIn: map<UserId, int>)

  // How many successors must accept before the vault is released.
  function ComputeThreshold(successorCount: nat, requireMajority: bool): nat {
    if successorCount <= 1 then successorCount
    else if requireMajority then successorCount / 2 + 1
    else if 2 < successorCount then 2 else successorCount
  }

  function Accepted(notifications: seq<Notification>): (n: nat)
    ensures n <= |notifications|
  {
    if notifications == [] then 0
    else (if notifications[0].verdict == Verified then 1 else 0) + Accepted(notifications[1..])
  }

  function Responded(notifications: seq<Notification>): (n: nat)
    ensures n <= |notifications|
  {
    if notifications == [] then 0
    else (if notifications[0].verdict != Pending then 1 else 0) + Responded(notifications[1..])
  }

  // The newest process of a user, optionally among active ones only.
  function Latest(processes: seq<Process>, user: UserId, activeOnly: bool): (r: Option<nat>)
    ensures r.Some? ==> r.value < |processes| && processes[r.value].user == user
    ensures r.Some? && activeOnly ==> Active(processes[r.value].status)
    ensures forall j :: (if r.Some? then r.value else -1) < j < |processes| && processes[j].user == user
                        ==> activeOnly && !Active(processes[j].status)
  {
    if processes == [] then None
    else
      var n := |processes| - 1;
      if processes[n].user == user && (activeOnly ==> Active(processes[n].status)) then Some(n)
      else Latest(processes[..n], user, activeOnly)
  }

  function RequireMajority(s: State, user: UserId): bool {
    user in s.users && s.users[user].requireMajority
  }

  function SuccessorsOf(s: State, user: UserId): seq<SuccessorId> {
    if user in s.users then s.users[user].successors else []
  }

  function SetStatus(s: State, id: nat, status: Status): State
    requires id < |s.processes|
  {
    s.(processes := s.processes[id := s.processes[id].(status := status)])
  }

  function Initiate(s: State, user: UserId, downtime: nat): State
    requires user in s.users && user in s.lastCheckIn
  {
    if Latest(s.processes, user, true).Some? then s
    else s.(
      processes := s.processes + [Process(user, GracePeriod, s.now, s.now + s.grace, [])],
      bases := s.bases +
        [Basis(s.lastCheckIn[user], s.users[user].thresholdMs, downtime, s.users[user].requireMajority)])
  }

  function Cancel(s: State, user: UserId): State {
    match Latest(s.processes, user, true)
    case None => s
    case Some(id) => SetStatus(s, id, Cancelled)
  }

  function RecordActivity(s: State, user: UserId): State {
    if user in s.users then s.(users := s.users[user := s.users[user].(lastActivity := s.now)]) else s
  }

  // A check-in or login: activity is recorded, then the active process is cancelled.
  function CheckIn(s: State, user: UserId): State {
    Cancel(RecordActivity(s, user).(lastCheckIn := s.lastCheckIn[user := s.now]), user)
  }

  function PendingRows(successors: seq<SuccessorId>): (rows: seq<Notification>)
    ensures |rows| == |successors|
    ensures forall i :: 0 <= i < |rows| ==> rows[i] == Notification(successors[i], Pending)
  {
    seq(|successors|, i requires 0 <= i < |successors| => Notification(successors[i], Pending))
  }

  function ExpireGrace(s: State, id: nat): State {
    if id >= |s.processes| || s.processes[id].status != GracePeriod then s
    else
      var p := s.processes[id];
      var rows := if p.notifications == [] then PendingRows(SuccessorsOf(s, p.user)) else p.notifications;
      s.(processes := s.processes[id := p.(status := AwaitingSuccessors, notifications := rows)])
  }

  function SetVerdict(notifications: seq<Notification>, successor: SuccessorId, verdict: Verdict)
      : (r: seq<Notification>)
    ensures |r| == |notifications|
    ensures forall i :: 0 <= i < |r| ==>
      r[i] == if notifications[i].successor == successor then Notification(successor, verdict) else notifications[i]
  {
    seq(|notifications|, i requires 0 <= i < |notifications| =>
      if notifications[i].successor == successor then Notification(successor, verdict) else notifications[i])
  }

  predicate Notified(notifications: seq<Notification>, successor: SuccessorId) {
    exists i :: 0 <= i < |notifications| && notifications[i].successor == successor
  }

  // The status once a response has been stored.
  function AfterResponse(status: Status, notifications: seq<Notification>, majority: bool): Status {
    var accepted, total := Accepted(notifications), |notifications|;
    var threshold := ComputeThreshold(total, majority);
    if accepted >= threshold && threshold > 0 then Completed
    else if Responded(notifications) == total && accepted < threshold then Expired
    else status
  }

  datatype Outcome = UnknownProcess | Ignored | NotNotified | Recorded

  function ResponseOutcome(s: State, id: nat, successor: SuccessorId): Outcome {
    if id >= |s.processes| then UnknownProcess
    else if !Active(s.processes[id].status) then Ignored
    else if !Notified(s.processes[id].notifications, successor) then NotNotified
    else Recorded
  }

  function Respond(s: State, id: nat, successor: SuccessorId, accepted: bool): State {
    if ResponseOutcome(s, id, successor) != Recorded then s
    else
      var p := s.processes[id];
      var rows := SetVerdict(p.notifications, successor, if accepted then Verified else Declined);
      var status := AfterResponse(p.status, rows, RequireMajority(s, p.user));
      s.(processes := s.processes[id := p.(status := status, notifications := rows)])
  }

  predicate HasAccepted(notifications: seq<Notification>, successor: SuccessorId) {
    exists i :: 0 <= i < |notifications| && notifications[i] == Notification(successor, Verified)
  }

  // The inactivity the monitor measures, recorded downtime taken off.
  function AdjustedInactivity(s: State, user: UserId, downtime: nat): int
    requires user in s.users
  {
    var d := s.now - s.users[user].lastActivity - downtime;
    if d < 0 then 0 else d
  }

  predicate Due(s: State, user: UserId, downtime: nat) {
    user in s.users && user in s.lastCheckIn && AdjustedInactivity(s, user, downtime) >= s.users[user].thresholdMs
  }

  // The newest process still stands: it is active, or it released the vault.
  predicate Open(s: State, user: UserId) {
    match Latest(s.processes, user, false)
    case None => false
    case Some(id) => s.processes[id].status !in {Cancelled, Expired}
  }

  datatype Event =
    | Tick(ms: nat)
    | Register(user: UserId)
    | Activity(user: UserId)
    | UserCheckIn(user: UserId)
    | UserCancel(user: UserId)
    | MonitorInitiate(user: UserId, downtime: nat)
    | MonitorExpire(id: nat)
    | SuccessorResponse(id: nat, successor: SuccessorId, accepted: bool)
    | SetThreshold(user: UserId, thresholdMs: int)
    | SetMajority(user: UserId, majority: bool)
    | SetSuccessors(user: UserId, successors: seq<SuccessorId>)

  const DAY_MS: int := 24 * 60 * 60 * 1000
  const DEFAULT_THRESHOLD_MS: int := 90 * DAY_MS

  // Majority rule and successors stay put while a process is open.
  predicate Enabled(s: State, e: Event) {
    match e
    case Tick(_) => true
    case Register(u) => u !in s.users
    case Activity(u) => u in s.users
    case UserCheckIn(u) => u in s.users
    case UserCancel(u) => u in s.users
    case MonitorInitiate(u, downtime) => Due(s, u, downtime)
    case MonitorExpire(id) =>
      id < |s.processes| && s.processes[id].status == GracePeriod && s.processes[id].graceEnds <= s.now
    case SuccessorResponse(_, _, _) => true
    case SetThreshold(u, t) => u in s.users && t > 0
    case SetMajority(u, _) => u in s.users && !Open(s, u)
    case SetSuccessors(u, successors) => u in s.users && !Open(s, u) && Distinct(successors)
  }

  function Next(s: State, e: Event): State
    requires Enabled(s, e)
  {
    match e
    case Tick(ms) => s.(now := s.now + ms)
    case Register(u) =>
      s.(users := s.users[u := User(s.now, DEFAULT_THRESHOLD_MS, false, [])], lastCheckIn := s.lastCheckIn[u := s.now])
    case Activity(u) => RecordActivity(s, u)
    case UserCheckIn(u) => CheckIn(s, u)
    case UserCancel(u) => Cancel(s, u)
    case MonitorInitiate(u, downtime) => Initiate(s, u, downtime)
    case MonitorExpire(id) => ExpireGrace(s, id)
    case SuccessorResponse(id, successor, accepted) => Respond(s, id, successor, accepted)
    case SetThreshold(u, t) => s.(users := s.users[u := s.users[u].(thresholdMs := t)])
    case SetMajority(u, majority) => s.(users := s.users[u := s.users[u].(requireMajority := majority)])
    case SetSuccessors(u, successors) => s.(users := s.users[u := s.users[u].(successors := successors)])
  }

  function Init(start: int, grace: nat): State {
    State(start, grace, [], map[], [], map[])
  }

  // states[i + 1] follows states[i] by events[i], from an empty database.
  ghost predicate Run(states: seq<State>, events: seq<Event>) {
    && |states| == |events| + 1
    && states[0] == Init(states[0].now, states[0].grace)
    && forall i :: 0 <= i < |events| ==> Enabled(states[i], events[i]) && states[i + 1] == Next(states[i], events[i])
  }

  datatype Decision = Decision(
    allowed: bool,
    status: Option<Status>,
    acceptedCount: nat,
    threshold: nat,
    totalNotified: nat)

  // The access decision for a successor whose e-mail address is already verified.
  function AccessDecision(s: State, user: UserId, successor: SuccessorId): Decision {
    match Latest(s.processes, user, false)
    case None => Decision(false, None, 0, 0, 0)
    case Some(id) =>
      var p := s.processes[id];
      if p.status !in {AwaitingSuccessors, VerificationPending, ReadyForTransfer, Completed} then
        Decision(false, Some(p.status), 0, 0, 0)
      else
        var total, accepted := |p.notifications|, Accepted(p.notifications);
        var threshold := ComputeThreshold(total, RequireMajority(s, user));
        var allowed := HasAccepted(p.notifications, successor) && accepted >= threshold;
        Decision(allowed, Some(p.status), accepted, threshold, total)
  }
}
