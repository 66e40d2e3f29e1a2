/** Invariants of the handover state machine and what follows for whole runs. */
module HandoverProofs {
  import opened Sequences
  import opened Wrappers
  import opened Handover

  function Threshold(s: State, id: nat): nat
    requires id < |s.processes| && |s.bases| == |s.processes|
  {
    ComputeThreshold(|s.processes[id].notifications|, s.bases[id].majority)
  }

  ghost predicate NoRepeats(rows: seq<Notification>) {
    DistinctBy(rows, (row: Notification) => row.successor)
  }

  ghost predicate SomePending(rows: seq<Notification>) {
    exists i :: 0 <= i < |rows| && rows[i].verdict == Pending
  }

  /** K-of-N counting: what each status says about the notification rows, where
      threshold is the number of acceptances that releases the vault. */
  ghost predicate Counted(p: Process, threshold: nat) {
    && NoRepeats(p.notifications)
    && (p.status == GracePeriod ==> p.notifications == [])
    && p.status != VerificationPending && p.status != ReadyForTransfer
    && (p.status == AwaitingSuccessors && p.notifications != [] ==>
          Accepted(p.notifications) < threshold && SomePending(p.notifications))
    && (p.status == Completed ==> Accepted(p.notifications) == threshold > 0)
    && (p.status == Cancelled && p.notifications != [] ==> Accepted(p.notifications) < threshold)
    && (p.status == Expired ==>
          && p.notifications != [] && Responded(p.notifications) == |p.notifications|
          && Accepted(p.notifications) < threshold)
  }

  // What the clock says about a process and its basis.
  ghost predicate Timed(s: State, p: Process, b: Basis) {
    && b.lastCheckIn + b.thresholdMs + b.downtime <= p.initiatedAt <= s.now
    && p.graceEnds == p.initiatedAt + s.grace
    && (p.status !in {GracePeriod, Cancelled} ==> p.graceEnds <= s.now)
    && (Active(p.status) ==> p.user in s.lastCheckIn && s.lastCheckIn[p.user] == b.lastCheckIn)
  }

  ghost predicate UserValid(s: State, u: UserId)
    requires u in s.users
  {
    && u in s.lastCheckIn && s.lastCheckIn[u] <= s.users[u].lastActivity <= s.now
    && s.users[u].thresholdMs > 0
    && Distinct(s.users[u].successors)
  }

  // A process that is not the newest of its user is over.
  ghost predicate OnlyNewestActive(s: State) {
    forall i, j ::
      0 <= i < j < |s.processes| && s.processes[i].user == s.processes[j].user ==> !Active(s.processes[i].status)
  }

  ghost predicate ProcessValid(s: State, id: nat)
    requires id < |s.processes| && |s.bases| == |s.processes|
  {
    && s.processes[id].user in s.users
    && Counted(s.processes[id], Threshold(s, id))
    && Timed(s, s.processes[id], s.bases[id])
  }

  // While the newest process is open, the majority rule is the one it began with.
  ghost predicate Settled(s: State, id: nat)
    requires id < |s.processes| && |s.bases| == |s.processes|
  {
    (forall j :: id < j < |s.processes| ==> s.processes[j].user != s.processes[id].user)
    && s.processes[id].status !in {Cancelled, Expired}
    ==> RequireMajority(s, s.processes[id].user) == s.bases[id].majority
  }

  ghost predicate Invariant(s: State) {
    && |s.bases| == |s.processes| && s.lastCheckIn.Keys == s.users.Keys
    && (forall u :: u in s.users ==> UserValid(s, u))
    && OnlyNewestActive(s)
    && (forall id :: 0 <= id < |s.processes| ==> ProcessValid(s, id))
    && (forall id :: 0 <= id < |s.processes| ==> Settled(s, id))
  }

  lemma {:induction false} VerdictCounts(rows: seq<Notification>, successor: SuccessorId, verdict: Verdict)
    requires NoRepeats(rows) && verdict != Pending
    ensures Accepted(SetVerdict(rows, successor, verdict)) <= Accepted(rows) + 1
    ensures !Notified(rows, successor) ==> SetVerdict(rows, successor, verdict) == rows
  {
    if rows != [] {
      var after := SetVerdict(rows, successor, verdict);
      assert after[1..] == SetVerdict(rows[1..], successor, verdict);
      VerdictCounts(rows[1..], successor, verdict);
      if rows[0].successor == successor {
        forall i | 0 <= i < |rows| - 1
          ensures rows[1..][i].successor != successor
        {
          assert rows[1..][i] == rows[i + 1];
        }
      }
    }
  }

  lemma {:induction false} AllResponded(rows: seq<Notification>)
    ensures Responded(rows) == |rows| <==> !SomePending(rows)
  {
    if rows != [] {
      AllResponded(rows[1..]);
      if rows[0].verdict != Pending {
        if SomePending(rows) {
          var i :| 0 <= i < |rows| && rows[i].verdict == Pending;
          assert rows[1..][i - 1] == rows[i];
        }
        if SomePending(rows[1..]) {
          var i :| 0 <= i < |rows| - 1 && rows[1..][i].verdict == Pending;
          assert rows[i + 1].verdict == Pending;
        }
      }
    }
  }

  lemma {:induction false} NoneAccepted(rows: seq<Notification>)
    requires forall i :: 0 <= i < |rows| ==> rows[i].verdict == Pending
    ensures Accepted(rows) == 0
  {
    if rows != [] {
      NoneAccepted(rows[1..]);
    }
  }

  // One response keeps the counts in order.
  lemma ResponseCounted(p: Process, successor: SuccessorId, accepted: bool, majority: bool)
    requires Counted(p, ComputeThreshold(|p.notifications|, majority))
    requires Active(p.status) && Notified(p.notifications, successor)
    ensures
      var rows := SetVerdict(p.notifications, successor, if accepted then Verified else Declined);
      Counted(p.(notifications := rows, status := AfterResponse(p.status, rows, majority)),
              ComputeThreshold(|rows|, majority))
  {
    var verdict := if accepted then Verified else Declined;
    var rows := SetVerdict(p.notifications, successor, verdict);
    VerdictCounts(p.notifications, successor, verdict);
    AllResponded(rows);
    assert p.notifications != [];
  }

  lemma OpenLatest(s: State, id: nat)
    requires Invariant(s) && id < |s.processes|
    requires Active(s.processes[id].status)
    ensures RequireMajority(s, s.processes[id].user) == s.bases[id].majority
  {
    assert Settled(s, id);
  }

  lemma RespondInvariant(s: State, id: nat, successor: SuccessorId, accepted: bool)
    requires Invariant(s)
    ensures Invariant(Respond(s, id, successor, accepted))
  {
    if ResponseOutcome(s, id, successor) == Recorded {
      var t := Respond(s, id, successor, accepted);
      OpenLatest(s, id);
      assert ProcessValid(s, id);
      ResponseCounted(s.processes[id], successor, accepted, s.bases[id].majority);
      assert ProcessValid(t, id);
      Untouched(s, t, id);
    }
  }

  // Changing one active process leaves every other clause of the invariant alone.
  lemma Untouched(s: State, t: State, id: nat)
    requires Invariant(s) && id < |s.processes|
    requires Active(s.processes[id].status)
    requires |t.processes| == |s.processes|
    requires t == s.(processes := s.processes[id := t.processes[id]])
    requires t.processes[id].user == s.processes[id].user
    requires ProcessValid(t, id)
    ensures Invariant(t)
  {
    forall i | 0 <= i < |t.processes|
      ensures ProcessValid(t, i) && Settled(t, i)
    {
      assert ProcessValid(s, i) && Settled(s, i);
      if i != id {
        assert t.processes[i] == s.processes[i];
        if forall j :: i < j < |t.processes| ==> t.processes[j].user != t.processes[i].user {
          forall j | i < j < |s.processes|
            ensures s.processes[j].user != s.processes[i].user
          {
            assert t.processes[j].user != t.processes[i].user;
          }
        }
      }
    }
    forall u | u in t.users
      ensures UserValid(t, u)
    {
      assert UserValid(s, u);
    }
  }

  lemma ExpireInvariant(s: State, id: nat)
    requires Invariant(s) && Enabled(s, MonitorExpire(id))
    ensures Invariant(ExpireGrace(s, id))
  {
    var t := ExpireGrace(s, id);
    assert ProcessValid(s, id);
    var rows := t.processes[id].notifications;
    NoneAccepted(rows);
    assert UserValid(s, s.processes[id].user);
    assert rows != [] ==> rows[0].verdict == Pending;
    assert ProcessValid(t, id);
    Untouched(s, t, id);
  }

  lemma CancelInvariant(s: State, user: UserId)
    requires Invariant(s)
    ensures Invariant(Cancel(s, user))
  {
    match Latest(s.processes, user, true)
    case None =>
    case Some(id) =>
      assert ProcessValid(s, id);
      assert ProcessValid(Cancel(s, user), id);
      Untouched(s, Cancel(s, user), id);
  }

  // Nothing of the user is active once its active process is cancelled.
  lemma CancelClears(s: State, user: UserId, id: nat)
    requires Invariant(s) && id < |s.processes| && s.processes[id].user == user
    ensures !Active(Cancel(s, user).processes[id].status)
  {
    var latest := Latest(s.processes, user, true);
    assert latest.Some? && id < latest.value ==> !Active(s.processes[id].status);
  }

  lemma CheckInInvariant(s: State, user: UserId)
    requires Invariant(s) && user in s.users
    ensures Invariant(CheckIn(s, user))
  {
    var c, t := Cancel(s, user), CheckIn(s, user);
    CancelInvariant(s, user);
    forall id | 0 <= id < |c.processes| && c.processes[id].user == user
      ensures !Active(c.processes[id].status)
    {
      CancelClears(s, user, id);
    }
    CancelOnly(s, user);
    SeenNow(c, t, user);
  }

  lemma CancelOnly(s: State, user: UserId)
    requires user in s.users
    ensures var c, t := Cancel(s, user), CheckIn(s, user);
      && c == s.(processes := c.processes) && t.processes == c.processes
      && t == c.(users := c.users[user := c.users[user].(lastActivity := c.now)],
                 lastCheckIn := c.lastCheckIn[user := c.now])
  {
  }

  // A user without active process is seen: nothing else depends on when that was.
  lemma SeenNow(s: State, t: State, user: UserId)
    requires Invariant(s) && user in s.users
    requires forall id :: 0 <= id < |s.processes| && s.processes[id].user == user ==> !Active(s.processes[id].status)
    requires t == s.(users := s.users[user := s.users[user].(lastActivity := s.now)],
                     lastCheckIn := s.lastCheckIn[user := s.now])
    ensures Invariant(t)
  {
    forall u | u in t.users
      ensures UserValid(t, u)
    {
      assert UserValid(s, u);
    }
    forall id | 0 <= id < |t.processes|
      ensures ProcessValid(t, id) && Settled(t, id)
    {
      assert ProcessValid(s, id) && Settled(s, id);
      assert RequireMajority(t, s.processes[id].user) == RequireMajority(s, s.processes[id].user);
    }
  }

  lemma InitiateInvariant(s: State, user: UserId, downtime: nat)
    requires Invariant(s) && Due(s, user, downtime)
    ensures Invariant(Initiate(s, user, downtime))
  {
    var t := Initiate(s, user, downtime);
    if t != s {
      var n := |s.processes|;
      assert UserValid(s, user);
      forall id | 0 <= id < |t.processes|
        ensures ProcessValid(t, id) && Settled(t, id)
      {
        if id < n {
          assert ProcessValid(s, id) && Settled(s, id);
          assert t.processes[n].user == user;
          if forall j :: id < j < |t.processes| ==> t.processes[j].user != t.processes[id].user {
            forall j | id < j < |s.processes|
              ensures s.processes[j].user != s.processes[id].user
            {
              assert t.processes[j].user != t.processes[id].user;
            }
          }
        }
      }
      forall u | u in t.users
        ensures UserValid(t, u)
      {
        assert UserValid(s, u);
      }
    }
  }

  // Steps that touch no process and keep the majority rule of open ones.
  lemma UsersOnly(s: State, t: State)
    requires Invariant(s)
    requires t.processes == s.processes && t.bases == s.bases && t.grace == s.grace && t.now >= s.now
    requires s.users.Keys <= t.users.Keys == t.lastCheckIn.Keys && forall u :: u in t.users ==> UserValid(t, u)
    requires forall u :: u in s.users ==>
      u in s.lastCheckIn && u in t.lastCheckIn && t.lastCheckIn[u] == s.lastCheckIn[u]
    requires forall u :: Open(s, u) ==> RequireMajority(t, u) == RequireMajority(s, u)
    ensures Invariant(t)
  {
    forall id | 0 <= id < |t.processes|
      ensures ProcessValid(t, id) && Settled(t, id)
    {
      assert ProcessValid(s, id) && Settled(s, id);
      var latest := Latest(s.processes, s.processes[id].user, false);
      assert latest.Some? && latest.value >= id;
    }
  }

  lemma QuietStepInvariant(s: State, e: Event)
    requires Invariant(s) && Enabled(s, e)
    requires e.Tick? || e.Activity? || e.SetThreshold?
    ensures Invariant(Next(s, e))
  {
    var t := Next(s, e);
    forall u | u in s.users
      ensures UserValid(t, u)
    {
      assert UserValid(s, u);
    }
    UsersOnly(s, t);
  }

  lemma SettingsStepInvariant(s: State, e: Event)
    requires Invariant(s) && Enabled(s, e)
    requires e.SetMajority? || e.SetSuccessors?
    ensures Invariant(Next(s, e))
  {
    var t := Next(s, e);
    forall u | u in s.users
      ensures UserValid(t, u)
    {
      assert UserValid(s, u);
    }
    UsersOnly(s, t);
  }

  lemma RegisterInvariant(s: State, e: Event)
    requires Invariant(s) && Enabled(s, e) && e.Register?
    ensures Invariant(Next(s, e))
  {
    var t := Next(s, e);
    forall u | u in s.users
      ensures UserValid(t, u)
    {
      assert UserValid(s, u);
    }
    RegisterFresh(s, e.user);
    UsersOnly(s, t);
  }

  // A new user has no process yet.
  lemma RegisterFresh(s: State, user: UserId)
    requires Invariant(s) && user !in s.users
    ensures !Open(s, user)
  {
    var latest := Latest(s.processes, user, false);
    assert latest.Some? ==> ProcessValid(s, latest.value);
  }

  lemma NextInvariant(s: State, e: Event)
    requires Invariant(s) && Enabled(s, e)
    ensures Invariant(Next(s, e))
  {
    match e
    case UserCheckIn(u) => CheckInInvariant(s, u);
    case UserCancel(u) => CancelInvariant(s, u);
    case MonitorInitiate(u, downtime) => InitiateInvariant(s, u, downtime);
    case MonitorExpire(id) => ExpireInvariant(s, id);
    case SuccessorResponse(id, successor, accepted) => RespondInvariant(s, id, successor, accepted);
    case Tick(_) => QuietStepInvariant(s, e);
    case Activity(_) => QuietStepInvariant(s, e);
    case SetThreshold(_, _) => QuietStepInvariant(s, e);
    case Register(_) => RegisterInvariant(s, e);
    case _ => SettingsStepInvariant(s, e);
  }

  lemma {:induction false} RunInvariant(states: seq<State>, events: seq<Event>, i: nat)
    requires Run(states, events) && i < |states|
    ensures Invariant(states[i])
  {
    if i > 0 {
      RunInvariant(states, events, i - 1);
      NextInvariant(states[i - 1], events[i - 1]);
    }
  }

  /** At most one process of a user is active. */
  lemma AtMostOneActive(states: seq<State>, events: seq<Event>, i: nat, a: nat, b: nat)
    requires Run(states, events) && i < |states|
    requires a < |states[i].processes| && b < |states[i].processes|
    requires states[i].processes[a].user == states[i].processes[b].user
    requires Active(states[i].processes[a].status) && Active(states[i].processes[b].status)
    ensures a == b
  {
    RunInvariant(states, events, i);
  }

  lemma RunCounted(states: seq<State>, events: seq<Event>, i: nat, id: nat)
    requires Run(states, events) && i < |states| && id < |states[i].processes|
    ensures |states[i].bases| == |states[i].processes|
    ensures Counted(states[i].processes[id], Threshold(states[i], id))
  {
    RunInvariant(states, events, i);
    assert ProcessValid(states[i], id);
  }

  /** K-of-N over every run, for a process whose successors were notified. */
  lemma ThresholdRespected(states: seq<State>, events: seq<Event>, i: nat, id: nat)
    requires Run(states, events) && i < |states| && id < |states[i].processes|
    ensures
      var s, p := states[i], states[i].processes[id];
      && |s.bases| == |s.processes|
      && (p.status == AwaitingSuccessors && p.notifications != [] ==>
            Accepted(p.notifications) < Threshold(s, id) && SomePending(p.notifications))
      && (p.status == Completed ==> Accepted(p.notifications) == Threshold(s, id) > 0)
      && (p.status == Cancelled && p.notifications != [] ==> Accepted(p.notifications) < Threshold(s, id))
      && (p.status == Expired ==>
            && p.notifications != [] && !SomePending(p.notifications)
            && Accepted(p.notifications) < Threshold(s, id))
  {
    RunCounted(states, events, i, id);
    AllResponded(states[i].processes[id].notifications);
  }

  // What no step takes back.
  ghost predicate Extends(s: State, t: State) {
    && t.grace == s.grace && s.now <= t.now
    && |s.processes| <= |t.processes| && |s.bases| <= |t.bases|
    && (forall id :: 0 <= id < |s.processes| ==> Continues(s.processes[id], t.processes[id]))
    && (forall id :: 0 <= id < |s.bases| ==> t.bases[id] == s.bases[id])
    && (forall u :: u in s.lastCheckIn ==> u in t.lastCheckIn && s.lastCheckIn[u] <= t.lastCheckIn[u])
  }

  ghost predicate Continues(p: Process, q: Process) {
    && q.user == p.user && q.initiatedAt == p.initiatedAt
    && (!Active(p.status) ==> q == p)
  }

  lemma StepExtends(s: State, e: Event)
    requires Invariant(s) && Enabled(s, e)
    ensures Extends(s, Next(s, e))
  {
    match e
    case UserCheckIn(u) => CheckInExtends(s, u);
    case UserCancel(u) => CancelExtends(s, u);
    case MonitorInitiate(u, downtime) => InitiateExtends(s, u, downtime);
    case MonitorExpire(id) => ExpireExtends(s, id);
    case SuccessorResponse(id, successor, accepted) => RespondExtends(s, id, successor, accepted);
    case _ =>
  }

  lemma CheckInExtends(s: State, user: UserId)
    requires Invariant(s) && user in s.users
    ensures Extends(s, CheckIn(s, user))
  {
    assert UserValid(s, user);
  }

  lemma CancelExtends(s: State, user: UserId)
    requires Invariant(s)
    ensures Extends(s, Cancel(s, user))
  {
  }

  lemma InitiateExtends(s: State, user: UserId, downtime: nat)
    requires Invariant(s) && Enabled(s, MonitorInitiate(user, downtime))
    ensures Extends(s, Initiate(s, user, downtime))
  {
  }

  lemma ExpireExtends(s: State, id: nat)
    requires Invariant(s) && Enabled(s, MonitorExpire(id))
    ensures Extends(s, ExpireGrace(s, id))
  {
  }

  lemma RespondExtends(s: State, id: nat, successor: SuccessorId, accepted: bool)
    requires Invariant(s)
    ensures Extends(s, Respond(s, id, successor, accepted))
  {
  }

  lemma {:induction false} RunExtends(states: seq<State>, events: seq<Event>, i: nat, j: nat)
    requires Run(states, events) && i <= j < |states|
    ensures Extends(states[i], states[j])
    decreases j
  {
    if i < j {
      var k := j - 1;
      RunExtends(states, events, i, k);
      RunInvariant(states, events, k);
      RunStep(states, events, k);
      ExtendsNext(states[i], states[k], states[k + 1], events[k]);
    }
  }

  lemma RunStep(states: seq<State>, events: seq<Event>, k: nat)
    requires Run(states, events) && k < |events|
    ensures Enabled(states[k], events[k]) && states[k + 1] == Next(states[k], events[k])
  {
  }

  lemma ExtendsNext(r: State, s: State, t: State, e: Event)
    requires Extends(r, s) && Invariant(s)
    requires Enabled(s, e) && t == Next(s, e)
    ensures Extends(r, t)
  {
    StepExtends(s, e);
    ExtendsTransitive(r, s, t);
  }

  lemma ExtendsTransitive(s: State, t: State, u: State)
    requires Extends(s, t) && Extends(t, u)
    ensures Extends(s, u)
  {
    forall id | 0 <= id < |s.processes|
      ensures Continues(s.processes[id], u.processes[id])
    {
      assert Continues(s.processes[id], t.processes[id]) && Continues(t.processes[id], u.processes[id]);
    }
  }

  /** A process that is completed, cancelled or expired never changes again, rows
      included. */
  lemma TerminalForever(states: seq<State>, events: seq<Event>, i: nat, j: nat, id: nat)
    requires Run(states, events) && i <= j < |states|
    requires id < |states[i].processes| && !Active(states[i].processes[id].status)
    ensures id < |states[j].processes| && states[j].processes[id] == states[i].processes[id]
  {
    RunExtends(states, events, i, j);
    assert Continues(states[i].processes[id], states[j].processes[id]);
  }

  lemma {:induction false} AcceptedSome(rows: seq<Notification>)
    ensures Accepted(rows) > 0 <==> exists i :: 0 <= i < |rows| && rows[i].verdict == Verified
  {
    if rows != [] {
      AcceptedSome(rows[1..]);
      if i :| 0 <= i < |rows| - 1 && rows[1..][i].verdict == Verified {
        assert rows[i + 1].verdict == Verified;
      }
      if i :| 0 < i < |rows| && rows[i].verdict == Verified {
        assert rows[1..][i - 1].verdict == Verified;
      }
    }
  }

  // The successors that accepted.
  function AcceptedSet(rows: seq<Notification>): set<SuccessorId> {
    if rows == [] then {}
    else (if rows[0].verdict == Verified then {rows[0].successor} else {}) + AcceptedSet(rows[1..])
  }

  lemma {:induction false} AcceptedSetMeaning(rows: seq<Notification>)
    ensures forall id :: id in AcceptedSet(rows) <==> HasAccepted(rows, id)
    ensures NoRepeats(rows) ==> |AcceptedSet(rows)| == Accepted(rows)
  {
    if rows != [] {
      var rest := rows[1..];
      AcceptedSetMeaning(rest);
      assert forall i :: 0 <= i < |rest| ==> rest[i] == rows[i + 1];
      forall id
        ensures HasAccepted(rows, id) <==> rows[0] == Notification(id, Verified) || HasAccepted(rest, id)
      {
        FirstOrRest(rows, id);
      }
      if NoRepeats(rows) {
        assert rows[0].successor !in AcceptedSet(rest);
      }
    }
  }

  lemma FirstOrRest(rows: seq<Notification>, id: SuccessorId)
    requires rows != []
    ensures HasAccepted(rows, id) <==> rows[0] == Notification(id, Verified) || HasAccepted(rows[1..], id)
  {
    if HasAccepted(rows, id) && rows[0] != Notification(id, Verified) {
      var i :| 0 <= i < |rows| && rows[i] == Notification(id, Verified);
      assert rows[1..][i - 1] == Notification(id, Verified);
    }
    if HasAccepted(rows[1..], id) {
      var i :| 0 <= i < |rows| - 1 && rows[1..][i] == Notification(id, Verified);
      assert rows[i + 1] == Notification(id, Verified);
    }
  }

  // The newest process of the user is completed and this successor accepted it.
  predicate Released(s: State, user: UserId, successor: SuccessorId) {
    var latest := Latest(s.processes, user, false);
    latest.Some? && s.processes[latest.value].status == Completed
    && HasAccepted(s.processes[latest.value].notifications, successor)
  }

  /** Over every run access is granted exactly when the newest process is completed
      and this successor accepted it. */
  lemma AccessCharacterised(states: seq<State>, events: seq<Event>, i: nat, user: UserId, successor: SuccessorId)
    requires Run(states, events) && i < |states|
    ensures AccessDecision(states[i], user, successor).allowed <==> Released(states[i], user, successor)
  {
    var s := states[i];
    RunInvariant(states, events, i);
    var latest := Latest(s.processes, user, false);
    if latest.Some? {
      assert ProcessValid(s, latest.value) && Settled(s, latest.value);
    }
  }

  function WithMajority(s: State, user: UserId, majority: bool): State
    requires user in s.users
  {
    s.(users := s.users[user := s.users[user].(requireMajority := majority)])
  }

  /** Why the majority rule has to stay put: the exact effect of changing it while
      the newest process is awaiting successors or completed. */
  lemma ToggleEffect(states: seq<State>, events: seq<Event>, i: nat, id: nat, successor: SuccessorId, majority: bool)
    requires Run(states, events) && i < |states| && id < |states[i].processes|
    requires Latest(states[i].processes, states[i].processes[id].user, false) == Some(id)
    ensures
      var s, p := states[i], states[i].processes[id];
      var n := |p.notifications|;
      && p.user in s.users && id < |s.bases|
      && (p.status == Completed ==>
            (AccessDecision(WithMajority(s, p.user, majority), p.user, successor).allowed
             <==> HasAccepted(p.notifications, successor) && (majority ==> s.bases[id].majority || n <= 3)))
      && (p.status == AwaitingSuccessors ==>
            (AccessDecision(WithMajority(s, p.user, majority), p.user, successor).allowed
             <==> HasAccepted(p.notifications, successor) && n >= 4 && s.bases[id].majority && !majority
                  && Accepted(p.notifications) >= 2))
  {
    RunInvariant(states, events, i);
    assert ProcessValid(states[i], id);
  }

  // Event c created process id, on the terms that its basis records.
  ghost predicate Created(states: seq<State>, events: seq<Event>, c: nat, id: nat, b: Basis)
    requires |states| == |events| + 1
  {
    && c < |events| && events[c].MonitorInitiate?
    && CreatedBy(states[c], events[c], id, b)
  }

  ghost predicate CreatedBy(s: State, e: Event, id: nat, b: Basis)
    requires e.MonitorInitiate?
  {
    && |s.processes| == id && Due(s, e.user, e.downtime)
    && Latest(s.processes, e.user, true).None?
    && b == Basis(s.lastCheckIn[e.user], s.users[e.user].thresholdMs, e.downtime, s.users[e.user].requireMajority)
  }

  // Only initiation adds a process.
  lemma StepCreates(s: State, e: Event, id: nat)
    requires Invariant(s) && Enabled(s, e)
    requires |s.processes| <= id < |Next(s, e).processes|
    ensures e.MonitorInitiate? && id < |Next(s, e).bases| && CreatedBy(s, e, id, Next(s, e).bases[id])
    ensures Next(s, e).processes[id].user == e.user && Next(s, e).processes[id].initiatedAt == s.now
  {
  }

  // The step at which the table first holds process id.
  lemma {:induction false} FirstSeen(states: seq<State>, i: nat, id: nat) returns (c: nat)
    requires i < |states| && |states[0].processes| <= id < |states[i].processes|
    ensures c < i && |states[c].processes| <= id < |states[c + 1].processes|
  {
    if id < |states[i - 1].processes| {
      c := FirstSeen(states, i - 1, id);
    } else {
      c := i - 1;
    }
  }

  lemma EveryProcessCreated(states: seq<State>, events: seq<Event>, i: nat, id: nat) returns (c: nat)
    requires Run(states, events) && i < |states| && id < |states[i].processes|
    ensures c < i && id < |states[i].bases| && Created(states, events, c, id, states[i].bases[id])
    ensures states[i].processes[id].user == events[c].user && states[i].processes[id].initiatedAt == states[c].now
  {
    c := FirstSeen(states, i, id);
    RunInvariant(states, events, c);
    LastCreated(states, events, c + 1, id);
    RunExtends(states, events, c + 1, i);
    assert Continues(states[c + 1].processes[id], states[i].processes[id]);
  }

  lemma LastCreated(states: seq<State>, events: seq<Event>, i: nat, id: nat)
    requires Run(states, events) && 0 < i < |states|
    requires Invariant(states[i - 1])
    requires |states[i - 1].processes| <= id < |states[i].processes|
    ensures id < |states[i].bases| && Created(states, events, i - 1, id, states[i].bases[id])
    ensures states[i].processes[id].user == events[i - 1].user
    ensures states[i].processes[id].initiatedAt == states[i - 1].now
  {
    var s, e := states[i - 1], events[i - 1];
    assert Enabled(s, e) && states[i] == Next(s, e);
    StepCreates(s, e, id);
  }

  // A check-in is remembered until a later one replaces it.
  lemma CheckInRemembered(states: seq<State>, events: seq<Event>, a: nat, b: nat, user: UserId)
    requires Run(states, events) && a < b < |states|
    requires events[a] == UserCheckIn(user)
    ensures user in states[b].lastCheckIn && states[a].now <= states[b].lastCheckIn[user]
  {
    assert Enabled(states[a], events[a]) && states[a + 1] == Next(states[a], events[a]);
    RunExtends(states, events, a + 1, b);
  }

  // A process that survives a check-in was created after it.
  lemma CheckInPrecedes(states: seq<State>, events: seq<Event>, a: nat, b: nat, c: nat, id: nat)
    requires Run(states, events) && a < b < |states| && c < b
    requires id < |states[b].processes| && Active(states[b].processes[id].status)
    requires events[a] == UserCheckIn(states[b].processes[id].user)
    requires id < |states[b].bases| && Created(states, events, c, id, states[b].bases[id])
    ensures a < c
  {
    if c < a {
      var user := states[b].processes[id].user;
      assert |states[c + 1].processes| == id + 1 by {
        assert Enabled(states[c], events[c]) && states[c + 1] == Next(states[c], events[c]);
      }
      RunExtends(states, events, c + 1, a);
      RunExtends(states, events, a, b);
      assert Continues(states[a].processes[id], states[b].processes[id]);
      RunInvariant(states, events, a);
      CancelClears(states[a], user, id);
      assert states[a + 1] == Next(states[a], events[a]);
      TerminalForever(states, events, a + 1, b, id);
    }
  }

  /** Never early: successors are brought in only after the owner has been away for
      the inactivity threshold in force at initiation, plus the recorded downtime,
      plus the grace period, counted from any earlier check-in. */
  lemma NeverEarly(states: seq<State>, events: seq<Event>, a: nat, b: nat, id: nat)
    requires Run(states, events) && a < b < |states|
    requires id < |states[b].processes| && states[b].processes[id].status == AwaitingSuccessors
    requires events[a] == UserCheckIn(states[b].processes[id].user)
    ensures exists c ::
      && a < c < b && id < |states[b].bases| && Created(states, events, c, id, states[b].bases[id])
      && states[b].now >= states[a].now
           + states[c].users[events[c].user].thresholdMs + events[c].downtime + states[0].grace
  {
    RunInvariant(states, events, b);
    assert ProcessValid(states[b], id);
    CheckInRemembered(states, events, a, b, states[b].processes[id].user);
    var c := EveryProcessCreated(states, events, b, id);
    RunExtends(states, events, 0, b);
    CheckInPrecedes(states, events, a, b, c, id);
  }
}
