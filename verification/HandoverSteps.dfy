/** What each step does to each process, in terms of its rows, and how a process can have ended. */
module HandoverSteps {
  import opened Wrappers
  import opened Handover
  import opened HandoverProofs

  /** How many acceptances release the vault: with a majority the least number that is more than half,
      otherwise two, or everybody when there are fewer. */
  lemma ThresholdMeaning(n: nat)
    ensures n > 0 ==> 2 * (ComputeThreshold(n, true) - 1) <= n < 2 * ComputeThreshold(n, true)
    ensures n > 0 ==> 1 <= ComputeThreshold(n, false) <= 2 && ComputeThreshold(n, false) <= n
    ensures n > 1 ==> ComputeThreshold(n, false) == 2
    ensures ComputeThreshold(0, true) == ComputeThreshold(0, false) == 0
  {
  }

  // ---- One response

  // The event is an answer of a notified successor to a process that is not over.
  predicate Answers(s: State, e: Event, id: nat)
    requires id < |s.processes|
  {
    && e.SuccessorResponse? && e.id == id && Active(s.processes[id].status)
    && exists k :: 0 <= k < |s.processes[id].notifications| && s.processes[id].notifications[k].successor == e.successor
  }

  // How many acceptances the owner's setting asks for among these rows.
  function Needed(s: State, id: nat): nat
    requires id < |s.processes|
  {
    ComputeThreshold(|s.processes[id].notifications|, RequireMajority(s, s.processes[id].user))
  }

  // The rows with the verdict of one successor replaced.
  predicate Answered(before: seq<Notification>, after: seq<Notification>, successor: SuccessorId, accepted: bool) {
    && |after| == |before|
    && forall k :: 0 <= k < |after| ==>
         after[k] == if before[k].successor != successor then before[k]
                     else Notification(successor, if accepted then Verified else Declined)
  }

  /** An answer completes the process if and only if the acceptances now reach the number needed, makes
      it expire if and only if they do not and nobody is left to answer, and otherwise leaves the
      status alone, whatever was answered. Nothing else changes, and any other response changes nothing. */
  lemma ResponseStep(s: State, e: Event, id: nat)
    requires e.SuccessorResponse? && e.id == id && id < |s.processes|
    ensures |Next(s, e).processes| == |s.processes|
    ensures var p, q := s.processes[id], Next(s, e).processes[id];
      && Next(s, e) == s.(processes := s.processes[id := q])
      && (!Answers(s, e, id) ==> q == p)
      && (Answers(s, e, id) ==>
           && q == p.(status := q.status, notifications := q.notifications)
           && Answered(p.notifications, q.notifications, e.successor, e.accepted)
           && (q.status == Completed <==> Accepted(q.notifications) >= Needed(s, id))
           && (q.status == Expired <==> !SomePending(q.notifications) && Accepted(q.notifications) < Needed(s, id))
           && (q.status !in {Completed, Expired} ==> q.status == p.status))
  {
    if Answers(s, e, id) {
      ThresholdMeaning(|s.processes[id].notifications|);
      AllResponded(Next(s, e).processes[id].notifications);
    }
  }

  /** What the successor is told: whether there is such a process, whether it is over, whether this
      successor was asked. Only a recorded answer changes anything. */
  lemma ResponseOutcomes(s: State, e: Event)
    requires e.SuccessorResponse?
    ensures var outcome := ResponseOutcome(s, e.id, e.successor);
      && (outcome == UnknownProcess <==> |s.processes| <= e.id)
      && (outcome == Ignored <==>
           e.id < |s.processes| && s.processes[e.id].status in {Completed, Cancelled, Expired})
      && (outcome == Recorded <==> e.id < |s.processes| && Answers(s, e, e.id))
      && (outcome != Recorded ==> Next(s, e) == s)
  {
  }

  // ---- One process, any step

  // The owner shows up: checks in, or cancels.
  predicate ByOwner(e: Event, owner: UserId) {
    e == UserCheckIn(owner) || e == UserCancel(owner)
  }

  // How an event moves one process on.
  ghost predicate Moves(s: State, e: Event, id: nat, q: Process)
    requires id < |s.processes|
  {
    var p := s.processes[id];
    var reached := Accepted(q.notifications) >= Needed(s, id);
    && q == p.(status := q.status, notifications := q.notifications)
    && (q.status == Cancelled <==> p.status == Cancelled || (Active(p.status) && ByOwner(e, p.user)))
    && (q.status == Completed <==> p.status == Completed || (Answers(s, e, id) && reached))
    && (q.status == Expired <==>
         p.status == Expired || (Answers(s, e, id) && !reached && !SomePending(q.notifications)))
    && (q.status == AwaitingSuccessors <==>
         || (p.status == GracePeriod && e == MonitorExpire(id))
         || (p.status == AwaitingSuccessors && !ByOwner(e, p.user)
             && !(Answers(s, e, id) && (reached || !SomePending(q.notifications)))))
    && (e != MonitorExpire(id) && !Answers(s, e, id) ==> q.notifications == p.notifications)
  }

  /** Which event moves which process, and where to. Only its owner cancels a process, only the answers
      of its successors complete it or let it expire. */
  lemma StatusNext(s: State, e: Event, id: nat)
    requires Invariant(s) && Enabled(s, e) && id < |s.processes|
    ensures id < |Next(s, e).processes| && Moves(s, e, id, Next(s, e).processes[id])
  {
    match e
    case SuccessorResponse(_, _, _) => ResponseMoves(s, e, id);
    case UserCheckIn(user) => OwnerMoves(s, e, user, id);
    case UserCancel(user) => OwnerMoves(s, e, user, id);
    case MonitorInitiate(user, downtime) =>
      InitiateStep(s, user, downtime);
      StaysPut(s, e, id);
    case MonitorExpire(_) => ExpireMoves(s, e, id);
    case _ => StaysPut(s, e, id);
  }

  lemma StaysPut(s: State, e: Event, id: nat)
    requires id < |s.processes|
    requires !e.SuccessorResponse? && !e.UserCheckIn? && !e.UserCancel? && !e.MonitorExpire?
    ensures Moves(s, e, id, s.processes[id])
  {
  }

  lemma ResponseMoves(s: State, e: Event, id: nat)
    requires Invariant(s) && e.SuccessorResponse? && id < |s.processes|
    ensures id < |Next(s, e).processes| && Moves(s, e, id, Next(s, e).processes[id])
  {
    assert ProcessValid(s, id);
    if e.id < |s.processes| {
      ResponseStep(s, e, e.id);
    }
  }

  lemma OwnerMoves(s: State, e: Event, owner: UserId, id: nat)
    requires Invariant(s) && Enabled(s, e) && ByOwner(e, owner) && id < |s.processes|
    ensures id < |Next(s, e).processes| && Moves(s, e, id, Next(s, e).processes[id])
  {
    CancelStep(s, owner, id);
    CancelOnly(s, owner);
  }

  lemma ExpireMoves(s: State, e: Event, id: nat)
    requires Enabled(s, e) && e.MonitorExpire? && id < |s.processes|
    ensures id < |Next(s, e).processes| && Moves(s, e, id, Next(s, e).processes[id])
  {
  }

  /** A cancellation ends the active process of the user, whatever its status and rows, and no other. */
  lemma CancelStep(s: State, user: UserId, id: nat)
    requires Invariant(s) && id < |s.processes|
    ensures |Cancel(s, user).processes| == |s.processes|
    ensures var p := s.processes[id];
      Cancel(s, user).processes[id] == if p.user == user && Active(p.status) then p.(status := Cancelled) else p
  {
    var latest := Latest(s.processes, user, true);
    if s.processes[id].user == user && Active(s.processes[id].status) {
      assert latest.Some? && latest.value >= id;
    }
  }

  predicate HasActive(s: State, user: UserId) {
    exists id :: 0 <= id < |s.processes| && s.processes[id].user == user && Active(s.processes[id].status)
  }

  /** Initiation adds a process in grace period if and only if the user has no active one, whatever
      became of earlier ones, and leaves every process as it is. */
  lemma InitiateStep(s: State, user: UserId, downtime: nat)
    requires user in s.users && user in s.lastCheckIn
    ensures Initiate(s, user, downtime).processes ==
      if HasActive(s, user) then s.processes
      else s.processes + [Process(user, GracePeriod, s.now, s.now + s.grace, [])]
  {
    var latest := Latest(s.processes, user, true);
    if HasActive(s, user) {
      var id :| 0 <= id < |s.processes| && s.processes[id].user == user && Active(s.processes[id].status);
      assert latest.Some?;
    }
  }

  /** The owner's settings take effect at once, for the owner alone: the threshold in the test for
      initiation, the majority in the number needed, the successors in who will be asked. */
  lemma SettingsTakeEffect(s: State, e: Event, user: UserId, downtime: nat)
    requires Invariant(s) && Enabled(s, e) && (e.SetThreshold? || e.SetMajority? || e.SetSuccessors?)
    ensures var t := Next(s, e);
      && t.processes == s.processes
      && (Due(t, user, downtime) <==>
           if e.SetThreshold? && e.user == user
           then s.now - s.users[user].lastActivity - downtime >= e.thresholdMs
           else Due(s, user, downtime))
      && (RequireMajority(t, user) <==>
           if e.SetMajority? && e.user == user then e.majority else RequireMajority(s, user))
      && SuccessorsOf(t, user) == (if e.SetSuccessors? && e.user == user then e.successors else SuccessorsOf(s, user))
  {
    if user in s.users {
      assert UserValid(s, user);
    }
  }

  // ---- How a process ended

  // A process that is new in this step, or had another status before it.
  ghost predicate Became(states: seq<State>, k: nat, id: nat, status: Status)
    requires k + 1 < |states|
  {
    && id < |states[k].processes| && id < |states[k + 1].processes|
    && states[k].processes[id].status != status && states[k + 1].processes[id].status == status
  }

  // The step at which a process took the status that it has.
  lemma {:induction false} LastChange(states: seq<State>, events: seq<Event>, i: nat, id: nat) returns (k: nat)
    requires Run(states, events) && i < |states| && id < |states[i].processes|
    requires states[i].processes[id].status != GracePeriod
    ensures k < i && Became(states, k, id, states[i].processes[id].status)
    ensures Enabled(states[k], events[k]) && states[k + 1] == Next(states[k], events[k])
    ensures states[k].processes[id].user == states[i].processes[id].user
  {
    var j := i - 1;
    RunStep(states, events, j);
    RunInvariant(states, events, j);
    if id >= |states[j].processes| {
      BeginsInGrace(states[j], events[j], id);
    } else if states[j].processes[id].status != states[i].processes[id].status {
      StatusNext(states[j], events[j], id);
      k := j;
    } else {
      k := LastChange(states, events, j, id);
      StatusNext(states[j], events[j], id);
    }
  }

  lemma BeginsInGrace(s: State, e: Event, id: nat)
    requires Enabled(s, e) && |s.processes| <= id < |Next(s, e).processes|
    ensures Next(s, e).processes[id].status == GracePeriod
  {
  }

  /** Whoever looks at a process that is over finds the event that ended it: for a cancelled one its
      owner showing up while it was active, for a completed or expired one the answer of a successor
      that was asked, after which the acceptances reach the number needed or nobody is left to answer. */
  lemma HowItEnded(states: seq<State>, events: seq<Event>, i: nat, id: nat) returns (k: nat)
    requires Run(states, events) && i < |states| && id < |states[i].processes|
    requires states[i].processes[id].status in {Completed, Cancelled, Expired}
    ensures k < i && id < |states[k].processes| && Active(states[k].processes[id].status)
    ensures var p, q := states[k].processes[id], states[i].processes[id];
      && (q.status == Cancelled ==> ByOwner(events[k], q.user) && q.notifications == p.notifications)
      && (q.status != Cancelled ==>
           && Answers(states[k], events[k], id)
           && Answered(p.notifications, q.notifications, events[k].successor, events[k].accepted)
           && (q.status == Completed <==> Accepted(q.notifications) >= Needed(states[k], id))
           && (q.status == Expired ==> !SomePending(q.notifications)))
  {
    k := LastChange(states, events, i, id);
    RunInvariant(states, events, k);
    StatusNext(states[k], events[k], id);
    TerminalForever(states, events, k + 1, i, id);
    if events[k].SuccessorResponse? && events[k].id < |states[k].processes| {
      ResponseStep(states[k], events[k], events[k].id);
    }
  }

  // ---- What the access decision reports

  predicate Reported(status: Status) {
    status in {AwaitingSuccessors, VerificationPending, ReadyForTransfer, Completed}
  }

  /** The numbers shown with an access decision: how many different successors accepted in the newest
      process, how many the setting in force asks for, and how many were asked; zeros when nobody is
      asked yet or no longer. */
  lemma DecisionReports(states: seq<State>, events: seq<Event>, i: nat, user: UserId, successor: SuccessorId)
    requires Run(states, events) && i < |states|
    ensures var s := states[i];
      var d, latest := AccessDecision(s, user, successor), Latest(s.processes, user, false);
      && (d.status.None? <==> forall id :: 0 <= id < |s.processes| ==> s.processes[id].user != user)
      && (latest.Some? ==> d.status == Some(s.processes[latest.value].status))
      && (latest.None? || !Reported(s.processes[latest.value].status) ==>
           !d.allowed && d.acceptedCount == d.threshold == d.totalNotified == 0)
      && (latest.Some? && Reported(s.processes[latest.value].status) ==>
           var rows := s.processes[latest.value].notifications;
           && d.acceptedCount == |AcceptedSet(rows)| && d.threshold == Needed(s, latest.value)
           && d.totalNotified == |rows|)
  {
    RunInvariant(states, events, i);
    var latest := Latest(states[i].processes, user, false);
    if latest.Some? {
      assert ProcessValid(states[i], latest.value);
      AcceptedSetMeaning(states[i].processes[latest.value].notifications);
    }
  }
}
