/** The orchestrator over its tables, each method proved to take exactly the step of
    the state machine that it stands for. */
module Orchestrator {
  import opened Wrappers
  import opened Handover

  // Expires every process below n whose grace period is over, in creation order.
  function ExpireDue(s: State, n: nat): State {
    if n == 0 then s
    else
      var t := ExpireDue(s, n - 1);
      if Enabled(t, MonitorExpire(n - 1)) then Next(t, MonitorExpire(n - 1)) else t
  }

  lemma NewestIsLatest(processes: seq<Process>)
    requires processes != [] && Active(processes[|processes| - 1].status)
    ensures Latest(processes, processes[|processes| - 1].user, true) == Some(|processes| - 1)
  {
  }

  class HandoverOrchestrator {
    const grace: nat
    var now: int
    var processes: seq<Process>
    var users: map<UserId, User>
    ghost var bases: seq<Basis>
    ghost var lastCheckIn: map<UserId, int>

    ghost function View(): State
      reads this
    {
      State(now, grace, processes, users, bases, lastCheckIn)
    }

    constructor (start: int, grace: nat)
      ensures View() == Init(start, grace)
    {
      this.grace := grace;
      now := start;
      processes := [];
      users := map[];
      bases := [];
      lastCheckIn := map[];
    }

    method InitiateHandover(user: UserId, ghost downtime: nat) returns (process: Process)
      requires user in users && user in lastCheckIn
      modifies this
      ensures View() == Initiate(old(View()), user, downtime)
      ensures var active := Latest(processes, user, true); active.Some? && process == processes[active.value]
    {
      var existing := Latest(processes, user, true);
      if existing.Some? {
        return processes[existing.value];
      }
      process := Process(user, GracePeriod, now, now + grace, []);
      bases := bases + [Basis(lastCheckIn[user], users[user].thresholdMs, downtime, users[user].requireMajority)];
      processes := processes + [process];
      NewestIsLatest(processes);
    }

    method CancelHandover(user: UserId)
      modifies this`processes
      ensures View() == Cancel(old(View()), user)
    {
      var active := Latest(processes, user, true);
      if active.Some? {
        processes := processes[active.value := processes[active.value].(status := Cancelled)];
      }
    }

    // A failure to record the activity is swallowed; the cancellation still goes through.
    method ManualCheckIn(user: UserId, recorded: bool)
      requires user in users
      modifies this
      ensures View() == if recorded then CheckIn(old(View()), user) else Cancel(old(View()), user)
    {
      if recorded {
        users := users[user := users[user].(lastActivity := now)];
        lastCheckIn := lastCheckIn[user := now];
      }
      CancelHandover(user);
    }

    method ProcessSuccessorResponse(id: nat, successor: SuccessorId, accepted: bool) returns (outcome: Outcome)
      modifies this`processes
      ensures View() == Respond(old(View()), id, successor, accepted)
      ensures outcome == ResponseOutcome(old(View()), id, successor)
    {
      if id >= |processes| {
        return UnknownProcess;
      }
      var process := processes[id];
      if process.status in {Completed, Cancelled, Expired} {
        return Ignored;
      }
      if !Notified(process.notifications, successor) {
        return NotNotified;
      }
      assert Active(process.status);
      var rows := SetVerdict(process.notifications, successor, if accepted then Verified else Declined);
      processes := processes[id := process.(notifications := rows)];
      var acceptedCount, respondedCount, totalNotified := Accepted(rows), Responded(rows), |rows|;
      var requireMajority := process.user in users && users[process.user].requireMajority;
      var threshold := ComputeThreshold(totalNotified, requireMajority);
      if acceptedCount >= threshold && threshold > 0 {
        processes := processes[id := processes[id].(status := Completed)];
        return Recorded;
      }
      if respondedCount == totalNotified && acceptedCount < threshold {
        processes := processes[id := processes[id].(status := Expired)];
      }
      outcome := Recorded;
    }

    method ProcessGracePeriodExpiration(id: nat)
      modifies this`processes
      ensures View() == ExpireGrace(old(View()), id)
    {
      if id >= |processes| || processes[id].status != GracePeriod {
        return;
      }
      processes := processes[id := processes[id].(status := AwaitingSuccessors)];
      var user := processes[id].user;
      var successors := if user in users then users[user].successors else [];
      if processes[id].notifications == [] {
        ghost var before := processes;
        for k := 0 to |successors|
          invariant |processes| == |before|
          invariant processes == before[id := before[id].(notifications := PendingRows(successors[..k]))]
        {
          var rows := processes[id].notifications + [Notification(successors[k], Pending)];
          assert rows == PendingRows(successors[..k + 1]);
          processes := processes[id := processes[id].(notifications := rows)];
        }
        assert successors[..|successors|] == successors;
      }
    }

    // A failure, say to send a notification, ends the pass: reached is how far it came.
    method MonitorActiveHandovers(reached: nat)
      requires reached <= |processes|
      modifies this`processes
      ensures View() == ExpireDue(old(View()), reached)
    {
      for id := 0 to reached
        invariant |processes| == |old(processes)|
        invariant View() == ExpireDue(old(View()), id)
      {
        if processes[id].status == GracePeriod && processes[id].graceEnds <= now {
          ProcessGracePeriodExpiration(id);
        }
      }
    }

    method GetSuccessorAccessDecision(user: UserId, successor: SuccessorId) returns (decision: Decision)
      ensures decision == AccessDecision(View(), user, successor)
    {
      var latest := Latest(processes, user, false);
      if latest.None? {
        return Decision(false, None, 0, 0, 0);
      }
      var process := processes[latest.value];
      if process.status !in {AwaitingSuccessors, VerificationPending, ReadyForTransfer, Completed} {
        return Decision(false, Some(process.status), 0, 0, 0);
      }
      var totalNotified, acceptedCount := |process.notifications|, Accepted(process.notifications);
      var requireMajority := user in users && users[user].requireMajority;
      var threshold := ComputeThreshold(totalNotified, requireMajority);
      if !HasAccepted(process.notifications, successor) {
        return Decision(false, Some(process.status), acceptedCount, threshold, totalNotified);
      }
      decision := Decision(acceptedCount >= threshold, Some(process.status), acceptedCount, threshold, totalNotified);
    }
  }

  lemma {:induction false} ExpireDueLeaves(s: State, n: nat, id: nat)
    requires n <= |s.processes| && id < |s.processes|
    ensures var t := ExpireDue(s, n);
      && t == s.(processes := t.processes) && |t.processes| == |s.processes|
      && t.processes[id] ==
           if id < n && Enabled(s, MonitorExpire(id)) then ExpireGrace(s, id).processes[id] else s.processes[id]
  {
    if n > 0 {
      ExpireDueLeaves(s, n - 1, id);
      ExpireDueLeaves(s, n - 1, n - 1);
      ExpireOne(s, ExpireDue(s, n - 1), n - 1, id);
    }
  }

  // Expiring process n in a state where it is as in s leaves every other process as it was.
  lemma ExpireOne(s: State, t: State, n: nat, id: nat)
    requires n < |s.processes| && id < |s.processes| && |t.processes| == |s.processes|
    requires t == s.(processes := t.processes) && t.processes[n] == s.processes[n]
    ensures var u := if Enabled(t, MonitorExpire(n)) then Next(t, MonitorExpire(n)) else t;
      && u == s.(processes := u.processes) && |u.processes| == |s.processes|
      && (id != n ==> u.processes[id] == t.processes[id])
      && (id == n && Enabled(s, MonitorExpire(n)) ==> u.processes[id] == ExpireGrace(s, n).processes[n])
      && (id == n && !Enabled(s, MonitorExpire(n)) ==> u.processes[id] == s.processes[n])
  {
  }

  /** A monitor pass brings in successors for exactly the processes it reaches whose grace
      period is over, whatever the other processes do. */
  lemma MonitorPass(s: State, reached: nat, id: nat)
    requires reached <= |s.processes| && id < |s.processes|
    ensures
      var t := ExpireDue(s, reached);
      && |t.processes| == |s.processes|
      && (t.processes[id] != s.processes[id] <==> id < reached && Overdue(s, id))
      && (t.processes[id] != s.processes[id] ==> t.processes[id].status == AwaitingSuccessors)
  {
    ExpireDueLeaves(s, reached, id);
  }

  predicate Overdue(s: State, id: nat)
    requires id < |s.processes|
  {
    s.processes[id].status == GracePeriod && s.processes[id].graceEnds <= s.now
  }

  /** A pass that was cut short is made good by the next one that goes through. */
  lemma InterruptedPass(s: State, reached: nat)
    requires reached <= |s.processes|
    ensures |ExpireDue(s, reached).processes| == |s.processes|
    ensures ExpireDue(ExpireDue(s, reached), |s.processes|) == ExpireDue(s, |s.processes|)
  {
    var n, t := |s.processes|, ExpireDue(s, reached);
    if n > 0 {
      InterruptedAt(s, reached, 0);
      forall id | 0 <= id < n
        ensures ExpireDue(t, n).processes[id] == ExpireDue(s, n).processes[id]
      {
        InterruptedAt(s, reached, id);
      }
      assert ExpireDue(t, n).processes == ExpireDue(s, n).processes;
    }
  }

  lemma InterruptedAt(s: State, reached: nat, id: nat)
    requires reached <= |s.processes| && id < |s.processes|
    ensures
      var n, t := |s.processes|, ExpireDue(s, reached);
      && |t.processes| == n && |ExpireDue(t, n).processes| == |ExpireDue(s, n).processes| == n
      && ExpireDue(t, n) == ExpireDue(s, n).(processes := ExpireDue(t, n).processes)
      && ExpireDue(t, n).processes[id] == ExpireDue(s, n).processes[id]
  {
    var n, t := |s.processes|, ExpireDue(s, reached);
    ExpireDueLeaves(s, reached, id);
    ExpireDueLeaves(t, n, id);
    ExpireDueLeaves(s, n, id);
  }

  /** After a pass that goes through no process is overdue. */
  lemma NoneOverdue(s: State, id: nat)
    requires id < |s.processes|
    ensures var t := ExpireDue(s, |s.processes|); id < |t.processes| && !Overdue(t, id)
  {
    ExpireDueLeaves(s, |s.processes|, id);
  }
}
