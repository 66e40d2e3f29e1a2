/** Verdicts are what the successors last answered: access rests on consent. */
module HandoverConsent {
  import opened Wrappers
  import opened Handover
  import opened HandoverProofs

  // The event is an answer of this successor, who was asked, in process id, which is not over.
  predicate Records(s: State, e: Event, id: nat, successor: SuccessorId) {
    && e.SuccessorResponse? && e.id == id && e.successor == successor && id < |s.processes|
    && Active(s.processes[id].status) && Notified(s.processes[id].notifications, successor)
  }

  // The last recorded answer among the first i events.
  function LastAnswer(states: seq<State>, events: seq<Event>, i: nat, id: nat, successor: SuccessorId): Option<bool>
    requires i <= |events| < |states|
  {
    if i == 0 then None
    else if Records(states[i - 1], events[i - 1], id, successor) then Some(events[i - 1].accepted)
    else LastAnswer(states, events, i - 1, id, successor)
  }

  function VerdictFor(answer: Option<bool>): Verdict {
    match answer
    case None => Pending
    case Some(accepted) => if accepted then Verified else Declined
  }

  // The successor's rows show this answer; without a row there is none.
  ghost predicate RowsShow(rows: seq<Notification>, successor: SuccessorId, answer: Option<bool>) {
    && (forall k :: 0 <= k < |rows| && rows[k].successor == successor ==> rows[k].verdict == VerdictFor(answer))
    && (!Notified(rows, successor) ==> answer == None)
  }

  ghost predicate Shows(s: State, id: nat, successor: SuccessorId, answer: Option<bool>) {
    if id < |s.processes| then RowsShow(s.processes[id].notifications, successor, answer) else answer == None
  }

  lemma ShowsRespond(s: State, e: Event, id: nat, successor: SuccessorId, answer: Option<bool>)
    requires e.SuccessorResponse? && Shows(s, id, successor, answer)
    ensures Shows(Next(s, e), id, successor, if Records(s, e, id, successor) then Some(e.accepted) else answer)
  {
    if id == e.id && id < |s.processes| {
      RowsRespond(s.processes[id].notifications, e.successor, e.accepted, successor, answer);
    }
  }

  lemma RowsRespond(before: seq<Notification>, who: SuccessorId, accepted: bool, successor: SuccessorId,
                    answer: Option<bool>)
    requires RowsShow(before, successor, answer)
    ensures var after := SetVerdict(before, who, if accepted then Verified else Declined);
      Notified(before, who) ==> RowsShow(after, successor, if who == successor then Some(accepted) else answer)
  {
    var verdict := if accepted then Verified else Declined;
    SameRows(before, SetVerdict(before, who, verdict), successor);
    VerdictsAfter(before, who, verdict, successor);
  }

  lemma VerdictsAfter(before: seq<Notification>, who: SuccessorId, verdict: Verdict, successor: SuccessorId)
    ensures var after := SetVerdict(before, who, verdict);
      forall k :: 0 <= k < |after| && after[k].successor == successor ==>
        after[k].verdict == if who == successor then verdict else before[k].verdict
  {
  }

  lemma SameRows(before: seq<Notification>, after: seq<Notification>, successor: SuccessorId)
    requires |after| == |before| && forall k :: 0 <= k < |after| ==> after[k].successor == before[k].successor
    ensures Notified(after, successor) <==> Notified(before, successor)
  {
    if Notified(after, successor) {
      var k :| 0 <= k < |after| && after[k].successor == successor;
      assert before[k].successor == successor;
    }
    if Notified(before, successor) {
      var k :| 0 <= k < |before| && before[k].successor == successor;
      assert after[k].successor == successor;
    }
  }

  lemma ShowsExpire(s: State, id: nat, expired: nat, successor: SuccessorId, answer: Option<bool>)
    requires Shows(s, id, successor, answer)
    ensures Shows(ExpireGrace(s, expired), id, successor, answer)
  {
  }

  lemma ShowsNext(s: State, e: Event, id: nat, successor: SuccessorId, answer: Option<bool>)
    requires Enabled(s, e) && Shows(s, id, successor, answer)
    ensures Shows(Next(s, e), id, successor, if Records(s, e, id, successor) then Some(e.accepted) else answer)
  {
    match e
    case SuccessorResponse(_, _, _) => ShowsRespond(s, e, id, successor, answer);
    case MonitorExpire(expired) => ShowsExpire(s, id, expired, successor, answer);
    case _ =>
  }

  /** In every state of every run a successor's verdict is its last recorded answer, and
      pending when it has given none. */
  lemma {:induction false} VerdictIsLastAnswer(states: seq<State>, events: seq<Event>, i: nat, id: nat,
                                               successor: SuccessorId)
    requires Run(states, events) && i < |states|
    ensures Shows(states[i], id, successor, LastAnswer(states, events, i, id, successor))
  {
    if i > 0 {
      VerdictIsLastAnswer(states, events, i - 1, id, successor);
      ShowsNext(states[i - 1], events[i - 1], id, successor, LastAnswer(states, events, i - 1, id, successor));
    }
  }

  /** A successor gets access exactly when the owner's newest process is completed and the
      last answer the successor gave in it was to accept. */
  lemma AccessIsConsent(states: seq<State>, events: seq<Event>, i: nat, user: UserId, successor: SuccessorId)
    requires Run(states, events) && i < |states|
    ensures AccessDecision(states[i], user, successor).allowed <==>
      var latest := Latest(states[i].processes, user, false);
      latest.Some? && states[i].processes[latest.value].status == Completed
      && LastAnswer(states, events, i, latest.value, successor) == Some(true)
  {
    AccessCharacterised(states, events, i, user, successor);
    var latest := Latest(states[i].processes, user, false);
    if latest.Some? {
      VerdictIsLastAnswer(states, events, i, latest.value, successor);
      var rows := states[i].processes[latest.value].notifications;
      if HasAccepted(rows, successor) {
        var k :| 0 <= k < |rows| && rows[k] == Notification(successor, Verified);
        assert rows[k].verdict == VerdictFor(LastAnswer(states, events, i, latest.value, successor));
      }
    }
  }

  /** Whoever is asked was a successor of the owner when the grace period ran out, and everyone
      who was is asked. */
  lemma AskedAreSuccessors(s: State, id: nat, successor: SuccessorId)
    requires Invariant(s) && Enabled(s, MonitorExpire(id))
    ensures var t := Next(s, MonitorExpire(id));
      && t.processes[id].status == AwaitingSuccessors
      && (Notified(t.processes[id].notifications, successor) <==> successor in SuccessorsOf(s, s.processes[id].user))
      && Responded(t.processes[id].notifications) == 0
  {
    assert ProcessValid(s, id);
    var rows := Next(s, MonitorExpire(id)).processes[id].notifications;
    if successor in SuccessorsOf(s, s.processes[id].user) {
      var k :| 0 <= k < |rows| && SuccessorsOf(s, s.processes[id].user)[k] == successor;
      assert rows[k].successor == successor;
    }
    NoneResponded(rows);
  }

  lemma {:induction false} NoneResponded(rows: seq<Notification>)
    requires forall k :: 0 <= k < |rows| ==> rows[k].verdict == Pending
    ensures Responded(rows) == 0
  {
    if rows != [] {
      NoneResponded(rows[1..]);
    }
  }
}
