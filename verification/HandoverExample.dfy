/** Runs that happen: an owner with four successors stays away and two of them accept, counted with
    and without a majority; and a check-in that was not recorded. */
module HandoverExample {
  import opened Handover
  import opened HandoverProofs

  const OWNER: UserId := "owner"

  function Successors(): seq<SuccessorId> {
    ["a", "b", "c", "d"]
  }

  function Rows(a: Verdict, b: Verdict): seq<Notification> {
    [Notification("a", a), Notification("b", b), Notification("c", Pending), Notification("d", Pending)]
  }

  function Users(successors: seq<SuccessorId>, majority: bool): map<UserId, User> {
    map[OWNER := User(0, DEFAULT_THRESHOLD_MS, majority, successors)]
  }

  function Alone(grace: nat, now: int, successors: seq<SuccessorId>, majority: bool): State {
    State(now, grace, [], Users(successors, majority), [], map[OWNER := 0])
  }

  // One process, begun at the end of the threshold, waited milliseconds later.
  function WithProcess(grace: nat, majority: bool, waited: int, status: Status, rows: seq<Notification>): State {
    State(DEFAULT_THRESHOLD_MS + waited, grace,
          [Process(OWNER, status, DEFAULT_THRESHOLD_MS, DEFAULT_THRESHOLD_MS + grace, rows)],
          Users(Successors(), majority), [Basis(0, DEFAULT_THRESHOLD_MS, 0, majority)], map[OWNER := 0])
  }

  function EventAt(grace: nat, majority: bool, k: nat): Event {
    if k == 0 then Register(OWNER)
    else if k == 1 then SetSuccessors(OWNER, Successors())
    else if k == 2 then SetMajority(OWNER, majority)
    else if k == 3 then Tick(DEFAULT_THRESHOLD_MS)
    else if k == 4 then MonitorInitiate(OWNER, 0)
    else if k == 5 then Tick(grace)
    else if k == 6 then MonitorExpire(0)
    else SuccessorResponse(0, if k == 7 then "a" else "b", true)
  }

  // Two of four are enough unless a majority is asked for.
  function LastStatus(majority: bool): Status {
    if majority then AwaitingSuccessors else Completed
  }

  function Last(grace: nat, majority: bool): State {
    WithProcess(grace, majority, grace, LastStatus(majority), Rows(Verified, Verified))
  }

  function StateAt(grace: nat, majority: bool, k: nat): State {
    if k == 0 then Init(0, grace)
    else if k == 1 then Alone(grace, 0, [], false)
    else if k == 2 then Alone(grace, 0, Successors(), false)
    else if k == 3 then Alone(grace, 0, Successors(), majority)
    else if k == 4 then Alone(grace, DEFAULT_THRESHOLD_MS, Successors(), majority)
    else if k == 5 then WithProcess(grace, majority, 0, GracePeriod, [])
    else if k == 6 then WithProcess(grace, majority, grace, GracePeriod, [])
    else if k == 7 then WithProcess(grace, majority, grace, AwaitingSuccessors, Rows(Pending, Pending))
    else if k == 8 then WithProcess(grace, majority, grace, AwaitingSuccessors, Rows(Verified, Pending))
    else Last(grace, majority)
  }

  function First<T>(f: nat -> T, n: nat): (s: seq<T>)
    ensures |s| == n && forall i :: 0 <= i < n ==> s[i] == f(i)
  {
    seq(n, (k: nat) => f(k))
  }

  function EventOf(grace: nat, majority: bool): nat -> Event {
    (k: nat) => EventAt(grace, majority, k)
  }

  function StateOf(grace: nat, majority: bool): nat -> State {
    (k: nat) => StateAt(grace, majority, k)
  }

  function Events(grace: nat, majority: bool): seq<Event> {
    First(EventOf(grace, majority), 9)
  }

  function States(grace: nat, majority: bool): seq<State> {
    First(StateOf(grace, majority), 10)
  }

  ghost predicate StepsTo(s: State, e: Event, t: State) {
    Enabled(s, e) && t == Next(s, e)
  }

  lemma Prepared(grace: nat, majority: bool)
    ensures StepsTo(Init(0, grace), Register(OWNER), Alone(grace, 0, [], false))
    ensures StepsTo(Alone(grace, 0, [], false), SetSuccessors(OWNER, Successors()),
                    Alone(grace, 0, Successors(), false))
    ensures StepsTo(Alone(grace, 0, Successors(), false), SetMajority(OWNER, majority),
                    Alone(grace, 0, Successors(), majority))
    ensures StepsTo(Alone(grace, 0, Successors(), majority), Tick(DEFAULT_THRESHOLD_MS),
                    Alone(grace, DEFAULT_THRESHOLD_MS, Successors(), majority))
  {
  }

  lemma Initiated(grace: nat, majority: bool)
    ensures StepsTo(Alone(grace, DEFAULT_THRESHOLD_MS, Successors(), majority), MonitorInitiate(OWNER, 0),
                    WithProcess(grace, majority, 0, GracePeriod, []))
    ensures StepsTo(WithProcess(grace, majority, 0, GracePeriod, []), Tick(grace),
                    WithProcess(grace, majority, grace, GracePeriod, []))
  {
  }

  lemma Asked(grace: nat, majority: bool)
    ensures StepsTo(WithProcess(grace, majority, grace, GracePeriod, []), MonitorExpire(0),
                    WithProcess(grace, majority, grace, AwaitingSuccessors, Rows(Pending, Pending)))
  {
    assert PendingRows(Successors()) == Rows(Pending, Pending);
  }

  lemma Counts(a: Verdict, b: Verdict)
    ensures Accepted(Rows(a, b)) == (if a == Verified then 1 else 0) + (if b == Verified then 1 else 0)
    ensures Responded(Rows(a, b)) == (if a != Pending then 1 else 0) + (if b != Pending then 1 else 0)
  {
    var rest := Rows(a, b)[1..][1..];
    assert rest == [Notification("c", Pending), Notification("d", Pending)];
    assert rest[1..] == [Notification("d", Pending)] && rest[1..][1..] == [];
  }

  lemma FirstAnswer(grace: nat, majority: bool)
    ensures StepsTo(WithProcess(grace, majority, grace, AwaitingSuccessors, Rows(Pending, Pending)),
                    SuccessorResponse(0, "a", true),
                    WithProcess(grace, majority, grace, AwaitingSuccessors, Rows(Verified, Pending)))
  {
    Counts(Verified, Pending);
    assert Rows(Pending, Pending)[0].successor == "a";
    assert SetVerdict(Rows(Pending, Pending), "a", Verified) == Rows(Verified, Pending);
  }

  lemma SecondAnswer(grace: nat, majority: bool)
    ensures StepsTo(WithProcess(grace, majority, grace, AwaitingSuccessors, Rows(Verified, Pending)),
                    SuccessorResponse(0, "b", true), Last(grace, majority))
  {
    Counts(Verified, Verified);
    assert Rows(Verified, Pending)[1].successor == "b";
    assert SetVerdict(Rows(Verified, Pending), "b", Verified) == Rows(Verified, Verified);
  }

  lemma StepHolds(grace: nat, majority: bool, k: nat)
    requires k < 9
    ensures StepsTo(StateAt(grace, majority, k), EventAt(grace, majority, k), StateAt(grace, majority, k + 1))
  {
    if k < 4 {
      Prepared(grace, majority);
    } else if k < 6 {
      Initiated(grace, majority);
    } else if k == 6 {
      Asked(grace, majority);
    } else if k == 7 {
      FirstAnswer(grace, majority);
    } else {
      SecondAnswer(grace, majority);
    }
  }

  lemma IsRun(grace: nat, majority: bool)
    ensures Run(States(grace, majority), Events(grace, majority))
  {
    forall k: nat | k < 9
      ensures StepsTo(StateOf(grace, majority)(k), EventOf(grace, majority)(k), StateOf(grace, majority)(k + 1))
    {
      StepHolds(grace, majority, k);
    }
    FromSteps(StateOf(grace, majority), EventOf(grace, majority), 9);
  }

  lemma FromSteps(states: nat -> State, events: nat -> Event, n: nat)
    requires states(0) == Init(states(0).now, states(0).grace)
    requires forall k: nat :: k < n ==> StepsTo(states(k), events(k), states(k + 1))
    ensures Run(First(states, n + 1), First(events, n))
  {
    var s, e := First(states, n + 1), First(events, n);
    forall i | 0 <= i < |e|
      ensures Enabled(s[i], e[i]) && s[i + 1] == Next(s[i], e[i])
    {
      assert StepsTo(states(i), events(i), states(i + 1));
    }
  }

  lemma AccessAtEnd(grace: nat, majority: bool, now: bool)
    ensures var s := WithMajority(Last(grace, majority), OWNER, now);
      && (AccessDecision(s, OWNER, "a").allowed <==> !now)
      && !AccessDecision(s, OWNER, "c").allowed
  {
    Counts(Verified, Verified);
    var rows := Rows(Verified, Verified);
    assert rows[0] == Notification("a", Verified) && !HasAccepted(rows, "c");
  }

  lemma SameMajority(grace: nat, majority: bool)
    ensures WithMajority(Last(grace, majority), OWNER, majority) == Last(grace, majority)
  {
  }

  /** The protocol releases a vault: without a majority asked for, this run ends with the process
      completed and with access for a successor that accepted and not for one that did not; with
      it, the run ends waiting and with access for neither. */
  lemma Completes(grace: nat, majority: bool)
    ensures Run(States(grace, majority), Events(grace, majority))
    ensures States(grace, majority)[9] == Last(grace, majority)
    ensures var s := Last(grace, majority);
      && s.processes[0].status == (if majority then AwaitingSuccessors else Completed)
      && (AccessDecision(s, OWNER, "a").allowed <==> !majority)
      && !AccessDecision(s, OWNER, "c").allowed
  {
    IsRun(grace, majority);
    AccessAtEnd(grace, majority, majority);
    SameMajority(grace, majority);
  }

  /** Changing the setting afterwards takes the access away from a completed process, and gives it
      for one that is still waiting. */
  lemma ToggleChangesAccess(grace: nat, majority: bool)
    ensures Run(States(grace, majority), Events(grace, majority))
    ensures var s := States(grace, majority)[9];
      AccessDecision(WithMajority(s, OWNER, !majority), OWNER, "a").allowed
      <==> !AccessDecision(s, OWNER, "a").allowed
  {
    Completes(grace, majority);
    AccessAtEnd(grace, majority, !majority);
  }

  // ---- A check-in whose activity record failed

  function Once(status: Status): Process {
    Process(OWNER, status, DEFAULT_THRESHOLD_MS, DEFAULT_THRESHOLD_MS, [])
  }

  function Forgotten(processes: seq<Process>): State {
    State(DEFAULT_THRESHOLD_MS, 0, processes, Users([], false),
          seq(|processes|, _ => Basis(0, DEFAULT_THRESHOLD_MS, 0, false)), map[OWNER := 0])
  }

  function ForgottenEvent(k: nat): Event {
    if k == 0 then Register(OWNER)
    else if k == 1 then Tick(DEFAULT_THRESHOLD_MS)
    else if k == 3 then UserCancel(OWNER)
    else if k == 5 then MonitorExpire(1)
    else MonitorInitiate(OWNER, 0)
  }

  function ForgottenState(k: nat): State {
    if k == 0 then Init(0, 0)
    else if k == 1 then Alone(0, 0, [], false)
    else if k == 2 then Forgotten([])
    else if k == 3 then Forgotten([Once(GracePeriod)])
    else if k == 4 then Forgotten([Once(Cancelled)])
    else Forgotten([Once(Cancelled), Once(if k == 5 then GracePeriod else AwaitingSuccessors)])
  }

  /** Such a check-in cancels and is forgotten: the monitor may initiate at once, and with a grace
      period of zero successors are brought in without any time passing since. */
  lemma UnrecordedCheckIn()
    ensures Run(First(ForgottenStates(), 7), First(ForgottenEvents(), 6))
    ensures ForgottenEvent(3) == UserCancel(OWNER)
    ensures ForgottenState(6).now == ForgottenState(3).now == ForgottenState(0).now + DEFAULT_THRESHOLD_MS
    ensures ForgottenState(6).processes == [Once(Cancelled), Once(AwaitingSuccessors)]
  {
    forall k: nat | k < 6
      ensures StepsTo(ForgottenStates()(k), ForgottenEvents()(k), ForgottenStates()(k + 1))
    {
      ForgottenStep(k);
    }
    FromSteps(ForgottenStates(), ForgottenEvents(), 6);
  }

  function ForgottenStates(): nat -> State {
    (k: nat) => ForgottenState(k)
  }

  function ForgottenEvents(): nat -> Event {
    (k: nat) => ForgottenEvent(k)
  }

  lemma ForgottenStep(k: nat)
    requires k < 6
    ensures StepsTo(ForgottenState(k), ForgottenEvent(k), ForgottenState(k + 1))
  {
    var processes := [Once(Cancelled), Once(GracePeriod)];
    assert processes[..1] == [Once(Cancelled)] && [Once(Cancelled)][..0] == [];
    assert PendingRows([]) == [];
  }
}
