/** Realtime messages in a cluster of API instances: local delivery at once, the other
    instances through a publish/subscribe channel. */
module Realtime {
  import opened Sequences

  type UserId = nat
  type Socket = nat
  type Instance = nat

  // The connected sockets of one instance; a user without sockets has no entry.
  type Sockets = map<UserId, set<Socket>>

  // What was sent on each socket, as message numbers.
  type Inboxes = map<Socket, seq<nat>>

  function Register(sockets: Sockets, user: UserId, socket: Socket): Sockets {
    sockets[user := (if user in sockets then sockets[user] else {}) + {socket}]
  }

  function Unregister(sockets: Sockets, user: UserId, socket: Socket): Sockets {
    if user !in sockets then sockets
    else if sockets[user] - {socket} == {} then sockets - {user}
    else sockets[user := sockets[user] - {socket}]
  }

  function Recipients(sockets: Sockets, user: UserId, open: set<Socket>): set<Socket> {
    if user in sockets then sockets[user] * open else {}
  }

  function Inbox(inboxes: Inboxes, socket: Socket): seq<nat> {
    if socket in inboxes then inboxes[socket] else []
  }

  function Sent(inboxes: Inboxes, recipients: set<Socket>, message: nat): Inboxes {
    inboxes + map socket | socket in recipients :: Inbox(inboxes, socket) + [message]
  }

  // The sockets of one user at an instance.
  function At(sockets: Sockets, user: UserId): set<Socket> {
    if user in sockets then sockets[user] else {}
  }

  /** Registering adds one socket to its user's and takes none from anybody; unregistering removes it
      there and nowhere else, with the entry of a user left without sockets. */
  lemma RegistrationMeaning(sockets: Sockets, user: UserId, socket: Socket, other: UserId)
    ensures At(Register(sockets, user, socket), other) == At(sockets, other) + if other == user then {socket} else {}
    ensures At(Unregister(sockets, user, socket), other) == At(sockets, other) - if other == user then {socket} else {}
    ensures user in Unregister(sockets, user, socket) <==> At(sockets, user) - {socket} != {}
  {
  }

  /** A delivery appends the message for exactly the open sockets of the user. */
  lemma DeliveryMeaning(sockets: Sockets, inboxes: Inboxes, user: UserId, open: set<Socket>, message: nat,
                        socket: Socket)
    ensures Inbox(Sent(inboxes, Recipients(sockets, user, open), message), socket) ==
      Inbox(inboxes, socket) + if socket in At(sockets, user) && socket in open then [message] else []
  {
  }

  // ---- One instance

  class RealtimeService {
    const instanceId: Instance
    var clustered: bool
    var socketsByUser: Sockets
    var sent: Inboxes

    constructor (instanceId: Instance)
      ensures this.instanceId == instanceId && !clustered && socketsByUser == map[] && sent == map[]
    {
      this.instanceId, clustered, socketsByUser, sent := instanceId, false, map[], map[];
    }

    method RegisterSocket(user: UserId, socket: Socket)
      modifies this`socketsByUser
      ensures socketsByUser == Register(old(socketsByUser), user, socket)
    {
      var existing := if user in socketsByUser then socketsByUser[user] else {};
      socketsByUser := socketsByUser[user := existing + {socket}];
    }

    method UnregisterSocket(user: UserId, socket: Socket)
      modifies this`socketsByUser
      ensures socketsByUser == Unregister(old(socketsByUser), user, socket)
    {
      if user !in socketsByUser {
        return;
      }
      var sockets := socketsByUser[user] - {socket};
      socketsByUser := if sockets == {} then socketsByUser - {user} else socketsByUser[user := sockets];
    }

    method DeliverToLocalSockets(user: UserId, open: set<Socket>, message: nat)
      modifies this`sent
      ensures sent == Sent(old(sent), Recipients(socketsByUser, user, open), message)
    {
      if user !in socketsByUser {
        return;
      }
      var remaining := socketsByUser[user];
      ghost var served: set<Socket> := {};
      while remaining != {}
        invariant remaining <= socketsByUser[user] && served == (socketsByUser[user] - remaining) * open
        invariant sent == Sent(old(sent), served, message)
        decreases remaining
      {
        var socket :| socket in remaining;
        if socket in open {
          SentNext(old(sent), served, message, socket);
          sent := sent[socket := Inbox(sent, socket) + [message]];
          served := served + {socket};
        }
        remaining := remaining - {socket};
      }
      assert served == socketsByUser[user] * open;
    }

    // Local delivery first; the result says whether the message is also published.
    method BroadcastToUser(user: UserId, open: set<Socket>, message: nat) returns (published: bool)
      modifies this`sent
      ensures sent == Sent(old(sent), Recipients(socketsByUser, user, open), message) && published == clustered
    {
      DeliverToLocalSockets(user, open, message);
      published := clustered;
    }

    // The instance's own publications come back to it and are ignored.
    method HandleClusterMessage(originId: Instance, user: UserId, open: set<Socket>, message: nat)
      modifies this`sent
      ensures sent == if originId == instanceId then old(sent)
                      else Sent(old(sent), Recipients(socketsByUser, user, open), message)
    {
      if originId == instanceId {
        return;
      }
      DeliverToLocalSockets(user, open, message);
    }
  }

  lemma SentNext(inboxes: Inboxes, served: set<Socket>, message: nat, socket: Socket)
    requires socket !in served
    ensures var before := Sent(inboxes, served, message);
      Sent(inboxes, served + {socket}, message) == before[socket := Inbox(before, socket) + [message]]
  {
  }

  // ---- The cluster

  datatype Home = Home(instance: Instance, user: UserId)

  datatype Message = Message(origin: Instance, user: UserId)

  // A publication on its way to one subscribed instance.
  datatype Envelope = Envelope(instance: Instance, message: nat)

  /** Besides the instances: where each socket was registered, which are open, all messages so
      far, what is on its way or got lost, and which message was delivered at which instance. */
  datatype State = State(instances: map<Instance, Sockets>, clustered: set<Instance>, homes: map<Socket, Home>,
                         open: set<Socket>, messages: seq<Message>, channel: set<Envelope>, lost: set<Envelope>,
                         delivered: set<Envelope>, inboxes: Inboxes)

  datatype Event =
    | EnableClustering(instance: Instance)
    | Connect(instance: Instance, user: UserId, socket: Socket, stillOpen: bool)
    | Close(socket: Socket)
    | Disconnect(socket: Socket)
    | Broadcast(instance: Instance, user: UserId)
    | Arrive(envelope: Envelope)
    | Lose(envelope: Envelope)

  function SocketsOf(s: State, instance: Instance): Sockets {
    if instance in s.instances then s.instances[instance] else map[]
  }

  // A socket is registered once, possibly after it closed; the channel hands over what was published and not more.
  predicate Enabled(s: State, e: Event) {
    match e
    case Connect(_, _, socket, _) => socket !in s.homes
    case Disconnect(socket) => socket in s.homes
    case Arrive(envelope) => envelope in s.channel && envelope.message < |s.messages|
    case Lose(envelope) => envelope in s.channel
    case _ => true
  }

  function Next(s: State, e: Event): State
    requires Enabled(s, e)
  {
    match e
    case EnableClustering(i) => s.(clustered := s.clustered + {i})
    case Connect(i, u, k, stillOpen) =>
      s.(instances := s.instances[i := Register(SocketsOf(s, i), u, k)], homes := s.homes[k := Home(i, u)],
         open := if stillOpen then s.open + {k} else s.open)
    case Close(k) => s.(open := s.open - {k})
    case Disconnect(k) =>
      var h := s.homes[k];
      s.(instances := s.instances[h.instance := Unregister(SocketsOf(s, h.instance), h.user, k)])
    case Broadcast(i, u) =>
      var message := |s.messages|;
      var t := Deliver(s.(messages := s.messages + [Message(i, u)]), Envelope(i, message));
      if i in s.clustered then t.(channel := t.channel + set j | j in s.clustered :: Envelope(j, message)) else t
    case Arrive(envelope) =>
      var t := s.(channel := s.channel - {envelope});
      if s.messages[envelope.message].origin == envelope.instance then t else Deliver(t, envelope)
    case Lose(envelope) => s.(channel := s.channel - {envelope}, lost := s.lost + {envelope})
  }

  // Local delivery at one instance.
  function Deliver(s: State, e: Envelope): State
    requires e.message < |s.messages|
  {
    var recipients := Recipients(SocketsOf(s, e.instance), s.messages[e.message].user, s.open);
    s.(inboxes := Sent(s.inboxes, recipients, e.message), delivered := s.delivered + {e})
  }

  function Init(): State {
    State(map[], {}, map[], {}, [], {}, {}, {}, map[])
  }

  ghost predicate Run(states: seq<State>, events: seq<Event>) {
    && |states| == |events| + 1
    && forall i :: 0 <= i < |events| ==> Enabled(states[i], events[i]) && states[i + 1] == Next(states[i], events[i])
  }

  // ---- What is kept

  // Registered sockets are at home, and no user is left with an empty set.
  ghost predicate Housed(s: State) {
    forall i :: i in s.instances ==> HousedAt(s.instances[i], i, s.homes)
  }

  ghost predicate HousedAt(sockets: Sockets, i: Instance, homes: map<Socket, Home>) {
    forall u :: u in sockets ==>
      sockets[u] != {} && forall k :: k in sockets[u] ==> k in homes && homes[k] == Home(i, u)
  }

  // What is on its way to another instance was not delivered there yet.
  ghost predicate Pending(s: State) {
    && (forall e :: e in s.channel ==> e.message < |s.messages|)
    && (forall e :: e in s.delivered ==> e.message < |s.messages|)
    && (forall e :: e in s.channel && e.instance != s.messages[e.message].origin ==> e !in s.delivered)
  }

  // A socket holds only messages for its user that were delivered at its instance, none twice.
  ghost predicate Received(s: State) {
    forall k :: k in s.inboxes ==> ReceivedBy(s, k)
  }

  ghost predicate ReceivedBy(s: State, k: Socket)
    requires k in s.inboxes
  {
    && k in s.homes
    && (forall p :: 0 <= p < |s.inboxes[k]| ==> Fitting(s, s.homes[k], s.inboxes[k][p]))
    && Distinct(s.inboxes[k])
  }

  predicate Fitting(s: State, h: Home, message: nat) {
    message < |s.messages| && s.messages[message].user == h.user && Envelope(h.instance, message) in s.delivered
  }

  ghost predicate Invariant(s: State) {
    Housed(s) && Pending(s) && Received(s)
  }

  lemma DeliverKeeps(s: State, e: Envelope)
    requires Housed(s) && Received(s) && e.message < |s.messages| && e !in s.delivered
    ensures Received(Deliver(s, e))
  {
    forall k | k in Deliver(s, e).inboxes
      ensures ReceivedBy(Deliver(s, e), k)
    {
      DeliverKeepsAt(s, e, k);
    }
  }

  lemma DeliverKeepsAt(s: State, e: Envelope, k: Socket)
    requires Housed(s) && Received(s) && e.message < |s.messages| && e !in s.delivered
    requires k in Deliver(s, e).inboxes
    ensures ReceivedBy(Deliver(s, e), k)
  {
    assert k in s.inboxes ==> ReceivedBy(s, k);
  }

  lemma HousedRegister(sockets: Sockets, i: Instance, u: UserId, k: Socket, homes: map<Socket, Home>)
    requires HousedAt(sockets, i, homes) && k !in homes
    ensures HousedAt(Register(sockets, u, k), i, homes[k := Home(i, u)])
  {
  }

  lemma HousedUnregister(sockets: Sockets, i: Instance, u: UserId, k: Socket, homes: map<Socket, Home>)
    requires HousedAt(sockets, i, homes)
    ensures HousedAt(Unregister(sockets, u, k), i, homes)
  {
  }

  lemma HousedElsewhere(sockets: Sockets, i: Instance, k: Socket, h: Home, homes: map<Socket, Home>)
    requires HousedAt(sockets, i, homes) && k !in homes
    ensures HousedAt(sockets, i, homes[k := h])
  {
  }

  lemma HousedNext(s: State, e: Event)
    requires Invariant(s) && Enabled(s, e)
    ensures Housed(Next(s, e))
  {
    var n := Next(s, e);
    forall i | i in n.instances
      ensures HousedAt(n.instances[i], i, n.homes)
    {
      assert HousedAt(SocketsOf(s, i), i, s.homes);
      if e.Connect? && e.instance == i {
        HousedRegister(SocketsOf(s, i), i, e.user, e.socket, s.homes);
      } else if e.Connect? {
        HousedElsewhere(SocketsOf(s, i), i, e.socket, Home(e.instance, e.user), s.homes);
      } else if e.Disconnect? {
        HousedUnregister(SocketsOf(s, i), i, s.homes[e.socket].user, e.socket, s.homes);
      }
    }
  }

  lemma PendingNext(s: State, e: Event)
    requires Invariant(s) && Enabled(s, e)
    ensures Pending(Next(s, e))
  {
  }

  // More messages and other envelopes on their way take nothing from what was received.
  lemma ReceivedKept(s: State, t: State)
    requires Received(s) && t.inboxes == s.inboxes && t.delivered == s.delivered && s.messages <= t.messages
    requires forall k :: k in s.homes ==> k in t.homes && t.homes[k] == s.homes[k]
    ensures Received(t)
  {
    forall k | k in t.inboxes
      ensures ReceivedBy(t, k)
    {
      assert ReceivedBy(s, k);
    }
  }

  lemma ReceivedNext(s: State, e: Event)
    requires Invariant(s) && Enabled(s, e)
    ensures Received(Next(s, e))
  {
    match e
    case Broadcast(i, u) =>
      var t := s.(messages := s.messages + [Message(i, u)]);
      ReceivedKept(s, t);
      DeliverKeeps(t, Envelope(i, |s.messages|));
      ReceivedKept(Deliver(t, Envelope(i, |s.messages|)), Next(s, e));
    case Arrive(envelope) =>
      var t := s.(channel := s.channel - {envelope});
      ReceivedKept(s, t);
      if s.messages[envelope.message].origin != envelope.instance {
        DeliverKeeps(t, envelope);
      }
    case _ =>
      ReceivedKept(s, Next(s, e));
  }

  lemma NextInvariant(s: State, e: Event)
    requires Invariant(s) && Enabled(s, e)
    ensures Invariant(Next(s, e))
  {
    HousedNext(s, e);
    PendingNext(s, e);
    ReceivedNext(s, e);
  }

  // ---- Whole runs

  lemma {:induction false} RunInvariant(states: seq<State>, events: seq<Event>)
    requires Run(states, events) && states[0] == Init()
    ensures Invariant(states[|events|])
    decreases |events|
  {
    if events != [] {
      var n := |events| - 1;
      RunInvariant(states[..n + 1], events[..n]);
      NextInvariant(states[n], events[n]);
    }
  }

  function Count(messages: seq<nat>, message: nat): nat {
    if messages == [] then 0
    else Count(messages[..|messages| - 1], message) + if messages[|messages| - 1] == message then 1 else 0
  }

  lemma {:induction false} CountDistinct(messages: seq<nat>, message: nat)
    requires Distinct(messages)
    ensures Count(messages, message) == if message in messages then 1 else 0
  {
    if messages != [] {
      var n := |messages| - 1;
      CountDistinct(messages[..n], message);
      assert messages == messages[..n] + [messages[n]];
    }
  }

  /** In every interleaving no socket gets a message twice or one for another user, and no
      instance keeps an empty set of sockets. */
  lemma AtMostOnce(states: seq<State>, events: seq<Event>, socket: Socket, message: nat)
    requires Run(states, events) && states[0] == Init()
    ensures var s := states[|events|];
      && Count(Inbox(s.inboxes, socket), message) <= 1
      && (message in Inbox(s.inboxes, socket) ==>
           message < |s.messages| && socket in s.homes && s.messages[message].user == s.homes[socket].user)
      && (forall i, u :: i in s.instances && u in s.instances[i] ==> s.instances[i][u] != {})
  {
    RunInvariant(states, events);
    var s := states[|events|];
    if socket in s.inboxes {
      assert ReceivedBy(s, socket);
      CountDistinct(s.inboxes[socket], message);
    }
  }

  // Registered at its instance and open.
  ghost predicate Connected(s: State, socket: Socket, h: Home) {
    socket in At(SocketsOf(s, h.instance), h.user) && socket in s.open
  }

  // The message has reached the socket, or is on its way to the instance, or was lost on it.
  ghost predicate Accounted(s: State, socket: Socket, h: Home, message: nat) {
    && message < |s.messages| && s.messages[message].user == h.user
    && (message in Inbox(s.inboxes, socket) || Envelope(h.instance, message) in s.channel ||
        Envelope(h.instance, message) in s.lost)
    && (s.messages[message].origin == h.instance ==> message in Inbox(s.inboxes, socket))
  }

  lemma BroadcastAccounts(s: State, e: Event, socket: Socket, h: Home)
    requires Enabled(s, e) && e.Broadcast? && e.user == h.user && Connected(s, socket, h)
    requires e.instance == h.instance || {e.instance, h.instance} <= s.clustered
    ensures Accounted(Next(s, e), socket, h, |s.messages|)
  {
  }

  lemma AccountedNext(s: State, e: Event, socket: Socket, h: Home, message: nat)
    requires Enabled(s, e) && Connected(s, socket, h) && Accounted(s, socket, h, message)
    ensures Accounted(Next(s, e), socket, h, message)
  {
  }

  lemma {:induction false} AccountedLater(states: seq<State>, events: seq<Event>, socket: Socket, h: Home, message: nat)
    requires Run(states, events) && Accounted(states[0], socket, h, message)
    requires forall k :: 0 <= k < |events| ==> Connected(states[k], socket, h)
    ensures Accounted(states[|events|], socket, h, message)
    decreases |events|
  {
    if events != [] {
      var n := |events| - 1;
      AccountedLater(states[..n + 1], events[..n], socket, h, message);
      AccountedNext(states[n], events[n], socket, h, message);
    }
  }

  // Registered and open when the message is broadcast, and from then on.
  lemma ConnectedGetsOnce(states: seq<State>, events: seq<Event>, b: nat, socket: Socket, h: Home)
    requires Run(states, events) && states[0] == Init() && b < |events|
    requires events[b].Broadcast? && events[b].user == h.user
    requires events[b].instance == h.instance || {events[b].instance, h.instance} <= states[b].clustered
    requires forall k :: b <= k < |events| ==> Connected(states[k], socket, h)
    requires Envelope(h.instance, |states[b].messages|) !in states[|events|].channel
    requires Envelope(h.instance, |states[b].messages|) !in states[|events|].lost
    ensures Count(Inbox(states[|events|].inboxes, socket), |states[b].messages|) == 1
  {
    var message := |states[b].messages|;
    BroadcastAccounts(states[b], events[b], socket, h);
    AccountedLater(states[b + 1..], events[b + 1..], socket, h, message);
    RunInvariant(states, events);
    var s := states[|events|];
    assert ReceivedBy(s, socket);
    CountDistinct(s.inboxes[socket], message);
  }

  // The socket goes away: it closes or is taken from the register.
  predicate Leaves(e: Event, socket: Socket) {
    e == Close(socket) || e == Disconnect(socket)
  }

  /** A socket that connects is registered and open until it closes or is disconnected, whatever the
      others do. */
  lemma {:induction false} StaysConnected(states: seq<State>, events: seq<Event>, c: nat, j: nat, socket: Socket,
                                          h: Home)
    requires Run(states, events) && states[0] == Init() && c < j <= |events|
    requires events[c] == Connect(h.instance, h.user, socket, true)
    requires forall k :: c < k < j ==> !Leaves(events[k], socket)
    ensures Connected(states[j], socket, h)
    decreases j
  {
    var k := j - 1;
    assert Enabled(states[k], events[k]) && states[k + 1] == Next(states[k], events[k]);
    if c < k {
      StaysConnected(states, events, c, k, socket, h);
      InvariantAt(states, events, k);
      ConnectedNext(states[k], events[k], socket, h);
    }
  }

  lemma InvariantAt(states: seq<State>, events: seq<Event>, k: nat)
    requires Run(states, events) && states[0] == Init() && k <= |events|
    ensures Invariant(states[k])
  {
    RunInvariant(states[..k + 1], events[..k]);
  }

  lemma ConnectedNext(s: State, e: Event, socket: Socket, h: Home)
    requires Invariant(s) && Enabled(s, e) && Connected(s, socket, h) && !Leaves(e, socket)
    ensures Connected(Next(s, e), socket, h)
  {
    assert HousedAt(s.instances[h.instance], h.instance, s.homes);
    match e
    case Connect(i, u, k, _) => RegistrationMeaning(SocketsOf(s, i), u, k, h.user);
    case Disconnect(k) =>
      RegistrationMeaning(SocketsOf(s, s.homes[k].instance), s.homes[k].user, k, h.user);
    case _ =>
  }

  /** A socket that connects before a broadcast to its user and does not go away has got the message
      exactly once as soon as that is neither on its way to the socket's instance nor lost there. */
  lemma ExactlyOnce(states: seq<State>, events: seq<Event>, c: nat, b: nat, socket: Socket, h: Home)
    requires Run(states, events) && states[0] == Init() && c < b < |events|
    requires events[c] == Connect(h.instance, h.user, socket, true)
    requires forall k :: c < k < |events| ==> !Leaves(events[k], socket)
    requires events[b].Broadcast? && events[b].user == h.user
    requires events[b].instance == h.instance || {events[b].instance, h.instance} <= states[b].clustered
    requires Envelope(h.instance, |states[b].messages|) !in states[|events|].channel
    requires Envelope(h.instance, |states[b].messages|) !in states[|events|].lost
    ensures Count(Inbox(states[|events|].inboxes, socket), |states[b].messages|) == 1
  {
    forall k | b <= k < |events|
      ensures Connected(states[k], socket, h)
    {
      StaysConnected(states, events, c, k, socket, h);
    }
    ConnectedGetsOnce(states, events, b, socket, h);
  }

  // The socket is in nobody's set.
  ghost predicate Nowhere(s: State, socket: Socket) {
    forall i, u :: socket !in At(SocketsOf(s, i), u)
  }

  // Registered once, and now closed or in nobody's set.
  ghost predicate Gone(s: State, socket: Socket) {
    socket in s.homes && (socket !in s.open || Nowhere(s, socket))
  }

  lemma LeavingGoes(s: State, e: Event, socket: Socket)
    requires Invariant(s) && Enabled(s, e) && Leaves(e, socket) && socket in s.homes
    ensures Gone(Next(s, e), socket) && Next(s, e).inboxes == s.inboxes
    ensures e.Disconnect? ==> Nowhere(Next(s, e), socket)
  {
    if e.Disconnect? {
      forall i, u
        ensures socket !in At(SocketsOf(Next(s, e), i), u)
      {
        OnlyAtHome(s, socket, i, u);
      }
    }
  }

  lemma OnlyAtHome(s: State, socket: Socket, i: Instance, u: UserId)
    requires Housed(s) && socket in s.homes
    ensures socket in At(SocketsOf(s, i), u) ==> s.homes[socket] == Home(i, u)
  {
    if i in s.instances {
      assert HousedAt(s.instances[i], i, s.homes);
    }
  }

  lemma GoneNext(s: State, e: Event, socket: Socket)
    requires Enabled(s, e) && Gone(s, socket)
    ensures Gone(Next(s, e), socket) && Inbox(Next(s, e).inboxes, socket) == Inbox(s.inboxes, socket)
  {
    if Nowhere(s, socket) {
      NowhereNext(s, e, socket);
    }
    match e
    case Broadcast(i, u) =>
      DeliveryMeaning(SocketsOf(s, i), s.inboxes, u, s.open, |s.messages|, socket);
    case Arrive(envelope) =>
      DeliveryMeaning(SocketsOf(s, envelope.instance), s.inboxes, s.messages[envelope.message].user, s.open,
                      envelope.message, socket);
    case _ =>
  }

  lemma NowhereNext(s: State, e: Event, socket: Socket)
    requires Enabled(s, e) && socket in s.homes && Nowhere(s, socket)
    ensures Nowhere(Next(s, e), socket)
  {
    forall i, u
      ensures socket !in At(SocketsOf(Next(s, e), i), u)
    {
      assert socket !in At(SocketsOf(s, i), u);
    }
  }

  /** After it closed or was disconnected a socket is sent nothing any more. */
  lemma {:induction false} NothingAfterLeaving(states: seq<State>, events: seq<Event>, c: nat, j: nat, socket: Socket)
    requires Run(states, events) && states[0] == Init() && c < j <= |events|
    requires Leaves(events[c], socket) && socket in states[c].homes
    ensures Gone(states[j], socket) && Inbox(states[j].inboxes, socket) == Inbox(states[c].inboxes, socket)
    decreases j
  {
    var k := j - 1;
    assert Enabled(states[k], events[k]) && states[k + 1] == Next(states[k], events[k]);
    if c == k {
      InvariantAt(states, events, c);
      LeavingGoes(states[c], events[c], socket);
    } else {
      NothingAfterLeaving(states, events, c, k, socket);
      GoneNext(states[k], events[k], socket);
    }
  }

  // A run: two clustered instances, a socket at the second one, a broadcast at the first one that arrives.
  function DeliveryEvent(user: UserId, socket: Socket, k: nat): Event {
    if k < 2 then EnableClustering(k)
    else if k == 2 then Connect(1, user, socket, true)
    else if k == 3 then Broadcast(0, user)
    else Arrive(Envelope(1, 0))
  }

  function DeliveryState(user: UserId, socket: Socket, k: nat): State {
    var clustered := if k == 0 then {} else if k == 1 then {0} else {0, 1};
    if k < 3 then Init().(clustered := clustered)
    else State(map[1 := map[user := {socket}]], clustered, map[socket := Home(1, user)], {socket},
               if k == 3 then [] else [Message(0, user)],
               if k == 3 then {} else {Envelope(0, 0)} + if k == 4 then {Envelope(1, 0)} else {}, {},
               if k == 3 then {} else {Envelope(0, 0)} + if k == 4 then {} else {Envelope(1, 0)},
               if k < 5 then map[] else map[socket := [0]])
  }

  lemma DeliveryStep(user: UserId, socket: Socket, k: nat)
    requires k < 5
    ensures Enabled(DeliveryState(user, socket, k), DeliveryEvent(user, socket, k))
    ensures DeliveryState(user, socket, k + 1) == Next(DeliveryState(user, socket, k), DeliveryEvent(user, socket, k))
  {
    if k == 2 {
      Connects(user, socket);
    } else if k == 3 {
      Published(user, socket);
    } else if k == 4 {
      Arrived(user, socket);
    }
  }

  lemma Connects(user: UserId, socket: Socket)
    ensures DeliveryState(user, socket, 3) == Next(DeliveryState(user, socket, 2), Connect(1, user, socket, true))
  {
    var t := DeliveryState(user, socket, 3);
    var none: Sockets := map[];
    assert {} + {socket} == {socket} && none[user := {socket}] == map[user := {socket}];
    assert t.instances == map[1 := Register(none, user, socket)];
  }

  lemma Published(user: UserId, socket: Socket)
    ensures DeliveryState(user, socket, 4) == Next(DeliveryState(user, socket, 3), Broadcast(0, user))
  {
    var s, t := DeliveryState(user, socket, 3), DeliveryState(user, socket, 4);
    assert Sent(s.inboxes, {}, 0) == map[];
    assert t.channel == s.channel + set j | j in s.clustered :: Envelope(j, 0);
  }

  lemma Arrived(user: UserId, socket: Socket)
    ensures DeliveryState(user, socket, 5) == Next(DeliveryState(user, socket, 4), Arrive(Envelope(1, 0)))
  {
    var s, t := DeliveryState(user, socket, 4), DeliveryState(user, socket, 5);
    assert Recipients(SocketsOf(s, 1), user, s.open) == {socket};
    assert [] + [0] == [0] && Sent(s.inboxes, {socket}, 0) == t.inboxes;
    assert t.channel == s.channel - {Envelope(1, 0)};
  }

  /** Messages do arrive: in this run the socket gets what the other instance broadcast. */
  lemma DeliveryHappens(user: UserId, socket: Socket) returns (states: seq<State>, events: seq<Event>)
    ensures Run(states, events) && states[0] == Init()
    ensures events == [EnableClustering(0), EnableClustering(1), Connect(1, user, socket, true), Broadcast(0, user),
                       Arrive(Envelope(1, 0))]
    ensures Inbox(states[5].inboxes, socket) == [0]
  {
    states := seq(6, (k: nat) => DeliveryState(user, socket, k));
    events := seq(5, (k: nat) => DeliveryEvent(user, socket, k));
    forall k | 0 <= k < 5
      ensures Enabled(states[k], events[k]) && states[k + 1] == Next(states[k], events[k])
    {
      DeliveryStep(user, socket, k);
    }
  }
}
