/** Refresh-token rotation. A rotation is two database statements, so other requests can
    come between its revocation of the old token and its insertion of the new one. */
module RefreshTokens {
  type UserId = nat

  // A signed token names its user; jti makes every generated token distinct.
  datatype Token = Token(user: UserId, jti: nat)

  // The token table: true while the token is not revoked.
  type Table = map<Token, bool>

  predicate IsActive(rows: Table, token: Token) {
    token in rows && rows[token]
  }

  function Stored(rows: Table, token: Token): Table {
    rows[token := true]
  }

  function Revoked(rows: Table, token: Token): Table {
    if token in rows then rows[token := false] else rows
  }

  function RevokedForUser(rows: Table, user: UserId): Table {
    map token | token in rows :: rows[token] && token.user != user
  }

  // ---- The service: each method is one database statement, Rotate is two

  class RefreshTokenService {
    var rows: Table

    constructor ()
      ensures rows == map[]
    {
      rows := map[];
    }

    // The unique hash column refuses a token that is there already.
    method Store(token: Token) returns (ok: bool)
      modifies this
      ensures ok <==> token !in old(rows)
      ensures rows == if ok then Stored(old(rows), token) else old(rows)
    {
      ok := token !in rows;
      if ok {
        rows := rows[token := true];
      }
    }

    method Revoke(token: Token) returns (revoked: bool)
      modifies this
      ensures revoked == IsActive(old(rows), token)
      ensures rows == Revoked(old(rows), token)
    {
      revoked := token in rows && rows[token];
      if revoked {
        rows := rows[token := false];
      }
    }

    method RevokeAllForUser(user: UserId)
      modifies this
      ensures rows == RevokedForUser(old(rows), user)
    {
      rows := map token | token in rows :: rows[token] && token.user != user;
    }

    // Without interference: exactly one of old and new is active afterwards, or nothing changed.
    method Rotate(oldToken: Token, newToken: Token) returns (rotated: bool)
      requires newToken !in rows
      modifies this
      ensures rotated == IsActive(old(rows), oldToken)
      ensures rows == if rotated then Stored(Revoked(old(rows), oldToken), newToken) else old(rows)
    {
      rotated := Revoke(oldToken);
      if !rotated {
        return;
      }
      rotated := Store(newToken);
    }
  }

  // ---- Interleaved requests

  // A rotation that has revoked its old token and not yet stored the new one.
  datatype Rotation = Rotation(oldToken: Token, newToken: Token)

  /** Besides the table and the rotations in flight: who logged in, every token ever put into
      circulation with the login it goes back to, and every rotation that won its revocation. */
  datatype State = State(rows: Table, flights: set<Rotation>,
                         logins: seq<UserId>, origin: map<Token, nat>, won: seq<Rotation>)

  datatype Event =
    | Login(token: Token)
    | BeginRotate(oldToken: Token, newToken: Token)
    | FinishRotate(rotation: Rotation)
    | AbortRotate(rotation: Rotation)
    | Logout(token: Token)
    | RevokeAll(user: UserId)
    | Purge(expired: set<Token>)

  // Generated tokens are fresh; the new token is for the user of the presented one.
  predicate Enabled(s: State, e: Event) {
    match e
    case Login(token) => token !in s.origin
    case BeginRotate(oldToken, newToken) =>
      newToken !in s.origin && newToken != oldToken && newToken.user == oldToken.user
    case FinishRotate(r) => r in s.flights
    case AbortRotate(r) => r in s.flights
    case Logout(_) => true
    case RevokeAll(_) => true
    case Purge(_) => true
  }

  function Next(s: State, e: Event): State
    requires Enabled(s, e)
  {
    match e
    case Login(token) =>
      s.(rows := Stored(s.rows, token), logins := s.logins + [token.user], origin := s.origin[token := |s.logins|])
    case BeginRotate(oldToken, newToken) => Begin(s, Rotation(oldToken, newToken))
    case FinishRotate(r) => s.(rows := Stored(s.rows, r.newToken), flights := s.flights - {r})
    case AbortRotate(r) => s.(flights := s.flights - {r})
    case Logout(token) => s.(rows := Revoked(s.rows, token))
    case RevokeAll(user) => s.(rows := RevokedForUser(s.rows, user))
    case Purge(expired) => s.(rows := s.rows - expired)
  }

  // The revocation decides: only the request that flips the old token goes on.
  function Begin(s: State, r: Rotation): State {
    if IsActive(s.rows, r.oldToken)
    then s.(rows := Revoked(s.rows, r.oldToken), flights := s.flights + {r},
            origin := s.origin[r.newToken := LoginOf(s, r.oldToken)], won := s.won + [r])
    else s
  }

  function LoginOf(s: State, token: Token): nat {
    if token in s.origin then s.origin[token] else 0
  }

  function Init(): State {
    State(map[], {}, [], map[], [])
  }

  ghost predicate Run(states: seq<State>, events: seq<Event>) {
    && |states| == |events| + 1
    && forall i :: 0 <= i < |events| ==> Enabled(states[i], events[i]) && states[i + 1] == Next(states[i], events[i])
  }

  // ---- What is kept

  // Active, or about to be stored by a rotation in flight.
  ghost predicate Live(s: State, token: Token) {
    IsActive(s.rows, token) || exists r :: r in s.flights && r.newToken == token
  }

  ghost predicate Circulated(s: State) {
    && (forall token :: token in s.rows ==> token in s.origin)
    && (forall token :: token in s.origin ==> s.origin[token] < |s.logins| && s.logins[s.origin[token]] == token.user)
    && (forall r :: r in s.flights ==> r.newToken in s.origin && r.newToken !in s.rows)
  }

  // A login is continued by one token at a time.
  ghost predicate OneLivePerLogin(s: State) {
    && (forall t, u ::
         Live(s, t) && Live(s, u) && t in s.origin && u in s.origin && s.origin[t] == s.origin[u] ==> t == u)
    && (forall r, q :: r in s.flights && q in s.flights && r.newToken == q.newToken ==> r == q)
  }

  ghost predicate OneSuccessor(s: State) {
    && (forall i :: 0 <= i < |s.won| ==> s.won[i].oldToken in s.origin && !Live(s, s.won[i].oldToken))
    && (forall i, j :: 0 <= i < j < |s.won| ==> s.won[i].oldToken != s.won[j].oldToken)
  }

  ghost predicate Invariant(s: State) {
    Circulated(s) && OneLivePerLogin(s) && OneSuccessor(s)
  }

  // The token that becomes live, if any, and the one that stops being live for it.
  predicate Gains(s: State, e: Event, token: Token) {
    match e
    case Login(t) => token == t
    case BeginRotate(oldToken, newToken) => token == newToken && IsActive(s.rows, oldToken)
    case _ => false
  }

  predicate Replaces(s: State, e: Event, token: Token) {
    e.BeginRotate? && token == e.oldToken && IsActive(s.rows, token)
  }

  lemma LiveNext(s: State, e: Event, token: Token)
    requires Invariant(s) && Enabled(s, e) && Live(Next(s, e), token)
    ensures Gains(s, e, token) || (Live(s, token) && !Replaces(s, e, token))
  {
  }

  lemma LiveCirculated(s: State, token: Token)
    requires Invariant(s) && Live(s, token)
    ensures token in s.origin
  {
  }

  lemma GainedIsFresh(s: State, e: Event, token: Token)
    requires Invariant(s) && Enabled(s, e) && Gains(s, e, token)
    ensures token !in s.origin && token in Next(s, e).origin
    ensures Next(s, e).origin[token] == |s.logins| ||
      (e.BeginRotate? && Live(s, e.oldToken) && Next(s, e).origin[token] == LoginOf(s, e.oldToken))
  {
  }

  lemma OriginKept(s: State, e: Event, token: Token)
    requires Enabled(s, e) && token in s.origin
    ensures token in Next(s, e).origin && Next(s, e).origin[token] == s.origin[token]
  {
  }

  lemma CirculatedNext(s: State, e: Event)
    requires Invariant(s) && Enabled(s, e)
    ensures Circulated(Next(s, e))
  {
    OriginsNext(s, e);
    FlightsNext(s, e);
  }

  lemma OriginsNext(s: State, e: Event)
    requires Invariant(s) && Enabled(s, e)
    ensures var n := Next(s, e);
      forall token :: token in n.origin ==>
        n.origin[token] < |n.logins| && n.logins[n.origin[token]] == token.user
  {
  }

  lemma FlightsNext(s: State, e: Event)
    requires Invariant(s) && Enabled(s, e)
    ensures var n := Next(s, e);
      forall r :: r in n.flights ==> r.newToken in n.origin && r.newToken !in n.rows
  {
  }

  lemma Unshared(s: State, e: Event, t: Token, u: Token)
    requires Invariant(s) && Enabled(s, e) && Live(Next(s, e), t) && Live(Next(s, e), u)
    requires LoginOf(Next(s, e), t) == LoginOf(Next(s, e), u)
    ensures t == u
  {
    LiveNext(s, e, t);
    LiveNext(s, e, u);
    if Gains(s, e, t) {
      GainedIsFresh(s, e, t);
      if !Gains(s, e, u) {
        LiveCirculated(s, u);
        OriginKept(s, e, u);
      }
    } else {
      LiveCirculated(s, t);
      OriginKept(s, e, t);
      if Gains(s, e, u) {
        GainedIsFresh(s, e, u);
      } else {
        LiveCirculated(s, u);
        OriginKept(s, e, u);
      }
    }
  }

  lemma NextInvariant(s: State, e: Event)
    requires Invariant(s) && Enabled(s, e)
    ensures Invariant(Next(s, e))
  {
    CirculatedNext(s, e);
    OneLiveNext(s, e);
    OneSuccessorNext(s, e);
  }

  lemma OneLiveNext(s: State, e: Event)
    requires Invariant(s) && Enabled(s, e)
    ensures OneLivePerLogin(Next(s, e))
  {
    var n := Next(s, e);
    forall t, u | Live(n, t) && Live(n, u) && t in n.origin && u in n.origin && n.origin[t] == n.origin[u]
      ensures t == u
    {
      Unshared(s, e, t, u);
    }
  }

  lemma OneSuccessorNext(s: State, e: Event)
    requires Invariant(s) && Enabled(s, e)
    ensures OneSuccessor(Next(s, e))
  {
    var n := Next(s, e);
    forall i | 0 <= i < |n.won|
      ensures n.won[i].oldToken in n.origin && !Live(n, n.won[i].oldToken)
    {
      var t := n.won[i].oldToken;
      if Live(n, t) {
        LiveNext(s, e, t);
      }
    }
  }

  // ---- Which tokens are active

  // The event stores the token.
  predicate Stores(e: Event, token: Token) {
    match e
    case Login(t) => t == token
    case FinishRotate(r) => r.newToken == token
    case _ => false
  }

  // The event takes the token out of use: it is presented, logged out or expired, or its user's are all revoked.
  predicate Ends(e: Event, token: Token) {
    match e
    case BeginRotate(oldToken, _) => oldToken == token
    case Logout(t) => t == token
    case RevokeAll(user) => token.user == user
    case Purge(expired) => token in expired
    case _ => false
  }

  /** Which tokens are active after a step: those it stores and those active before that it does not
      end. Other users' tokens survive the revocation of all tokens of one. What is revoked stays in the
      table; only the purge of expired tokens removes rows. */
  lemma ActiveNext(s: State, e: Event, token: Token)
    requires Enabled(s, e)
    ensures token in Next(s, e).rows <==>
      Stores(e, token) || (token in s.rows && !(e.Purge? && token in e.expired))
    ensures IsActive(Next(s, e).rows, token) <==> Stores(e, token) || (IsActive(s.rows, token) && !Ends(e, token))
  {
  }

  // The new token is active in place of the old one, every other as before.
  ghost predicate Replaced(before: Table, after: Table, r: Rotation) {
    forall token ::
      IsActive(after, token) <==> token == r.newToken || (token != r.oldToken && IsActive(before, token))
  }

  // The state once a rotation has gone through undisturbed.
  function Rotated(s: State, r: Rotation): State {
    var t := Begin(s, r);
    t.(rows := Stored(t.rows, r.newToken), flights := t.flights - {r})
  }

  lemma Exchanged(s: State, r: Rotation)
    requires Invariant(s) && IsActive(s.rows, r.oldToken) && Enabled(s, BeginRotate(r.oldToken, r.newToken))
    ensures var t := Next(s, BeginRotate(r.oldToken, r.newToken));
      Enabled(t, FinishRotate(r)) && Next(t, FinishRotate(r)) == Rotated(s, r)
    ensures LoginOf(Rotated(s, r), r.newToken) == LoginOf(s, r.oldToken)
    ensures Replaced(s.rows, Rotated(s, r).rows, r)
  {
  }

  /** A session goes on: a token stays active until it is presented, logged out, revoked or expired, and
      presented then, it is exchanged for one that is active in its place, for the same login. */
  lemma SessionContinues(states: seq<State>, events: seq<Event>, r: Rotation)
    requires Run(states, events) && Invariant(states[0]) && IsActive(states[0].rows, r.oldToken)
    requires forall i :: 0 <= i < |events| ==> !Ends(events[i], r.oldToken)
    requires Enabled(states[|events|], BeginRotate(r.oldToken, r.newToken))
    ensures var s := states[|events|];
      var t := Next(s, BeginRotate(r.oldToken, r.newToken));
      && IsActive(s.rows, r.oldToken)
      && Enabled(t, FinishRotate(r)) && var u := Next(t, FinishRotate(r));
      && LoginOf(u, r.newToken) == LoginOf(s, r.oldToken)
      && Replaced(s.rows, u.rows, r)
  {
    RunInvariant(states, events);
    StaysActive(states, events, r.oldToken);
    Exchanged(states[|events|], r);
  }

  lemma {:induction false} StaysActive(states: seq<State>, events: seq<Event>, token: Token)
    requires Run(states, events) && IsActive(states[0].rows, token)
    requires forall i :: 0 <= i < |events| ==> !Ends(events[i], token)
    ensures IsActive(states[|events|].rows, token)
    decreases |events|
  {
    if events != [] {
      var n := |events| - 1;
      StaysActive(states[..n + 1], events[..n], token);
      ActiveNext(states[n], events[n], token);
    }
  }

  // ---- Whole runs

  lemma {:induction false} RunInvariant(states: seq<State>, events: seq<Event>)
    requires Run(states, events) && Invariant(states[0])
    ensures Invariant(states[|events|])
    decreases |events|
  {
    if events != [] {
      var n := |events| - 1;
      RunInvariant(states[..n + 1], events[..n]);
      NextInvariant(states[n], events[n]);
    }
  }

  /** In every interleaving each token is exchanged for at most one successor, and each
      login is continued by at most one token, stored or in flight. */
  lemma EveryInterleaving(states: seq<State>, events: seq<Event>)
    requires Run(states, events) && states[0] == Init()
    ensures var s := states[|events|];
      && (forall i, j :: 0 <= i < j < |s.won| ==> s.won[i].oldToken != s.won[j].oldToken)
      && (forall t, u :: Live(s, t) && Live(s, u) && LoginOf(s, t) == LoginOf(s, u) ==> t == u)
      && (forall user, tokens :: AllLive(s, user, tokens) ==> |tokens| <= LoginCount(s.logins, user))
  {
    RunInvariant(states, events);
    var s := states[|events|];
    forall t, u | Live(s, t) && Live(s, u) && LoginOf(s, t) == LoginOf(s, u)
      ensures t == u
    {
      LiveCirculated(s, t);
      LiveCirculated(s, u);
    }
    forall user, tokens | AllLive(s, user, tokens)
      ensures |tokens| <= LoginCount(s.logins, user)
    {
      WithinLogins(s, user, tokens);
    }
  }

  ghost predicate AllLive(s: State, user: UserId, tokens: set<Token>) {
    forall t :: t in tokens ==> Live(s, t) && t.user == user
  }

  // The tokens go back to the first n logins.
  ghost predicate FromFirst(s: State, tokens: set<Token>, n: nat) {
    forall t :: t in tokens ==> LoginOf(s, t) < n
  }

  lemma WithinLogins(s: State, user: UserId, tokens: set<Token>)
    requires Invariant(s) && AllLive(s, user, tokens)
    ensures |tokens| <= LoginCount(s.logins, user)
  {
    forall t | t in tokens
      ensures LoginOf(s, t) < |s.logins|
    {
      LiveCirculated(s, t);
    }
    assert s.logins[..|s.logins|] == s.logins;
    LiveWithinLogins(s, user, tokens, |s.logins|);
  }

  function LoginCount(logins: seq<UserId>, user: UserId): nat {
    if logins == [] then 0
    else LoginCount(logins[..|logins| - 1], user) + if logins[|logins| - 1] == user then 1 else 0
  }

  // Only one of these live tokens goes back to the last login considered, and that is a login of the user.
  lemma OthersEarlier(s: State, user: UserId, tokens: set<Token>, t: Token, n: nat)
    requires Invariant(s) && n < |s.logins| && AllLive(s, user, tokens)
    requires t in tokens && LoginOf(s, t) == n && FromFirst(s, tokens, n + 1)
    ensures FromFirst(s, tokens - {t}, n) && AllLive(s, user, tokens - {t})
    ensures s.logins[n] == user
  {
    LiveCirculated(s, t);
    forall u | u in tokens - {t}
      ensures LoginOf(s, u) < n
    {
      LiveCirculated(s, u);
    }
  }

  // Live tokens of one user that go back to the first n logins are no more than those logins of the user.
  lemma {:induction false} LiveWithinLogins(s: State, user: UserId, tokens: set<Token>, n: nat)
    requires Invariant(s) && n <= |s.logins|
    requires AllLive(s, user, tokens) && FromFirst(s, tokens, n)
    ensures |tokens| <= LoginCount(s.logins[..n], user)
    decreases n
  {
    if n == 0 {
      assert tokens == {};
    } else {
      var m := n - 1;
      LoginCountNext(s.logins, user, m);
      if t :| t in tokens && LoginOf(s, t) == m {
        OthersEarlier(s, user, tokens, t, m);
        LiveWithinLogins(s, user, tokens - {t}, m);
      } else {
        LiveWithinLogins(s, user, tokens, m);
      }
    }
  }

  lemma LoginCountNext(logins: seq<UserId>, user: UserId, m: nat)
    requires m < |logins|
    ensures LoginCount(logins[..m + 1], user) == LoginCount(logins[..m], user) + if logins[m] == user then 1 else 0
  {
    assert logins[..m + 1][..m] == logins[..m];
  }

  /** A login whose token is spent, revoked or purged with no successor never comes back to life. */
  lemma {:induction false} EndedLoginStaysEnded(states: seq<State>, events: seq<Event>, login: nat)
    requires Run(states, events) && Invariant(states[0]) && login < |states[0].logins|
    requires forall t :: Live(states[0], t) ==> LoginOf(states[0], t) != login
    ensures Invariant(states[|events|]) && login < |states[|events|].logins|
    ensures forall t :: Live(states[|events|], t) ==> LoginOf(states[|events|], t) != login
    decreases |events|
  {
    if events != [] {
      var n := |events| - 1;
      EndedLoginStaysEnded(states[..n + 1], events[..n], login);
      NextInvariant(states[n], events[n]);
      StillEnded(states[n], events[n], login);
    }
  }

  lemma StillEnded(s: State, e: Event, login: nat)
    requires Invariant(s) && Enabled(s, e) && login < |s.logins|
    requires forall t :: Live(s, t) ==> LoginOf(s, t) != login
    ensures forall t :: Live(Next(s, e), t) ==> LoginOf(Next(s, e), t) != login
  {
    var next := Next(s, e);
    forall t | Live(next, t)
      ensures LoginOf(next, t) != login
    {
      LiveNext(s, e, t);
      if Gains(s, e, t) {
        GainedIsFresh(s, e, t);
      } else {
        LiveCirculated(s, t);
        OriginKept(s, e, t);
      }
    }
  }

  ghost predicate LiveLogin(s: State, login: nat) {
    exists t :: Live(s, t) && LoginOf(s, t) == login
  }

  /** Logging out with a token that was ever in circulation leaves its login no live token exactly
      when the token is active or the login had none anyway. */
  lemma LogoutEndsLogin(s: State, token: Token)
    requires Invariant(s) && token in s.origin
    ensures !LiveLogin(Next(s, Logout(token)), LoginOf(s, token))
      <==> IsActive(s.rows, token) || !LiveLogin(s, LoginOf(s, token))
  {
    var n, login := Next(s, Logout(token)), LoginOf(s, token);
    forall t
      ensures Live(n, t) <==> Live(s, t) && !(t == token && IsActive(s.rows, token))
      ensures Live(s, t) ==> t in s.origin
    {
      LiveAfterLogout(s, token, t);
      if Live(s, t) {
        LiveCirculated(s, t);
      }
    }
    if IsActive(s.rows, token) {
      assert Live(s, token);
    } else if LiveLogin(s, login) {
      var t :| Live(s, t) && LoginOf(s, t) == login;
      assert Live(n, t) && LoginOf(n, t) == login;
    }
  }

  lemma LiveAfterLogout(s: State, token: Token, t: Token)
    requires Invariant(s)
    ensures Live(Next(s, Logout(token)), t) <==> Live(s, t) && !(t == token && IsActive(s.rows, token))
  {
  }

  /** The exception is real: logging out with the old token in the middle of a rotation. */
  lemma LogoutMissesRotation() returns (states: seq<State>, events: seq<Event>)
    ensures Run(states, events) && states[0] == Init() && |events| == 4
    ensures events[0].Login? && events[2] == Logout(events[0].token) && !events[3].Login?
    ensures exists t: Token ::
      IsActive(states[4].rows, t) && LoginOf(states[4], t) == LoginOf(states[4], events[0].token)
  {
    var t, u := Token(0, 0), Token(0, 1);
    var s1 := Next(Init(), Login(t));
    var s2 := Next(s1, BeginRotate(t, u));
    var s3 := Next(s2, Logout(t));
    assert Rotation(t, u) in s3.flights;
    var s4 := Next(s3, FinishRotate(Rotation(t, u)));
    events := [Login(t), BeginRotate(t, u), Logout(t), FinishRotate(Rotation(t, u))];
    states := [Init(), s1, s2, s3, s4];
    assert IsActive(states[4].rows, u) && LoginOf(states[4], u) == LoginOf(states[4], events[0].token);
  }

  /** A spent or revoked token stays worthless: whatever happens, presenting it changes nothing. */
  lemma {:induction false} ReplayRejected(states: seq<State>, events: seq<Event>, token: Token, newToken: Token)
    requires Run(states, events) && Invariant(states[0])
    requires token in states[0].origin && !Live(states[0], token)
    ensures var s := states[|events|]; Invariant(s) && token in s.origin && !Live(s, token)
    ensures Begin(states[|events|], Rotation(token, newToken)) == states[|events|]
    decreases |events|
  {
    if events != [] {
      var n := |events| - 1;
      ReplayRejected(states[..n + 1], events[..n], token, newToken);
      NextInvariant(states[n], events[n]);
      OriginKept(states[n], events[n], token);
      if Live(states[n + 1], token) {
        LiveNext(states[n], events[n], token);
        GainedIsFresh(states[n], events[n], token);
      }
    }
  }

  // ---- Revoking all of a user's tokens

  ghost predicate AnyLive(s: State, user: UserId) {
    exists t :: Live(s, t) && t.user == user
  }

  /** Revoking all tokens of a user ends them all exactly when no rotation of the user is in flight. */
  lemma RevokeAllEndsAll(s: State, user: UserId)
    requires Invariant(s)
    ensures !AnyLive(Next(s, RevokeAll(user)), user) <==> forall r :: r in s.flights ==> r.newToken.user != user
  {
    var n := Next(s, RevokeAll(user));
    forall r | r in s.flights && r.newToken.user == user
      ensures AnyLive(n, user)
    {
      assert Live(n, r.newToken);
    }
  }

  /** From then on, without a login of the user, none of the user's tokens is live. */
  lemma {:induction false} StaysLoggedOut(states: seq<State>, events: seq<Event>, user: UserId)
    requires Run(states, events) && Invariant(states[0]) && !AnyLive(states[0], user)
    requires forall i :: 0 <= i < |events| ==> !(events[i].Login? && events[i].token.user == user)
    ensures Invariant(states[|events|]) && !AnyLive(states[|events|], user)
    decreases |events|
  {
    if events != [] {
      var n := |events| - 1;
      StaysLoggedOut(states[..n + 1], events[..n], user);
      NextInvariant(states[n], events[n]);
      forall t: Token | t.user == user
        ensures !Live(states[n + 1], t)
      {
        if Live(states[n + 1], t) {
          LiveNext(states[n], events[n], t);
          assert Live(states[n], if Gains(states[n], events[n], t) then events[n].oldToken else t);
        }
      }
    }
  }

  /** The exception is real: revoking everything in the middle of a rotation leaves an active token. */
  lemma RevokeAllMissesRotation() returns (states: seq<State>, events: seq<Event>)
    ensures Run(states, events) && states[0] == Init() && |events| == 4
    ensures events[0].Login? && events[2] == RevokeAll(events[0].token.user) && !events[3].Login?
    ensures exists t: Token :: t.user == events[0].token.user && IsActive(states[4].rows, t)
  {
    var t, u := Token(0, 0), Token(0, 1);
    var s1 := Next(Init(), Login(t));
    var s2 := Next(s1, BeginRotate(t, u));
    var s3 := Next(s2, RevokeAll(0));
    assert Rotation(t, u) in s3.flights;
    var s4 := Next(s3, FinishRotate(Rotation(t, u)));
    events := [Login(t), BeginRotate(t, u), RevokeAll(0), FinishRotate(Rotation(t, u))];
    states := [Init(), s1, s2, s3, s4];
    assert IsActive(s4.rows, u);
  }
}
