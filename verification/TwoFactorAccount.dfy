/** Second-factor challenges against a user's row: replay protection by the last used
    step, recovery codes that are struck off when used. */
module TwoFactorAccount {
  import opened Wrappers
  import Base32
  import opened TwoFactor

  datatype Account = Account(enabled: bool, secret: Option<string>, recoveryCodes: seq<Hash>, lastUsedStep: Option<int>)

  datatype Reason =
    | Required
    | NotConfigured
    | InvalidCode
    | Replayed
    | InvalidRecoveryCode
    | StoredSecretBad
    | ClockTooEarly
    | WrongPassword

  datatype Outcome = StepUsed(step: int) | CodeUsed(index: nat) | Refused(reason: Reason) | NotChallenged

  // An empty string is an absent field.
  datatype Challenge = Challenge(twoFactorCode: string, recoveryCode: string)

  datatype Environment = Environment(hmac: Hmac, check: CodeCheck)

  // The index of the first hash from i on that the code has, or the number of hashes.
  function FindCode(check: CodeCheck, code: string, hashes: seq<Hash>, i: nat): (index: nat)
    requires i <= |hashes|
    ensures i <= index <= |hashes|
    ensures index < |hashes| ==> check(code, hashes[index])
    ensures forall k :: i <= k < index ==> !check(code, hashes[k])
    decreases |hashes| - i
  {
    if i == |hashes| || check(code, hashes[i]) then i else FindCode(check, code, hashes, i + 1)
  }

  function ReasonFor(e: TotpError): Reason {
    match e
    case BadSecret => StoredSecretBad
    case CounterOutOfRange => ClockTooEarly
  }

  function VerifyCode(env: Environment, a: Account, now: nat, code: string): (Account, Outcome) {
    if a.secret.None? || a.secret.value == "" then (a, Refused(NotConfigured))
    else
      match MatchingStep(env.hmac, a.secret.value, code, now)
      case Error(e) => (a, Refused(ReasonFor(e)))
      case Ok(None) => (a, Refused(InvalidCode))
      case Ok(Some(step)) =>
        if a.lastUsedStep.Some? && step <= a.lastUsedStep.value then (a, Refused(Replayed))
        else (a.(lastUsedStep := Some(step)), StepUsed(step))
  }

  function VerifyRecovery(env: Environment, a: Account, code: string): (Account, Outcome) {
    var index := FindCode(env.check, code, a.recoveryCodes, 0);
    if index == |a.recoveryCodes| then (a, Refused(InvalidRecoveryCode))
    else (a.(recoveryCodes := a.recoveryCodes[..index] + a.recoveryCodes[index + 1..]), CodeUsed(index))
  }

  function Verify(env: Environment, a: Account, now: nat, ch: Challenge): (Account, Outcome) {
    if ch.twoFactorCode != "" then VerifyCode(env, a, now, ch.twoFactorCode)
    else if ch.recoveryCode != "" then VerifyRecovery(env, a, ch.recoveryCode)
    else (a, Refused(Required))
  }

  function Cleared(): Account {
    Account(false, None, [], None)
  }

  function Disable(env: Environment, a: Account, now: nat, passwordValid: bool, ch: Challenge): (Account, Outcome) {
    if !passwordValid then (a, Refused(WrongPassword))
    else if !a.enabled then (Cleared(), NotChallenged)
    else
      var (b, outcome) := Verify(env, a, now, ch);
      if outcome.Refused? then (b, outcome) else (Cleared(), outcome)
  }

  // Enabling shows that the secret works; it does not use the step up.
  function Enable(env: Environment, a: Account, now: nat, code: string): (Account, Outcome) {
    if a.secret.None? || a.secret.value == "" then (a, Refused(NotConfigured))
    else
      match MatchingStep(env.hmac, a.secret.value, code, now)
      case Error(e) => (a, Refused(ReasonFor(e)))
      case Ok(None) => (a, Refused(InvalidCode))
      case Ok(Some(_)) => (a.(enabled := true), NotChallenged)
  }

  // ---- One user's row and the methods that update it

  class TwoFactorUser {
    var enabled: bool
    var secret: Option<string>
    var recoveryCodes: seq<Hash>
    var lastUsedStep: Option<int>

    ghost function View(): Account
      reads this
    {
      Account(enabled, secret, recoveryCodes, lastUsedStep)
    }

    constructor ()
      ensures View() == Cleared()
    {
      enabled, secret, recoveryCodes, lastUsedStep := false, None, [], None;
    }

    method CreateTwoFactorSetup(newSecret: string, hashedCodes: seq<Hash>)
      modifies this
      ensures View() == Account(false, Some(newSecret), hashedCodes, None)
    {
      enabled, secret, recoveryCodes, lastUsedStep := false, Some(newSecret), hashedCodes, None;
    }

    method VerifyTwoFactorChallenge(env: Environment, now: nat, ch: Challenge) returns (outcome: Outcome)
      modifies this
      ensures (View(), outcome) == Verify(env, old(View()), now, ch)
    {
      if ch.twoFactorCode == "" && ch.recoveryCode == "" {
        return Refused(Required);
      }
      if ch.twoFactorCode != "" {
        outcome := UseStep(env, now, ch.twoFactorCode);
        return;
      }
      var index := 0;
      while index < |recoveryCodes| && !env.check(ch.recoveryCode, recoveryCodes[index])
        invariant index <= |recoveryCodes|
        invariant FindCode(env.check, ch.recoveryCode, recoveryCodes, index)
               == FindCode(env.check, ch.recoveryCode, recoveryCodes, 0)
      {
        index := index + 1;
      }
      if index == |recoveryCodes| {
        return Refused(InvalidRecoveryCode);
      }
      recoveryCodes := recoveryCodes[..index] + recoveryCodes[index + 1..];
      outcome := CodeUsed(index);
    }

    method UseStep(env: Environment, now: nat, code: string) returns (outcome: Outcome)
      modifies this`lastUsedStep
      ensures (View(), outcome) == VerifyCode(env, old(View()), now, code)
    {
      if secret.None? || secret.value == "" {
        return Refused(NotConfigured);
      }
      var matched := GetMatchingTotpStep(env.hmac, secret.value, code, now);
      if matched.Error? {
        return Refused(ReasonFor(matched.error));
      }
      if matched.value.None? {
        return Refused(InvalidCode);
      }
      var usedStep := matched.value.value;
      if lastUsedStep.Some? && usedStep <= lastUsedStep.value {
        return Refused(Replayed);
      }
      lastUsedStep := Some(usedStep);
      outcome := StepUsed(usedStep);
    }

    method EnableTwoFactor(env: Environment, now: nat, code: string) returns (outcome: Outcome)
      modifies this`enabled
      ensures (View(), outcome) == Enable(env, old(View()), now, code)
    {
      if secret.None? || secret.value == "" {
        return Refused(NotConfigured);
      }
      var matched := GetMatchingTotpStep(env.hmac, secret.value, code, now);
      if matched.Error? {
        return Refused(ReasonFor(matched.error));
      }
      if matched.value.None? {
        return Refused(InvalidCode);
      }
      enabled := true;
      outcome := NotChallenged;
    }

    method DisableTwoFactor(env: Environment, now: nat, passwordValid: bool, ch: Challenge) returns (outcome: Outcome)
      modifies this
      ensures (View(), outcome) == Disable(env, old(View()), now, passwordValid, ch)
    {
      if !passwordValid {
        return Refused(WrongPassword);
      }
      outcome := NotChallenged;
      if enabled {
        outcome := VerifyTwoFactorChallenge(env, now, ch);
        if outcome.Refused? {
          return;
        }
      }
      enabled, secret, recoveryCodes, lastUsedStep := false, None, [], None;
    }
  }

  // ---- Whole histories of one user

  datatype Event =
    | Setup(secret: string, hashes: seq<Hash>)
    | EnableEvent(now: nat, code: string)
    | ChallengeEvent(now: nat, challenge: Challenge)
    | DisableEvent(now: nat, passwordValid: bool, challenge: Challenge)

  // Setup issues eight recovery codes.
  predicate Enabled(e: Event) {
    e.Setup? ==> |e.hashes| == RECOVERY_CODES
  }

  function Next(env: Environment, a: Account, e: Event): (Account, Outcome) {
    match e
    case Setup(secret, hashes) => (Account(false, Some(secret), hashes, None), NotChallenged)
    case EnableEvent(now, code) => Enable(env, a, now, code)
    case ChallengeEvent(now, ch) => Verify(env, a, now, ch)
    case DisableEvent(now, passwordValid, ch) => Disable(env, a, now, passwordValid, ch)
  }

  ghost predicate Run(env: Environment, accounts: seq<Account>, events: seq<Event>, outcomes: seq<Outcome>) {
    && |accounts| == |events| + 1 && |outcomes| == |events|
    && forall i :: 0 <= i < |events| ==> Step(env, accounts[i], events[i], accounts[i + 1], outcomes[i])
  }

  predicate Step(env: Environment, a: Account, e: Event, b: Account, outcome: Outcome) {
    Enabled(e) && Next(env, a, e) == (b, outcome)
  }

  // ---- Which codes are accepted

  // A secret is stored that can be decoded.
  predicate Usable(a: Account) {
    a.secret.Some? && a.secret.value != "" && Base32.Decoded(a.secret.value).Some?
  }

  // The codes of the stored secret.
  function StoredCodes(env: Environment, a: Account): int -> string
    requires Usable(a)
  {
    Codes(env.hmac, Base32.Decoded(a.secret.value).value)
  }

  // The code, spaces aside, is that of this step of the window under the stored secret.
  predicate Genuine(env: Environment, a: Account, now: nat, code: string, step: int) {
    && Usable(a) && TOTP_STEP_SECONDS <= now && InWindow(step, now)
    && StoredCodes(env, a)(step) == WithoutSpaces(code)
  }

  predicate NotUsedUp(a: Account, step: int) {
    a.lastUsedStep.Some? ==> a.lastUsedStep.value < step
  }

  /** A code is accepted as that of a step if and only if it is the code of the step under the stored
      secret, of no earlier one in the window, and the step is after the last used one. It is refused as
      wrong if and only if it is the code of no step of the window, and as used up in all other cases.
      An accepted code moves the last used step and nothing else, a refused one nothing at all. */
  lemma CodeAccepted(env: Environment, a: Account, now: nat, code: string, step: int)
    requires Usable(a) && TOTP_STEP_SECONDS <= now
    ensures var (b, outcome) := VerifyCode(env, a, now, code);
      var codes, c := StoredCodes(env, a), WithoutSpaces(code);
      && (outcome == StepUsed(step) <==> IsMatch(codes, c, now, Some(step)) && NotUsedUp(a, step))
      && (outcome == Refused(InvalidCode) <==> forall k :: InWindow(k, now) ==> codes(k) != c)
      && (outcome.StepUsed? || outcome == Refused(InvalidCode) || outcome == Refused(Replayed))
      && b == if outcome.StepUsed? then a.(lastUsedStep := Some(outcome.step)) else a
  {
    MatchingStepIsMatch(env.hmac, a.secret.value, code, now);
  }

  /** Without a secret that can be decoded, or before the second step of time, no code is accepted. */
  lemma NoCodeAccepted(env: Environment, a: Account, now: nat, code: string)
    requires !Usable(a) || now < TOTP_STEP_SECONDS
    ensures var (b, outcome) := VerifyCode(env, a, now, code);
      && b == a && outcome.Refused? && outcome.reason in {NotConfigured, InvalidCode, StoredSecretBad, ClockTooEarly}
      && (outcome.reason == NotConfigured <==> a.secret.None? || a.secret.value == "")
      && (outcome.reason == InvalidCode ==> |WithoutSpaces(code)| != 6 || !Digits(WithoutSpaces(code)))
  {
    if a.secret.Some? && Base32.Decoded(a.secret.value).Some? {
      MatchingStepIsMatch(env.hmac, a.secret.value, code, now);
    } else if a.secret.Some? {
      UnreadableSecret(env.hmac, a.secret.value, code, now);
    }
  }

  /** A challenge is asked for with a code or a recovery code, the code first: it is met if and only if
      the code given is genuine and not used up, or, without one, the recovery code has a stored hash. */
  lemma ChallengeMeaning(env: Environment, a: Account, now: nat, ch: Challenge)
    ensures var (b, outcome) := Verify(env, a, now, ch);
      && (outcome == Refused(Required) <==> ch.twoFactorCode == ch.recoveryCode == "")
      && (outcome.StepUsed? ==>
           && ch.twoFactorCode != "" && Genuine(env, a, now, ch.twoFactorCode, outcome.step)
           && NotUsedUp(a, outcome.step) && b == a.(lastUsedStep := Some(outcome.step)))
      && (outcome.CodeUsed? <==>
           && ch.twoFactorCode == "" && ch.recoveryCode != ""
           && exists i :: 0 <= i < |a.recoveryCodes| && env.check(ch.recoveryCode, a.recoveryCodes[i]))
      && (outcome.CodeUsed? ==> b == a.(recoveryCodes := b.recoveryCodes))
      && (!outcome.StepUsed? && !outcome.CodeUsed? ==> outcome.Refused? && b == a)
  {
    if ch.twoFactorCode != "" {
      if Usable(a) && TOTP_STEP_SECONDS <= now {
        var outcome := Verify(env, a, now, ch).1;
        CodeAccepted(env, a, now, ch.twoFactorCode, if outcome.StepUsed? then outcome.step else 0);
      } else {
        NoCodeAccepted(env, a, now, ch.twoFactorCode);
      }
    } else {
      FoundIff(env.check, ch.recoveryCode, a.recoveryCodes);
    }
  }

  /** Two-factor authentication is switched on if and only if some step of the window has the code under
      the stored secret; the step is not used up, and nothing else changes. */
  lemma EnableMeaning(env: Environment, a: Account, now: nat, code: string)
    ensures var (b, outcome) := Enable(env, a, now, code);
      && (outcome == NotChallenged <==> exists step :: Genuine(env, a, now, code, step))
      && (outcome.Refused? <==> outcome != NotChallenged)
      && b == if outcome == NotChallenged then a.(enabled := true) else a
  {
    if Usable(a) {
      MatchingStepIsMatch(env.hmac, a.secret.value, code, now);
      var r := MatchingStep(env.hmac, a.secret.value, code, now);
      if r.Ok? && r.value.Some? {
        assert now < TOTP_STEP_SECONDS ==> r.Error?;
        assert Genuine(env, a, now, code, r.value.value);
      }
      if step :| Genuine(env, a, now, code, step) {
        CodeShape(env.hmac, Base32.Decoded(a.secret.value).value, step);
      }
    } else if a.secret.Some? && a.secret.value != "" {
      UnreadableSecret(env.hmac, a.secret.value, code, now);
    }
  }

  /** In any history that begins without a secret, a step is used only by the code of that step under
      the secret of the last setup, with neither a setup nor a disabling since. */
  lemma UsedCodesAreGenuine(env: Environment, accounts: seq<Account>, events: seq<Event>, outcomes: seq<Outcome>,
                            j: nat) returns (i: nat)
    requires Run(env, accounts, events, outcomes) && accounts[0].secret.None?
    requires j < |events| && outcomes[j].StepUsed?
    ensures i < j && events[i].Setup? && forall k :: i < k < j ==> !Resets(events[k], outcomes[k])
    ensures accounts[j].secret == Some(events[i].secret)
    ensures (events[j].ChallengeEvent? || events[j].DisableEvent?)
    ensures Genuine(env, accounts[j], events[j].now, events[j].challenge.twoFactorCode, outcomes[j].step)
  {
    assert Step(env, accounts[j], events[j], accounts[j + 1], outcomes[j]);
    UsedIsGenuine(env, accounts[j], events[j], accounts[j + 1], outcomes[j]);
    i := SecretFromSetup(env, accounts, events, outcomes, j);
  }

  lemma UsedIsGenuine(env: Environment, a: Account, e: Event, b: Account, outcome: Outcome)
    requires Step(env, a, e, b, outcome) && outcome.StepUsed?
    ensures (e.ChallengeEvent? || e.DisableEvent?)
    ensures Genuine(env, a, e.now, e.challenge.twoFactorCode, outcome.step)
  {
    match e
    case ChallengeEvent(now, ch) => ChallengeMeaning(env, a, now, ch);
    case DisableEvent(now, _, ch) => ChallengeMeaning(env, a, now, ch);
    case EnableEvent(now, code) => EnableMeaning(env, a, now, code);
    case _ =>
  }

  lemma {:induction false} SecretFromSetup(env: Environment, accounts: seq<Account>, events: seq<Event>,
                                           outcomes: seq<Outcome>, j: nat) returns (i: nat)
    requires Run(env, accounts, events, outcomes) && accounts[0].secret.None?
    requires j <= |events| && accounts[j].secret.Some?
    ensures i < j && events[i].Setup? && accounts[j].secret == Some(events[i].secret)
    ensures forall k :: i < k < j ==> !Resets(events[k], outcomes[k])
    decreases j
  {
    var k := j - 1;
    assert Step(env, accounts[k], events[k], accounts[k + 1], outcomes[k]);
    SecretNext(env, accounts[k], events[k], accounts[j], outcomes[k]);
    if events[k].Setup? {
      i := k;
    } else {
      i := SecretFromSetup(env, accounts, events, outcomes, k);
    }
  }

  /** A setup starts over: what was stored before does not matter, two-factor authentication is off, and
      no code of the new secret counts as used up. */
  lemma SetupStartsOver(env: Environment, a: Account, e: Event, now: nat, code: string, step: int)
    requires e.Setup? && Enabled(e)
    ensures var b := Next(env, a, e).0;
      && !b.enabled && b.secret == Some(e.secret) && b.recoveryCodes == e.hashes && |b.recoveryCodes| == 8
      && VerifyCode(env, b, now, code).1 != Refused(Replayed)
      && (Usable(b) && TOTP_STEP_SECONDS <= now ==>
           (VerifyCode(env, b, now, code).1 == StepUsed(step)
            <==> IsMatch(StoredCodes(env, b), WithoutSpaces(code), now, Some(step))))
  {
    var b := Next(env, a, e).0;
    if Usable(b) && TOTP_STEP_SECONDS <= now {
      CodeAccepted(env, b, now, code, step);
    } else {
      NoCodeAccepted(env, b, now, code);
    }
  }

  // A setup stores its secret, a disabling removes it, nothing else touches it.
  lemma SecretNext(env: Environment, a: Account, e: Event, b: Account, outcome: Outcome)
    requires Step(env, a, e, b, outcome)
    ensures b.secret == if e.Setup? then Some(e.secret) else if Resets(e, outcome) then None else a.secret
  {
    match e
    case ChallengeEvent(now, ch) => ChallengeMeaning(env, a, now, ch);
    case DisableEvent(now, passwordValid, ch) => DisableGuarded(env, a, now, passwordValid, ch);
    case EnableEvent(now, code) => EnableMeaning(env, a, now, code);
    case _ =>
  }

  // ---- Steps

  // The event clears the last used step.
  predicate Resets(e: Event, outcome: Outcome) {
    e.Setup? || (e.DisableEvent? && !outcome.Refused?)
  }

  // A step is used only at its time and after the last one, and then becomes the last one.
  predicate Advances(a: Account, e: Event, b: Account, outcome: Outcome) {
    if outcome.StepUsed? then
      && (e.ChallengeEvent? || e.DisableEvent?) && InWindow(outcome.step, e.now)
      && (a.lastUsedStep.Some? ==> a.lastUsedStep.value < outcome.step)
      && (Resets(e, outcome) || b.lastUsedStep == Some(outcome.step))
    else
      Resets(e, outcome) || b.lastUsedStep == a.lastUsedStep
  }

  lemma StepAdvances(env: Environment, a: Account, e: Event, b: Account, outcome: Outcome)
    requires Step(env, a, e, b, outcome)
    ensures Advances(a, e, b, outcome)
  {
    if (e.ChallengeEvent? || e.DisableEvent?) && a.secret.Some? {
      MatchInWindow(env.hmac, a.secret.value, e.challenge.twoFactorCode, e.now);
    }
  }

  lemma MatchInWindow(hmac: Hmac, secret: string, token: string, now: nat)
    ensures var r := MatchingStep(hmac, secret, token, now);
      r.Ok? && r.value.Some? ==> InWindow(r.value.value, now)
  {
    var r := MatchingStep(hmac, secret, token, now);
    if r.Ok? && r.value.Some? {
      MatchingStepIsMatch(hmac, secret, token, now);
    }
  }

  // Since the use at i without a reset, the last used step is at least the one used there.
  lemma {:induction false} StepRemembered(accounts: seq<Account>, events: seq<Event>, outcomes: seq<Outcome>,
                                          i: nat, j: nat)
    requires |accounts| == |events| + 1 && |outcomes| == |events|
    requires i < j <= |events| && outcomes[i].StepUsed?
    requires forall k :: i <= k < j ==> Advances(accounts[k], events[k], accounts[k + 1], outcomes[k])
    requires forall k :: i <= k < j ==> !Resets(events[k], outcomes[k])
    ensures accounts[j].lastUsedStep.Some? && outcomes[i].step <= accounts[j].lastUsedStep.value
    decreases j
  {
    if i < j - 1 {
      StepRemembered(accounts, events, outcomes, i, j - 1);
    }
    assert Advances(accounts[j - 1], events[j - 1], accounts[j], outcomes[j - 1]);
  }

  /** Accepted steps strictly increase as long as two-factor authentication is neither set up
      again nor disabled, and each lies within one step of its own time. */
  lemma StepsIncrease(env: Environment, accounts: seq<Account>, events: seq<Event>, outcomes: seq<Outcome>,
                      i: nat, j: nat)
    requires Run(env, accounts, events, outcomes) && i < j < |events|
    requires outcomes[i].StepUsed? && outcomes[j].StepUsed?
    requires forall k :: i <= k < j ==> !Resets(events[k], outcomes[k])
    ensures outcomes[i].step < outcomes[j].step
    ensures (events[j].ChallengeEvent? || events[j].DisableEvent?) && InWindow(outcomes[j].step, events[j].now)
  {
    forall k | i <= k < j
      ensures Advances(accounts[k], events[k], accounts[k + 1], outcomes[k])
    {
      StepAdvances(env, accounts[k], events[k], accounts[k + 1], outcomes[k]);
    }
    StepRemembered(accounts, events, outcomes, i, j);
    StepAdvances(env, accounts[j], events[j], accounts[j + 1], outcomes[j]);
  }

  // Some step of the window that is not after the last used one has this code.
  ghost predicate UpToLastUsed(codes: int -> string, lastUsedStep: Option<int>, now: nat, code: string) {
    lastUsedStep.Some? && exists k :: InWindow(k, now) && k <= lastUsedStep.value && codes(k) == code
  }

  /** A code of a step after the last used one is accepted unless some step of the window that is
      not after the last used one has the same code: the earliest step with the code counts. */
  lemma FreshCodeAccepted(env: Environment, a: Account, now: nat, code: string, step: int)
    requires a.secret.Some? && a.secret.value != "" && Base32.Decoded(a.secret.value).Some?
    requires InWindow(step, now) && Codes(env.hmac, Base32.Decoded(a.secret.value).value)(step) == WithoutSpaces(code)
    requires a.lastUsedStep.Some? ==> a.lastUsedStep.value < step
    ensures VerifyCode(env, a, now, code).1.StepUsed? <==>
      now >= TOTP_STEP_SECONDS
      && !UpToLastUsed(Codes(env.hmac, Base32.Decoded(a.secret.value).value), a.lastUsedStep, now, WithoutSpaces(code))
  {
    MatchingStepIsMatch(env.hmac, a.secret.value, code, now);
    CodeShape(env.hmac, Base32.Decoded(a.secret.value).value, step);
  }

  // A digest that does not depend on key and step.
  function ConstantDigest(key: seq<nat>, step: int): Digest {
    seq(20, _ => 0)
  }

  /** Such a refusal happens: a fresh code whose digits are also those of the last used step. */
  lemma FreshCodeRefused() returns (env: Environment, a: Account, now: nat, code: string, step: int)
    ensures a.secret.Some? && a.secret.value != "" && Base32.Decoded(a.secret.value).Some?
    ensures InWindow(step, now) && Codes(env.hmac, Base32.Decoded(a.secret.value).value)(step) == WithoutSpaces(code)
    ensures a.lastUsedStep.Some? && a.lastUsedStep.value < step && now >= TOTP_STEP_SECONDS
    ensures VerifyCode(env, a, now, code).1 == Refused(Replayed)
  {
    Base32.RoundTrip([0]);
    Base32.EncodedNonEmpty([0]);
    var secret := Base32.Encoded([0]);
    env := Environment(ConstantDigest, (_, _) => false);
    now, step := 60, 2;
    a := Account(true, Some(secret), [], Some(1));
    code := GenerateTotp(ConstantDigest, [0], step);
    SameCodeFirst([0], code, now);
    MatchingStepIsMatch(ConstantDigest, secret, code, now);
  }

  // With the constant digest every code is that of the first step of the window.
  lemma SameCodeFirst(key: seq<nat>, code: string, now: nat)
    requires code == GenerateTotp(ConstantDigest, key, now / TOTP_STEP_SECONDS)
    ensures WithoutSpaces(code) == code && |code| == 6 && Digits(code)
    ensures forall k :: Codes(ConstantDigest, key)(k) == code
  {
    CodeShape(ConstantDigest, key, now / TOTP_STEP_SECONDS);
    DigitsHaveNoSpaces(code);
    forall k
      ensures Codes(ConstantDigest, key)(k) == code
    {
      assert ConstantDigest(key, k) == ConstantDigest(key, now / TOTP_STEP_SECONDS);
    }
  }

  // The event switches two-factor authentication off or starts it over, with what that takes.
  predicate SwitchesOff(e: Event, outcome: Outcome) {
    e.Setup? || (e.DisableEvent? && e.passwordValid && (outcome.StepUsed? || outcome.CodeUsed?))
  }

  /** Once enabled, two-factor authentication stays enabled with the same secret over any history
      in which there is neither a setup nor a disabling with the password and an accepted challenge. */
  lemma StaysEnabled(env: Environment, accounts: seq<Account>, events: seq<Event>, outcomes: seq<Outcome>,
                     i: nat, j: nat)
    requires Run(env, accounts, events, outcomes) && i <= j <= |events| && accounts[i].enabled
    requires forall k :: i <= k < j ==> !SwitchesOff(events[k], outcomes[k])
    ensures accounts[j].enabled && accounts[j].secret == accounts[i].secret
  {
    forall k | i <= k < j
      ensures Keeps(accounts[k], accounts[k + 1])
    {
      if accounts[k].enabled {
        EnabledNext(env, accounts[k], events[k], accounts[k + 1], outcomes[k]);
      }
    }
    KeptThroughout(accounts, i, j);
  }

  predicate Keeps(a: Account, b: Account) {
    a.enabled ==> b.enabled && b.secret == a.secret
  }

  lemma {:induction false} KeptThroughout(accounts: seq<Account>, i: nat, j: nat)
    requires i <= j < |accounts| && accounts[i].enabled
    requires forall k :: i <= k < j ==> Keeps(accounts[k], accounts[k + 1])
    ensures accounts[j].enabled && accounts[j].secret == accounts[i].secret
    decreases j
  {
    if i < j {
      KeptThroughout(accounts, i, j - 1);
      assert Keeps(accounts[j - 1], accounts[j]);
    }
  }

  /** A step switches an enabled second factor off if and only if it is a setup or a disabling with the
      password and an accepted challenge; every other step also keeps the secret. */
  lemma EnabledNext(env: Environment, a: Account, e: Event, b: Account, outcome: Outcome)
    requires Step(env, a, e, b, outcome) && a.enabled
    ensures !b.enabled <==> SwitchesOff(e, outcome)
    ensures b.enabled ==> b.secret == a.secret
  {
  }

  /** A refused attempt to disable changes nothing; any other ends with nothing stored. The password
      comes first, then, only while enabled, the challenge. */
  lemma DisableGuarded(env: Environment, a: Account, now: nat, passwordValid: bool, ch: Challenge)
    ensures var (b, outcome) := Disable(env, a, now, passwordValid, ch);
      && (outcome.Refused? <==> !passwordValid || (a.enabled && Verify(env, a, now, ch).1.Refused?))
      && (outcome == Refused(WrongPassword) <==> !passwordValid)
      && (passwordValid && a.enabled ==> outcome == Verify(env, a, now, ch).1)
      && (passwordValid && !a.enabled ==> outcome == NotChallenged)
      && b == if outcome.Refused? then a else Account(false, None, [], None)
  {
    ChallengeMeaning(env, a, now, ch);
  }

  // ---- Recovery codes

  function CodeUses(outcomes: seq<Outcome>): nat {
    if outcomes == [] then 0
    else CodeUses(outcomes[..|outcomes| - 1]) + if outcomes[|outcomes| - 1].CodeUsed? then 1 else 0
  }

  /** A recovery code works exactly when one of the stored hashes is its own, and then that
      one hash, and nothing else, is struck off. */
  lemma CodeStruckOff(env: Environment, a: Account, code: string)
    ensures var (b, outcome) := VerifyRecovery(env, a, code);
      && (outcome.CodeUsed? <==> exists i :: 0 <= i < |a.recoveryCodes| && env.check(code, a.recoveryCodes[i]))
      && (!outcome.CodeUsed? ==> b == a)
      && (outcome.CodeUsed? ==> StruckOff(a, b, outcome.index) && env.check(code, a.recoveryCodes[outcome.index]))
      && (outcome.CodeUsed? ==> forall k :: 0 <= k < outcome.index ==> !env.check(code, a.recoveryCodes[k]))
  {
    var index := FindCode(env.check, code, a.recoveryCodes, 0);
    FoundIff(env.check, code, a.recoveryCodes);
    if index < |a.recoveryCodes| {
      StrikeOff(a, index);
    }
  }

  lemma StrikeOff(a: Account, index: nat)
    requires index < |a.recoveryCodes|
    ensures StruckOff(a, a.(recoveryCodes := a.recoveryCodes[..index] + a.recoveryCodes[index + 1..]), index)
  {
    RemoveOne(a.recoveryCodes, index);
  }

  lemma FoundIff(check: CodeCheck, code: string, hashes: seq<Hash>)
    ensures FindCode(check, code, hashes, 0) < |hashes| <==> exists i :: 0 <= i < |hashes| && check(code, hashes[i])
  {
    var index := FindCode(check, code, hashes, 0);
    if index < |hashes| {
      assert check(code, hashes[index]);
    }
  }

  lemma RemoveOne(codes: seq<Hash>, i: nat)
    requires i < |codes|
    ensures multiset(codes) == multiset(codes[..i] + codes[i + 1..]) + multiset{codes[i]}
  {
    assert codes == codes[..i] + ([codes[i]] + codes[i + 1..]);
  }

  ghost predicate StruckOff(a: Account, b: Account, index: nat) {
    && index < |a.recoveryCodes| && b == a.(recoveryCodes := b.recoveryCodes)
    && multiset(a.recoveryCodes) == multiset(b.recoveryCodes) + multiset{a.recoveryCodes[index]}
    && forall k :: 0 <= k < |b.recoveryCodes| ==>
         k + 1 < |a.recoveryCodes| && b.recoveryCodes[k] == a.recoveryCodes[if k < index then k else k + 1]
  }

  // The hashes a step strikes off, at most one.
  function Struck(a: Account, outcome: Outcome): multiset<Hash> {
    if outcome.CodeUsed? && outcome.index < |a.recoveryCodes| then multiset{a.recoveryCodes[outcome.index]}
    else multiset{}
  }

  // What is struck off was there, and nothing comes back but by a setup.
  ghost predicate Spends(a: Account, e: Event, b: Account, outcome: Outcome) {
    if e.Setup? then b.recoveryCodes == e.hashes && !outcome.CodeUsed? else SpendsOwn(a, b, outcome)
  }

  ghost predicate SpendsOwn(a: Account, b: Account, outcome: Outcome) {
    && InRange(a, outcome)
    && multiset(b.recoveryCodes) + Struck(a, outcome) <= multiset(a.recoveryCodes)
  }

  lemma RecoverySpends(env: Environment, a: Account, code: string)
    ensures SpendsOwn(a, VerifyRecovery(env, a, code).0, VerifyRecovery(env, a, code).1)
  {
    CodeStruckOff(env, a, code);
  }

  lemma CodeSpendsNone(env: Environment, a: Account, now: nat, code: string)
    ensures SpendsOwn(a, VerifyCode(env, a, now, code).0, VerifyCode(env, a, now, code).1)
  {
    var (b, outcome) := VerifyCode(env, a, now, code);
    assert b.recoveryCodes == a.recoveryCodes && Struck(a, outcome) == multiset{};
  }

  lemma VerifySpends(env: Environment, a: Account, now: nat, ch: Challenge)
    ensures SpendsOwn(a, Verify(env, a, now, ch).0, Verify(env, a, now, ch).1)
  {
    if ch.twoFactorCode != "" {
      CodeSpendsNone(env, a, now, ch.twoFactorCode);
    } else if ch.recoveryCode != "" {
      RecoverySpends(env, a, ch.recoveryCode);
    }
  }

  lemma StepSpends(env: Environment, a: Account, e: Event, b: Account, outcome: Outcome)
    requires Step(env, a, e, b, outcome)
    ensures Spends(a, e, b, outcome)
  {
    match e
    case ChallengeEvent(now, ch) => VerifySpends(env, a, now, ch);
    case DisableEvent(now, _, ch) => DisableSpends(env, a, now, e.passwordValid, ch);
    case _ =>
  }

  lemma DisableSpends(env: Environment, a: Account, now: nat, passwordValid: bool, ch: Challenge)
    ensures SpendsOwn(a, Disable(env, a, now, passwordValid, ch).0, Disable(env, a, now, passwordValid, ch).1)
  {
    VerifySpends(env, a, now, ch);
    DisableGuarded(env, a, now, passwordValid, ch);
  }

  // The hashes struck off from step i on, before step j.
  ghost function StruckBetween(accounts: seq<Account>, outcomes: seq<Outcome>, i: nat, j: nat): multiset<Hash>
    requires i <= j <= |outcomes| <= |accounts|
    decreases j
  {
    if i == j then multiset{}
    else StruckBetween(accounts, outcomes, i, j - 1) + Struck(accounts[j - 1], outcomes[j - 1])
  }

  lemma {:induction false} SpentSince(accounts: seq<Account>, events: seq<Event>, outcomes: seq<Outcome>,
                                      i: nat, j: nat)
    requires |accounts| == |events| + 1 && |outcomes| == |events| && i < j <= |events| && events[i].Setup?
    requires forall k :: i <= k < j ==> Spends(accounts[k], events[k], accounts[k + 1], outcomes[k])
    requires forall k :: i < k < j ==> !events[k].Setup?
    ensures StruckBetween(accounts, outcomes, i, j) + multiset(accounts[j].recoveryCodes) <= multiset(events[i].hashes)
    decreases j
  {
    assert Spends(accounts[j - 1], events[j - 1], accounts[j], outcomes[j - 1]);
    if i < j - 1 {
      SpentSince(accounts, events, outcomes, i, j - 1);
      Conserve(StruckBetween(accounts, outcomes, i, j - 1), Struck(accounts[j - 1], outcomes[j - 1]),
               multiset(accounts[j].recoveryCodes), multiset(accounts[j - 1].recoveryCodes),
               multiset(events[i].hashes));
    }
  }

  lemma Conserve(used: multiset<Hash>, struck: multiset<Hash>, left: multiset<Hash>, before: multiset<Hash>,
                 issued: multiset<Hash>)
    requires left + struck <= before && used + before <= issued
    ensures used + struck + left <= issued
  {
  }

  lemma {:induction false} StruckAreUses(accounts: seq<Account>, outcomes: seq<Outcome>, i: nat, j: nat)
    requires i <= j <= |outcomes| <= |accounts|
    requires forall k :: i <= k < j ==> InRange(accounts[k], outcomes[k])
    ensures |StruckBetween(accounts, outcomes, i, j)| == CodeUses(outcomes[i..j])
    decreases j
  {
    if i == j {
      NoUses(outcomes, i);
    } else {
      StruckAreUses(accounts, outcomes, i, j - 1);
      UsesNext(outcomes, i, j);
      StruckSize(accounts[j - 1], outcomes[j - 1]);
    }
  }

  lemma NoUses(outcomes: seq<Outcome>, i: nat)
    requires i <= |outcomes|
    ensures CodeUses(outcomes[i..i]) == 0
  {
  }

  lemma UsesNext(outcomes: seq<Outcome>, i: nat, j: nat)
    requires i < j <= |outcomes|
    ensures CodeUses(outcomes[i..j]) == CodeUses(outcomes[i..j - 1]) + if outcomes[j - 1].CodeUsed? then 1 else 0
  {
    assert outcomes[i..j][..j - i - 1] == outcomes[i..j - 1];
  }

  lemma StruckSize(a: Account, outcome: Outcome)
    requires InRange(a, outcome)
    ensures |Struck(a, outcome)| == if outcome.CodeUsed? then 1 else 0
  {
  }

  predicate InRange(a: Account, outcome: Outcome) {
    outcome.CodeUsed? ==> outcome.index < |a.recoveryCodes|
  }

  /** From one setup to the next, every issued hash is used at most as often as it was issued,
      and uses and codes left together never exceed the eight issued. */
  lemma RecoveryCodesBounded(env: Environment, accounts: seq<Account>, events: seq<Event>, outcomes: seq<Outcome>,
                             i: nat, j: nat)
    requires Run(env, accounts, events, outcomes) && i < j <= |events|
    requires events[i].Setup? && forall k :: i < k < j ==> !events[k].Setup?
    ensures StruckBetween(accounts, outcomes, i, j) + multiset(accounts[j].recoveryCodes) <= multiset(events[i].hashes)
    ensures CodeUses(outcomes[i..j]) + |accounts[j].recoveryCodes| <= 8
  {
    forall k | i <= k < j
      ensures Spends(accounts[k], events[k], accounts[k + 1], outcomes[k]) && InRange(accounts[k], outcomes[k])
    {
      StepSpends(env, accounts[k], events[k], accounts[k + 1], outcomes[k]);
    }
    SpentSince(accounts, events, outcomes, i, j);
    StruckAreUses(accounts, outcomes, i, j);
    assert Step(env, accounts[i], events[i], accounts[i + 1], outcomes[i]);
    SubsetSize(StruckBetween(accounts, outcomes, i, j), multiset(accounts[j].recoveryCodes),
               multiset(events[i].hashes));
  }

  lemma SubsetSize(used: multiset<Hash>, left: multiset<Hash>, issued: multiset<Hash>)
    requires used + left <= issued
    ensures |used| + |left| <= |issued|
  {
    assert issued == (used + left) + (issued - (used + left));
  }

  // Before any setup there is no code to use.
  lemma {:induction false} NoCodesBeforeSetup(env: Environment, accounts: seq<Account>, events: seq<Event>,
                                              outcomes: seq<Outcome>, j: nat)
    requires Run(env, accounts, events, outcomes) && accounts[0].recoveryCodes == [] && j <= |events|
    requires forall k :: 0 <= k < j ==> !events[k].Setup?
    ensures accounts[j].recoveryCodes == [] && CodeUses(outcomes[..j]) == 0
    decreases j
  {
    if j > 0 {
      NoCodesBeforeSetup(env, accounts, events, outcomes, j - 1);
      StepSpends(env, accounts[j - 1], events[j - 1], accounts[j], outcomes[j - 1]);
      assert outcomes[..j][..j - 1] == outcomes[..j - 1];
      assert |multiset(accounts[j].recoveryCodes)| == |accounts[j].recoveryCodes|;
    }
  }
}
