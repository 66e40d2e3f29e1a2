# HandoverKey: a verified model

HandoverKey keeps a vault encrypted under a key that its owner splits among successors. When
the owner stays away long enough, a handover starts; once enough successors accept, they may
combine their shares. This project models the parts of the system that carry that promise and
proves what they keep:

- **Secret sharing** (`Shamir`, `SecretSharing`, `SharingContract`, over `Modular`, `Polynomial`, `Lagrange`,
  `ModInverse`, `Bytes`). Splitting and reconstruction over the integers modulo 2^256 - 189:
  reconstruction is exact, and fewer shares than the threshold say nothing.
- **The handover protocol** (`Handover`, `HandoverProofs`, `HandoverSteps`, `HandoverConsent`,
  `HandoverExample`, `Orchestrator`, `InactivityMonitor`).
  A state machine over process rows, responses, check-ins and the clock; the orchestrator's
  methods are proved to take its steps, and the theorems hold in every state of every run.
- **The two together** (`EndToEnd`). With one majority setting for the split and for the process,
  what the server releases is exactly what the accepting successors can open; with two, it is stated
  when it still is.
- **Codecs and custody** (`BitStream`, `Symbols`, `Base32`, `Base64`, `ShareCustody`,
  `SharePassphrase`).
- **Credentials and rewrites** (`TwoFactor`, `TwoFactorAccount`, `RefreshTokens`, `VaultTable`,
  `PasswordChange`, `VaultImport`, `Realtime`, `ConcurrentChallenges`).

Code that loops or updates fields is a method or a class proved against a specification
function; the properties are lemmas about that function and about runs.

## What the proofs found

Each property that fails for some input is stated with its exact condition, most of them beside a
lemma that shows such an input.

- **Secrets over 255 bytes.** The length is stored in one byte of a share
  (packages/crypto/src/shamir.ts:151). For everything `splitSecret` accepts, reconstruction returns
  the secret if and only if it has at most 255 bytes (`SecretSharing.RoundTrip`); longer ones are
  possible with leading zeros only, and 256 zero bytes come back as none
  (`SecretSharing.LongSecretLost`).
- **A length byte of 0 counts as not seen.** Shares with one may come before shares with another
  length and are not noticed (packages/crypto/src/shamir.ts:206-210).
  `SecretSharing.ReconstructAccepts` states exactly what is accepted,
  `SecretSharing.ZeroLengthUnnoticed` gives two such shares.
- **The monitor does not initiate.** At 100 % of the threshold the status is reported as grace
  period even when no process exists (apps/api/src/services/activity-service.ts:376-377), and the
  monitor skips initiation on that status (apps/api/src/services/inactivity-monitor.ts:248-251).
  `InactivityMonitor.InitiatesIff` gives the exact condition; with downtime records that do not
  end before they start it never holds. Initiation is therefore a permitted step of the state
  machine, guarded by the monitor's own threshold test, and only safety is claimed.
- **README.md:213-218 of the repository** describes a different rule for a process in which all
  responded and too few accepted. The code makes it EXPIRED
  (apps/api/src/services/handover-orchestrator.ts:297-302); the model follows the code.
- **Changing the majority setting while a process is open** moves the recomputed threshold.
  `HandoverProofs.ToggleEffect` says exactly for whom access changes (nobody with up to three
  successors); `HandoverExample.ToggleChangesAccess` gives runs with four in which it does, one way
  and the other.
- **Changing it between the split and the process** leaves shares that do not fit the count.
  `EndToEnd.OtherSettingAtSplit` says exactly when the released shares still give the key, and
  `EndToEnd.HiddenUnderOtherSetting` when the key is still hidden without a release;
  `EndToEnd.OtherSettingFails` and `EndToEnd.OpenBeforeRelease` are inputs for either failure.
- **Revoking all refresh tokens, or logging out, during a rotation** misses the token that rotation
  is about to store. `RefreshTokens.RevokeAllEndsAll` and `RefreshTokens.LogoutEndsLogin` give the
  exact conditions, `RefreshTokens.RevokeAllMissesRotation` and `RefreshTokens.LogoutMissesRotation`
  runs that show it.
- **A check-in whose activity record fails** still cancels (the failure is swallowed,
  apps/api/src/services/user-service.ts:527-530), but the monitor then counts from the activity before
  it: `HandoverProofs.NeverEarly` is about recorded check-ins, `HandoverExample.UnrecordedCheckIn` is a
  run without one.
- **Challenges that overlap** can use one time step or one recovery code twice, exactly when each alone
  would use it: `ConcurrentChallenges.SameStepIff`, `ConcurrentChallenges.SameCodeIff`. All other
  statements about challenges take them one after the other.
- **A new two-factor setup switches an enabled second factor off**, with neither password nor code
  (apps/api/src/services/user-service.ts:255-262); `TwoFactorAccount.EnabledNext` says which steps do.
- **Importing the same entries twice** is repeatable only under conditions: `VaultImport.ImportTwice`
  is an equivalence. An entry without id is added again (`VaultImport.UnnamedAddedAgain`), and a
  merge that names an own row in upper case fails (`VaultImport.UpperCaseConflicts`), because ids
  are compared as strings by the service and as UUIDs by the database.
- **An empty salt does not survive export and import**: `VaultImport.ExportRestores` is an
  equivalence, `VaultImport.EmptySaltLost` a row that is changed.
- **A fresh one-time code is refused** exactly when a step of the same window that is not after the
  last used one, used itself or not, has the same digits: `TwoFactorAccount.FreshCodeAccepted`, with
  `TwoFactorAccount.FreshCodeRefused` as an instance.

## How the model reads the system

- Numbers are unbounded; JavaScript's truncated BigInt remainder is `Shamir.Rem`, the 32-bit
  accumulator of the Base32 codec wraps in `BitStream.Shift`, byte stores wrap modulo 256.
  Shifting and or-ing a byte into a BigInt is multiplication by 256 and addition. Arguments have
  the types that TypeScript declares: no fractions where integers are meant, no NaN.
- Randomness, generated ids, the clock, bcrypt, HMAC, key derivation and authenticated
  encryption are parameters. What is assumed of a cipher is stated as a predicate
  (`Cipher.Inverts`, `Cipher.Authenticates`). That the modulus is prime is not assumed: it has no
  divisor from 2 to 255, and that is all the code relies on.
- Tables are sequences or maps. A handover row holds its notification rows and is named by its
  position; "latest" is the newest in creation order
  (packages/database/src/repositories/handover-process-repository.ts:48-88). `Basis`,
  `lastCheckIn`, `origin`, `won`, `delivered` and the like are history, read by no operation.
- Each orchestrator method is one step and sees one instant; the grace period is a parameter;
  majority rule and successors change only while no process of the owner is active or completed
  and newest. Percentages are over the reals. A refresh-token rotation is two steps, so that others
  can come between.
- A transaction that fails leaves the tables as they were. Base64 fields of vault requests are
  decoded before the row logic. The database stores ids in lower case, whatever spelling was sent.
- Except in the `EndToEnd` lemmas about another setting (`OtherSettingAtSplit`, `OtherSettingFails`,
  `HiddenUnderOtherSetting`, `OpenBeforeRelease`), shares are taken to be split with the majority
  setting in force when the process was initiated.

## Model

| member | source | states |
|---|---|---|
| Bytes.BytesToBigInt | packages/crypto/src/shamir.ts:70-76 | the loop computes the big-endian value of the bytes |
| Bytes.BigIntToBytes | packages/crypto/src/shamir.ts:81-91 | the backward loop yields the low-order bytes of the value, in a given length |
| Bytes.BytesOfValue | packages/crypto/src/shamir.ts:70-91 | fixed-length encoding undoes decoding, leading zeros included |
| Bytes.ValueOfBytes | packages/crypto/src/shamir.ts:70-91 | decoding undoes encoding for every value that fits the length |
| ModInverse.Invert | packages/crypto/src/shamir.ts:24-35 | extended Euclid terminates; one correction by m brings the result into [0, m), and it is an inverse if and only if a and m are coprime |
| ModInverse.CoefficientBound | packages/crypto/src/shamir.ts:24-35 | the Bezout coefficient stays below m in absolute value, so that a single correction suffices |
| Shamir.SmallFactorFree | packages/crypto/src/shamir.ts:8 | the modulus has no divisor from 2 to 255 |
| Shamir.DistinctBytesDiffer | packages/crypto/src/shamir.ts:40-65 | differences of distinct one-byte x coordinates are units, so every denominator is invertible |
| Shamir.RepairSound | packages/crypto/src/shamir.ts:51-58 | adding the modulus once repairs the sign of a truncated remainder |
| Shamir.EvaluatePolynomial | packages/crypto/src/shamir.ts:13-19 | Horner's loop computes the polynomial's value modulo the prime |
| Shamir.LagrangeInterpolation | packages/crypto/src/shamir.ts:40-65 | with truncated remainders throughout, the nested loops return the constant term of the interpolating polynomial, reduced |
| Shamir.LagrangeSumIsSecret | packages/crypto/src/shamir.ts:40-65 | the mathematical Lagrange sum at 0 is the constant term |
| Shamir.SecretIsLagrangeSum | packages/crypto/src/shamir.ts:40-65 | and the constant term is a Lagrange sum: for any distinct one-byte x, not only for split output |
| Shamir.SecretOfPolynomial | packages/crypto/src/shamir.ts:40-65 | every polynomial with no more coefficients than points through the points has that constant term |
| Shamir.SecretPermutes | packages/crypto/src/shamir.ts:40-65 | the order of the shares does not matter |
| Polynomial.InterpolantUnique | packages/crypto/src/shamir.ts:40-65 | two reduced polynomials of n coefficients that agree at n points with unit differences are equal |
| Polynomial.Interpolate | packages/crypto/src/shamir.ts:40-65 | there is a reduced polynomial of n coefficients through any n points with unit differences |
| Lagrange.WeightedSum | packages/crypto/src/shamir.ts:40-65 | Lagrange weights at 0 applied to the values of a polynomial give its constant term |
| SecretSharing.SplitSecret | packages/crypto/src/shamir.ts:102-158 | the method, with its checks in order, its coefficients and its 34-byte shares, returns what the split function says |
| SecretSharing.ReconstructSecret | packages/crypto/src/shamir.ts:169-226 | the parsing loop with its length sentinel, duplicate check and error order returns what the reconstruction function says |
| SecretSharing.ScanMeaning | packages/crypto/src/shamir.ts:193-213 | a scan that succeeds has seen only 34-byte shares and ends with the last share's length byte |
| SecretSharing.ReconstructAccepts | packages/crypto/src/shamir.ts:169-219 | exactly which shares are accepted: with 0 as "unset", zero length bytes may come before the first other one |
| SharingContract.SplitCanBeUndone | packages/crypto/src/shamir.ts:102-226 | a split is accepted if and only if the secret is not empty and below the prime and 2 <= threshold <= total <= 255, and all its shares give the secret back if and only if the length fits a byte |
| SharingContract.SplitRefusals | packages/crypto/src/shamir.ts:107-133 | which error a refused split gets |
| SharingContract.ShareLayout | packages/crypto/src/shamir.ts:136-158 | share i is the byte i + 1, the length byte and 32 bytes of the value at i + 1 of secret and drawn coefficients |
| SharingContract.NeverWrongBytes | packages/crypto/src/shamir.ts:169-226 | asked for the number that it was split for, any shares of a split give the secret or an error, the secret exactly for enough different ones |
| SharingContract.ReconstructMeaning | packages/crypto/src/shamir.ts:193-226 | accepted shares give the constant term of any short enough polynomial through them, in the length of the last one |
| SharingContract.ReconstructRefusals | packages/crypto/src/shamir.ts:169-219 | which error refused shares get |
| SecretSharing.RoundTrip | packages/crypto/src/shamir.ts:102-226 | any selection of at least the threshold of distinct shares, in any order, reconstructs the secret if and only if it has at most 255 bytes |
| SecretSharing.LongSecretLost | packages/crypto/src/shamir.ts:151 | 256 zero bytes are accepted and reconstructed as no bytes |
| SecretSharing.ZeroLengthUnnoticed | packages/crypto/src/shamir.ts:206-210 | two shares with length bytes 0 and 5 that are accepted |
| SecretSharing.HiddenIff | packages/crypto/src/shamir.ts:102-158 | shares are also those of any other given secret of the length if and only if they are fewer than the threshold |
| SecretSharing.AlwaysReconstructsIff | packages/crypto/src/shamir.ts:102-226 | two or more shares give the secret whatever was drawn if and only if they reach the threshold and its length fits the byte |
| SecretSharing.PerfectSecrecy | packages/crypto/src/shamir.ts:135-158 | for every candidate secret exactly one coefficient vector explains threshold - 1 given points |
| SecretSharing.DrawsAreArbitrary | packages/crypto/src/shamir.ts:136-141 | every coefficient vector is drawn by some random bytes |
| SecretSharing.DrawsPerCoefficient | packages/crypto/src/shamir.ts:138-139 | a coefficient below 189 comes from exactly two of the 32-byte draws, every other one from exactly one |
| SecretSharing.AllButOneRevealNothing | packages/crypto/src/shamir.ts:102-158 | threshold - 1 shares, byte for byte, are also shares of any other secret of that length |
| SecretSharing.SharesRevealNothing | packages/crypto/src/shamir.ts:102-158 | the same for any number of shares below the threshold |
| Handover.Latest | packages/database/src/repositories/handover-process-repository.ts:48-88 | the newest process of a user, or the newest active one, and nothing newer qualifies |
| Orchestrator.HandoverOrchestrator.InitiateHandover | apps/api/src/services/handover-orchestrator.ts:76-134 | an active process is returned as it is, otherwise one grace-period process is created |
| Orchestrator.HandoverOrchestrator.CancelHandover | apps/api/src/services/handover-orchestrator.ts:139-205 | the active process becomes CANCELLED; without one nothing changes |
| Orchestrator.HandoverOrchestrator.ManualCheckIn | apps/api/src/controllers/activity-controller.ts:49-74 | a check-in records activity, unless that fails, and cancels the active process either way |
| Orchestrator.HandoverOrchestrator.ProcessSuccessorResponse | apps/api/src/services/handover-orchestrator.ts:212-324 | a response of a notified successor is stored and the status recomputed; anything else changes nothing |
| Orchestrator.HandoverOrchestrator.ProcessGracePeriodExpiration | apps/api/src/services/handover-orchestrator.ts:347-422 | only a process in grace period moves on, with one pending row for each successor unless it has rows |
| Orchestrator.HandoverOrchestrator.MonitorActiveHandovers | apps/api/src/services/inactivity-service.ts:49-72 | a pass, which a failure may end early, expires every process it reaches whose grace period is over |
| Orchestrator.MonitorPass | apps/api/src/services/inactivity-service.ts:49-72 | exactly which processes a pass changes, however far it came |
| Orchestrator.InterruptedPass | apps/api/src/services/inactivity-service.ts:69-71 | the processes that a pass cut short did not reach are handled by the next one that goes through |
| Orchestrator.NoneOverdue | apps/api/src/services/inactivity-service.ts:49-72 | a pass that goes through leaves no overdue process behind |
| Orchestrator.HandoverOrchestrator.GetSuccessorAccessDecision | apps/api/src/services/handover-orchestrator.ts:481-553 | the decision with its counts and threshold, from the newest process and the setting in force |
| HandoverProofs.NextInvariant | apps/api/src/services/handover-orchestrator.ts:76-422 | every step keeps the counting, timing and at-most-one-active invariant |
| HandoverProofs.RunInvariant | apps/api/src/services/handover-orchestrator.ts:76-422 | so it holds in every state of every run |
| HandoverProofs.AtMostOneActive | apps/api/src/services/handover-orchestrator.ts:76-102 | a user never has two active processes |
| HandoverProofs.ThresholdRespected | apps/api/src/services/handover-orchestrator.ts:231-314 | awaiting means fewer than K accepted and someone pending, completed means exactly K, cancelled after notification means fewer than K, expired means all responded with fewer than K |
| HandoverProofs.TerminalForever | apps/api/src/services/handover-orchestrator.ts:231-242 | a completed, cancelled or expired process and its rows never change again |
| HandoverSteps.ThresholdMeaning | apps/api/src/services/handover-orchestrator.ts:55-65 | with a majority the least number above half, otherwise two, or everybody when fewer; also for one successor and none |
| HandoverSteps.ResponseStep | apps/api/src/services/handover-orchestrator.ts:212-324 | an answer completes the process if and only if the acceptances reach the number needed, lets it expire if and only if they do not and nobody is pending, and otherwise leaves the status; only that successor's verdict changes |
| HandoverSteps.ResponseOutcomes | apps/api/src/services/handover-orchestrator.ts:212-250 | what the successor is told, and that only a recorded answer changes anything |
| HandoverSteps.StatusNext | apps/api/src/services/handover-orchestrator.ts:76-422 | which event moves which process to which status: only its owner cancels it, only answers complete it or let it expire |
| HandoverSteps.CancelStep | apps/api/src/services/handover-orchestrator.ts:139-205 | a cancellation ends the user's active process whatever its status, and no other |
| HandoverSteps.InitiateStep | apps/api/src/services/handover-orchestrator.ts:76-134 | a process in grace period is added if and only if the user has no active one, whatever became of earlier ones |
| HandoverSteps.SettingsTakeEffect | apps/api/src/services/handover-orchestrator.ts:67-71 | a changed threshold, majority rule or list of successors takes effect at once, for that owner alone |
| HandoverSteps.HowItEnded | apps/api/src/services/handover-orchestrator.ts:76-422 | in every run, behind a process that is over lies the event that ended it: the owner showing up, or the answer after which the count was reached or nobody was left |
| HandoverSteps.DecisionReports | apps/api/src/services/handover-orchestrator.ts:481-553 | the status and the numbers of an access decision: different successors that accepted, number needed, number asked, or zeros |
| HandoverProofs.AccessCharacterised | apps/api/src/services/handover-orchestrator.ts:481-553 | access is granted exactly when the newest process is completed and this successor accepted it |
| HandoverConsent.VerdictIsLastAnswer | apps/api/src/services/handover-orchestrator.ts:244-249 | in every run a successor's verdict is the last answer it gave that was recorded, and pending without one |
| HandoverConsent.AccessIsConsent | apps/api/src/services/handover-orchestrator.ts:481-553 | access is granted exactly when the newest process is completed and the successor's last recorded answer accepted |
| HandoverConsent.AskedAreSuccessors | apps/api/src/services/handover-orchestrator.ts:347-397 | when the grace period runs out exactly the owner's successors are asked, none having answered |
| HandoverProofs.ToggleEffect | apps/api/src/services/handover-orchestrator.ts:67-71 | exactly when changing the majority rule under an open process changes access |
| HandoverExample.Completes | apps/api/src/services/handover-orchestrator.ts:76-553 | a run with four successors of whom two accept: completed with access for them, or, when a majority counts, still waiting with access for nobody |
| HandoverExample.ToggleChangesAccess | apps/api/src/services/handover-orchestrator.ts:67-71 | after either run, changing the setting reverses the access |
| HandoverExample.UnrecordedCheckIn | apps/api/src/services/user-service.ts:527-530 | a run in which a check-in was not recorded and successors are brought in without the threshold passing again |
| HandoverProofs.EveryProcessCreated | apps/api/src/services/inactivity-monitor.ts:246-252 | every process goes back to an initiation step whose adjusted inactivity had reached the threshold in force |
| HandoverProofs.CheckInPrecedes | apps/api/src/controllers/activity-controller.ts:59-65 | a process that is still active was initiated after the last check-in |
| HandoverProofs.NeverEarly | apps/api/src/services/inactivity-service.ts:54-66 | no process awaits successors before a recorded check-in plus threshold plus recorded downtime plus grace period |
| InactivityMonitor.PercentageReaches | apps/api/src/services/activity-service.ts:318-324 | a percentage test is a test on milliseconds |
| InactivityMonitor.HundredPercentIsDue | apps/api/src/services/inactivity-monitor.ts:386-426 | the monitor's test after downtime adjustment is the initiation guard of the state machine |
| InactivityMonitor.InitiatesIff | apps/api/src/services/inactivity-monitor.ts:235-286 | the exact condition under which the monitor asks for a handover |
| InactivityMonitor.MonitorNeverInitiates | apps/api/src/services/activity-service.ts:353-383 | it never does when recorded downtime is not negative |
| InactivityMonitor.ReminderBands | apps/api/src/services/inactivity-monitor.ts:235-277 | which reminder is due in terms of adjusted milliseconds, and none from the threshold on |
| InactivityMonitor.StatusInMilliseconds | apps/api/src/services/activity-service.ts:318-392 | phase, percentage and time remaining in terms of milliseconds |
| InactivityMonitor.DowntimeTakenOff | apps/api/src/services/inactivity-monitor.ts:386-426 | recorded downtime counts as if it had not passed, except for the phase |
| EndToEnd.ThresholdsAgree | apps/web/src/pages/Successors.tsx:159-163 | the browser's split threshold is the server's acceptance threshold, and lies between 2 and n |
| EndToEnd.SharesMatchAcceptances | apps/api/src/services/handover-orchestrator.ts:257-275 | the accepting successors hold as many shares as there are acceptances |
| EndToEnd.ReleasedKeyReconstructs | apps/api/src/services/handover-orchestrator.ts:257-295 | whenever a run completes a handover the accepting successors' shares reconstruct the key byte for byte |
| EndToEnd.OtherSettingAtSplit | apps/web/src/pages/Successors.tsx:157-163 | with shares split under another majority setting, the accepting shares always give the key if and only if the process counted a majority, the split did not, or there are at most three successors |
| EndToEnd.OtherSettingFails | apps/web/src/pages/Successors.tsx:157-163 | the four-successor run with shares split for a majority: the released ones do not always give the key |
| EndToEnd.ExampleReleases | apps/web/src/pages/SuccessorAccess.tsx:256-272 | the four-successor run, and the two accepting successors' shares giving the key |
| EndToEnd.UnreleasedKeyHidden | apps/api/src/services/handover-orchestrator.ts:297-314 | while awaiting, after expiry and after cancellation, the accepting successors' shares fit every other key of that length |
| EndToEnd.HiddenUnderOtherSetting | apps/web/src/pages/Successors.tsx:157-163 | without release and under any split setting, the accepting shares fit another key if and only if fewer have accepted than the split asks for; when that always holds |
| EndToEnd.OpenBeforeRelease | apps/web/src/pages/Successors.tsx:157-163 | four successors, a majority counted but not split for: two acceptances give the key while the process is waiting |
| EndToEnd.EnvelopesReconstruct | apps/web/src/pages/Successors.tsx:165-180 | the same through the stored envelopes, each opened with its holder's passphrase |
| BitStream.FeedFaithful | apps/api/src/services/two-factor-service.ts:102-145 | however often the unmasked 32-bit register wraps, symbols handed on plus pending bits are exactly the bits read |
| BitStream.Regroup | apps/api/src/services/two-factor-service.ts:102-145 | regrouping padded bytes into symbols of up to 8 bits and back is the identity |
| Base32.Base32Encode | apps/api/src/services/two-factor-service.ts:102-121 | the shift-register loop writes the symbols of the bit string padded with zeros (section 6 of RFC 4648) |
| Base32.Base32Decode | apps/api/src/services/two-factor-service.ts:123-145 | the loop reads the bit string back, and fails exactly on a character outside the alphabet |
| Base32.AlphabetSpelled | apps/api/src/services/two-factor-service.ts:8 | the alphabet is the one of the source |
| Base32.RoundTrip | apps/api/src/services/two-factor-service.ts:102-145 | decoding undoes encoding for every byte string |
| Base32.DecodesIff | apps/api/src/services/two-factor-service.ts:124-145 | decoded are exactly letters in either case and digits from 2 to 7, followed by padding |
| Base32.AnyCaseAndPadding | apps/api/src/services/two-factor-service.ts:124-145 | an encoded string in small letters or with padding decodes to the same bytes |
| Base64.RoundTrip | packages/crypto/src/utils.ts:71-118 | decoding undoes encoding for every byte string, and the encoded text passes the format test |
| Base64.DecodesIff | packages/crypto/src/utils.ts:96-118 | decoded are exactly characters of the alphabet followed by at most two padding characters |
| Base64.AlphabetSpelled | packages/crypto/src/utils.ts:71-104 | the alphabet of section 4 of RFC 4648, which the format test also names |
| Base64.Length | packages/crypto/src/utils.ts:71-88 | three bytes become four characters, the last group padded |
| ShareCustody.SplitJoin | packages/crypto/src/share-custody.ts:99-105 | splitting recovers joined parts that do not contain the separator |
| ShareCustody.JoinSplit | packages/crypto/src/share-custody.ts:128 | joining recovers any string that was split |
| ShareCustody.RoundTrip | packages/crypto/src/share-custody.ts:76-168 | wrapping succeeds exactly for a non-empty share and a passphrase of eight characters, is recognised, and unwraps to the share |
| ShareCustody.OnlyMatchingKeyOpens | packages/crypto/src/share-custody.ts:116-153 | what every other passphrase gets: the share if it derives the same key, otherwise the error the code gives |
| ShareCustody.EnvelopeLayout | packages/crypto/src/share-custody.ts:76-106 | prefix, version, salt, initialization vector and sealed share, in this order, as Base64 text with dots between |
| ShareCustody.UnwrapMeaning | packages/crypto/src/share-custody.ts:116-168 | for any text and passphrase, when unwrapping gives the sealed share, when it fails to open and when the text is invalid |
| SharePassphrase.GenerateSharePassphrase | packages/crypto/src/share-custody.ts:32-63 | whatever the chunks, the first 5 x groups acceptable bytes are spelled; error below two groups |
| SharePassphrase.SpelledShape | packages/crypto/src/share-custody.ts:54-58 | length of a passphrase and origin of every character, hyphens between groups of five |
| SharePassphrase.NoModuloBias | packages/crypto/src/share-custody.ts:39-41 | every symbol is written for exactly eight acceptable byte values |
| SharePassphrase.AlphabetSpelled | packages/crypto/src/share-custody.ts:24 | the alphabet, and the ceiling as the largest multiple of its length within a byte |
| TwoFactor.TruncateIsBigEndian | apps/api/src/services/two-factor-service.ts:86-92 | the shifted and masked bytes are the 31 low bits of a big-endian word at the offset |
| TwoFactor.CodeShape | apps/api/src/services/two-factor-service.ts:79-95 | a code is six digits that read as the truncated value modulo a million (section 5.3 of RFC 4226) |
| TwoFactor.GetMatchingTotpStep | apps/api/src/services/two-factor-service.ts:42-61 | the method with its format test and window loop returns what the search function says |
| TwoFactor.SearchWindow | apps/api/src/services/two-factor-service.ts:52-58 | the loop over the window |
| TwoFactor.MatchingStepIsMatch | apps/api/src/services/two-factor-service.ts:42-61 | the result is the earliest step of the window with that code, and none exactly when no step has it; only a window before the first step fails |
| TwoFactor.WindowIsAdjacent | apps/api/src/services/two-factor-service.ts:48-54 | a step's window begins 30 seconds before it and ends 30 seconds after it |
| TwoFactor.UnreadableSecret | apps/api/src/services/two-factor-service.ts:42-49 | a secret that cannot be decoded is an error for a token of six digits only |
| TwoFactor.SpacesIgnored | apps/api/src/services/two-factor-service.ts:43 | white space is removed wherever it stands, and nothing else |
| TwoFactor.GroupedCode | apps/api/src/services/two-factor-service.ts:42-61 | a code in two groups is the same code |
| TwoFactorAccount.FindCode | apps/api/src/services/user-service.ts:392-403 | the first stored hash that the recovery code has |
| TwoFactorAccount.TwoFactorUser.CreateTwoFactorSetup | apps/api/src/services/user-service.ts:239-267 | a setup replaces secret and codes and forgets the last used step |
| TwoFactorAccount.TwoFactorUser.VerifyTwoFactorChallenge | apps/api/src/services/user-service.ts:340-415 | outcome and new row of a challenge, in all its branches |
| TwoFactorAccount.TwoFactorUser.EnableTwoFactor | apps/api/src/services/user-service.ts:269-299 | outcome and new row of enabling, in all its branches |
| TwoFactorAccount.CodeAccepted | apps/api/src/services/user-service.ts:358-386 | exactly when a code is accepted, for which step, when it is refused as wrong or as used up, and what changes |
| TwoFactorAccount.NoCodeAccepted | apps/api/src/services/user-service.ts:358-368 | without a readable secret no code is accepted, and with which error |
| TwoFactorAccount.ChallengeMeaning | apps/api/src/services/user-service.ts:340-415 | the code comes before the recovery code; a challenge is met only by a genuine code of the stored secret that is not used up or, exactly, by a recovery code with a stored hash |
| TwoFactorAccount.EnableMeaning | apps/api/src/services/user-service.ts:269-299 | enabled if and only if some step of the window has the code under the stored secret; the step is not used up |
| TwoFactorAccount.SetupStartsOver | apps/api/src/services/user-service.ts:239-267 | after a setup nothing stored before matters, and no code of the new secret counts as used up |
| TwoFactorAccount.UsedCodesAreGenuine | apps/api/src/services/user-service.ts:239-415 | in any history every used step was used by its own code under the secret of the last setup, with neither setup nor disabling since |
| TwoFactorAccount.TwoFactorUser.DisableTwoFactor | apps/api/src/services/user-service.ts:301-338 | disabling needs the password and, when enabled, an accepted challenge |
| TwoFactorAccount.DisableGuarded | apps/api/src/services/user-service.ts:301-338 | exactly when disabling is refused, and how; a refusal changes nothing |
| TwoFactorAccount.StaysEnabled | apps/api/src/services/user-service.ts:239-338 | over any history, enabled stays enabled with the same secret unless there is a setup or a disabling with password and accepted challenge |
| TwoFactorAccount.EnabledNext | apps/api/src/services/user-service.ts:239-338 | exactly which steps switch an enabled second factor off; all others keep the secret |
| TwoFactorAccount.StepAdvances | apps/api/src/services/user-service.ts:358-386 | a used step lies in its window, after the last used one, and becomes the last used one |
| TwoFactorAccount.StepsIncrease | apps/api/src/services/user-service.ts:340-415 | over any history without setup or disabling, accepted steps strictly increase (section 5.2 of RFC 6238) |
| TwoFactorAccount.FreshCodeAccepted | apps/api/src/services/user-service.ts:358-386 | exactly when the code of a step after the last used one is accepted |
| TwoFactorAccount.FreshCodeRefused | apps/api/src/services/user-service.ts:376-380 | an account, time and fresh code that are refused |
| TwoFactorAccount.CodeStruckOff | apps/api/src/services/user-service.ts:392-414 | a recovery code works if and only if one of the stored hashes is its own, and exactly the first such one goes, the others in their order |
| TwoFactorAccount.RecoveryCodesBounded | apps/api/src/services/user-service.ts:392-414 | in any history, from one setup to the next, the hashes struck off and those left are among those issued, counted with multiplicity, and uses and codes left are at most eight |
| TwoFactorAccount.NoCodesBeforeSetup | apps/api/src/services/user-service.ts:392-407 | before the first setup no recovery code works |
| ConcurrentChallenges.UndisturbedIsAtomic | apps/api/src/services/user-service.ts:373-414 | reading, deciding and writing one column with no write in between is one challenge |
| ConcurrentChallenges.SameStepIff | apps/api/src/services/user-service.ts:373-386 | two challenges use one time step if and only if they overlap and each alone would use it |
| ConcurrentChallenges.FormerCode | apps/api/src/services/user-service.ts:392-414 | which of the codes stored before both the second challenge uses |
| ConcurrentChallenges.SameCodeIff | apps/api/src/services/user-service.ts:392-414 | two challenges use one stored recovery code if and only if they overlap and each alone would use it |
| ConcurrentChallenges.BothStruckOffIff | apps/api/src/services/user-service.ts:409-414 | both codes used are struck off if and only if the challenges do not overlap |
| ConcurrentChallenges.ColumnsIndependent | apps/api/src/services/user-service.ts:373-414 | a one-time code and a recovery code used at the same time both take effect |
| RefreshTokens.RefreshTokenService.Store | apps/api/src/services/refresh-token-service.ts:26-37 | the row is inserted unless the hash exists |
| RefreshTokens.RefreshTokenService.Revoke | packages/database/src/repositories/refresh-token-repository.ts:51-66 | compare-and-set: true exactly for the call that flips an active token |
| RefreshTokens.RefreshTokenService.RevokeAllForUser | packages/database/src/repositories/refresh-token-repository.ts:68-82 | every token of the user is revoked, no other |
| RefreshTokens.RefreshTokenService.Rotate | apps/api/src/services/refresh-token-service.ts:65-76 | undisturbed, it exchanges an active token for the new one or changes nothing |
| RefreshTokens.NextInvariant | apps/api/src/services/refresh-token-service.ts:26-76 | every interleaved step keeps one live token for each login and one successor for each token |
| RefreshTokens.ActiveNext | apps/api/src/services/refresh-token-service.ts:26-76 | which tokens are active after each step, those of other users included |
| RefreshTokens.SessionContinues | apps/api/src/services/refresh-token-service.ts:59-76 | in every run a token not presented, logged out, revoked or expired stays active, and presented then it is exchanged for an active one of the same login |
| RefreshTokens.EveryInterleaving | apps/api/src/services/refresh-token-service.ts:59-76 | in every run no token has two successors, no login two live tokens, and live tokens of a user never exceed its logins |
| RefreshTokens.ReplayRejected | apps/api/src/services/refresh-token-service.ts:59-76 | a token once spent or revoked is refused for ever, whatever happens in between |
| RefreshTokens.LogoutEndsLogin | apps/api/src/services/refresh-token-service.ts:47-53 | logging out with a token ever in circulation leaves its login no live token if and only if the token is active or there was none |
| RefreshTokens.LogoutMissesRotation | apps/api/src/services/refresh-token-service.ts:65-76 | a concrete run in which logging out with the old token during a rotation leaves an active one |
| RefreshTokens.EndedLoginStaysEnded | apps/api/src/services/refresh-token-service.ts:51-57 | a login without a live token never gets one again |
| RefreshTokens.RevokeAllEndsAll | apps/api/src/services/refresh-token-service.ts:55-57 | revoking all ends all if and only if no rotation of the user is in flight |
| RefreshTokens.RevokeAllMissesRotation | apps/api/src/services/refresh-token-service.ts:65-76 | a concrete run in which it does not |
| RefreshTokens.StaysLoggedOut | apps/api/src/services/refresh-token-service.ts:55-57 | without live tokens and without a new login a user has none, ever |
| VaultTable.IdsAreKeys | apps/api/src/services/user-service.ts:458-460 | filling a map by id keeps each distinct id once; sizes agree exactly without duplicates |
| VaultTable.LastWins | apps/api/src/services/vault-service.ts:272-286 | of several entries with one id the last one stays |
| PasswordChange.Pigeonhole | apps/api/src/services/user-service.ts:452-468 | equal length and every lookup found mean: exactly the ids of the vault, each once, and conversely |
| PasswordChange.ReEncrypt | apps/api/src/services/user-service.ts:462-484 | the update loop, aborting on a missing entry |
| PasswordChange.Database.ChangePasswordAndReEncryptVault | apps/api/src/services/user-service.ts:417-498 | succeeds exactly for the right password and a payload naming the vault's rows once each; otherwise nothing changes |
| PasswordChange.EveryRowReplaced | apps/api/src/services/user-service.ts:462-484 | on success each row holds its own payload, none comes or goes, nobody else's is touched |
| VaultImport.VaultService.ImportUserVault | apps/api/src/services/vault-service.ts:248-339 | succeeds exactly when no id is sent in two spellings and every id the database knows is spelled as there and the user's own; the new table and the counts, or no change |
| VaultImport.Prepare | apps/api/src/services/vault-service.ts:272-286 | the loop that collects entries by id, generating missing ids |
| VaultImport.Split | apps/api/src/services/vault-service.ts:295-327 | the loop that updates own rows, sets the others aside and counts |
| VaultImport.Assembled | apps/api/src/services/vault-service.ts:329-331 | the insertion meets no key exactly when the ids are acceptable, and then completes the override |
| VaultImport.ImportOutcome | apps/api/src/services/vault-service.ts:248-339 | merge overrides, replace keeps the payload alone, other users' vaults stay |
| VaultImport.ImportCounts | apps/api/src/services/vault-service.ts:333-337 | updated are the ids that the user had in a merge, created all others; the vault afterwards has the rows kept and those created |
| VaultImport.ImportTwice | apps/api/src/services/vault-service.ts:248-339 | importing the same entries again succeeds and changes nothing if and only if every entry has an id and, in a merge, each id is in canonical spelling |
| VaultImport.UnnamedAddedAgain | apps/api/src/services/vault-service.ts:277 | an entry without id is added again by a second import |
| VaultImport.UpperCaseConflicts | apps/api/src/services/vault-service.ts:299-305 | a merge naming an own row in upper case fails |
| VaultImport.ExportRestores | apps/api/src/services/vault-service.ts:228-286 | importing an export in replace mode gives the same table if and only if no salt is empty |
| VaultImport.EmptySaltLost | apps/api/src/services/vault-service.ts:281 | a row with an empty salt, which the text "A" stands for, and which the round trip changes |
| Realtime.RealtimeService.RegisterSocket | apps/api/src/services/realtime-service.ts:279-283 | the socket is added to the user's set |
| Realtime.RealtimeService.UnregisterSocket | apps/api/src/services/realtime-service.ts:285-295 | the socket is removed, and the user's entry with its last socket |
| Realtime.RealtimeService.DeliverToLocalSockets | apps/api/src/services/realtime-service.ts:167-182 | every open registered socket of the user gets the message, no other |
| Realtime.RealtimeService.BroadcastToUser | apps/api/src/services/realtime-service.ts:137-165 | local delivery first, publication when clustered |
| Realtime.RealtimeService.HandleClusterMessage | apps/api/src/services/realtime-service.ts:184-199 | own publications are ignored, others delivered |
| Realtime.NextInvariant | apps/api/src/services/realtime-service.ts:137-199 | every step keeps sockets at home, pending envelopes undelivered and inboxes free of duplicates |
| Realtime.AtMostOnce | apps/api/src/services/realtime-service.ts:137-199 | in every run no socket gets a message twice or one for another user, and no empty set is kept |
| Realtime.ExactlyOnce | apps/api/src/services/realtime-service.ts:137-199 | a socket that connected and did not leave has got a later broadcast exactly once when it is neither under way nor lost |
| Realtime.RegistrationMeaning | apps/api/src/services/realtime-service.ts:279-295 | registering adds one socket to its user's and unregistering removes it, nobody else's change |
| Realtime.DeliveryMeaning | apps/api/src/services/realtime-service.ts:167-182 | a delivery reaches exactly the open registered sockets of the user |
| Realtime.StaysConnected | apps/api/src/services/realtime-service.ts:279-295 | in every run a socket that connects is registered and open until it closes or is disconnected |
| Realtime.NothingAfterLeaving | apps/api/src/services/realtime-service.ts:167-199 | in every run a socket that closed or was disconnected gets nothing any more |
| Realtime.DeliveryHappens | apps/api/src/services/realtime-service.ts:137-199 | a run in which a broadcast at one instance reaches a socket at another |

## Left out

- Cryptographic primitives (AES-GCM, PBKDF2, SHA-256, HMAC, bcrypt, JWT signatures, the random generator): parameters, with the stated assumptions where a proof needs them.
- SQL, and concurrency of orchestrator, challenge and vault operations with themselves: each is one step; only token rotation, message delivery and two challenges are interleaved.
- `HandoverService.completeHandover`, `HandoverService.moveToConfirmation` and `processExecuteHandover`: unconditional or untimed writes outside the orchestrator; as steps they would break the terminal-state and timing invariants.
- Deleting successors while a process is open, and changing the majority rule then, beyond what `HandoverProofs.ToggleEffect` says.
- Orchestrator.HandoverOrchestrator.ProcessGracePeriodExpiration: a database failure between its status write and its notification rows is not modelled; the operation is one step.
- Orchestrator.InterruptedPass: is about processes a pass did not reach; one left without rows by a failure inside its own expiration is not modelled.
- Liveness: that a handover is initiated, that the monitor runs, that every message arrives.
- `verifyShares`: it checks the form of shares only.
- `pauseSwitch` and `resumeSwitch`, reminders and their cool-down, tier guards, e-mails, logging, metrics, queues, pages and configuration.
- SecretSharing.DrawsAreArbitrary: says that every coefficient vector can be drawn; how evenly the random generator draws is not modelled (`SecretSharing.DrawsPerCoefficient` counts the draws for each coefficient).
- Base32.Base32Decode: upper-casing is modelled for ASCII letters; characters whose Unicode upper case is an ASCII letter are refused by the model.
- SharePassphrase.GenerateSharePassphrase: takes the random bytes as a finite string that holds enough acceptable ones; the source keeps drawing until it has them.
- TwoFactorAccount.TwoFactorUser.VerifyTwoFactorChallenge: reads and writes one row in one step; `ConcurrentChallenges` treats two overlapping challenges, not more, and not a setup between a read and a write.
- RefreshTokens.RefreshTokenService.Store: expiry times are not kept; rows may vanish at any time as expired ones do.
- The browser branches of the Base64 functions, which call `btoa` and `atob`.
- VaultImport.VaultService.ImportUserVault: creation and update times, versions and the order of rows are not part of a row's content; ids are UUIDs in hexadecimal digits and hyphens, as the request schema demands.
- Realtime.RealtimeService.BroadcastToUser: the cluster's instances are numbered and publication reaches the instances subscribed at that moment; reconnects of the Redis client are not modelled.
