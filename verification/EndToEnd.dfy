/**
 The two halves together: the owner splits the vault key for the successors, the
 server counts acceptances. With one majority setting for both, what the server
 releases is exactly what the accepting successors can open; with two, the lemmas
 below say when it still is.
 */
module EndToEnd {
  import opened Sequences
  import opened Wrappers
  import opened Bytes
  import opened Shamir
  import opened SecretSharing
  import opened Handover
  import opened HandoverProofs
  import HandoverExample
  import ShareCustody

  // The threshold the owner's browser splits with; it refuses fewer than two successors.
  function ClientThreshold(successorCount: nat, requireMajority: bool): Option<nat> {
    if successorCount < 2 then None
    else if requireMajority then Some(successorCount / 2 + 1)
    else Some(if 2 < successorCount then 2 else successorCount)
  }

  lemma ThresholdsAgree(n: nat, majority: bool)
    ensures ClientThreshold(n, majority) == if n >= 2 then Some(ComputeThreshold(n, majority)) else None
    ensures n >= 2 ==> 2 <= ComputeThreshold(n, majority) <= n
  {
  }

  // holders[k] keeps share k; the holders are the notified successors in some order.
  ghost predicate Holders(holders: seq<SuccessorId>, rows: seq<Notification>) {
    && |holders| == |rows| && Distinct(holders)
    && forall i :: 0 <= i < |rows| ==> rows[i].successor in holders
  }

  // chosen lists the shares of exactly the successors that accepted, in some order.
  ghost predicate AcceptedShares(chosen: seq<nat>, holders: seq<SuccessorId>, rows: seq<Notification>) {
    && Choice(chosen, |holders|)
    && forall k :: 0 <= k < |holders| ==> (k in chosen <==> HasAccepted(rows, holders[k]))
  }

  function HolderSet(chosen: seq<nat>, holders: seq<SuccessorId>): (s: set<SuccessorId>)
    requires forall i :: 0 <= i < |chosen| ==> chosen[i] < |holders|
  {
    set k | k in chosen :: holders[k]
  }

  lemma {:induction false} HolderSetSize(chosen: seq<nat>, holders: seq<SuccessorId>)
    requires Choice(chosen, |holders|) && Distinct(holders)
    ensures |HolderSet(chosen, holders)| == |chosen|
  {
    if chosen != [] {
      ChoiceTail(chosen, |holders|);
      HolderSetSize(chosen[1..], holders);
      HolderSetNext(chosen, holders);
    }
  }

  lemma ChoiceTail(chosen: seq<nat>, total: nat)
    requires Choice(chosen, total) && chosen != []
    ensures Choice(chosen[1..], total) && chosen[0] !in chosen[1..]
  {
  }

  lemma HolderSetNext(chosen: seq<nat>, holders: seq<SuccessorId>)
    requires Choice(chosen, |holders|) && Distinct(holders) && chosen != []
    requires Choice(chosen[1..], |holders|) && chosen[0] !in chosen[1..]
    ensures HolderSet(chosen, holders) == HolderSet(chosen[1..], holders) + {holders[chosen[0]]}
    ensures holders[chosen[0]] !in HolderSet(chosen[1..], holders)
  {
    assert chosen == [chosen[0]] + chosen[1..];
  }

  // As many shares as acceptances.
  lemma SharesMatchAcceptances(chosen: seq<nat>, holders: seq<SuccessorId>, rows: seq<Notification>)
    requires NoRepeats(rows) && Holders(holders, rows)
    requires AcceptedShares(chosen, holders, rows)
    ensures |chosen| == Accepted(rows)
  {
    AcceptedSetMeaning(rows);
    HolderSetSize(chosen, holders);
    SameSuccessors(chosen, holders, rows);
  }

  lemma SameSuccessors(chosen: seq<nat>, holders: seq<SuccessorId>, rows: seq<Notification>)
    requires Holders(holders, rows) && AcceptedShares(chosen, holders, rows)
    ensures HolderSet(chosen, holders) == AcceptedSet(rows)
  {
    AcceptedSetMeaning(rows);
    forall id | HasAccepted(rows, id)
      ensures id in HolderSet(chosen, holders)
    {
      var i :| 0 <= i < |rows| && rows[i] == Notification(id, Verified);
      assert rows[i].successor in holders;
      var k :| 0 <= k < |holders| && holders[k] == id;
      assert k in chosen;
    }
  }

  lemma SplitAccepts(key: seq<Byte>, n: nat, k: nat)
    requires 2 <= k <= n <= 255
    requires 0 < |key| && ValueOf(key) < PRIME
    ensures SplitError(key, n, k).None?
  {
  }

  // How many shares the accepting successors hold, against the client's threshold.
  lemma SharesAgainstThreshold(p: Process, majority: bool, holders: seq<SuccessorId>, chosen: seq<nat>) returns (k: nat)
    requires Counted(p, ComputeThreshold(|p.notifications|, majority))
    requires 2 <= |p.notifications|
    requires Holders(holders, p.notifications) && AcceptedShares(chosen, holders, p.notifications)
    ensures ClientThreshold(|holders|, majority) == Some(k) && 2 <= k <= |holders| && Choice(chosen, |holders|)
    ensures p.status == Completed ==> |chosen| == k
    ensures p.status in {AwaitingSuccessors, Expired, Cancelled} ==> |chosen| < k
  {
    ThresholdsAgree(|holders|, majority);
    SharesMatchAcceptances(chosen, holders, p.notifications);
    k := ComputeThreshold(|holders|, majority);
  }

  /** Release: whenever a run completes a handover, the shares of the successors that
      accepted reconstruct the key byte for byte, in whatever order they are used. */
  lemma ReleasedKeyReconstructs(states: seq<State>, events: seq<Event>, i: nat, id: nat, holders: seq<SuccessorId>,
                                key: seq<Byte>, random: nat -> Block, chosen: seq<nat>)
    requires Run(states, events) && i < |states| && id < |states[i].processes|
    requires states[i].processes[id].status == Completed
    requires 2 <= |states[i].processes[id].notifications| <= 255
    requires Holders(holders, states[i].processes[id].notifications)
    requires AcceptedShares(chosen, holders, states[i].processes[id].notifications)
    requires 0 < |key| <= 255 && ValueOf(key) < PRIME
    ensures id < |states[i].bases|
    ensures
      var k := ClientThreshold(|holders|, states[i].bases[id].majority).value;
      var split := Split(key, |holders|, k, random);
      split.Ok? && Reconstruct(Select(split.value, chosen), Some(k)) == Ok(key)
  {
    RunCounted(states, events, i, id);
    var k := SharesAgainstThreshold(states[i].processes[id], states[i].bases[id].majority, holders, chosen);
    SplitAccepts(key, |holders|, k);
    RoundTrip(key, |holders|, k, random, chosen, Some(k));
  }

  /** A split made under another majority setting than the process was counted under: the accepting
      successors' shares reconstruct the key, whatever was drawn, exactly unless a majority was asked
      for at the split, not in the process, and there are more than three successors. */
  lemma OtherSettingAtSplit(states: seq<State>, events: seq<Event>, i: nat, id: nat, holders: seq<SuccessorId>,
                            key: seq<Byte>, chosen: seq<nat>, splitMajority: bool)
    requires Run(states, events) && i < |states| && id < |states[i].processes|
    requires states[i].processes[id].status == Completed
    requires 2 <= |states[i].processes[id].notifications| <= 255
    requires Holders(holders, states[i].processes[id].notifications)
    requires AcceptedShares(chosen, holders, states[i].processes[id].notifications)
    requires 0 < |key| <= 255 && ValueOf(key) < PRIME
    ensures id < |states[i].bases|
    ensures
      var majority := states[i].bases[id].majority;
      var split, counted := ClientThreshold(|holders|, splitMajority).value, ComputeThreshold(|holders|, majority);
      && SplitError(key, |holders|, split).None?
      && (AlwaysReconstructs(key, |holders|, split, chosen, counted) <==> majority || !splitMajority || |holders| <= 3)
  {
    RunCounted(states, events, i, id);
    var majority := states[i].bases[id].majority;
    var counted := SharesAgainstThreshold(states[i].processes[id], majority, holders, chosen);
    ThresholdsAgree(|holders|, majority);
    ThresholdsAgree(|holders|, splitMajority);
    var split := ComputeThreshold(|holders|, splitMajority);
    SplitAccepts(key, |holders|, split);
    AlwaysReconstructsIff(key, |holders|, split, chosen, Some(counted));
  }

  // Whatever is drawn at the split, these shares and this required number give the key.
  ghost predicate AlwaysReconstructs(key: seq<Byte>, n: nat, threshold: nat, chosen: seq<nat>, required: nat)
    requires SplitError(key, n, threshold).None? && Choice(chosen, n)
  {
    forall random: nat -> Block ::
      Reconstruct(Select(Split(key, n, threshold, random).value, chosen), Some(required)) == Ok(key)
  }

  /** And it does fail: shares for a majority of four, released for two acceptances. */
  lemma OtherSettingFails(grace: nat, key: seq<Byte>)
    requires 0 < |key| <= 255 && ValueOf(key) < PRIME
    ensures Run(HandoverExample.States(grace, false), HandoverExample.Events(grace, false))
    ensures HandoverExample.States(grace, false)[9].processes[0].status == Completed
    ensures ClientThreshold(4, true) == Some(3) && SplitError(key, 4, 3).None?
    ensures !AlwaysReconstructs(key, 4, 3, [0, 1], 2)
  {
    HandoverExample.Completes(grace, false);
    ExampleHolders();
    OtherSettingAtSplit(HandoverExample.States(grace, false), HandoverExample.Events(grace, false), 9, 0,
                        HandoverExample.Successors(), key, [0, 1], true);
  }

  /** Release happens: four successors, two of whom accept and combine their shares. */
  lemma ExampleReleases(grace: nat, key: seq<Byte>, random: nat -> Block)
    requires 0 < |key| <= 255 && ValueOf(key) < PRIME
    ensures Run(HandoverExample.States(grace, false), HandoverExample.Events(grace, false))
    ensures var p := HandoverExample.States(grace, false)[9].processes[0];
      p.status == Completed && HasAccepted(p.notifications, "a") && HasAccepted(p.notifications, "b")
    ensures
      var split := Split(key, 4, 2, random);
      split.Ok? && Reconstruct(Select(split.value, [0, 1]), Some(2)) == Ok(key)
  {
    HandoverExample.Completes(grace, false);
    ExampleHolders();
    ReleasedKeyReconstructs(HandoverExample.States(grace, false), HandoverExample.Events(grace, false), 9, 0,
                            HandoverExample.Successors(), key, random, [0, 1]);
  }

  lemma ExampleHolders()
    ensures var holders, rows := HandoverExample.Successors(), HandoverExample.Rows(Verified, Verified);
      && Holders(holders, rows) && AcceptedShares([0, 1], holders, rows)
      && HasAccepted(rows, "a") && HasAccepted(rows, "b")
  {
    var holders, rows := HandoverExample.Successors(), HandoverExample.Rows(Verified, Verified);
    assert rows[0] == Notification("a", Verified) && rows[1] == Notification("b", Verified);
    assert holders[0] == "a" && holders[1] == "b" && holders[2] == "c" && holders[3] == "d";
  }

  /** Without release: while a process is still awaiting successors, and once it expired or was
      cancelled, the shares of those that accepted fit every other key of the same length. */
  lemma UnreleasedKeyHidden(states: seq<State>, events: seq<Event>, i: nat, id: nat, holders: seq<SuccessorId>,
                            key: seq<Byte>, other: seq<Byte>, random: nat -> Block, chosen: seq<nat>)
    requires Run(states, events) && i < |states| && id < |states[i].processes|
    requires states[i].processes[id].status in {AwaitingSuccessors, Expired, Cancelled}
    requires 2 <= |states[i].processes[id].notifications| <= 255
    requires Holders(holders, states[i].processes[id].notifications)
    requires AcceptedShares(chosen, holders, states[i].processes[id].notifications)
    requires 0 < |key| == |other| && ValueOf(key) < PRIME && ValueOf(other) < PRIME
    ensures id < |states[i].bases|
    ensures
      var k := ClientThreshold(|holders|, states[i].bases[id].majority).value;
      && SplitError(key, |holders|, k).None? && SplitError(other, |holders|, k).None?
      && AlsoFits(key, other, |holders|, k, random, chosen)
  {
    RunCounted(states, events, i, id);
    var k := SharesAgainstThreshold(states[i].processes[id], states[i].bases[id].majority, holders, chosen);
    SplitAccepts(key, |holders|, k);
    SplitAccepts(other, |holders|, k);
    SharesRevealNothing(key, other, |holders|, k, random, chosen);
  }

  /** The same for a split made under any setting: the key is hidden exactly while fewer have accepted
      than the split asks for, and that is so unless only the process counted a majority, of more than
      three successors. */
  lemma HiddenUnderOtherSetting(states: seq<State>, events: seq<Event>, i: nat, id: nat, holders: seq<SuccessorId>,
                                key: seq<Byte>, other: seq<Byte>, random: nat -> Block, chosen: seq<nat>,
                                splitMajority: bool)
    requires Run(states, events) && i < |states| && id < |states[i].processes|
    requires states[i].processes[id].status in {AwaitingSuccessors, Expired, Cancelled}
    requires 2 <= |states[i].processes[id].notifications| <= 255
    requires Holders(holders, states[i].processes[id].notifications)
    requires AcceptedShares(chosen, holders, states[i].processes[id].notifications)
    requires 0 < |key| == |other| && key != other && ValueOf(key) < PRIME && ValueOf(other) < PRIME
    ensures id < |states[i].bases|
    ensures
      var split := ClientThreshold(|holders|, splitMajority).value;
      var accepted := Accepted(states[i].processes[id].notifications);
      && SplitError(key, |holders|, split).None? && SplitError(other, |holders|, split).None?
      && (AlsoFits(key, other, |holders|, split, random, chosen) <==> accepted < split)
      && (splitMajority || !states[i].bases[id].majority || |holders| <= 3 ==> accepted < split)
  {
    RunCounted(states, events, i, id);
    var k := SharesAgainstThreshold(states[i].processes[id], states[i].bases[id].majority, holders, chosen);
    SharesMatchAcceptances(chosen, holders, states[i].processes[id].notifications);
    ThresholdsAgree(|holders|, splitMajority);
    var split := ComputeThreshold(|holders|, splitMajority);
    SplitAccepts(key, |holders|, split);
    SplitAccepts(other, |holders|, split);
    HiddenIff(key, other, |holders|, split, random, chosen);
  }

  /** The exception is real: four successors, a majority counted but not split for, two acceptances.
      The process is still waiting, and their shares give the key. */
  lemma OpenBeforeRelease(grace: nat, key: seq<Byte>, random: nat -> Block)
    requires 0 < |key| <= 255 && ValueOf(key) < PRIME
    ensures Run(HandoverExample.States(grace, true), HandoverExample.Events(grace, true))
    ensures var p := HandoverExample.States(grace, true)[9].processes[0];
      && p.status == AwaitingSuccessors
      && AcceptedShares([0, 1], HandoverExample.Successors(), p.notifications)
    ensures
      var split := Split(key, 4, ClientThreshold(4, false).value, random);
      split.Ok? && Reconstruct(Select(split.value, [0, 1]), Some(2)) == Ok(key)
  {
    HandoverExample.Completes(grace, true);
    ExampleHolders();
    SplitAccepts(key, 4, 2);
    RoundTrip(key, 4, 2, random, [0, 1], Some(2));
  }

  // How one share is kept: the passphrase its holder was told and the random bytes of its envelope.
  datatype Custody = Custody(passphrase: string, salt: seq<Byte>, iv: seq<Byte>)

  predicate Kept(c: Custody) {
    |c.passphrase| >= ShareCustody.PASSPHRASE_MIN_LENGTH && |c.salt| == ShareCustody.SALT_LENGTH && c.iv != []
  }

  // Sealing a share in its envelope and opening that with the passphrase.
  function SealAndOpen(cipher: ShareCustody.Cipher, share: Share, c: Custody)
      : Result<seq<nat>, ShareCustody.CustodyError>
  {
    match ShareCustody.Wrap(cipher, share, c.passphrase, c.salt, c.iv)
    case Ok(envelope) => ShareCustody.Unwrap(cipher, envelope, c.passphrase)
    case Error(e) => Error(e)
  }

  /** The server only holds envelopes. Of a completed handover, those of the accepting successors,
      opened with their passphrases, are the shares that reconstruct the key. */
  lemma EnvelopesReconstruct(states: seq<State>, events: seq<Event>, i: nat, id: nat, holders: seq<SuccessorId>,
                             key: seq<Byte>, random: nat -> Block, chosen: seq<nat>,
                             cipher: ShareCustody.Cipher, custody: seq<Custody>)
    requires Run(states, events) && i < |states| && id < |states[i].processes|
    requires states[i].processes[id].status == Completed
    requires 2 <= |states[i].processes[id].notifications| <= 255
    requires Holders(holders, states[i].processes[id].notifications)
    requires AcceptedShares(chosen, holders, states[i].processes[id].notifications)
    requires 0 < |key| <= 255 && ValueOf(key) < PRIME
    requires cipher.Inverts() && |custody| == |holders| && forall k :: 0 <= k < |custody| ==> Kept(custody[k])
    ensures id < |states[i].bases|
    ensures
      var k := ClientThreshold(|holders|, states[i].bases[id].majority).value;
      var split := Split(key, |holders|, k, random);
      && split.Ok? && Choice(chosen, |split.value|)
      && (forall j :: 0 <= j < |chosen| ==>
           SealAndOpen(cipher, split.value[chosen[j]], custody[chosen[j]]) == Ok(Select(split.value, chosen)[j]))
      && Reconstruct(Select(split.value, chosen), Some(k)) == Ok(key)
  {
    ReleasedKeyReconstructs(states, events, i, id, holders, key, random, chosen);
    var k := ClientThreshold(|holders|, states[i].bases[id].majority).value;
    var split := Split(key, |holders|, k, random);
    forall j | 0 <= j < |chosen|
      ensures SealAndOpen(cipher, split.value[chosen[j]], custody[chosen[j]]) == Ok(Select(split.value, chosen)[j])
    {
      var c := custody[chosen[j]];
      ShareCustody.RoundTrip(cipher, split.value[chosen[j]], c.passphrase, c.salt, c.iv);
    }
  }
}
