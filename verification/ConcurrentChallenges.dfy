/** Two challenges of one user at the same time: each reads the row, decides, and writes one column
    back later, so the other's write may come in between. */
module ConcurrentChallenges {
  import opened Wrappers
  import opened TwoFactor
  import opened TwoFactorAccount

  datatype Attempt = Attempt(now: nat, challenge: Challenge)

  function Decide(env: Environment, read: Account, attempt: Attempt): Outcome {
    Verify(env, read, attempt.now, attempt.challenge).1
  }

  predicate Decided(read: Account, outcome: Outcome) {
    outcome.CodeUsed? ==> outcome.index < |read.recoveryCodes|
  }

  // The write: a step into its column, or the codes that were read without the one used.
  function WriteBack(row: Account, read: Account, outcome: Outcome): Account
    requires Decided(read, outcome)
  {
    match outcome
    case StepUsed(step) => row.(lastUsedStep := Some(step))
    case CodeUsed(index) => row.(recoveryCodes := read.recoveryCodes[..index] + read.recoveryCodes[index + 1..])
    case _ => row
  }

  /** Without another write in between, reading, deciding and writing is one challenge. */
  lemma UndisturbedIsAtomic(env: Environment, a: Account, attempt: Attempt)
    ensures Decided(a, Decide(env, a, attempt))
    ensures WriteBack(a, a, Decide(env, a, attempt)) == Verify(env, a, attempt.now, attempt.challenge).0
  {
  }

  // What the second challenge reads: the row before the first one's write if they overlap, else after it.
  function SecondRead(env: Environment, a: Account, first: Attempt, overlap: bool): Account {
    if overlap then a else Verify(env, a, first.now, first.challenge).0
  }

  function SecondOutcome(env: Environment, a: Account, first: Attempt, second: Attempt, overlap: bool): Outcome {
    Decide(env, SecondRead(env, a, first, overlap), second)
  }

  // The row after both writes, the first one's first.
  function RowAfter(env: Environment, a: Account, first: Attempt, second: Attempt, overlap: bool): Account {
    UndisturbedIsAtomic(env, a, first);
    var read := SecondRead(env, a, first, overlap);
    UndisturbedIsAtomic(env, read, second);
    WriteBack(Verify(env, a, first.now, first.challenge).0, read, SecondOutcome(env, a, first, second, overlap))
  }

  /** Two challenges use the same time step exactly when they overlap and each alone would use it. */
  lemma SameStepIff(env: Environment, a: Account, first: Attempt, second: Attempt, overlap: bool)
    requires Decide(env, a, first).StepUsed?
    ensures SecondOutcome(env, a, first, second, overlap) == Decide(env, a, first)
      <==> overlap && Decide(env, a, second) == Decide(env, a, first)
  {
    if !overlap {
      var (b, outcome) := Verify(env, a, first.now, first.challenge);
      FirstStepStored(env, a, first);
      var e := ChallengeEvent(second.now, second.challenge);
      StepAdvances(env, b, e, Next(env, b, e).0, Next(env, b, e).1);
    }
  }

  lemma FirstStepStored(env: Environment, a: Account, first: Attempt)
    requires Decide(env, a, first).StepUsed?
    ensures Verify(env, a, first.now, first.challenge).0.lastUsedStep == Some(Decide(env, a, first).step)
  {
    var e := ChallengeEvent(first.now, first.challenge);
    StepAdvances(env, a, e, Next(env, a, e).0, Next(env, a, e).1);
  }

  // Where a code that the second challenge uses stood in the list before both.
  function FormerIndex(first: nat, second: nat, overlap: bool): nat {
    if !overlap && second >= first then second + 1 else second
  }

  lemma FormerCode(env: Environment, a: Account, first: Attempt, second: Attempt, overlap: bool)
    requires Decide(env, a, first).CodeUsed? && SecondOutcome(env, a, first, second, overlap).CodeUsed?
    ensures
      var i, j := Decide(env, a, first).index, SecondOutcome(env, a, first, second, overlap).index;
      var read := SecondRead(env, a, first, overlap);
      && i < |a.recoveryCodes| && j < |read.recoveryCodes| && FormerIndex(i, j, overlap) < |a.recoveryCodes|
      && a.recoveryCodes[FormerIndex(i, j, overlap)] == read.recoveryCodes[j]
  {
    UndisturbedIsAtomic(env, a, first);
    UndisturbedIsAtomic(env, SecondRead(env, a, first, overlap), second);
  }

  /** Two challenges use the same stored recovery code exactly when they overlap and each alone would
      use it. */
  lemma SameCodeIff(env: Environment, a: Account, first: Attempt, second: Attempt, overlap: bool)
    requires Decide(env, a, first).CodeUsed? && SecondOutcome(env, a, first, second, overlap).CodeUsed?
    ensures
      var i, j := Decide(env, a, first).index, SecondOutcome(env, a, first, second, overlap).index;
      FormerIndex(i, j, overlap) == i <==> overlap && Decide(env, a, second) == Decide(env, a, first)
  {
  }

  /** Two recovery codes are struck off by two challenges exactly when those do not overlap; else only
      the one written last is. */
  lemma BothStruckOffIff(env: Environment, a: Account, first: Attempt, second: Attempt, overlap: bool)
    requires Decide(env, a, first).CodeUsed? && SecondOutcome(env, a, first, second, overlap).CodeUsed?
    ensures |RowAfter(env, a, first, second, overlap).recoveryCodes| == |a.recoveryCodes| - (if overlap then 1 else 2)
    ensures overlap ==>
      RowAfter(env, a, first, second, true).recoveryCodes ==
        Verify(env, a, second.now, second.challenge).0.recoveryCodes
  {
    UndisturbedIsAtomic(env, a, first);
    UndisturbedIsAtomic(env, a, second);
    UndisturbedIsAtomic(env, SecondRead(env, a, first, overlap), second);
  }

  /** A code challenge and a recovery challenge write different columns: overlapping or not, both
      take effect. */
  lemma ColumnsIndependent(env: Environment, a: Account, first: Attempt, second: Attempt)
    requires first.challenge.twoFactorCode != "" && second.challenge.twoFactorCode == ""
    ensures SecondOutcome(env, a, first, second, true) == SecondOutcome(env, a, first, second, false)
    ensures RowAfter(env, a, first, second, true) == RowAfter(env, a, first, second, false)
  {
  }
}
