/** What callers of the secret sharing can rely on: which calls are refused and with what error, how
    a share is laid out, and what comes back from shares that are accepted. */
module SharingContract {
  import opened Wrappers
  import opened Bytes
  import opened Polynomial
  import opened Sequences
  import opened Shamir
  import opened SecretSharing

  // ---- Splitting

  /** A split is accepted exactly within these bounds, and then all its shares together can be
      combined again: to the secret if its length fits a byte, to something else if not. */
  lemma SplitCanBeUndone(secret: seq<Byte>, total: int, threshold: int, random: nat -> Block)
    ensures Split(secret, total, threshold, random).Ok? <==>
      secret != [] && 2 <= threshold <= total <= 255 && ValueOf(secret) < PRIME
    ensures var r := Split(secret, total, threshold, random);
      r.Ok? ==> (Reconstruct(r.value, Some(threshold)) == Ok(secret) <==> |secret| <= 255)
  {
    var r := Split(secret, total, threshold, random);
    if r.Ok? {
      var all := First(total);
      RoundTrip(secret, total, threshold, random, all, Some(threshold));
      assert Select(r.value, all) == r.value;
    }
  }

  function First(n: nat): (s: seq<nat>)
    ensures |s| == n && forall i :: 0 <= i < n ==> s[i] == i
  {
    seq(n, i => i)
  }

  /** The error names the first demand that is not met. */
  lemma SplitRefusals(secret: seq<Byte>, total: int, threshold: int, random: nat -> Block)
    ensures var r := Split(secret, total, threshold, random);
      && (r == Error(EmptySecret) <==> secret == [])
      && (r == Error(TotalBelowTwo) <==> secret != [] && total < 2)
      && (r == Error(ThresholdBelowTwo) <==> secret != [] && 2 <= total && threshold < 2)
      && (r == Error(ThresholdAboveTotal) <==> secret != [] && 2 <= total < threshold)
      && (r == Error(TotalAbove255) <==> secret != [] && 2 <= threshold <= total && 255 < total)
      && (r == Error(SecretTooLarge) <==> secret != [] && 2 <= threshold <= total <= 255 && PRIME <= ValueOf(secret))
  {
  }

  /** Share number i: one byte of x, one of the length, and the value at x of the polynomial that
      begins with the secret and goes on with what was drawn. */
  lemma ShareLayout(secret: seq<Byte>, total: int, threshold: int, random: nat -> Block, c: seq<int>, i: nat)
    requires Split(secret, total, threshold, random).Ok? && i < total
    requires |c| == threshold && c[0] == ValueOf(secret)
    requires forall k :: 0 < k < threshold ==> c[k] == ValueOf(random(k - 1)) % PRIME
    ensures |Split(secret, total, threshold, random).value| == total
    ensures var share := Split(secret, total, threshold, random).value[i];
      && |share| == 34 && share[0] == i + 1 && share[1] == |secret| % 256
      && ValueOf(share[2..]) == Eval(c, i + 1) % PRIME
  {
    assert c == Coefficients(secret, threshold, random);
    ShareRoundTrip(c, i + 1, |secret|);
  }

  // ---- Reconstruction

  /** What the required number protects from: whichever shares of a split are handed in, asking for as
      many as it was made for gives the secret or an error, and the secret exactly for enough
      different ones. */
  lemma NeverWrongBytes(secret: seq<Byte>, total: int, threshold: int, random: nat -> Block, chosen: seq<nat>)
    requires Split(secret, total, threshold, random).Ok? && |secret| <= 255
    requires forall i :: 0 <= i < |chosen| ==> chosen[i] < total
    ensures var r := Reconstruct(Select(Split(secret, total, threshold, random).value, chosen), Some(threshold));
      && (r.Ok? <==> Distinct(chosen) && |chosen| >= threshold)
      && (r.Ok? ==> r.value == secret)
  {
    var selected := Select(Split(secret, total, threshold, random).value, chosen);
    ReconstructAccepts(selected, Some(threshold));
    if Distinct(chosen) && |chosen| >= threshold {
      RoundTrip(secret, total, threshold, random, chosen, Some(threshold));
    } else if !Distinct(chosen) {
      RepeatedShare(selected, chosen);
    }
  }

  lemma RepeatedShare(selected: seq<Share>, chosen: seq<nat>)
    requires WellSized(selected) && |selected| == |chosen| && !Distinct(chosen)
    requires forall i, j :: 0 <= i < j < |chosen| && chosen[i] == chosen[j] ==> selected[i] == selected[j]
    ensures !Distinct(Xs(Parse(selected)))
  {
    var i, j :| 0 <= i < j < |chosen| && chosen[i] == chosen[j];
    assert Xs(Parse(selected))[i] == Xs(Parse(selected))[j];
  }

  /** What accepted shares mean, wherever they come from: the constant term of any short enough
      polynomial through them, in as many bytes as the last one says. */
  lemma ReconstructMeaning(shares: seq<Share>, threshold: Option<int>, c: seq<int>)
    requires Reconstruct(shares, threshold).Ok? && WellSized(shares)
    requires |c| <= |shares| && Through(c, Xs(Parse(shares)), Ys(Parse(shares)), PRIME)
    ensures Reconstruct(shares, threshold).value == BytesOf(Eval(c, 0) % PRIME, shares[|shares| - 1][1])
  {
    ReconstructAccepts(shares, threshold);
    ScanMeaning(shares, 0);
    SecretOfPolynomial(Parse(shares), c);
  }

  predicate Counted(count: nat, threshold: Option<int>) {
    2 <= count && (threshold.Some? ==> 2 <= threshold.value <= count)
  }

  // The first share of another size comes before any disagreement about the length.
  ghost predicate SizeFailsAt(shares: seq<Share>, i: nat) {
    && i < |shares| && |shares[i]| != 34
    && WellSized(shares[..i]) && Settling(LengthBytes(shares[..i]))
  }

  /** Which error shares are refused with. */
  lemma ReconstructRefusals(shares: seq<Share>, threshold: Option<int>)
    ensures var r, counted := Reconstruct(shares, threshold), Counted(|shares|, threshold);
      && (r == Error(FewerThanTwoShares) <==> |shares| < 2)
      && (r == Error(NotEnoughShares) <==> 2 <= |shares| && !counted)
      && (r == Error(InvalidShareFormat) <==> counted && exists i :: SizeFailsAt(shares, i))
      && (r == Error(InconsistentLength) <==>
           && counted && (forall i :: !SizeFailsAt(shares, i))
           && !(WellSized(shares) && Settling(LengthBytes(shares))))
      && (r == Error(DuplicateShares) <==>
           counted && WellSized(shares) && Settling(LengthBytes(shares)) && !Distinct(Xs(Parse(shares))))
  {
    ReconstructAccepts(shares, threshold);
    ScanOutcome(shares);
  }

  lemma ScanOutcome(shares: seq<Share>)
    ensures ScanLength(shares, 0).Ok? <==> WellSized(shares) && Settling(LengthBytes(shares))
    ensures ScanLength(shares, 0) == Error(InvalidShareFormat) <==> exists i :: SizeFailsAt(shares, i)
    ensures ScanLength(shares, 0).Error? ==> ScanLength(shares, 0).error in {InvalidShareFormat, InconsistentLength}
  {
    FromZero(shares);
    ScanErrors(shares, 0);
    forall i: nat | i < |shares|
      ensures SizeFailsAt(shares, i) <==> |shares[i]| != SHARE_LENGTH && ScanLength(shares[..i], 0).Ok?
    {
      FromZero(shares[..i]);
    }
  }

  // The scan stops at the first share that it cannot take.
  lemma {:induction false} ScanErrors(shares: seq<Share>, length: Byte)
    ensures ScanLength(shares, length).Error? ==>
      ScanLength(shares, length).error in {InvalidShareFormat, InconsistentLength}
    ensures ScanLength(shares, length) == Error(InvalidShareFormat) <==>
      exists i: nat :: i < |shares| && |shares[i]| != SHARE_LENGTH && ScanLength(shares[..i], length).Ok?
  {
    if shares == [] {
    } else if |shares[0]| != SHARE_LENGTH {
      assert ScanLength(shares[..0], length).Ok?;
    } else {
      var rest := shares[1..];
      ScanErrors(rest, shares[0][1]);
      forall i: nat | i < |shares|
        ensures i > 0 ==> rest[i - 1] == shares[i]
        ensures i > 0 ==> (ScanLength(shares[..i], length).Ok? <==>
          (length == 0 || length == shares[0][1]) && ScanLength(rest[..i - 1], shares[0][1]).Ok?)
      {
        if i > 0 {
          assert shares[..i][1..] == rest[..i - 1];
        }
      }
      if i: nat :| i < |rest| && |rest[i]| != SHARE_LENGTH && ScanLength(rest[..i], shares[0][1]).Ok? {
        assert |shares[i + 1]| != SHARE_LENGTH && rest[..i] == rest[..i + 1 - 1];
      }
    }
  }
}
