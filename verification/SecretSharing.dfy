/**
 Splitting a secret into shares and reconstructing it, with the two theorems the
 scheme exists for: enough shares always give the secret back, and one share too
 few says nothing about it.
 */
module SecretSharing {
  import opened Wrappers
  import opened Bytes
  import opened Modular
  import opened Polynomial
  import opened Sequences
  import opened Shamir

  datatype ShamirError =
    | EmptySecret
    | TotalBelowTwo
    | ThresholdBelowTwo
    | ThresholdAboveTotal
    | TotalAbove255
    | SecretTooLarge
    | FewerThanTwoShares
    | NotEnoughShares
    | InvalidShareFormat
    | InconsistentLength
    | DuplicateShares

  type Share = seq<Byte>

  // The outcome of one draw of 32 random bytes.
  type Block = b: seq<Byte> | |b| == 32 witness BytesOf(0, 32)

  function SplitError(secret: seq<Byte>, total: int, threshold: int): Option<ShamirError> {
    if secret == [] then Some(EmptySecret)
    else if total < 2 then Some(TotalBelowTwo)
    else if threshold < 2 then Some(ThresholdBelowTwo)
    else if threshold > total then Some(ThresholdAboveTotal)
    else if total > 255 then Some(TotalAbove255)
    else if ValueOf(secret) >= PRIME then Some(SecretTooLarge)
    else None
  }

  function Draws(random: nat -> Block, n: nat): (c: seq<int>)
    ensures |c| == n && Reduced(c, PRIME)
  {
    seq(n, (i: nat) => ValueOf(random(i)) % PRIME)
  }

  function Coefficients(secret: seq<Byte>, threshold: nat, random: nat -> Block): (c: seq<int>)
    requires threshold > 0
    ensures |c| == threshold
  {
    [ValueOf(secret)] + Draws(random, threshold - 1)
  }

  // One byte of x, one byte of length, then 32 bytes of y.
  function EncodeShare(x: Byte, length: nat, y: nat): (share: Share)
    ensures |share| == SHARE_LENGTH
  {
    [x, length % 256] + BytesOf(y, 32)
  }

  function ShareAt(c: seq<int>, x: Byte, length: nat): Share {
    EncodeShare(x, length, Eval(c, x) % PRIME)
  }

  function Split(secret: seq<Byte>, total: int, threshold: int, random: nat -> Block)
      : (r: Result<seq<Share>, ShamirError>)
    ensures r.Ok? <==> SplitError(secret, total, threshold).None?
    ensures r.Ok? ==> |r.value| == total && WellSized(r.value)
  {
    match SplitError(secret, total, threshold)
    case Some(e) => Error(e)
    case None =>
      var c := Coefficients(secret, threshold, random);
      Ok(seq(total, i requires 0 <= i < total => ShareAt(c, i + 1, |secret|)))
  }

  method SplitSecret(secret: seq<Byte>, totalShares: int, threshold: int, random: nat -> Block)
    returns (r: Result<seq<Share>, ShamirError>)
    ensures r == Split(secret, totalShares, threshold, random)
  {
    if |secret| == 0 {
      return Error(EmptySecret);
    }
    if totalShares < 2 {
      return Error(TotalBelowTwo);
    }
    if threshold < 2 {
      return Error(ThresholdBelowTwo);
    }
    if threshold > totalShares {
      return Error(ThresholdAboveTotal);
    }
    if totalShares > 255 {
      return Error(TotalAbove255);
    }
    var secretValue := BytesToBigInt(secret);
    if secretValue >= PRIME {
      return Error(SecretTooLarge);
    }
    var coefficients := [secretValue];
    for i := 1 to threshold
      invariant coefficients == Coefficients(secret, i, random)
    {
      var randomValue := BytesToBigInt(random(i - 1));
      coefficients := coefficients + [randomValue % PRIME];
    }
    var shares: seq<Share> := [];
    for x := 1 to totalShares + 1
      invariant |shares| == x - 1
      invariant forall i :: 0 <= i < |shares| ==> shares[i] == ShareAt(coefficients, i + 1, |secret|)
    {
      var y := EvaluatePolynomial(coefficients, x);
      var shareBytes := WriteShare(x, |secret|, y);
      shares := shares + [shareBytes[..]];
    }
    r := Ok(shares);
    assert shares == Split(secret, totalShares, threshold, random).value;
  }

  method WriteShare(x: Byte, length: nat, y: nat) returns (shareBytes: array<Byte>)
    ensures fresh(shareBytes)
    ensures shareBytes[..] == EncodeShare(x, length, y)
  {
    shareBytes := new Byte[SHARE_LENGTH];
    shareBytes[0] := x;
    shareBytes[1] := length % 256;
    var yBytes := BigIntToBytes(y, 32);
    for i := 0 to 32
      invariant shareBytes[..2] == [x, length % 256]
      invariant shareBytes[2..i + 2] == yBytes[..i]
      invariant yBytes[..] == BytesOf(y, 32)
    {
      shareBytes[i + 2] := yBytes[i];
    }
    assert shareBytes[..] == shareBytes[..2] + shareBytes[2..34];
  }

  predicate WellSized(shares: seq<Share>) {
    forall i :: 0 <= i < |shares| ==> |shares[i]| == SHARE_LENGTH
  }

  // The common length byte; 0 stands for "not seen yet".
  function ScanLength(shares: seq<Share>, length: Byte): Result<Byte, ShamirError> {
    if shares == [] then Ok(length)
    else if |shares[0]| != SHARE_LENGTH then Error(InvalidShareFormat)
    else if length != 0 && length != shares[0][1] then Error(InconsistentLength)
    else ScanLength(shares[1..], shares[0][1])
  }

  function Parse(shares: seq<Share>): (points: seq<Point>)
    requires WellSized(shares)
    ensures |points| == |shares|
  {
    seq(|shares|, i requires 0 <= i < |shares| => (shares[i][0], ValueOf(shares[i][2..])))
  }

  lemma {:induction false} ScanMeaning(shares: seq<Share>, length: Byte)
    ensures ScanLength(shares, length).Ok? ==> WellSized(shares)
    ensures ScanLength(shares, length).Ok? && shares != [] ==>
      ScanLength(shares, length).value == shares[|shares| - 1][1]
  {
    if shares != [] && ScanLength(shares, length).Ok? {
      ScanMeaning(shares[1..], shares[0][1]);
      forall i | 0 <= i < |shares|
        ensures |shares[i]| == SHARE_LENGTH
      {
        if i > 0 {
          assert shares[i] == shares[1..][i - 1];
        }
      }
      if |shares| == 1 {
        assert shares[1..] == [];
      }
    }
  }

  function CountError(count: nat, threshold: Option<int>): Option<ShamirError> {
    if count < 2 then Some(FewerThanTwoShares)
    else if threshold.Some? && (threshold.value < 2 || count < threshold.value) then Some(NotEnoughShares)
    else None
  }

  ghost function Reconstruct(shares: seq<Share>, threshold: Option<int>): Result<seq<Byte>, ShamirError> {
    match CountError(|shares|, threshold)
    case Some(e) => Error(e)
    case None =>
      match ScanLength(shares, 0)
      case Error(e) => Error(e)
      case Ok(length) =>
        ScanMeaning(shares, 0);
        var points := Parse(shares);
        if Distinct(Xs(points)) then Ok(BytesOf(SecretAt(points), length)) else Error(DuplicateShares)
  }

  function LengthBytes(shares: seq<Share>): (lengths: seq<int>)
    requires WellSized(shares)
    ensures |lengths| == |shares|
  {
    seq(|shares|, i requires 0 <= i < |shares| => shares[i][1])
  }

  // Zeros first, then one and the same length.
  ghost predicate Settling(lengths: seq<int>) {
    forall i, j :: 0 <= i < j < |lengths| && lengths[i] != 0 ==> lengths[j] == lengths[i]
  }

  lemma SettlingTail(first: int, second: int, rest: seq<int>)
    ensures Settling([first, second] + rest) <==> (first == 0 || first == second) && Settling([second] + rest)
  {
    var all, tail := [first, second] + rest, [second] + rest;
    assert forall k :: 0 <= k < |tail| ==> all[k + 1] == tail[k];
    if Settling(all) {
      assert first != 0 ==> all[1] == all[0];
      forall i, j | 0 <= i < j < |tail| && tail[i] != 0
        ensures tail[j] == tail[i]
      {
        assert all[j + 1] == all[i + 1];
      }
    }
    if (first == 0 || first == second) && Settling(tail) {
      forall i, j | 0 <= i < j < |all| && all[i] != 0
        ensures all[j] == all[i]
      {
        assert tail[j - 1] == all[j] && (j > 1 ==> tail[j - 1] == tail[if i == 0 then 0 else i - 1]);
      }
    }
  }

  lemma {:induction false} ScanAccepts(shares: seq<Share>, length: Byte)
    ensures ScanLength(shares, length).Ok? <==> WellSized(shares) && Settling([length as int] + LengthBytes(shares))
  {
    if shares != [] && |shares[0]| == SHARE_LENGTH {
      ScanAccepts(shares[1..], shares[0][1]);
      assert WellSized(shares) <==> WellSized(shares[1..]) by {
        assert shares == [shares[0]] + shares[1..];
      }
      if WellSized(shares) {
        var rest := LengthBytes(shares[1..]);
        assert LengthBytes(shares) == [shares[0][1] as int] + rest;
        SettlingTail(length, shares[0][1], rest);
        assert [length as int] + LengthBytes(shares) == [length as int, shares[0][1] as int] + rest;
      }
    }
  }

  lemma FromZero(shares: seq<Share>)
    ensures ScanLength(shares, 0).Ok? <==> WellSized(shares) && Settling(LengthBytes(shares))
  {
    ScanAccepts(shares, 0);
    if WellSized(shares) {
      ZeroFirst(LengthBytes(shares));
    }
  }

  lemma ZeroFirst(lengths: seq<int>)
    ensures Settling([0] + lengths) <==> Settling(lengths)
  {
    var all := [0] + lengths;
    assert forall k :: 0 <= k < |lengths| ==> all[k + 1] == lengths[k];
    if Settling(all) {
      forall i, j | 0 <= i < j < |lengths| && lengths[i] != 0
        ensures lengths[j] == lengths[i]
      {
        assert all[j + 1] == all[i + 1];
      }
    }
  }

  /** Exactly which shares are accepted: enough of them, all of 34 bytes, no x twice, and the
      length bytes equal, except that zeros may come before the first non-zero one. */
  lemma ReconstructAccepts(shares: seq<Share>, threshold: Option<int>)
    ensures Reconstruct(shares, threshold).Ok? <==>
      && |shares| >= 2 && (threshold.Some? ==> 2 <= threshold.value <= |shares|)
      && WellSized(shares) && Distinct(Xs(Parse(shares))) && Settling(LengthBytes(shares))
  {
    FromZero(shares);
  }

  lemma DistinctAppend(points: seq<Point>, last: Point)
    ensures Distinct(Xs(points + [last])) <==> Distinct(Xs(points)) && forall p :: p in points ==> p.0 != last.0
  {
    var xs, all := Xs(points), Xs(points + [last]);
    assert all == xs + [last.0];
    if Distinct(all) {
      forall p | p in points
        ensures p.0 != last.0
      {
        var i :| 0 <= i < |points| && points[i] == p;
        assert all[i] != all[|points|];
      }
      forall i, j | 0 <= i < j < |xs|
        ensures xs[i] != xs[j]
      {
        assert all[i] != all[j];
      }
    }
    if Distinct(xs) && forall p :: p in points ==> p.0 != last.0 {
      forall i, j | 0 <= i < j < |all|
        ensures all[i] != all[j]
      {
        assert points[i] in points;
        assert j < |xs| ==> xs[i] != xs[j];
      }
    }
  }

  // A set built from a sequence is as large as the sequence when nothing repeats.
  lemma {:induction false} SetSize(points: seq<Point>)
    ensures |set p | p in points :: p.0| <= |points|
    ensures |set p | p in points :: p.0| == |points| <==> Distinct(Xs(points))
  {
    if points != [] {
      var n := |points| - 1;
      var front, last := points[..n], points[n];
      SetSize(front);
      assert points == front + [last];
      DistinctAppend(front, last);
      assert (set p | p in points :: p.0) == (set p | p in front :: p.0) + {last.0};
    }
  }

  method ReconstructSecret(shares: seq<Share>, threshold: Option<int>) returns (r: Result<seq<Byte>, ShamirError>)
    ensures r == Reconstruct(shares, threshold)
  {
    if |shares| < 2 {
      return Error(FewerThanTwoShares);
    }
    if threshold.Some? && (threshold.value < 2 || |shares| < threshold.value) {
      return Error(NotEnoughShares);
    }
    var parsedShares: seq<Point> := [];
    var secretLength: Byte := 0;
    for i := 0 to |shares|
      invariant ScanLength(shares, 0) == ScanLength(shares[i..], secretLength)
      invariant WellSized(shares[..i]) && parsedShares == Parse(shares[..i])
    {
      var share := shares[i];
      assert shares[i..][1..] == shares[i + 1..];
      if |share| != SHARE_LENGTH {
        return Error(InvalidShareFormat);
      }
      var y := BytesToBigInt(share[2..]);
      if secretLength == 0 {
        secretLength := share[1];
      } else if secretLength != share[1] {
        return Error(InconsistentLength);
      }
      assert shares[..i + 1] == shares[..i] + [share];
      parsedShares := parsedShares + [(share[0], y)];
    }
    assert shares[..|shares|] == shares;
    var xValues := set p | p in parsedShares :: p.0;
    SetSize(parsedShares);
    if |xValues| != |parsedShares| {
      return Error(DuplicateShares);
    }
    var secretValue := LagrangeInterpolation(parsedShares);
    var bytes := BigIntToBytes(secretValue, secretLength);
    r := Ok(bytes[..]);
  }

  // The shares at the chosen positions, in the chosen order.
  function Select(shares: seq<Share>, chosen: seq<nat>): (s: seq<Share>)
    requires forall i :: 0 <= i < |chosen| ==> chosen[i] < |shares|
    ensures |s| == |chosen| && forall i :: 0 <= i < |s| ==> s[i] == shares[chosen[i]]
  {
    seq(|chosen|, i requires 0 <= i < |chosen| => shares[chosen[i]])
  }

  ghost predicate Choice(chosen: seq<nat>, total: int) {
    && (forall i :: 0 <= i < |chosen| ==> chosen[i] < total)
    && Distinct(chosen)
  }

  lemma ShareRoundTrip(c: seq<int>, x: Byte, length: nat)
    ensures ShareAt(c, x, length)[0] == x && ShareAt(c, x, length)[1] == length % 256
    ensures ValueOf(ShareAt(c, x, length)[2..]) == Eval(c, x) % PRIME
  {
    PrimeFitsShare();
    ValueOfBytes(Eval(c, x) % PRIME, 32);
    assert ShareAt(c, x, length)[2..] == BytesOf(Eval(c, x) % PRIME, 32);
  }

  lemma {:induction false} ScanUniform(shares: seq<Share>, length: Byte, seen: Byte)
    requires WellSized(shares)
    requires forall i :: 0 <= i < |shares| ==> shares[i][1] == length
    requires seen == 0 || seen == length
    ensures ScanLength(shares, seen) == Ok(if shares == [] then seen else length)
  {
    if shares != [] {
      ScanUniform(shares[1..], length, length);
    }
  }

  // What reconstruction sees in any selection of split shares.
  lemma SelectedPoints(secret: seq<Byte>, total: int, threshold: int, random: nat -> Block, chosen: seq<nat>)
    requires Split(secret, total, threshold, random).Ok?
    requires Choice(chosen, total)
    ensures
      var selected := Select(Split(secret, total, threshold, random).value, chosen);
      && WellSized(selected)
      && (chosen != [] ==> ScanLength(selected, 0) == Ok(|secret| % 256))
      && Interpolable(Parse(selected))
      && Through(Coefficients(secret, threshold, random), Xs(Parse(selected)), Ys(Parse(selected)), PRIME)
  {
    var c := Coefficients(secret, threshold, random);
    var selected := Select(Split(secret, total, threshold, random).value, chosen);
    var points := Parse(selected);
    forall i | 0 <= i < |chosen|
      ensures points[i] == (chosen[i] + 1, Eval(c, chosen[i] + 1) % PRIME)
      ensures selected[i][1] == |secret| % 256
      ensures Cong(Eval(c, Xs(points)[i]), Ys(points)[i], PRIME)
    {
      ShareRoundTrip(c, chosen[i] + 1, |secret|);
      CongRem(Eval(c, chosen[i] + 1), PRIME);
    }
    ScanUniform(selected, |secret| % 256, 0);
  }

  // The secret as far as the length byte goes.
  function Kept(secret: seq<Byte>): (kept: seq<Byte>)
    ensures |kept| == |secret| % 256
  {
    BytesOf(ValueOf(secret), |secret| % 256)
  }

  // What any selection of at least threshold shares reconstructs.
  lemma Reconstructed(secret: seq<Byte>, total: int, threshold: int, random: nat -> Block, chosen: seq<nat>,
                      required: Option<int>)
    requires Split(secret, total, threshold, random).Ok?
    requires Choice(chosen, total) && |chosen| >= threshold
    requires required.Some? ==> 2 <= required.value <= |chosen|
    ensures Reconstruct(Select(Split(secret, total, threshold, random).value, chosen), required) == Ok(Kept(secret))
  {
    var selected := Select(Split(secret, total, threshold, random).value, chosen);
    var c := Coefficients(secret, threshold, random);
    SelectedPoints(secret, total, threshold, random, chosen);
    SecretOfPolynomial(Parse(selected), c);
    assert Eval(c, 0) == ValueOf(secret);
    Opened(selected, secret, required);
  }

  // Shares that pass every check give the bytes of their secret.
  lemma Opened(shares: seq<Share>, secret: seq<Byte>, required: Option<int>)
    requires CountError(|shares|, required).None? && WellSized(shares)
    requires ScanLength(shares, 0) == Ok(|secret| % 256) && Interpolable(Parse(shares))
    requires SecretAt(Parse(shares)) == ValueOf(secret)
    ensures Reconstruct(shares, required) == Ok(Kept(secret))
  {
  }

  /** Any selection of at least threshold shares, in any order, gives the secret
      back byte for byte, exactly when its length fits the one length byte. */
  lemma RoundTrip(secret: seq<Byte>, total: int, threshold: int, random: nat -> Block, chosen: seq<nat>,
                  required: Option<int>)
    requires Split(secret, total, threshold, random).Ok?
    requires Choice(chosen, total) && |chosen| >= threshold
    requires required.Some? ==> 2 <= required.value <= |chosen|
    ensures
      var shares := Split(secret, total, threshold, random).value;
      Reconstruct(Select(shares, chosen), required) == Ok(secret) <==> |secret| <= 255
  {
    Reconstructed(secret, total, threshold, random, chosen, required);
    BytesOfValue(secret);
  }

  lemma {:induction false} ValueOfZeros(n: nat)
    ensures ValueOf(seq(n, _ => 0)) == 0
  {
    var zeros: seq<Byte> := seq(n, _ => 0);
    if n > 0 {
      assert zeros[..n - 1] == seq(n - 1, _ => 0);
      ValueOfZeros(n - 1);
    }
  }

  /** A secret that is lost: 256 zero bytes are accepted and come back as no bytes at all. */
  lemma LongSecretLost(random: nat -> Block)
    ensures var secret: seq<Byte> := seq(256, _ => 0);
      && Split(secret, 2, 2, random).Ok?
      && Reconstruct(Select(Split(secret, 2, 2, random).value, [0, 1]), Some(2)) == Ok([])
  {
    var secret: seq<Byte> := seq(256, _ => 0);
    ValueOfZeros(256);
    assert SplitError(secret, 2, 2).None?;
    Reconstructed(secret, 2, 2, random, [0, 1], Some(2));
  }

  /** Shares whose length bytes differ and that are accepted all the same. */
  lemma ZeroLengthUnnoticed() returns (shares: seq<Share>)
    ensures WellSized(shares) && |shares| == 2 && shares[0][1] == 0 && shares[1][1] == 5
    ensures Reconstruct(shares, None).Ok?
  {
    shares := [EncodeShare(1, 0, 0), EncodeShare(2, 5, 0)];
    assert Xs(Parse(shares)) == [1, 2] && LengthBytes(shares) == [0, 5];
    ReconstructAccepts(shares, None);
  }

  // tail completes the secret to a polynomial through the given points.
  ghost predicate Explains(tail: seq<int>, secret: int, xs: seq<int>, ys: seq<int>)
    requires |xs| == |ys|
  {
    && |tail| == |xs| && Reduced(tail, PRIME)
    && forall i :: 0 <= i < |xs| ==> Eval([secret] + tail, xs[i]) % PRIME == ys[i]
  }

  /** Perfect secrecy: whatever threshold - 1 shares say, every candidate secret is
      explained by exactly one choice of the random coefficients. */
  lemma PerfectSecrecy(xs: seq<int>, ys: seq<int>, secret: int)
    requires |xs| == |ys| && Distinct(xs)
    requires forall i :: 0 <= i < |xs| ==> 1 <= xs[i] <= 255 && 0 <= ys[i] < PRIME
    requires 0 <= secret < PRIME
    ensures exists tail :: Explains(tail, secret, xs, ys)
    ensures forall a, b :: Explains(a, secret, xs, ys) && Explains(b, secret, xs, ys) ==> a == b
  {
    var xs0, ys0 := [0] + xs, [secret] + ys;
    DistinctBytesDiffer(xs0);
    var c := Interpolate(xs0, ys0, PRIME);
    var tail := c[1..];
    assert Cong(Eval(c, xs0[0]), ys0[0], PRIME);
    CongSmall(c[0], secret, PRIME);
    assert c == [secret] + tail;
    forall i | 0 <= i < |xs|
      ensures Eval([secret] + tail, xs[i]) % PRIME == ys[i]
    {
      assert Cong(Eval(c, xs0[i + 1]), ys0[i + 1], PRIME);
      CongRem(ys[i], PRIME);
      CongSmall(Eval(c, xs[i]) % PRIME, ys[i], PRIME);
    }
    assert Explains(tail, secret, xs, ys);
    forall a, b | Explains(a, secret, xs, ys) && Explains(b, secret, xs, ys)
      ensures a == b
    {
      ExplanationInterpolates(a, secret, xs, ys);
      ExplanationInterpolates(b, secret, xs, ys);
      InterpolantUnique([secret] + a, [secret] + b, xs0, ys0, PRIME);
      assert a == ([secret] + a)[1..] && b == ([secret] + b)[1..];
    }
  }

  lemma ExplanationInterpolates(tail: seq<int>, secret: int, xs: seq<int>, ys: seq<int>)
    requires |xs| == |ys| && 0 <= secret < PRIME
    requires Explains(tail, secret, xs, ys)
    ensures Reduced([secret] + tail, PRIME)
    ensures Through([secret] + tail, [0] + xs, [secret] + ys, PRIME)
  {
    var c, xs0, ys0 := [secret] + tail, [0] + xs, [secret] + ys;
    forall i | 0 <= i < |xs0|
      ensures Cong(Eval(c, xs0[i]), ys0[i], PRIME)
    {
      if i > 0 {
        CongRem(Eval(c, xs[i - 1]), PRIME);
      }
    }
  }

  function BlockFor(tail: seq<int>, i: nat): Block {
    BytesOf(if i < |tail| && tail[i] >= 0 then tail[i] else 0, 32)
  }

  // Every vector of reduced coefficients is the outcome of some draws.
  lemma DrawsAreArbitrary(tail: seq<int>) returns (random: nat -> Block)
    requires Reduced(tail, PRIME)
    ensures Draws(random, |tail|) == tail
  {
    PrimeFitsShare();
    random := (i: nat) => BlockFor(tail, i);
    forall i | 0 <= i < |tail|
      ensures Draws(random, |tail|)[i] == tail[i]
    {
      ValueOfBytes(tail[i], 32);
      CongRem(tail[i], PRIME);
      CongSmall(tail[i] % PRIME, tail[i], PRIME);
    }
  }

  /** How often: a coefficient below 189 comes from two of the blocks of 32 bytes, every other
      one from exactly one. */
  lemma DrawsPerCoefficient(v: int, block: Block)
    requires 0 <= v < PRIME
    ensures ValueOf(block) % PRIME == v <==>
      block == BytesOf(v, 32) || (v < 189 && block == BytesOf(v + PRIME, 32))
    ensures v < 189 ==> BytesOf(v, 32) != BytesOf(v + PRIME, 32)
  {
    PrimeFitsShare();
    Preimages(v, block, 32);
  }

  lemma Preimages(v: int, block: seq<Byte>, n: nat)
    requires 0 <= v < PRIME && Pow256(n) == PRIME + 189 && |block| == n
    ensures ValueOf(block) % PRIME == v <==> block == BytesOf(v, n) || (v < 189 && block == BytesOf(v + PRIME, n))
    ensures v < 189 ==> BytesOf(v, n) != BytesOf(v + PRIME, n)
  {
    ValueBound(block);
    BytesOfValue(block);
    ValueOfBytes(v, n);
    if v < 189 {
      ValueOfBytes(v + PRIME, n);
    }
    TwoResidues(ValueOf(block), v);
  }

  lemma TwoResidues(x: nat, v: nat)
    requires x < PRIME + 189 && v < PRIME
    ensures x % PRIME == v <==> x == v || (v < 189 && x == v + PRIME)
  {
    if x >= PRIME {
      CongIntro(x, x - PRIME, 1, PRIME);
    }
    CongRem(x, PRIME);
    CongSmall(x % PRIME, if x < PRIME then x else x - PRIME, PRIME);
  }

  function ChosenXs(chosen: seq<nat>): (xs: seq<int>)
    ensures |xs| == |chosen| && forall i :: 0 <= i < |xs| ==> xs[i] == chosen[i] + 1
  {
    seq(|chosen|, i requires 0 <= i < |chosen| => chosen[i] + 1)
  }

  function ChosenYs(c: seq<int>, chosen: seq<nat>): (ys: seq<int>)
    ensures |ys| == |chosen| && forall i :: 0 <= i < |ys| ==> ys[i] == Eval(c, chosen[i] + 1) % PRIME
  {
    seq(|chosen|, i requires 0 <= i < |chosen| => Eval(c, chosen[i] + 1) % PRIME)
  }

  // A selection that does not use every share can take one more.
  lemma Extend(chosen: seq<nat>, total: nat) returns (extra: nat)
    requires Choice(chosen, total) && |chosen| < total
    ensures Choice(chosen + [extra], total)
  {
    var used, all := (set i | i in chosen), Below(total);
    UsedSize(chosen);
    assert all - used != {} by {
      assert used <= all;
      assert |all - used| == |all| - |used|;
    }
    extra :| extra in all - used;
  }

  function Below(n: nat): (s: set<nat>)
    ensures |s| == n && forall i: nat :: i in s <==> i < n
  {
    if n == 0 then {} else Below(n - 1) + {n - 1}
  }

  lemma {:induction false} UsedSize<T>(items: seq<T>)
    ensures |set i | i in items| <= |items|
  {
    if items != [] {
      UsedSize(items[1..]);
      assert (set i | i in items) == (set i | i in items[1..]) + {items[0]};
    }
  }

  /** Fewer than threshold shares of one secret are, byte for byte, also shares of
      any other secret of the same length. */
  lemma {:induction false} SharesRevealNothing(secret: seq<Byte>, other: seq<Byte>, total: int, threshold: int,
                                               random: nat -> Block, chosen: seq<nat>)
    requires SplitError(secret, total, threshold).None? && SplitError(other, total, threshold).None?
    requires |secret| == |other|
    requires Choice(chosen, total) && |chosen| < threshold
    ensures exists random' ::
      Select(Split(other, total, threshold, random').value, chosen)
      == Select(Split(secret, total, threshold, random).value, chosen)
    decreases threshold - |chosen|
  {
    if |chosen| == threshold - 1 {
      AllButOneRevealNothing(secret, other, total, threshold, random, chosen);
    } else {
      var extra := Extend(chosen, total);
      var more := chosen + [extra];
      SharesRevealNothing(secret, other, total, threshold, random, more);
      var random' :|
        Select(Split(other, total, threshold, random').value, more)
        == Select(Split(secret, total, threshold, random).value, more);
      var mine, theirs := Split(secret, total, threshold, random).value, Split(other, total, threshold, random').value;
      assert Select(mine, chosen) == Select(mine, more)[..|chosen|];
      assert Select(theirs, chosen) == Select(theirs, more)[..|chosen|];
    }
  }

  // Polynomials that agree at the chosen points give the same shares there.
  lemma SameSelection(secret: seq<Byte>, other: seq<Byte>, total: int, threshold: int,
                      random: nat -> Block, random': nat -> Block, chosen: seq<nat>)
    requires SplitError(secret, total, threshold).None? && SplitError(other, total, threshold).None?
    requires |secret| == |other| && Choice(chosen, total)
    requires forall i :: 0 <= i < |chosen| ==>
      Eval(Coefficients(other, threshold, random'), chosen[i] + 1) % PRIME
      == Eval(Coefficients(secret, threshold, random), chosen[i] + 1) % PRIME
    ensures Select(Split(other, total, threshold, random').value, chosen)
         == Select(Split(secret, total, threshold, random).value, chosen)
  {
    var c, d := Coefficients(secret, threshold, random), Coefficients(other, threshold, random');
    var mine := Select(Split(secret, total, threshold, random).value, chosen);
    var theirs := Select(Split(other, total, threshold, random').value, chosen);
    forall i | 0 <= i < |chosen|
      ensures theirs[i] == mine[i]
    {
      assert theirs[i] == ShareAt(d, chosen[i] + 1, |other|) && mine[i] == ShareAt(c, chosen[i] + 1, |secret|);
      SameShare(c, d, chosen[i] + 1, |secret|);
    }
  }

  lemma SameShare(c: seq<int>, d: seq<int>, x: Byte, length: nat)
    requires Eval(d, x) % PRIME == Eval(c, x) % PRIME
    ensures ShareAt(d, x, length) == ShareAt(c, x, length)
  {
  }

  lemma AllButOneRevealNothing(secret: seq<Byte>, other: seq<Byte>, total: int, threshold: int,
                               random: nat -> Block, chosen: seq<nat>)
    requires SplitError(secret, total, threshold).None? && SplitError(other, total, threshold).None?
    requires |secret| == |other|
    requires Choice(chosen, total) && |chosen| == threshold - 1
    ensures exists random' ::
      Select(Split(other, total, threshold, random').value, chosen)
      == Select(Split(secret, total, threshold, random).value, chosen)
  {
    var c := Coefficients(secret, threshold, random);
    var xs, ys := ChosenXs(chosen), ChosenYs(c, chosen);
    PerfectSecrecy(xs, ys, ValueOf(other));
    var tail :| Explains(tail, ValueOf(other), xs, ys);
    var random' := DrawsAreArbitrary(tail);
    var d := Coefficients(other, threshold, random');
    assert d == [ValueOf(other)] + tail;
    assert forall i :: 0 <= i < |chosen| ==> Eval(d, xs[i]) % PRIME == ys[i];
    SameSelection(secret, other, total, threshold, random, random', chosen);
  }

  // Shares selected from some split of other are those selected from this split of secret.
  ghost predicate AlsoFits(secret: seq<Byte>, other: seq<Byte>, total: int, threshold: int, random: nat -> Block,
                           chosen: seq<nat>)
    requires SplitError(secret, total, threshold).None? && SplitError(other, total, threshold).None?
    requires Choice(chosen, total)
  {
    exists random' ::
      Select(Split(other, total, threshold, random').value, chosen)
      == Select(Split(secret, total, threshold, random).value, chosen)
  }

  lemma EnoughSharesDetermine(secret: seq<Byte>, other: seq<Byte>, total: int, threshold: int,
                              random: nat -> Block, random': nat -> Block, chosen: seq<nat>)
    requires SplitError(secret, total, threshold).None? && SplitError(other, total, threshold).None?
    requires |secret| == |other| && Choice(chosen, total) && |chosen| >= threshold
    requires Select(Split(other, total, threshold, random').value, chosen)
          == Select(Split(secret, total, threshold, random).value, chosen)
    ensures other == secret
  {
    var points := Parse(Select(Split(secret, total, threshold, random).value, chosen));
    SelectedPoints(secret, total, threshold, random, chosen);
    SelectedPoints(other, total, threshold, random', chosen);
    SecretOfPolynomial(points, Coefficients(secret, threshold, random));
    SecretOfPolynomial(points, Coefficients(other, threshold, random'));
    ConstantTerm(secret, threshold, random);
    ConstantTerm(other, threshold, random');
    BytesOfValue(secret);
    BytesOfValue(other);
  }

  lemma ConstantTerm(secret: seq<Byte>, threshold: nat, random: nat -> Block)
    requires threshold > 0 && ValueOf(secret) < PRIME
    ensures Eval(Coefficients(secret, threshold, random), 0) % PRIME == ValueOf(secret)
  {
    assert Eval(Coefficients(secret, threshold, random), 0) == ValueOf(secret);
    CongRem(ValueOf(secret), PRIME);
    CongSmall(ValueOf(secret) % PRIME, ValueOf(secret), PRIME);
  }

  /** Shares hide the secret from any other one of its length exactly when they are fewer than
      the threshold. */
  lemma HiddenIff(secret: seq<Byte>, other: seq<Byte>, total: int, threshold: int, random: nat -> Block,
                  chosen: seq<nat>)
    requires SplitError(secret, total, threshold).None? && SplitError(other, total, threshold).None?
    requires |secret| == |other| && other != secret && Choice(chosen, total)
    ensures AlsoFits(secret, other, total, threshold, random, chosen) <==> |chosen| < threshold
  {
    if |chosen| < threshold {
      SharesRevealNothing(secret, other, total, threshold, random, chosen);
    } else if AlsoFits(secret, other, total, threshold, random, chosen) {
      var random' :| Select(Split(other, total, threshold, random').value, chosen)
                  == Select(Split(secret, total, threshold, random).value, chosen);
      EnoughSharesDetermine(secret, other, total, threshold, random, random', chosen);
    }
  }

  lemma {:induction false} EvalConstant(v: int, zeros: seq<int>, x: int)
    requires forall i :: 0 <= i < |zeros| ==> zeros[i] == 0
    ensures Eval([v] + zeros, x) == v
    decreases |zeros|
  {
    assert ([v] + zeros)[1..] == zeros;
    if zeros != [] {
      EvalConstant(0, zeros[1..], x);
      assert [0] + zeros[1..] == zeros;
    }
  }

  ghost predicate AllZero(random: nat -> Block) {
    forall i :: ValueOf(random(i)) == 0
  }

  // With nothing but zeros drawn, any two shares or more reconstruct the value shared.
  lemma ConstantReconstructed(secret: seq<Byte>, total: int, threshold: int, random: nat -> Block, chosen: seq<nat>,
                              required: Option<int>)
    requires Split(secret, total, threshold, random).Ok? && AllZero(random)
    requires Choice(chosen, total) && |chosen| >= 2
    requires required.Some? ==> 2 <= required.value <= |chosen|
    ensures Reconstruct(Select(Split(secret, total, threshold, random).value, chosen), required) == Ok(Kept(secret))
  {
    var selected := Select(Split(secret, total, threshold, random).value, chosen);
    SelectedPoints(secret, total, threshold, random, chosen);
    ConstantThrough(secret, threshold, random, Parse(selected));
    SecretOfPolynomial(Parse(selected), [ValueOf(secret)]);
    Opened(selected, secret, required);
  }

  lemma ConstantThrough(secret: seq<Byte>, threshold: nat, random: nat -> Block, points: seq<Point>)
    requires threshold > 0 && AllZero(random)
    requires Through(Coefficients(secret, threshold, random), Xs(points), Ys(points), PRIME)
    ensures Through([ValueOf(secret)], Xs(points), Ys(points), PRIME)
    ensures Eval([ValueOf(secret)], 0) == ValueOf(secret)
  {
    var v, draws := ValueOf(secret), Draws(random, threshold - 1);
    ZeroDraws(random, threshold - 1);
    assert [v] + [] == [v];
    EvalConstant(v, [], 0);
    forall i | 0 <= i < |points|
      ensures Cong(Eval([v], Xs(points)[i]), Ys(points)[i], PRIME)
    {
      EvalConstant(v, draws, Xs(points)[i]);
      EvalConstant(v, [], Xs(points)[i]);
    }
  }

  lemma ZeroDraws(random: nat -> Block, n: nat)
    requires AllZero(random)
    ensures forall i :: 0 <= i < n ==> Draws(random, n)[i] == 0
  {
  }

  lemma ZerosAreZero(zeros: nat -> Block, n: nat)
    requires forall i :: zeros(i) == BytesOf(0, n)
    ensures AllZero(zeros)
  {
    ValueOfBytes(0, n);
  }

  lemma AnotherSecret(secret: seq<Byte>) returns (other: seq<Byte>)
    requires secret != []
    ensures |other| == |secret| && ValueOf(other) <= 1 && ValueOf(other) != ValueOf(secret)
  {
    var v := if ValueOf(secret) == 0 then 1 else 0;
    assert Pow256(|secret|) == 256 * Pow256(|secret| - 1);
    ValueOfBytes(v, |secret|);
    other := BytesOf(v, |secret|);
  }

  /** Any two or more shares give the secret back whatever was drawn exactly when they are at least
      as many as the threshold and the length fits its byte. */
  lemma AlwaysReconstructsIff(secret: seq<Byte>, total: int, threshold: int, chosen: seq<nat>, required: Option<int>)
    requires SplitError(secret, total, threshold).None?
    requires Choice(chosen, total) && |chosen| >= 2
    requires required.Some? ==> 2 <= required.value <= |chosen|
    ensures
      (forall random: nat -> Block ::
        Reconstruct(Select(Split(secret, total, threshold, random).value, chosen), required) == Ok(secret))
      <==> |chosen| >= threshold && |secret| <= 255
  {
    if |chosen| >= threshold {
      forall random: nat -> Block
        ensures Reconstruct(Select(Split(secret, total, threshold, random).value, chosen), required) == Ok(secret)
          <==> |secret| <= 255
      {
        RoundTrip(secret, total, threshold, random, chosen, required);
      }
      var some: nat -> Block := (i: nat) => BytesOf(0, 32);
      assert Reconstruct(Select(Split(secret, total, threshold, some).value, chosen), required) == Ok(secret)
        <==> |secret| <= 255;
    } else {
      var random := WrongReconstruction(secret, total, threshold, chosen, required);
    }
  }

  lemma WrongReconstruction(secret: seq<Byte>, total: int, threshold: int, chosen: seq<nat>, required: Option<int>)
      returns (random: nat -> Block)
    requires SplitError(secret, total, threshold).None?
    requires Choice(chosen, total) && 2 <= |chosen| < threshold
    requires required.Some? ==> 2 <= required.value <= |chosen|
    ensures Reconstruct(Select(Split(secret, total, threshold, random).value, chosen), required) != Ok(secret)
  {
    var other := AnotherSecret(secret);
    var zeros: nat -> Block := (i: nat) => BytesOf(0, 32);
    SharesRevealNothing(other, secret, total, threshold, zeros, chosen);
    random :|
      Select(Split(secret, total, threshold, random).value, chosen)
      == Select(Split(other, total, threshold, zeros).value, chosen);
    ZerosAreZero(zeros, 32);
    ConstantReconstructed(other, total, threshold, zeros, chosen, required);
    BytesOfValue(other);
  }
}
