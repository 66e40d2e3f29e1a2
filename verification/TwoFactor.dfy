/** One-time passwords (RFC 6238 over RFC 4226, the HMAC left open) and recovery codes. */
module TwoFactor {
  import opened Wrappers
  import opened Bytes
  import Base32

  const TOTP_STEP_SECONDS := 30
  const TOTP_WINDOW := 1
  const RECOVERY_CODES := 8

  type Digest = d: seq<Byte> | |d| == 20 witness seq(20, _ => 0)
  type Hash = string

  // HMAC-SHA-1 of a counter under a key.
  type Hmac = (seq<nat>, int) -> Digest

  // Whether a recovery code has this bcrypt hash.
  type CodeCheck = (string, Hash) -> bool

  // ---- Codes

  // Dynamic truncation, section 5.3 of RFC 4226: four bytes at an offset, the top bit cleared.
  function Truncate(digest: Digest): (binary: nat)
    ensures binary < 0x8000_0000
  {
    var offset: int := digest[19] % 16;
    var a: int, b: int, c: int, d: int := digest[offset], digest[offset + 1], digest[offset + 2], digest[offset + 3];
    a % 128 * 0x100_0000 + b * 0x1_0000 + c * 0x100 + d
  }

  /** The truncated value is the 31 low bits of the four bytes read as a big-endian number. */
  lemma TruncateIsBigEndian(digest: Digest)
    ensures var offset: int := digest[19] % 16;
            Truncate(digest) == ValueOf(digest[offset..offset + 4]) % 0x8000_0000
  {
    var offset: int := digest[19] % 16;
    WordValue(digest[offset..offset + 4]);
  }

  lemma WordValue(word: seq<Byte>)
    requires |word| == 4
    ensures ValueOf(word) ==
      word[0] as int * 0x100_0000 + word[1] as int * 0x1_0000 + word[2] as int * 0x100 + word[3] as int
  {
    ValueFront(word);
    ValueFront(word[..3]);
    ValueFront(word[..2]);
    ValueFront(word[..1]);
  }

  lemma ValueFront(bytes: seq<Byte>)
    requires bytes != []
    ensures var n := |bytes| - 1;
            && ValueOf(bytes) == ValueOf(bytes[..n]) * 256 + bytes[n]
            && forall k :: 0 <= k < n ==> bytes[..n][k] == bytes[k]
  {
  }

  function ToString(n: nat): (s: string)
    ensures s != ""
  {
    if n < 10 then [Digit(n)] else ToString(n / 10) + [Digit(n % 10)]
  }

  function Digit(n: nat): char
    requires n < 10
  {
    '0' + n as char
  }

  function PadStart(s: string, length: nat): string
    decreases length - |s|
  {
    if |s| >= length then s else PadStart("0" + s, length)
  }

  function GenerateTotp(hmac: Hmac, key: seq<nat>, step: int): string {
    PadStart(ToString(Truncate(hmac(key, step)) % 1_000_000), 6)
  }

  predicate Digits(s: string) {
    forall i :: 0 <= i < |s| ==> '0' <= s[i] <= '9'
  }

  function ReadNumber(s: string): nat
    requires Digits(s)
  {
    if s == "" then 0 else ReadNumber(s[..|s| - 1]) * 10 + (s[|s| - 1] as int - '0' as int)
  }

  function Pow10(n: nat): (p: nat)
    ensures p > 0
  {
    if n == 0 then 1 else 10 * Pow10(n - 1)
  }

  lemma {:induction false} ToStringValue(n: nat, width: nat)
    requires n < Pow10(width) && width > 0
    ensures Digits(ToString(n)) && ReadNumber(ToString(n)) == n && |ToString(n)| <= width
    decreases width
  {
    if n >= 10 {
      ToStringValue(n / 10, width - 1);
    }
  }

  lemma {:induction false} PadStartValue(s: string, length: nat)
    requires Digits(s) && |s| <= length
    ensures |PadStart(s, length)| == length && Digits(PadStart(s, length))
    ensures ReadNumber(PadStart(s, length)) == ReadNumber(s)
    decreases length - |s|
  {
    if |s| < length {
      LeadingZero(s);
      PadStartValue("0" + s, length);
    }
  }

  lemma {:induction false} LeadingZero(s: string)
    requires Digits(s)
    ensures Digits("0" + s) && ReadNumber("0" + s) == ReadNumber(s)
  {
    if s == "" {
      assert ("0" + s)[..0] == "";
    } else {
      LeadingZero(s[..|s| - 1]);
      assert ("0" + s)[..|s|] == "0" + s[..|s| - 1];
    }
  }

  /** Every code is six digits that read as the truncated value modulo a million. */
  lemma CodeShape(hmac: Hmac, key: seq<nat>, step: int)
    ensures var code := GenerateTotp(hmac, key, step);
      |code| == 6 && Digits(code) && ReadNumber(code) == Truncate(hmac(key, step)) % 1_000_000
  {
    var value := Truncate(hmac(key, step)) % 1_000_000;
    assert Pow10(6) == 1_000_000;
    ToStringValue(value, 6);
    PadStartValue(ToString(value), 6);
  }

  predicate IsSpace(c: char) {
    var n := c as int;
    9 <= n <= 13 || n == 0x20 || n == 0xA0 || n == 0x1680 || 0x2000 <= n <= 0x200A ||
    n == 0x2028 || n == 0x2029 || n == 0x202F || n == 0x205F || n == 0x3000 || n == 0xFEFF
  }

  function WithoutSpaces(token: string): string {
    if token == "" then ""
    else (if IsSpace(token[0]) then "" else [token[0]]) + WithoutSpaces(token[1..])
  }

  lemma {:induction false} WithoutSpacesJoined(a: string, b: string)
    ensures WithoutSpaces(a + b) == WithoutSpaces(a) + WithoutSpaces(b)
  {
    if a == "" {
      assert a + b == b;
    } else {
      assert (a + b)[1..] == a[1..] + b;
      WithoutSpacesJoined(a[1..], b);
    }
  }

  /** No white space is left, a token without any is kept as it is, and white space may be put in
      anywhere without a difference. */
  lemma SpacesIgnored(a: string, spaces: string, b: string)
    requires forall c :: c in spaces ==> IsSpace(c)
    ensures WithoutSpaces(a + spaces + b) == WithoutSpaces(a + b)
    ensures forall c :: c in WithoutSpaces(a) ==> !IsSpace(c)
    ensures (forall c :: c in a ==> !IsSpace(c)) ==> WithoutSpaces(a) == a
  {
    SpacesBetween(a, spaces, b);
    NoSpaceLeft(a);
  }

  lemma SpacesBetween(a: string, spaces: string, b: string)
    requires forall c :: c in spaces ==> IsSpace(c)
    ensures WithoutSpaces(a + spaces + b) == WithoutSpaces(a + b)
  {
    OnlySpaces(spaces);
    WithoutSpacesJoined(a, spaces);
    Nothing(WithoutSpaces(a));
    WithoutSpacesJoined(a + spaces, b);
    WithoutSpacesJoined(a, b);
  }

  lemma Nothing(s: string)
    ensures s + "" == s
  {
  }

  lemma {:induction false} OnlySpaces(spaces: string)
    requires forall c :: c in spaces ==> IsSpace(c)
    ensures WithoutSpaces(spaces) == ""
  {
    if spaces != "" {
      OnlySpaces(spaces[1..]);
    }
  }

  lemma {:induction false} NoSpaceLeft(s: string)
    ensures forall c :: c in WithoutSpaces(s) ==> !IsSpace(c)
    ensures (forall c :: c in s ==> !IsSpace(c)) ==> WithoutSpaces(s) == s
  {
    if s != "" {
      NoSpaceLeft(s[1..]);
      assert s == [s[0]] + s[1..];
    }
  }

  /** So a code may be typed in two groups, as authenticators show it. */
  lemma GroupedCode(hmac: Hmac, secret: string, a: string, b: string, now: nat)
    ensures MatchingStep(hmac, secret, a + " " + b, now) == MatchingStep(hmac, secret, a + b, now)
  {
    SpacesIgnored(a, " ", b);
  }

  // ---- Which step a code is for

  predicate InWindow(step: int, now: nat) {
    now / TOTP_STEP_SECONDS - TOTP_WINDOW <= step <= now / TOTP_STEP_SECONDS + TOTP_WINDOW
  }

  /** The window of a step begins one step before it and ends one after it. */
  lemma WindowIsAdjacent(step: int, now: nat)
    ensures InWindow(step, now) <==> 30 * (step - 1) <= now < 30 * (step + 2)
  {
  }

  // A counter below zero cannot be written as an unsigned number.
  datatype TotpError = BadSecret | CounterOutOfRange

  // What IsMatch and FirstMatch search: the code of every step.
  function Codes(hmac: Hmac, key: seq<nat>): int -> string {
    step => GenerateTotp(hmac, key, step)
  }

  // The earliest step of the window whose code is code.
  ghost predicate IsMatch(codes: int -> string, code: string, now: nat, r: Option<int>) {
    && (r.Some? ==> InWindow(r.value, now) && codes(r.value) == code)
    && forall k :: InWindow(k, now) && (r.Some? ==> k < r.value) ==> codes(k) != code
  }

  function FirstMatch(codes: int -> string, code: string, step: int, last: int): Option<int>
    decreases last - step + 1
  {
    if step > last then None
    else if codes(step) == code then Some(step)
    else FirstMatch(codes, code, step + 1, last)
  }

  function Search(codes: int -> string, code: string, now: nat): Option<int> {
    var current := now / TOTP_STEP_SECONDS;
    FirstMatch(codes, code, current - TOTP_WINDOW, current + TOTP_WINDOW)
  }

  function MatchingStep(hmac: Hmac, secret: string, token: string, now: nat): Result<Option<int>, TotpError> {
    var code := WithoutSpaces(token);
    if |code| != 6 || !Digits(code) then Ok(None)
    else
      match Base32.Decoded(secret)
      case None => Error(BadSecret)
      case Some(key) =>
        if now / TOTP_STEP_SECONDS < TOTP_WINDOW then Error(CounterOutOfRange)
        else Ok(Search(Codes(hmac, key), code, now))
  }

  lemma {:induction false} FirstMatchIsFirst(codes: int -> string, code: string, step: int, last: int)
    ensures var r := FirstMatch(codes, code, step, last);
      && (r.Some? ==> step <= r.value <= last && codes(r.value) == code)
      && forall k :: step <= k <= last && (r.Some? ==> k < r.value) ==> codes(k) != code
    decreases last - step + 1
  {
    if step <= last && codes(step) != code {
      FirstMatchIsFirst(codes, code, step + 1, last);
    }
  }

  lemma SearchIsMatch(codes: int -> string, code: string, now: nat)
    ensures IsMatch(codes, code, now, Search(codes, code, now))
  {
    var current := now / TOTP_STEP_SECONDS;
    FirstMatchIsFirst(codes, code, current - TOTP_WINDOW, current + TOTP_WINDOW);
  }

  /** The matching step is the earliest one of the window with that code; there is one
      exactly when the token, spaces aside, is the code of some step of the window. Only a
      window that begins before the first step makes the search fail. */
  lemma MatchingStepIsMatch(hmac: Hmac, secret: string, token: string, now: nat)
    requires Base32.Decoded(secret).Some?
    ensures var r, code := MatchingStep(hmac, secret, token, now), WithoutSpaces(token);
      && (r.Error? <==> |code| == 6 && Digits(code) && now < TOTP_STEP_SECONDS)
      && (r.Ok? ==> IsMatch(Codes(hmac, Base32.Decoded(secret).value), code, now, r.value))
  {
    var key, code := Base32.Decoded(secret).value, WithoutSpaces(token);
    if |code| == 6 && Digits(code) {
      SearchIsMatch(Codes(hmac, key), code, now);
    } else {
      forall k
        ensures Codes(hmac, key)(k) != code
      {
        CodeShape(hmac, key, k);
      }
    }
  }

  /** A secret that cannot be decoded matters only for a token of six digits. */
  lemma UnreadableSecret(hmac: Hmac, secret: string, token: string, now: nat)
    requires Base32.Decoded(secret).None?
    ensures MatchingStep(hmac, secret, token, now) ==
      if |WithoutSpaces(token)| == 6 && Digits(WithoutSpaces(token)) then Error(BadSecret) else Ok(None)
  {
  }

  lemma DigitsHaveNoSpaces(s: string)
    requires Digits(s)
    ensures WithoutSpaces(s) == s
  {
    NoSpaceLeft(s);
  }

  method SearchWindow(codes: int -> string, code: string, now: nat) returns (r: Option<int>)
    ensures r == Search(codes, code, now)
  {
    var currentCounter := now / TOTP_STEP_SECONDS;
    for delta := -TOTP_WINDOW to TOTP_WINDOW + 1
      invariant Search(codes, code, now)
             == FirstMatch(codes, code, currentCounter + delta, currentCounter + TOTP_WINDOW)
    {
      var step := currentCounter + delta;
      if codes(step) == code {
        return Some(step);
      }
    }
    r := None;
  }

  method GetMatchingTotpStep(hmac: Hmac, secret: string, token: string, now: nat)
      returns (r: Result<Option<int>, TotpError>)
    ensures r == MatchingStep(hmac, secret, token, now)
  {
    var normalizedToken := WithoutSpaces(token);
    if |normalizedToken| != 6 || !Digits(normalizedToken) {
      return Ok(None);
    }
    var secretBytes := Base32.Base32Decode(secret);
    if secretBytes.None? {
      return Error(BadSecret);
    }
    if now / TOTP_STEP_SECONDS < TOTP_WINDOW {
      return Error(CounterOutOfRange);
    }
    var step := SearchWindow(Codes(hmac, secretBytes.value), normalizedToken, now);
    r := Ok(step);
  }
}
