/** The envelope in which the server keeps a successor's share: five fields joined by dots,
    sealed under a key derived from a passphrase the server never sees. */
module ShareCustody {
  import opened Wrappers
  import opened Bytes
  import Base64

  const PASSPHRASE_MIN_LENGTH := 8
  const SALT_LENGTH := 16
  const PREFIX := "hkshare"
  const VERSION := "v1"

  type Key = seq<Byte>

  // Key derivation and authenticated encryption.
  datatype Cipher = Cipher(
    derive: (string, seq<nat>) -> Key,
    seal: (string, Key, seq<nat>) -> seq<Byte>,
    open: (seq<nat>, Key, seq<nat>) -> Option<string>)
  {
    // Opening undoes sealing, and sealed data carries at least its authentication tag.
    ghost predicate Inverts() {
      forall text, key, iv ::
        seal(text, key, iv) != [] && open(seal(text, key, iv), key, iv) == Some(text)
    }

    // Data sealed under one key is rejected under any other.
    ghost predicate Authenticates() {
      forall text, key, other, iv :: other != key ==> open(seal(text, key, iv), other, iv) == None
    }
  }

  datatype CustodyError = Invalid | CannotOpen

  // ---- Joining and splitting at a separator

  function Join(parts: seq<string>, sep: char): string
    requires parts != []
  {
    if |parts| == 1 then parts[0] else parts[0] + [sep] + Join(parts[1..], sep)
  }

  function Split(s: string, sep: char): (parts: seq<string>)
    ensures parts != []
  {
    if s == "" then [""]
    else
      var rest := Split(s[1..], sep);
      if s[0] == sep then [""] + rest else [[s[0]] + rest[0]] + rest[1..]
  }

  ghost predicate Separate(parts: seq<string>, sep: char) {
    parts != [] && forall i :: 0 <= i < |parts| ==> sep !in parts[i]
  }

  lemma {:induction false} SplitAt(part: string, sep: char, s: string)
    requires sep !in part
    ensures Split(part + [sep] + s, sep) == [part] + Split(s, sep)
  {
    var t := part + [sep] + s;
    if part == "" {
      assert t[1..] == s;
    } else {
      assert t[1..] == part[1..] + [sep] + s && [part[0]] + part[1..] == part;
      SplitAt(part[1..], sep, s);
    }
  }

  lemma {:induction false} SplitNone(part: string, sep: char)
    requires sep !in part
    ensures Split(part, sep) == [part]
  {
    if part != "" {
      SplitNone(part[1..], sep);
      assert [part[0]] + part[1..] == part;
    }
  }

  lemma {:induction false} SplitJoin(parts: seq<string>, sep: char)
    requires Separate(parts, sep)
    ensures Split(Join(parts, sep), sep) == parts
    decreases |parts|
  {
    if |parts| == 1 {
      SplitNone(parts[0], sep);
    } else {
      SplitJoin(parts[1..], sep);
      SplitAt(parts[0], sep, Join(parts[1..], sep));
    }
  }

  lemma {:induction false} JoinSplit(s: string, sep: char)
    ensures Separate(Split(s, sep), sep) && Join(Split(s, sep), sep) == s
  {
    if s != "" {
      JoinSplit(s[1..], sep);
      var rest := Split(s[1..], sep);
      if s[0] != sep && |rest| > 1 {
        assert Split(s, sep)[1..] == rest[1..];
      } else if s[0] == sep {
        assert Split(s, sep)[1..] == rest;
      }
    }
  }

  // ---- Envelopes

  predicate IsWrapped(value: Option<string>) {
    value.Some? &&
    var parts := Split(value.value, '.');
    |parts| == 5 && parts[0] == PREFIX && parts[1] == VERSION
  }

  // salt and iv are the random bytes drawn by this call.
  function Wrap(cipher: Cipher, share: seq<Byte>, passphrase: string, salt: seq<Byte>, iv: seq<Byte>)
      : Result<string, CustodyError>
  {
    if share == [] || |passphrase| < PASSPHRASE_MIN_LENGTH then Error(Invalid)
    else
      var key := cipher.derive(passphrase, salt);
      var data := cipher.seal(Base64.ToBase64(share), key, iv);
      Ok(Join([PREFIX, VERSION, Base64.ToBase64(salt), Base64.ToBase64(iv), Base64.ToBase64(data)], '.'))
  }

  function Unwrap(cipher: Cipher, wrapped: string, passphrase: string): Result<seq<nat>, CustodyError> {
    if wrapped == "" || passphrase == "" || !IsWrapped(Some(wrapped)) then Error(Invalid)
    else
      var parts := Split(wrapped, '.');
      match (Base64.FromBase64(parts[2]), Base64.FromBase64(parts[3]), Base64.FromBase64(parts[4]))
      case (Some(salt), Some(iv), Some(data)) => Open(cipher, passphrase, salt, iv, data)
      case _ => Error(Invalid)
  }

  function Open(cipher: Cipher, passphrase: string, salt: seq<nat>, iv: seq<nat>, data: seq<nat>)
      : Result<seq<nat>, CustodyError>
  {
    if |passphrase| < PASSPHRASE_MIN_LENGTH || |salt| < SALT_LENGTH || data == [] || iv == [] then Error(Invalid)
    else
      match cipher.open(data, cipher.derive(passphrase, salt), iv)
      case None => Error(CannotOpen)
      case Some(text) =>
        match Base64.FromBase64(text)
        case None => Error(Invalid)
        case Some(share) => Ok(share)
  }

  lemma EnvelopeParts(salt: seq<Byte>, iv: seq<Byte>, data: seq<Byte>)
    ensures var parts := [PREFIX, VERSION, Base64.ToBase64(salt), Base64.ToBase64(iv), Base64.ToBase64(data)];
            Split(Join(parts, '.'), '.') == parts && Join(parts, '.') != ""
  {
    var parts := [PREFIX, VERSION, Base64.ToBase64(salt), Base64.ToBase64(iv), Base64.ToBase64(data)];
    Base64.NoSeparator(salt);
    Base64.NoSeparator(iv);
    Base64.NoSeparator(data);
    assert Separate(parts, '.');
    SplitJoin(parts, '.');
  }

  // The envelope with these fields.
  predicate Carries(wrapped: string, salt: seq<nat>, iv: seq<nat>, data: seq<nat>) {
    var parts := Split(wrapped, '.');
    && |parts| == 5 && parts[0] == "hkshare" && parts[1] == "v1"
    && Base64.FromBase64(parts[2]) == Some(salt) && Base64.FromBase64(parts[3]) == Some(iv)
    && Base64.FromBase64(parts[4]) == Some(data)
  }

  /** What an envelope looks like: prefix and version, then salt, initialization vector and the share
      sealed under the key derived from passphrase and salt, as Base64 text, with dots between. */
  lemma EnvelopeLayout(cipher: Cipher, share: seq<Byte>, passphrase: string, salt: seq<Byte>, iv: seq<Byte>)
    requires Wrap(cipher, share, passphrase, salt, iv).Ok?
    ensures var wrapped := Wrap(cipher, share, passphrase, salt, iv).value;
      var data := cipher.seal(Base64.ToBase64(share), cipher.derive(passphrase, salt), iv);
      && wrapped == "hkshare.v1." + Base64.ToBase64(salt) + "." + Base64.ToBase64(iv) + "." + Base64.ToBase64(data)
      && Carries(wrapped, salt, iv, data)
  {
    var data := cipher.seal(Base64.ToBase64(share), cipher.derive(passphrase, salt), iv);
    var a, b, c := Base64.ToBase64(salt), Base64.ToBase64(iv), Base64.ToBase64(data);
    EnvelopeParts(salt, iv, data);
    Base64.RoundTrip(salt);
    Base64.RoundTrip(iv);
    Base64.RoundTrip(data);
    FiveParts(a, b, c);
  }

  lemma FiveParts(a: string, b: string, c: string)
    ensures Join([PREFIX, VERSION, a, b, c], '.') == "hkshare.v1." + a + "." + b + "." + c
  {
    var parts := [PREFIX, VERSION, a, b, c];
    assert parts[1..] == [VERSION, a, b, c] && parts[1..][1..] == [a, b, c];
    assert [a, b, c][1..] == [b, c] && [b, c][1..] == [c];
    assert Join([b, c], '.') == b + ['.'] + c;
    assert Join([a, b, c], '.') == a + ['.'] + Join([b, c], '.');
    assert Join([VERSION, a, b, c], '.') == VERSION + ['.'] + Join([a, b, c], '.');
    assert PREFIX + ['.'] + (VERSION + ['.'] + (a + ['.'] + (b + ['.'] + c)))
        == "hkshare.v1." + a + "." + b + "." + c;
  }

  // The cipher is asked at all: the passphrase and every field are long enough.
  predicate Tried(passphrase: string, salt: seq<nat>, iv: seq<nat>, data: seq<nat>) {
    |passphrase| >= 8 && |salt| >= 16 && iv != [] && data != []
  }

  /** What unwrapping gives for any text and passphrase: the text sealed in the envelope, decoded; a
      failure to open if and only if the cipher was asked and refused; otherwise the text is invalid. */
  lemma UnwrapMeaning(cipher: Cipher, wrapped: string, passphrase: string, salt: seq<nat>, iv: seq<nat>,
                      data: seq<nat>)
    ensures (forall a, b, c :: !Carries(wrapped, a, b, c)) ==> Unwrap(cipher, wrapped, passphrase) == Error(Invalid)
    ensures Carries(wrapped, salt, iv, data) ==>
      var r, text := Unwrap(cipher, wrapped, passphrase), cipher.open(data, cipher.derive(passphrase, salt), iv);
      && (r == Error(CannotOpen) <==> Tried(passphrase, salt, iv, data) && text.None?)
      && (r.Ok? <==> Tried(passphrase, salt, iv, data) && text.Some? && Base64.FromBase64(text.value).Some?)
      && (r.Ok? ==> r.value == Base64.FromBase64(text.value).value)
    ensures IsWrapped(Some(wrapped)) <==>
      |Split(wrapped, '.')| == 5 && Split(wrapped, '.')[..2] == ["hkshare", "v1"]
  {
    var parts := Split(wrapped, '.');
    if |parts| == 5 && parts[0] == PREFIX && parts[1] == VERSION {
      assert parts[..2] == [PREFIX, VERSION];
      if Base64.FromBase64(parts[2]).Some? && Base64.FromBase64(parts[3]).Some? && Base64.FromBase64(parts[4]).Some? {
        assert Carries(wrapped, Base64.FromBase64(parts[2]).value, Base64.FromBase64(parts[3]).value,
                       Base64.FromBase64(parts[4]).value);
      }
    } else if |parts| == 5 {
      assert parts[..2][0] == parts[0] && parts[..2][1] == parts[1];
    }
  }

  /** Wrapping succeeds exactly for a non-empty share and a passphrase of eight characters or
      more; what it returns is recognised as an envelope and gives the share back. */
  lemma RoundTrip(cipher: Cipher, share: seq<Byte>, passphrase: string, salt: seq<Byte>, iv: seq<Byte>)
    requires cipher.Inverts() && |salt| == SALT_LENGTH && iv != []
    ensures var wrapped := Wrap(cipher, share, passphrase, salt, iv);
      && (wrapped.Ok? <==> share != [] && |passphrase| >= PASSPHRASE_MIN_LENGTH)
      && (wrapped.Ok? ==> IsWrapped(Some(wrapped.value)))
      && (wrapped.Ok? ==> Unwrap(cipher, wrapped.value, passphrase) == Ok(share))
  {
    var text := Base64.ToBase64(share);
    var data := cipher.seal(text, cipher.derive(passphrase, salt), iv);
    EnvelopeParts(salt, iv, data);
    Base64.RoundTrip(salt);
    Base64.RoundTrip(iv);
    Base64.RoundTrip(data);
    Base64.RoundTrip(share);
    assert data != [] && cipher.open(data, cipher.derive(passphrase, salt), iv) == Some(text);
  }

  /** Of all passphrases only those that derive the same key open the envelope. */
  lemma OnlyMatchingKeyOpens(cipher: Cipher, share: seq<Byte>, passphrase: string, salt: seq<Byte>, iv: seq<Byte>,
                             other: string)
    requires cipher.Inverts() && cipher.Authenticates() && |salt| == SALT_LENGTH && iv != []
    requires share != [] && |passphrase| >= PASSPHRASE_MIN_LENGTH
    ensures var wrapped := Wrap(cipher, share, passphrase, salt, iv);
      wrapped.Ok? && Unwrap(cipher, wrapped.value, other) ==
        if |other| < PASSPHRASE_MIN_LENGTH then Error(Invalid)
        else if cipher.derive(other, salt) == cipher.derive(passphrase, salt) then Ok(share)
        else Error(CannotOpen)
  {
    var key := cipher.derive(passphrase, salt);
    var text := Base64.ToBase64(share);
    var data := cipher.seal(text, key, iv);
    EnvelopeParts(salt, iv, data);
    Base64.RoundTrip(salt);
    Base64.RoundTrip(iv);
    Base64.RoundTrip(data);
    Base64.RoundTrip(share);
    assert data != [] && cipher.open(data, key, iv) == Some(text);
    assert cipher.derive(other, salt) != key ==> cipher.open(data, cipher.derive(other, salt), iv) == None;
  }
}
