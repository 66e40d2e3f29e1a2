/** Base32 as the two-factor service writes and reads it (RFC 4648, section 6, without
    padding characters): a shift register that is never masked, only wrapped at 32 bits. */
module Base32 {
  import opened Wrappers
  import opened Bytes
  import opened BitStream
  import opened Sequences
  import opened Symbols

  // A to Z, then 2 to 7.
  function SymbolChar(i: nat): char
    requires i < 32
  {
    if i < 26 then 'A' + i as char else '2' + (i - 26) as char
  }

  function Alphabet(): (alphabet: string)
    ensures |alphabet| == 32
    ensures forall i :: 0 <= i < 32 ==> alphabet[i] == SymbolChar(i)
  {
    seq(32, i requires 0 <= i < 32 => SymbolChar(i))
  }

  lemma AlphabetValid()
    ensures Distinct(Alphabet())
    ensures forall c :: c in Alphabet() ==> ToUpper(c) == c && c != '='
  {
  }

  lemma AlphabetSpelled()
    ensures Alphabet() == "ABCDEFGHIJKLMNOPQRSTUVWXYZ234567"
  {
  }

  lemma FiveBits()
    ensures Pow2(5) == 32
  {
  }

  // ASCII only.
  function ToUpper(c: char): char {
    if 'a' <= c <= 'z' then c - 32 as char else c
  }

  function UpperCase(s: string): (t: string)
    ensures |t| == |s|
  {
    seq(|s|, i requires 0 <= i < |s| => ToUpper(s[i]))
  }

  // The bytes as one bit string, padded with zero bits and read in fives.
  function EncodedSymbols(bytes: seq<Byte>): (symbols: seq<nat>)
    ensures forall i :: 0 <= i < |symbols| ==> symbols[i] < 32
  {
    FiveBits();
    Group(Pad(Flatten(bytes, 8), 5), 5)
  }

  function Encoded(bytes: seq<Byte>): string {
    Write(Alphabet(), EncodedSymbols(bytes))
  }

  function Normalized(base32: string): string {
    StripTrailing(UpperCase(base32), '=')
  }

  function Decoded(base32: string): Option<seq<nat>> {
    var s := Normalized(base32);
    if Over(Alphabet(), s) then Some(Group(Flatten(Read(Alphabet(), s), 5), 8)) else None
  }

  predicate IsSymbol(c: char) {
    'A' <= c <= 'Z' || 'a' <= c <= 'z' || '2' <= c <= '7'
  }

  lemma SymbolInAlphabet(c: char)
    ensures IsSymbol(c) <==> ToUpper(c) in Alphabet()
    ensures ToUpper(c) == '=' <==> c == '='
  {
    var u := ToUpper(c);
    if 'A' <= u <= 'Z' {
      assert Alphabet()[u as int - 'A' as int] == u;
    } else if '2' <= u <= '7' {
      assert Alphabet()[u as int - '2' as int + 26] == u;
    }
  }

  /** Exactly what is decoded: letters in either case and digits from 2 to 7, then any number of padding
      characters. */
  lemma DecodesIff(s: string)
    ensures Decoded(s).Some? <==> exists m :: Padded(IsSymbol, s, '=', m)
  {
    AlphabetValid();
    var inAlphabet := (c: char) => c in Alphabet();
    OverStripped(Alphabet(), inAlphabet, UpperCase(s), '=');
    forall m: nat
      ensures Padded(IsSymbol, s, '=', m) <==> Padded(inAlphabet, UpperCase(s), '=', m)
    {
      forall i | 0 <= i < |s|
        ensures IsSymbol(s[i]) <==> UpperCase(s)[i] in Alphabet()
        ensures UpperCase(s)[i] == '=' <==> s[i] == '='
      {
        SymbolInAlphabet(s[i]);
      }
    }
  }

  // The same character, or the small letter for a capital one.
  predicate SameLetter(c: char, d: char) {
    c == d || ('A' <= d <= 'Z' && c as int == d as int + 32)
  }

  /** A secret may be typed in small letters and with padding. */
  lemma AnyCaseAndPadding(bytes: seq<Byte>, s: string)
    requires Retyped(s, Encoded(bytes))
    ensures Decoded(s) == Some(bytes)
  {
    var code := Encoded(bytes);
    assert forall i :: 0 <= i < |code| ==> code[i] == Alphabet()[EncodedSymbols(bytes)[i]];
    RoundTrip(bytes);
    NormalizedIs(s, code);
    NormalizedIs(code, code);
  }

  // The code in letters of either case, with padding at the end.
  ghost predicate Retyped(s: string, code: string) {
    && |code| <= |s| && (forall i :: 0 <= i < |code| ==> SameLetter(s[i], code[i]))
    && forall i :: |code| <= i < |s| ==> s[i] == '='
  }

  lemma UpperLetter(c: char, d: char)
    requires SameLetter(c, d) && d in Alphabet()
    ensures ToUpper(c) == d && d != '='
  {
    AlphabetValid();
  }

  lemma NormalizedIs(s: string, code: string)
    requires Retyped(s, code) && forall i :: 0 <= i < |code| ==> code[i] in Alphabet()
    ensures Normalized(s) == code
  {
    var t := UpperCase(s);
    forall i | 0 <= i < |code|
      ensures t[i] == code[i] && t[i] != '='
    {
      UpperLetter(s[i], code[i]);
    }
    StripUnique(t, '=', |code|);
    assert t[..|code|] == code;
  }

  /** Decoding undoes encoding for every byte string. */
  lemma RoundTrip(bytes: seq<Byte>)
    ensures Decoded(Encoded(bytes)) == Some(bytes)
  {
    AlphabetValid();
    var symbols := EncodedSymbols(bytes);
    var s := Encoded(bytes);
    ReadWrite(Alphabet(), symbols);
    assert UpperCase(s) == s;
    StripAppended(s, '=', 0);
    assert s + seq(0, _ => '=') == s;
    ByteFits(bytes);
    Regroup(bytes, 5);
  }

  lemma EncodedNonEmpty(bytes: seq<Byte>)
    requires bytes != []
    ensures Encoded(bytes) != ""
  {
    RoundTrip(bytes);
    assert Normalized("") == "" && Read(Alphabet(), "") == [];
    assert Decoded("") == Some([]);
  }

  lemma ByteFits(bytes: seq<Byte>)
    ensures Fit(bytes, 8)
  {
    assert Pow2(8) == 256;
  }

  // What is left after the last byte: nothing, or one symbol filled up with zero bits.
  function Finished(r: Register): seq<nat>
    requires r.bits < 5
  {
    if r.bits == 0 then r.symbols else r.symbols + [Extract(Shift(r.value, 5 - r.bits, 0), 0, 5)]
  }

  lemma Finish(bytes: seq<Byte>)
    ensures EncodedSymbols(bytes) == Finished(Feed(bytes, 8, 5))
  {
    ByteFits(bytes);
    var pending := FeedFaithful(bytes, 8, 5);
    Tail(Flatten(bytes, 8), Feed(bytes, 8, 5), pending);
  }

  lemma Tail(stream: seq<bool>, r: Register, pending: seq<bool>)
    requires Faithful(stream, r, 5, pending) && r.bits < 5
    ensures Group(Pad(stream, 5), 5) == Finished(r)
  {
    PendingLength(stream, r.symbols, 5, pending, r.value);
    if r.bits == 0 {
      FullGroups(stream, r, pending);
    } else {
      Fill(stream, r, pending);
    }
  }

  lemma FullGroups(stream: seq<bool>, r: Register, pending: seq<bool>)
    requires Faithful(stream, r, 5, pending) && r.bits == 0
    ensures Group(stream + Zeros(0), 5) == r.symbols
  {
    assert stream + Zeros(0) == stream;
    Drained(stream, r.symbols, 5, pending, r.value);
  }

  lemma Fill(stream: seq<bool>, r: Register, pending: seq<bool>)
    requires Faithful(stream, r, 5, pending) && 0 < r.bits < 5
    ensures Group(stream + Zeros(5 - r.bits), 5) == r.symbols + [Extract(Shift(r.value, 5 - r.bits, 0), 0, 5)]
  {
    var n := 5 - r.bits;
    ZeroBits(n);
    Absorb(stream, r.symbols, 5, pending, r.value, 0, n);
    var full, shifted := pending + BitsOf(0, n), Shift(r.value, n, 0);
    Emit(stream + BitsOf(0, n), r.symbols, 5, full, shifted);
    Drained(stream + BitsOf(0, n), r.symbols + [Extract(shifted, 0, 5)], 5, full[5..], shifted);
  }

  // The characters of symbols that were handed on so far.
  ghost predicate Written(output: string, symbols: seq<nat>) {
    Fit(symbols, 5) && |output| == |symbols| && forall i :: 0 <= i < |output| ==> output[i] == Alphabet()[symbols[i]]
  }

  // The last character: the bits left over, followed by zero bits.
  function FinalChar(value: nat, bits: nat): char
    requires bits < 5
  {
    FiveBits();
    Alphabet()[Extract(Shift(value, 5 - bits, 0), 0, 5)]
  }

  lemma Completed(bytes: seq<Byte>, output: string)
    requires Written(output, Feed(bytes, 8, 5).symbols)
    ensures var r := Feed(bytes, 8, 5);
      Encoded(bytes) == if r.bits == 0 then output else output + [FinalChar(r.value, r.bits)]
  {
    Finish(bytes);
  }

  // The inner loop of the encoder: hand on every full group of five bits.
  method HandOn(value: nat, counted: nat, written: string, ghost before: seq<nat>)
      returns (bits: nat, output: string, ghost symbols: seq<nat>)
    requires Written(written, before)
    ensures Written(output, symbols)
    ensures Register(value, bits, symbols) == Drain(Register(value, counted, before), 5)
  {
    FiveBits();
    bits, output, symbols := counted, written, before;
    while bits >= 5
      invariant Written(output, symbols)
      invariant Drain(Register(value, bits, symbols), 5) == Drain(Register(value, counted, before), 5)
    {
      var symbol := Extract(value, bits - 5, 5);
      output := output + [Alphabet()[symbol]];
      symbols := symbols + [symbol];
      bits := bits - 5;
    }
  }

  method Base32Encode(bytes: seq<Byte>) returns (output: string)
    ensures output == Encoded(bytes)
  {
    FiveBits();
    var bits, value := 0, 0;
    output := "";
    ghost var symbols: seq<nat> := [];
    for i := 0 to |bytes|
      invariant bits < 5 && Written(output, symbols)
      invariant Register(value, bits, symbols) == Feed(bytes[..i], 8, 5)
    {
      assert bytes[..i + 1] == bytes[..i] + [bytes[i]];
      FeedNext(bytes[..i], bytes[i], 8, 5);
      value := Shift(value, 8, bytes[i]);
      bits, output, symbols := HandOn(value, bits + 8, output, symbols);
    }
    assert bytes[..|bytes|] == bytes;
    Completed(bytes, output);
    if bits > 0 {
      output := output + [FinalChar(value, bits)];
    }
  }

  // The position of c in the alphabet, 32 when it is not there.
  method Lookup(c: char) returns (index: nat)
    ensures index == IndexOf(Alphabet(), c) <= 32
  {
    index := IndexOf(Alphabet(), c);
  }

  ghost predicate Legal(indices: seq<nat>) {
    forall k :: 0 <= k < |indices| ==> indices[k] < 32
  }

  method Base32Decode(base32: string) returns (r: Option<seq<nat>>)
    ensures r == Decoded(base32)
  {
    var normalized := Normalized(base32);
    var bits, value := 0, 0;
    var bytes: seq<nat> := [];
    ghost var indices: seq<nat> := [];
    for i := 0 to |normalized|
      invariant bits < 8 && Legal(indices)
      invariant indices == Read(Alphabet(), normalized[..i])
      invariant Register(value, bits, bytes) == Feed(indices, 5, 8)
    {
      var index := Lookup(normalized[i]);
      if index == 32 {
        return None;
      }
      ReadNext(Alphabet(), normalized, i);
      FeedNext(indices, index, 5, 8);
      indices := indices + [index];
      value := Shift(value, 5, index);
      bits := bits + 5;
      if bits >= 8 {
        bytes := bytes + [Extract(value, bits - 8, 8)];
        bits := bits - 8;
      }
    }
    assert normalized[..|normalized|] == normalized;
    AllRead(normalized);
    r := Some(bytes);
  }

  lemma AllRead(s: string)
    requires Legal(Read(Alphabet(), s))
    ensures Over(Alphabet(), s)
    ensures Feed(Read(Alphabet(), s), 5, 8).symbols == Group(Flatten(Read(Alphabet(), s), 5), 8)
  {
    FiveBits();
    var indices := Read(Alphabet(), s);
    forall i | 0 <= i < |s|
      ensures IndexOf(Alphabet(), s[i]) < 32
    {
      assert indices[i] < 32;
    }
    var pending := FeedFaithful(indices, 5, 8);
    var r := Feed(indices, 5, 8);
    Drained(Flatten(indices, 5), r.symbols, 8, pending, r.value);
  }
}
