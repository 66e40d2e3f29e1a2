/** Base64 as the share envelope uses it (RFC 4648, section 4). */
module Base64 {
  import opened Wrappers
  import opened Bytes
  import opened BitStream
  import opened Sequences
  import opened Symbols

  function SymbolChar(i: nat): char
    requires i < 64
  {
    if i < 26 then 'A' + i as char
    else if i < 52 then 'a' + (i - 26) as char
    else if i < 62 then '0' + (i - 52) as char
    else if i == 62 then '+' else '/'
  }

  function Alphabet(): (alphabet: string)
    ensures |alphabet| == 64
    ensures forall i :: 0 <= i < 64 ==> alphabet[i] == SymbolChar(i)
  {
    seq(64, i requires 0 <= i < 64 => SymbolChar(i))
  }

  lemma AlphabetValid()
    ensures Distinct(Alphabet())
    ensures forall c :: c in Alphabet() ==> c != '=' && c != '.'
  {
  }

  lemma AlphabetSpelled()
    ensures Alphabet()[..26] == "ABCDEFGHIJKLMNOPQRSTUVWXYZ"
    ensures Alphabet()[26..52] == "abcdefghijklmnopqrstuvwxyz"
    ensures Alphabet()[52..] == "0123456789+/"
  {
    UpperSpelled();
    LowerSpelled();
  }

  lemma UpperSpelled()
    ensures Alphabet()[..26] == "ABCDEFGHIJKLMNOPQRSTUVWXYZ"
  {
  }

  lemma LowerSpelled()
    ensures Alphabet()[26..52] == "abcdefghijklmnopqrstuvwxyz"
  {
  }

  lemma SixBits()
    ensures Pow2(6) == 64 && Pow2(8) == 256
  {
  }

  function EncodedSymbols(bytes: seq<Byte>): (symbols: seq<nat>)
    ensures forall i :: 0 <= i < |symbols| ==> symbols[i] < 64
  {
    SixBits();
    Group(Pad(Flatten(bytes, 8), 6), 6)
  }

  function Padding(n: nat): string {
    seq((3 - n % 3) % 3, _ => '=')
  }

  function ToBase64(bytes: seq<Byte>): string {
    Write(Alphabet(), EncodedSymbols(bytes)) + Padding(|bytes|)
  }

  // Symbols followed by at most two padding characters; their number is not checked.
  predicate WellFormed(base64: string) {
    var body := StripTrailing(base64, '=');
    |base64| - |body| <= 2 && Over(Alphabet(), body)
  }

  // Symbols followed by any number of padding characters.
  predicate Spelled(base64: string) {
    Over(Alphabet(), StripTrailing(base64, '='))
  }

  // What the runtime's decoder makes of such text: the bits that do not fill a byte are dropped.
  function BufferFrom(base64: string): seq<nat>
    requires Spelled(base64)
  {
    Group(Flatten(Read(Alphabet(), StripTrailing(base64, '=')), 6), 8)
  }

  function FromBase64(base64: string): (bytes: Option<seq<nat>>)
    ensures bytes.Some? <==> WellFormed(base64)
  {
    if WellFormed(base64) then Some(BufferFrom(base64)) else None
  }

  predicate IsSymbol(c: char) {
    'A' <= c <= 'Z' || 'a' <= c <= 'z' || '0' <= c <= '9' || c == '+' || c == '/'
  }

  lemma SymbolInAlphabet(c: char)
    ensures IsSymbol(c) <==> c in Alphabet()
  {
    if 'A' <= c <= 'Z' {
      assert Alphabet()[c as int - 'A' as int] == c;
    } else if 'a' <= c <= 'z' {
      assert Alphabet()[c as int - 'a' as int + 26] == c;
    } else if '0' <= c <= '9' {
      assert Alphabet()[c as int - '0' as int + 52] == c;
    } else {
      assert Alphabet()[62] == '+' && Alphabet()[63] == '/';
    }
  }

  /** Exactly what is decoded: characters of the alphabet, then at most two padding characters. */
  lemma DecodesIff(base64: string)
    ensures FromBase64(base64).Some? <==> exists m :: Padded(IsSymbol, base64, '=', m) && |base64| - m <= 2
  {
    AlphabetValid();
    forall c
      ensures IsSymbol(c) <==> c in Alphabet()
    {
      SymbolInAlphabet(c);
    }
    OverStripped(Alphabet(), IsSymbol, base64, '=');
  }

  lemma Body(bytes: seq<Byte>)
    ensures var body := StripTrailing(ToBase64(bytes), '=');
      && Over(Alphabet(), body) && Read(Alphabet(), body) == EncodedSymbols(bytes)
      && |ToBase64(bytes)| - |body| <= 2
  {
    AlphabetValid();
    var symbols := EncodedSymbols(bytes);
    ReadWrite(Alphabet(), symbols);
    NoPadding(symbols);
    StripAppended(Write(Alphabet(), symbols), '=', (3 - |bytes| % 3) % 3);
  }

  /** Decoding undoes encoding for every byte string. */
  lemma RoundTrip(bytes: seq<Byte>)
    ensures FromBase64(ToBase64(bytes)) == Some(bytes)
    ensures Spelled(ToBase64(bytes)) && BufferFrom(ToBase64(bytes)) == bytes
  {
    Body(bytes);
    SixBits();
    Regroup(bytes, 6);
  }

  lemma OneSymbolIsNoByte()
    ensures Spelled("A") && BufferFrom("A") == []
  {
    assert StripTrailing("A", '=') == "A" && Alphabet()[0] == 'A';
    var symbols := Read(Alphabet(), "A");
    FlattenLength(symbols, 6);
  }

  lemma NoPadding(symbols: seq<nat>)
    requires forall i :: 0 <= i < |symbols| ==> symbols[i] < 64
    ensures '=' !in Write(Alphabet(), symbols) && '.' !in Write(Alphabet(), symbols)
  {
    AlphabetValid();
    var s := Write(Alphabet(), symbols);
    forall i | 0 <= i < |s|
      ensures s[i] in Alphabet()
    {
      assert s[i] == Alphabet()[symbols[i]];
    }
  }

  lemma NoSeparator(bytes: seq<Byte>)
    ensures '.' !in ToBase64(bytes)
  {
    NoPadding(EncodedSymbols(bytes));
  }

  /** Every three bytes, the last ones completed, become four characters. */
  lemma Length(bytes: seq<Byte>)
    ensures |ToBase64(bytes)| == (|bytes| + 2) / 3 * 4
  {
    SymbolCount(bytes);
    Quarters(|bytes|, |EncodedSymbols(bytes)|);
  }

  lemma SymbolCount(bytes: seq<Byte>)
    ensures |EncodedSymbols(bytes)| * 6 == 8 * |bytes| + (6 - 8 * |bytes| % 6) % 6
  {
    var bits := Flatten(bytes, 8);
    FlattenLength(bytes, 8);
    var n := PadIsMultiple(bits, 6);
    GroupLength(Pad(bits, 6), 6, n);
  }

  lemma Quarters(length: nat, n: nat)
    requires n * 6 == 8 * length + (6 - 8 * length % 6) % 6
    ensures n + (3 - length % 3) % 3 == (length + 2) / 3 * 4
  {
    var q, r := length / 3, length % 3;
    assert length == 3 * q + r && 8 * length == 6 * (4 * q) + 8 * r;
    if r == 0 {
      RestOfSix(4 * q, 0);
    } else if r == 1 {
      RestOfSix(4 * q + 1, 2);
    } else {
      RestOfSix(4 * q + 2, 4);
    }
  }

  lemma RestOfSix(k: nat, rest: nat)
    requires rest < 6
    ensures (6 * k + rest) % 6 == rest
  {
  }
}
