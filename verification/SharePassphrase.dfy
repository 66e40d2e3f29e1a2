/** The passphrase generator: rejection sampling of random bytes, refilled in chunks. */
module SharePassphrase {
  import opened Wrappers
  import opened Bytes

  const ALPHABET_LENGTH := 31
  // The largest multiple of the alphabet's length that a byte can reach.
  const CEILING := 248

  // Letters without I, L and O, then digits without 0 and 1.
  function SymbolChar(i: nat): char
    requires i < ALPHABET_LENGTH
  {
    if i < 8 then 'A' + i as char
    else if i < 10 then 'J' + (i - 8) as char
    else if i < 12 then 'M' + (i - 10) as char
    else if i < 23 then 'P' + (i - 12) as char
    else '2' + (i - 23) as char
  }

  function CharOf(byte: int): char {
    SymbolChar(byte % ALPHABET_LENGTH)
  }

  lemma AlphabetSpelled()
    ensures seq(ALPHABET_LENGTH, i requires 0 <= i < ALPHABET_LENGTH => SymbolChar(i))
         == "ABCDEFGHJKMNPQRSTUVWXYZ23456789"
    ensures CEILING == 256 / ALPHABET_LENGTH * ALPHABET_LENGTH
  {
  }

  // The acceptable ones among the first n random bytes, in order.
  function Accepted(random: seq<Byte>, n: nat): seq<int>
    requires n <= |random|
  {
    if n == 0 then []
    else if random[n - 1] < CEILING then Accepted(random, n - 1) + [random[n - 1]]
    else Accepted(random, n - 1)
  }

  lemma AcceptedNext(random: seq<Byte>, n: nat, before: seq<int>, byte: int)
    requires 0 < n <= |random| && before == Accepted(random, n - 1) && byte == random[n - 1]
    ensures Accepted(random, n) == if byte < CEILING then before + [byte] else before
  {
  }

  // What was accepted stays accepted, and no byte is accepted twice.
  lemma {:induction false} AcceptedGrows(random: seq<Byte>, m: nat, n: nat)
    requires m <= n <= |random|
    ensures Accepted(random, m) <= Accepted(random, n)
    ensures |Accepted(random, n)| - |Accepted(random, m)| <= n - m
    decreases n
  {
    if m < n {
      AcceptedGrows(random, m, n - 1);
    }
  }

  // The symbols of the bytes, a hyphen after every fifth one but the last of total.
  function Spelled(bytes: seq<int>, total: nat): string {
    if bytes == [] then ""
    else
      var n := |bytes|;
      Spelled(bytes[..n - 1], total) + [CharOf(bytes[n - 1])] + if n % 5 == 0 && n < total then "-" else ""
  }

  lemma SpelledNext(bytes: seq<int>, byte: int, total: nat)
    ensures Spelled(bytes + [byte], total) ==
      Spelled(bytes, total) + [CharOf(byte)] + if (|bytes| + 1) % 5 == 0 && |bytes| + 1 < total then "-" else ""
  {
    assert (bytes + [byte])[..|bytes|] == bytes;
  }

  // Characters before the symbol of number n, and that symbol's place among them.
  function Offset(n: nat): nat {
    n + n / 5
  }

  lemma BySix(x: nat, q: nat, r: nat)
    requires x == 6 * q + r && r < 6
    ensures x / 6 == q && x % 6 == r
  {
  }

  lemma OffsetPlace(n: nat)
    ensures Offset(n) / 6 == n / 5 && Offset(n) % 6 == n % 5
    ensures Offset(n) / 6 * 5 + Offset(n) % 6 == n
  {
    BySix(Offset(n), n / 5, n % 5);
  }

  // A symbol that ends a group is followed by the group's hyphen.
  lemma HyphenPlace(n: nat)
    requires (n + 1) % 5 == 0
    ensures (Offset(n) + 1) % 6 == 5
  {
    var q := (n + 1) / 5 - 1;
    assert n == 5 * q + 4;
    BySix(Offset(n) + 1, q, 5);
  }

  lemma OffsetNext(n: nat)
    ensures Offset(n + 1) == Offset(n) + if (n + 1) % 5 == 0 then 2 else 1
  {
  }

  // The character at place k once these bytes are spelled.
  function CharAt(bytes: seq<int>, k: nat): char
    requires k % 6 != 5 ==> k / 6 * 5 + k % 6 < |bytes|
  {
    if k % 6 == 5 then '-' else CharOf(bytes[k / 6 * 5 + k % 6])
  }

  // The string spells these bytes, with a hyphen after every full group.
  ghost predicate Spells(s: string, bytes: seq<int>) {
    |s| == Offset(|bytes|) && forall k :: 0 <= k < |s| ==> StandsFor(s[k], bytes, k)
  }

  predicate StandsFor(c: char, bytes: seq<int>, k: nat) {
    (k % 6 != 5 ==> k / 6 * 5 + k % 6 < |bytes|) && c == CharAt(bytes, k)
  }

  lemma StillStands(c: char, bytes: seq<int>, byte: int, k: nat)
    requires StandsFor(c, bytes, k)
    ensures StandsFor(c, bytes + [byte], k)
  {
  }

  lemma NewStands(bytes: seq<int>, byte: int)
    ensures StandsFor(CharOf(byte), bytes + [byte], Offset(|bytes|))
    ensures (|bytes| + 1) % 5 == 0 ==> (Offset(|bytes|) + 1) % 6 == 5
  {
    OffsetPlace(|bytes|);
    assert (bytes + [byte])[|bytes|] == byte;
    if (|bytes| + 1) % 5 == 0 {
      HyphenPlace(|bytes|);
    }
  }

  lemma SpellsNext(s: string, bytes: seq<int>, byte: int)
    requires Spells(s, bytes)
    ensures Spells(s + [CharOf(byte)] + (if (|bytes| + 1) % 5 == 0 then "-" else ""), bytes + [byte])
  {
    var t, all := s + [CharOf(byte)] + (if (|bytes| + 1) % 5 == 0 then "-" else ""), bytes + [byte];
    NewStands(bytes, byte);
    OffsetNext(|bytes|);
    forall k | 0 <= k < |t|
      ensures StandsFor(t[k], all, k)
    {
      if k < |s| {
        StillStands(s[k], bytes, byte, k);
      }
    }
  }

  lemma {:induction false} SpelledPrefix(bytes: seq<int>, total: nat)
    requires |bytes| < total
    ensures Spells(Spelled(bytes, total), bytes)
  {
    if bytes != [] {
      var n := |bytes| - 1;
      SpelledPrefix(bytes[..n], total);
      SpellsNext(Spelled(bytes[..n], total), bytes[..n], bytes[n]);
      assert bytes[..n] + [bytes[n]] == bytes;
    }
  }

  /** Where every character of a passphrase comes from: groups of five symbols, hyphens between them. */
  lemma SpelledShape(bytes: seq<int>, groups: nat)
    requires |bytes| == 5 * groups && groups > 0
    ensures |Spelled(bytes, |bytes|)| == 6 * groups - 1
    ensures forall k :: 0 <= k < 6 * groups - 1 ==> StandsFor(Spelled(bytes, |bytes|)[k], bytes, k)
  {
    var n := |bytes| - 1;
    var s := Spelled(bytes[..n], |bytes|);
    SpelledPrefix(bytes[..n], |bytes|);
    assert Offset(n) == 6 * groups - 2;
    NewStands(bytes[..n], bytes[n]);
    assert bytes[..n] + [bytes[n]] == bytes;
    forall k | 0 <= k < |s|
      ensures StandsFor(s[k], bytes, k)
    {
      StillStands(s[k], bytes[..n], bytes[n], k);
    }
  }

  datatype PassphraseError = TooFewGroups

  // The inner loop: one refill of as many bytes as there are symbols missing.
  method ReadChunk(random: seq<Byte>, drawn: nat, size: nat, charCount: nat, written: string, ghost before: seq<int>)
      returns (chars: string, produced: nat)
    requires drawn + size <= |random| && before == Accepted(random, drawn) && |before| + size == charCount
    requires written == Spelled(before, charCount)
    ensures produced == |Accepted(random, drawn + size)| <= charCount
    ensures chars == Spelled(Accepted(random, drawn + size), charCount)
  {
    chars, produced := written, charCount - size;
    var i := 0;
    ghost var bytes := before;
    while i < size && produced < charCount
      invariant 0 <= i <= size && produced == |bytes| <= |before| + i
      invariant bytes == Accepted(random, drawn + i)
      invariant chars == Spelled(bytes, charCount)
    {
      var byte: int := random[drawn + i];
      i := i + 1;
      AcceptedNext(random, drawn + i, bytes, byte);
      if byte >= CEILING {
        continue;
      }
      SpelledNext(bytes, byte, charCount);
      bytes := bytes + [byte];
      chars := chars + [CharOf(byte)];
      produced := produced + 1;
      if produced % 5 == 0 && produced < charCount {
        chars := chars + "-";
      }
    }
  }

  /** The passphrase spells the first acceptable bytes, whatever the chunks they are drawn in.
      The source draws until it has enough of them: random is what it draws from. */
  method GenerateSharePassphrase(groups: int, random: seq<Byte>) returns (r: Result<string, PassphraseError>)
    requires groups >= 2 ==> |Accepted(random, |random|)| >= 5 * groups
    ensures r.Ok? <==> groups >= 2
    ensures r.Ok? ==> r.value == Spelled(Accepted(random, |random|)[..5 * groups], 5 * groups)
    ensures r.Ok? ==> |r.value| == 6 * groups - 1
  {
    if groups < 2 {
      return Error(TooFewGroups);
    }
    var charCount := groups * 5;
    var chars := "";
    var produced, drawn := 0, 0;
    while produced < charCount
      invariant drawn <= |random|
      invariant produced == |Accepted(random, drawn)| <= charCount
      invariant chars == Spelled(Accepted(random, drawn), charCount)
      decreases |random| - drawn
    {
      AcceptedGrows(random, drawn, |random|);
      var size := charCount - produced;
      chars, produced := ReadChunk(random, drawn, size, charCount, chars, Accepted(random, drawn));
      drawn := drawn + size;
    }
    AcceptedGrows(random, drawn, |random|);
    assert Accepted(random, drawn) == Accepted(random, |random|)[..5 * groups];
    SpelledShape(Accepted(random, drawn), groups);
    r := Ok(chars);
  }

  // The bytes that are accepted and written as this symbol.
  ghost function Preimages(symbol: char): set<int> {
    set byte: int | 0 <= byte < 256 && Accepted([byte], 1) != [] && CharOf(byte) == symbol
  }

  lemma OneAccepted(byte: Byte)
    ensures Accepted([byte], 1) == if byte < CEILING then [byte as int] else []
  {
    assert Accepted([byte], 0) == [];
  }

  // The bytes of the first n cycles of the alphabet that are written as symbol i.
  function Cycles(i: nat, n: nat): set<int> {
    if n == 0 then {} else Cycles(i, n - 1) + {ALPHABET_LENGTH * (n - 1) + i}
  }

  lemma {:induction false} CyclesMembers(i: nat, n: nat, byte: int)
    requires i < ALPHABET_LENGTH
    ensures byte in Cycles(i, n) <==> 0 <= byte < ALPHABET_LENGTH * n && byte % ALPHABET_LENGTH == i
  {
    if n > 0 {
      CyclesMembers(i, n - 1, byte);
      if byte >= 0 {
        InCycle(byte, i, n - 1);
      }
    }
  }

  lemma {:induction false} CyclesSize(i: nat, n: nat)
    requires i < ALPHABET_LENGTH
    ensures |Cycles(i, n)| == n
  {
    if n > 0 {
      CyclesSize(i, n - 1);
      CyclesMembers(i, n - 1, ALPHABET_LENGTH * (n - 1) + i);
    }
  }

  lemma InCycle(byte: nat, i: nat, n: nat)
    requires i < ALPHABET_LENGTH
    ensures byte < ALPHABET_LENGTH * (n + 1) && byte % ALPHABET_LENGTH == i
      <==> (byte < ALPHABET_LENGTH * n && byte % ALPHABET_LENGTH == i) || byte == ALPHABET_LENGTH * n + i
  {
  }

  lemma SymbolsDiffer(i: nat, j: nat)
    requires i < ALPHABET_LENGTH && j < ALPHABET_LENGTH && SymbolChar(i) == SymbolChar(j)
    ensures i == j
  {
  }

  /** No symbol is favoured: each is written for exactly eight of the acceptable byte values. */
  lemma NoModuloBias(i: nat)
    requires i < ALPHABET_LENGTH
    ensures |Preimages(SymbolChar(i))| == 8
  {
    CyclesSize(i, 8);
    forall byte: int
      ensures byte in Preimages(SymbolChar(i)) <==> byte in Cycles(i, 8)
    {
      CyclesMembers(i, 8, byte);
      if 0 <= byte < 256 {
        OneAccepted(byte);
      }
      if byte in Preimages(SymbolChar(i)) {
        SymbolsDiffer(byte % ALPHABET_LENGTH, i);
      }
    }
    assert Preimages(SymbolChar(i)) == Cycles(i, 8);
  }
}
