/** Alphabets: writing symbols as characters and reading them back. */
module Symbols {
  import opened Sequences

  // The position of c, or the length of the alphabet when it is not there.
  function IndexOf(alphabet: string, c: char): (i: nat)
    ensures i <= |alphabet|
    ensures i < |alphabet| ==> alphabet[i] == c
    ensures i == |alphabet| ==> c !in alphabet
  {
    if alphabet == "" then 0
    else if alphabet[0] == c then 0
    else 1 + IndexOf(alphabet[1..], c)
  }

  lemma {:induction false} IndexOfAt(alphabet: string, i: nat)
    requires Distinct(alphabet) && i < |alphabet|
    ensures IndexOf(alphabet, alphabet[i]) == i
  {
    if i > 0 {
      assert alphabet[0] != alphabet[i];
      assert forall k :: 0 <= k < |alphabet[1..]| ==> alphabet[1..][k] == alphabet[k + 1];
      IndexOfAt(alphabet[1..], i - 1);
    }
  }

  function Write(alphabet: string, symbols: seq<nat>): (s: string)
    requires forall i :: 0 <= i < |symbols| ==> symbols[i] < |alphabet|
    ensures |s| == |symbols| && forall i :: 0 <= i < |s| ==> s[i] == alphabet[symbols[i]]
  {
    seq(|symbols|, i requires 0 <= i < |symbols| => alphabet[symbols[i]])
  }

  function Read(alphabet: string, s: string): (symbols: seq<nat>)
    ensures |symbols| == |s| && forall i :: 0 <= i < |s| ==> symbols[i] == IndexOf(alphabet, s[i])
  {
    seq(|s|, i requires 0 <= i < |s| => IndexOf(alphabet, s[i]))
  }

  lemma ReadNext(alphabet: string, s: string, i: nat)
    requires i < |s|
    ensures Read(alphabet, s[..i + 1]) == Read(alphabet, s[..i]) + [IndexOf(alphabet, s[i])]
  {
  }

  // Every character of s is a symbol of the alphabet.
  predicate Over(alphabet: string, s: string) {
    forall i :: 0 <= i < |s| ==> IndexOf(alphabet, s[i]) < |alphabet|
  }

  lemma ReadWrite(alphabet: string, symbols: seq<nat>)
    requires Distinct(alphabet)
    requires forall i :: 0 <= i < |symbols| ==> symbols[i] < |alphabet|
    ensures Over(alphabet, Write(alphabet, symbols)) && Read(alphabet, Write(alphabet, symbols)) == symbols
  {
    forall i | 0 <= i < |symbols|
      ensures Read(alphabet, Write(alphabet, symbols))[i] == symbols[i]
    {
      IndexOfAt(alphabet, symbols[i]);
    }
  }

  // The string without its trailing padding characters.
  function StripTrailing(s: string, c: char): string {
    if s != "" && s[|s| - 1] == c then StripTrailing(s[..|s| - 1], c) else s
  }

  /** What is stripped is the longest end of padding characters. */
  lemma {:induction false} StripMeaning(s: string, c: char)
    ensures var t := StripTrailing(s, c);
      && |t| <= |s| && t == s[..|t|] && (t == "" || t[|t| - 1] != c)
      && forall i :: |t| <= i < |s| ==> s[i] == c
  {
    if s != "" && s[|s| - 1] == c {
      StripMeaning(s[..|s| - 1], c);
    }
  }

  lemma StripUnique(s: string, c: char, m: nat)
    requires m <= |s| && (m == 0 || s[m - 1] != c) && forall i :: m <= i < |s| ==> s[i] == c
    ensures StripTrailing(s, c) == s[..m]
  {
    StripMeaning(s, c);
  }

  // Symbols up to place m, then padding.
  ghost predicate Padded(isSymbol: char -> bool, s: string, c: char, m: nat) {
    m <= |s| && (forall i :: 0 <= i < m ==> isSymbol(s[i])) && forall i :: m <= i < |s| ==> s[i] == c
  }

  lemma OverStripped(alphabet: string, isSymbol: char -> bool, s: string, c: char)
    requires c !in alphabet && forall d :: isSymbol(d) <==> d in alphabet
    ensures Over(alphabet, StripTrailing(s, c)) <==> Padded(isSymbol, s, c, |StripTrailing(s, c)|)
    ensures forall m :: Padded(isSymbol, s, c, m) ==> m == |StripTrailing(s, c)|
  {
    StripMeaning(s, c);
    forall m | Padded(isSymbol, s, c, m)
      ensures m == |StripTrailing(s, c)|
    {
      StripUnique(s, c, m);
    }
  }

  lemma {:induction false} StripAppended(s: string, c: char, n: nat)
    requires s == "" || s[|s| - 1] != c
    ensures StripTrailing(s + seq(n, _ => c), c) == s
  {
    var t := s + seq(n, _ => c);
    if n == 0 {
      assert t == s;
    } else {
      assert t[..|t| - 1] == s + seq(n - 1, _ => c);
      StripAppended(s, c, n - 1);
    }
  }
}
