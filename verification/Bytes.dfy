/** Bytes and the big-endian reading of byte strings as numbers. */
module Bytes {
  type Byte = b: int | 0 <= b < 256

  function ValueOf(bytes: seq<Byte>): (v: nat) {
    if bytes == [] then 0 else ValueOf(bytes[..|bytes| - 1]) * 256 + bytes[|bytes| - 1]
  }

  // The n low-order bytes of v, most significant first.
  function BytesOf(v: nat, n: nat): (bytes: seq<Byte>)
    ensures |bytes| == n
  {
    if n == 0 then [] else BytesOf(v / 256, n - 1) + [v % 256]
  }

  function Pow256(n: nat): (r: nat)
    ensures r > 0
  {
    if n == 0 then 1 else 256 * Pow256(n - 1)
  }

  // Fixed-length encoding undoes decoding, leading zeros included.
  lemma {:induction false} BytesOfValue(bytes: seq<Byte>)
    ensures BytesOf(ValueOf(bytes), |bytes|) == bytes
  {
    if bytes != [] {
      var front, last := bytes[..|bytes| - 1], bytes[|bytes| - 1];
      BytesOfValue(front);
      assert ValueOf(bytes) / 256 == ValueOf(front) && ValueOf(bytes) % 256 == last;
      assert front + [last] == bytes;
    }
  }

  lemma {:induction false} ValueOfBytes(v: nat, n: nat)
    requires v < Pow256(n)
    ensures ValueOf(BytesOf(v, n)) == v
  {
    if n > 0 {
      ValueOfBytes(v / 256, n - 1);
      var bytes := BytesOf(v, n);
      assert bytes[..n - 1] == BytesOf(v / 256, n - 1);
    }
  }

  lemma {:induction false} ValueBound(bytes: seq<Byte>)
    ensures ValueOf(bytes) < Pow256(|bytes|)
  {
    if bytes != [] {
      ValueBound(bytes[..|bytes| - 1]);
    }
  }

  method BytesToBigInt(bytes: seq<Byte>) returns (result: nat)
    ensures result == ValueOf(bytes)
  {
    result := 0;
    for i := 0 to |bytes|
      invariant result == ValueOf(bytes[..i])
    {
      assert bytes[..i + 1][..i] == bytes[..i];
      // Shifting by 8 leaves the low byte clear, so the bitwise or adds it.
      result := result * 256 + bytes[i];
    }
    assert bytes[..|bytes|] == bytes;
  }

  method BigIntToBytes(value: nat, length: nat) returns (bytes: array<Byte>)
    ensures fresh(bytes)
    ensures bytes[..] == BytesOf(value, length)
  {
    bytes := new Byte[length];
    var temp := value;
    var i := length;
    while i > 0
      invariant i <= length
      invariant BytesOf(temp, i) + bytes[i..] == BytesOf(value, length)
    {
      i := i - 1;
      ghost var tail := bytes[i + 1..];
      bytes[i] := temp % 256;
      assert bytes[i + 1..] == tail;
      assert bytes[i..] == [bytes[i]] + tail;
      temp := temp / 256;
    }
    assert BytesOf(temp, 0) + bytes[0..] == bytes[..];
  }
}
