/** Numbers as bit strings, most significant bit first, and regrouping a bit string
    into symbols of another width. */
module BitStream {
  import opened Modular

  function Pow2(n: nat): (r: nat)
    ensures r > 0
  {
    if n == 0 then 1 else 2 * Pow2(n - 1)
  }

  function BitsOf(v: nat, w: nat): (bits: seq<bool>)
    ensures |bits| == w
  {
    if w == 0 then [] else BitsOf(v / 2, w - 1) + [v % 2 == 1]
  }

  function NumOf(bits: seq<bool>): (v: nat)
    ensures v < Pow2(|bits|)
  {
    if bits == [] then 0
    else 2 * NumOf(bits[..|bits| - 1]) + if bits[|bits| - 1] then 1 else 0
  }

  lemma {:induction false} NumOfBits(v: nat, w: nat)
    requires v < Pow2(w)
    ensures NumOf(BitsOf(v, w)) == v
  {
    if w > 0 {
      NumOfBits(v / 2, w - 1);
      assert BitsOf(v, w)[..w - 1] == BitsOf(v / 2, w - 1);
    }
  }

  lemma {:induction false} BitsOfNum(bits: seq<bool>)
    ensures BitsOf(NumOf(bits), |bits|) == bits
  {
    if bits != [] {
      BitsOfNum(bits[..|bits| - 1]);
    }
  }

  lemma TwiceProduct(x: nat, y: nat)
    ensures 2 * (x * y) == x * (2 * y)
  {
  }

  lemma {:induction false} Pow2Add(a: nat, b: nat)
    ensures Pow2(a + b) == Pow2(a) * Pow2(b)
  {
    if b > 0 {
      Pow2Add(a, b - 1);
      TwiceProduct(Pow2(a), Pow2(b - 1));
    }
  }

  lemma {:induction false} NumOfConcat(a: seq<bool>, b: seq<bool>)
    ensures NumOf(a + b) == NumOf(a) * Pow2(|b|) + NumOf(b)
  {
    if b == [] {
      assert a + b == a;
    } else {
      var front := b[..|b| - 1];
      assert (a + b)[..|a + b| - 1] == a + front;
      NumOfConcat(a, front);
      assert Pow2(|b|) == 2 * Pow2(|front|);
      Doubled(NumOf(a), Pow2(|front|), NumOf(front));
    }
  }

  lemma Doubled(x: nat, p: nat, y: nat)
    ensures 2 * (x * p + y) == x * (2 * p) + 2 * y
  {
  }

  ghost predicate Fit(symbols: seq<nat>, w: nat) {
    forall i :: 0 <= i < |symbols| ==> symbols[i] < Pow2(w)
  }

  // The symbols, w bits each, one after the other.
  function Flatten(symbols: seq<nat>, w: nat): (bits: seq<bool>) {
    if symbols == [] then [] else BitsOf(symbols[0], w) + Flatten(symbols[1..], w)
  }

  // Full groups of w bits; a shorter rest is dropped.
  function Group(bits: seq<bool>, w: nat): (symbols: seq<nat>)
    requires w > 0
    ensures Fit(symbols, w)
  {
    if |bits| < w then [] else [NumOf(bits[..w])] + Group(bits[w..], w)
  }

  function Zeros(n: nat): (bits: seq<bool>)
    ensures |bits| == n
  {
    seq(n, _ => false)
  }

  lemma {:induction false} NumOfZeros(n: nat)
    ensures NumOf(Zeros(n)) == 0
  {
    if n > 0 {
      NumOfZeros(n - 1);
      assert Zeros(n)[..n - 1] == Zeros(n - 1);
    }
  }

  // Zero bits up to the next multiple of w.
  function Pad(bits: seq<bool>, w: nat): (padded: seq<bool>)
    requires w > 0
    ensures |padded| - |bits| < w
  {
    bits + Zeros((w - |bits| % w) % w)
  }

  lemma {:induction false} FlattenAppend(a: seq<nat>, s: nat, w: nat)
    ensures Flatten(a + [s], w) == Flatten(a, w) + BitsOf(s, w)
  {
    if a == [] {
      assert a + [s] == [s] && [s][1..] == [];
    } else {
      assert (a + [s])[1..] == a[1..] + [s];
      FlattenAppend(a[1..], s, w);
    }
  }

  // Grouping recovers the symbols that a bit string starts with.
  lemma {:induction false} GroupFlatten(symbols: seq<nat>, w: nat, rest: seq<bool>)
    requires w > 0 && |rest| < w && Fit(symbols, w)
    ensures Group(Flatten(symbols, w) + rest, w) == symbols
    decreases |symbols|
  {
    if symbols == [] {
      assert Flatten(symbols, w) + rest == rest;
    } else {
      var first, tail := BitsOf(symbols[0], w), Flatten(symbols[1..], w);
      GroupFlatten(symbols[1..], w, rest);
      NumOfBits(symbols[0], w);
      GroupCons(first, tail + rest, w);
      assert Flatten(symbols, w) + rest == first + (tail + rest) by {
        Associate(first, tail, rest);
      }
    }
  }

  lemma Associate(a: seq<bool>, b: seq<bool>, c: seq<bool>)
    ensures (a + b) + c == a + (b + c)
  {
  }

  lemma GroupCons(first: seq<bool>, rest: seq<bool>, w: nat)
    requires |first| == w > 0
    ensures Group(first + rest, w) == [NumOf(first)] + Group(rest, w)
  {
    assert (first + rest)[..w] == first && (first + rest)[w..] == rest;
  }

  lemma {:induction false} FlattenGroup(bits: seq<bool>, w: nat, n: nat)
    requires w > 0 && |bits| == n * w
    ensures Flatten(Group(bits, w), w) == bits
    decreases n
  {
    if n > 0 {
      assert (n - 1) * w == n * w - w && (n - 1) * w >= 0;
      FlattenGroup(bits[w..], w, n - 1);
      BitsOfNum(bits[..w]);
    }
  }

  lemma {:induction false} GroupLength(bits: seq<bool>, w: nat, n: nat)
    requires w > 0 && |bits| == n * w
    ensures |Group(bits, w)| == n
    decreases n
  {
    if n > 0 {
      assert (n - 1) * w == n * w - w && (n - 1) * w >= 0;
      GroupLength(bits[w..], w, n - 1);
    }
  }

  lemma ModShift(x: int, m: int, k: int)
    requires m > 0
    ensures (x + k * m) % m == x % m
    ensures (x + k * m) / m == x / m + k
  {
    var y := x + k * m;
    CongIntro(y, x, k, m);
    var d := x / m + k - y / m;
    assert x == x / m * m + x % m && y == y / m * m + y % m;
    assert d * m == x / m * m + k * m - y / m * m;
    MultipleIsLarge(d, m);
  }

  lemma PadIsMultiple(bits: seq<bool>, w: nat) returns (n: nat)
    requires w > 0
    ensures |Pad(bits, w)| == n * w
  {
    var q, r := |bits| / w, |bits| % w;
    assert |bits| == q * w + r;
    if r == 0 {
      CongIntro(w, 0, 1, w);
      n := q;
    } else {
      SmallMod(w - r, w);
      n := q + 1;
      assert n * w == q * w + w;
    }
  }

  lemma SmallMod(x: nat, m: nat)
    requires x < m
    ensures x % m == x && x / m == 0
  {
  }

  /** Regrouping bytes into symbols of w bits and back is the identity: the padding
      is too short to make another byte. */
  lemma Regroup(bytes: seq<nat>, w: nat)
    requires 0 < w <= 8 && Fit(bytes, 8)
    ensures Group(Flatten(Group(Pad(Flatten(bytes, 8), w), w), w), 8) == bytes
  {
    var bits := Flatten(bytes, 8);
    var padding := Zeros((w - |bits| % w) % w);
    var n := PadIsMultiple(bits, w);
    FlattenGroup(bits + padding, w, n);
    GroupFlatten(bytes, 8, padding);
  }

  // ---- What a shift register with pending low bits does

  lemma ModOfMod(x: nat, m: nat, k: nat)
    requires m > 0 && k > 0
    ensures (m * k) > 0 && (x % (m * k)) % m == x % m
  {
    assert m * k > 0;
    var q := x / (m * k);
    assert x == q * (m * k) + x % (m * k);
    assert q * (m * k) == (q * k) * m;
    ModShift(x % (m * k), m, q * k);
  }

  // Shifting a symbol of w bits into a register of size bits that drops overflow.
  lemma ShiftIn(value: nat, pending: seq<bool>, s: nat, w: nat, size: nat)
    requires |pending| + w <= size && s < Pow2(w)
    requires value % Pow2(|pending|) == NumOf(pending)
    ensures ((value * Pow2(w) + s) % Pow2(size)) % Pow2(|pending| + w) == NumOf(pending + BitsOf(s, w))
  {
    var n := |pending|;
    Pow2Add(n, w);
    Pow2Add(n + w, size - n - w);
    NumOfBits(s, w);
    NumOfConcat(pending, BitsOf(s, w));
    ShiftInNumber(value, Pow2(n), Pow2(w), s, Pow2(size - n - w));
  }

  lemma ShiftInNumber(value: nat, p: nat, k: nat, s: nat, t: nat)
    requires p > 0 && s < k && t > 0
    ensures p * k > 0 && p * k * t > 0
    ensures ((value * k + s) % (p * k * t)) % (p * k) == value % p * k + s
  {
    AppendDigit(value, p, k, s);
    ModOfMod(value * k + s, p * k, t);
  }

  lemma AppendDigit(value: nat, p: nat, k: nat, s: nat)
    requires p > 0 && s < k
    ensures p * k > 0 && (value * k + s) % (p * k) == value % p * k + s
  {
    var q, r := value / p, value % p;
    assert value == q * p + r;
    assert value * k == q * (p * k) + r * k by {
      assert (q * p + r) * k == (q * p) * k + r * k;
      assert (q * p) * k == q * (p * k);
    }
    DigitBelow(r, p, k, s);
    ModShift(r * k + s, p * k, q);
    SmallMod(r * k + s, p * k);
  }

  lemma DigitBelow(r: nat, p: nat, k: nat, s: nat)
    requires r < p && s < k
    ensures r * k + s < p * k
  {
    var d := p - r - 1;
    assert d * k >= 0;
    assert p * k == d * k + r * k + k;
  }

  // Taking the top w pending bits out of the register.
  lemma TakeTop(value: nat, pending: seq<bool>, w: nat)
    requires w <= |pending|
    requires value % Pow2(|pending|) == NumOf(pending)
    ensures value / Pow2(|pending| - w) % Pow2(w) == NumOf(pending[..w])
    ensures value % Pow2(|pending| - w) == NumOf(pending[w..])
  {
    Pow2Add(|pending| - w, w);
    assert pending[..w] + pending[w..] == pending;
    NumOfConcat(pending[..w], pending[w..]);
    SplitDigit(value, Pow2(|pending| - w), Pow2(w), NumOf(pending[..w]), NumOf(pending[w..]));
  }

  lemma SplitDigit(value: nat, p: nat, k: nat, top: nat, low: nat)
    requires top < k && low < p
    requires p * k > 0 && value % (p * k) == top * p + low
    ensures value / p % k == top && value % p == low
  {
    var q := value / (p * k);
    assert value == q * (p * k) + (top * p + low);
    assert (top + q * k) * p == top * p + (q * k) * p;
    assert (q * k) * p == q * (p * k);
    ModShift(low, p, top + q * k);
    SmallMod(low, p);
    ModShift(top, k, q);
    SmallMod(top, k);
  }

  // ---- A register that collects bits and hands them on in symbols of w bits

  // The low bits of the register are the pending bits of the stream.
  ghost predicate Holds(value: nat, pending: seq<bool>) {
    value % Pow2(|pending|) == NumOf(pending)
  }

  // A register of 32 bits after shifting left by w and or-ing s into the cleared bits.
  function Shift(value: nat, w: nat, s: nat): nat {
    (value * Pow2(w) + s) % Pow2(32)
  }

  // The register shifted right by n, then masked to w bits.
  function Extract(value: nat, n: nat, w: nat): (s: nat)
    ensures s < Pow2(w)
  {
    value / Pow2(n) % Pow2(w)
  }

  // The symbols handed on and the pending bits make up the stream read so far.
  ghost predicate Consumed(stream: seq<bool>, symbols: seq<nat>, w: nat, pending: seq<bool>, value: nat) {
    Fit(symbols, w) && Flatten(symbols, w) + pending == stream && Holds(value, pending)
  }

  lemma Absorb(stream: seq<bool>, symbols: seq<nat>, w: nat, pending: seq<bool>, value: nat, s: nat, v: nat)
    requires Consumed(stream, symbols, w, pending, value)
    requires |pending| + v <= 32 && s < Pow2(v)
    ensures Consumed(stream + BitsOf(s, v), symbols, w, pending + BitsOf(s, v), Shift(value, v, s))
  {
    ShiftIn(value, pending, s, v, 32);
    Associate(Flatten(symbols, w), pending, BitsOf(s, v));
    assert Holds(Shift(value, v, s), pending + BitsOf(s, v));
  }

  lemma Emit(stream: seq<bool>, symbols: seq<nat>, w: nat, pending: seq<bool>, value: nat)
    requires Consumed(stream, symbols, w, pending, value) && w <= |pending|
    ensures Consumed(stream, symbols + [Extract(value, |pending| - w, w)], w, pending[w..], value)
  {
    var s := Extract(value, |pending| - w, w);
    TakeTop(value, pending, w);
    BitsOfNum(pending[..w]);
    FlattenAppend(symbols, s, w);
    assert pending == pending[..w] + pending[w..];
    Associate(Flatten(symbols, w), pending[..w], pending[w..]);
  }

  lemma {:induction false} FlattenLength(symbols: seq<nat>, w: nat)
    ensures |Flatten(symbols, w)| == |symbols| * w
  {
    if symbols != [] {
      FlattenLength(symbols[1..], w);
      assert (|symbols| - 1) * w + w == |symbols| * w;
    }
  }

  lemma ZeroBits(w: nat)
    ensures BitsOf(0, w) == Zeros(w)
  {
    NumOfZeros(w);
    BitsOfNum(Zeros(w));
  }

  // Fewer than w bits are left over: the symbols are the groups of the stream.
  lemma Drained(stream: seq<bool>, symbols: seq<nat>, w: nat, pending: seq<bool>, value: nat)
    requires Consumed(stream, symbols, w, pending, value) && |pending| < w
    ensures symbols == Group(stream, w)
  {
    GroupFlatten(symbols, w, pending);
  }

  // The pending bits are as many as the stream has beyond full groups.
  lemma PendingLength(stream: seq<bool>, symbols: seq<nat>, w: nat, pending: seq<bool>, value: nat)
    requires Consumed(stream, symbols, w, pending, value) && |pending| < w
    ensures Pad(stream, w) == stream + Zeros(if pending == [] then 0 else w - |pending|)
  {
    FlattenLength(symbols, w);
    ModShift(|pending|, w, |symbols|);
    SmallMod(|pending|, w);
    if pending == [] {
      CongIntro(w, 0, 1, w);
    } else {
      SmallMod(w - |pending|, w);
    }
  }

  // The register as the codec loops use it: the bits counted in it and the symbols handed on so far.
  datatype Register = Register(value: nat, bits: nat, symbols: seq<nat>)

  // Hand on symbols while there are enough bits; what was handed on stays in the register.
  function Drain(r: Register, w: nat): (drained: Register)
    requires w > 0
    ensures drained.bits < w
    ensures Fit(r.symbols, w) ==> Fit(drained.symbols, w)
    decreases r.bits
  {
    if r.bits < w then r
    else Drain(Register(r.value, r.bits - w, r.symbols + [Extract(r.value, r.bits - w, w)]), w)
  }

  // The register after reading inputs of v bits each, handing on symbols of w bits.
  function Feed(inputs: seq<nat>, v: nat, w: nat): (r: Register)
    requires w > 0
    ensures r.bits < w && Fit(r.symbols, w)
  {
    if inputs == [] then Register(0, 0, [])
    else
      var r := Feed(inputs[..|inputs| - 1], v, w);
      Drain(Register(Shift(r.value, v, inputs[|inputs| - 1]), r.bits + v, r.symbols), w)
  }

  ghost predicate Faithful(stream: seq<bool>, r: Register, w: nat, pending: seq<bool>) {
    r.bits == |pending| && Consumed(stream, r.symbols, w, pending, r.value)
  }

  lemma {:induction false} DrainFaithful(stream: seq<bool>, r: Register, w: nat, pending: seq<bool>)
      returns (rest: seq<bool>)
    requires w > 0 && Faithful(stream, r, w, pending)
    ensures Faithful(stream, Drain(r, w), w, rest) && |rest| < w
    decreases r.bits
  {
    if r.bits < w {
      rest := pending;
    } else {
      Emit(stream, r.symbols, w, pending, r.value);
      rest := DrainFaithful(stream,
        Register(r.value, r.bits - w, r.symbols + [Extract(r.value, r.bits - w, w)]), w, pending[w..]);
    }
  }

  /** However often the register wraps, what was handed on and the counted low bits are
      exactly the bits read. */
  lemma {:induction false} FeedFaithful(inputs: seq<nat>, v: nat, w: nat) returns (pending: seq<bool>)
    requires 0 < w && v + w <= 32 && Fit(inputs, v)
    ensures Faithful(Flatten(inputs, v), Feed(inputs, v, w), w, pending) && |pending| < w
    decreases |inputs|
  {
    if inputs == [] {
      pending := [];
    } else {
      var front, last := inputs[..|inputs| - 1], inputs[|inputs| - 1];
      assert inputs == front + [last];
      var before := FeedFaithful(front, v, w);
      FlattenAppend(front, last, v);
      FeedNext(front, last, v, w);
      pending := FeedOne(Flatten(front, v), Feed(front, v, w), w, before, last, v, Flatten(inputs, v),
                         Feed(inputs, v, w));
    }
  }

  lemma FeedOne(stream: seq<bool>, r: Register, w: nat, before: seq<bool>, s: nat, v: nat, longer: seq<bool>,
                fed: Register) returns (pending: seq<bool>)
    requires 0 < w && v + w <= 32 && s < Pow2(v) && Faithful(stream, r, w, before) && |before| < w
    requires longer == stream + BitsOf(s, v)
    requires fed == Drain(Register(Shift(r.value, v, s), r.bits + v, r.symbols), w)
    ensures Faithful(longer, fed, w, pending) && |pending| < w
  {
    Absorb(stream, r.symbols, w, before, r.value, s, v);
    pending := DrainFaithful(longer, Register(Shift(r.value, v, s), r.bits + v, r.symbols), w,
                             before + BitsOf(s, v));
  }

  lemma FeedNext(inputs: seq<nat>, s: nat, v: nat, w: nat)
    requires w > 0
    ensures var r := Feed(inputs, v, w);
            Feed(inputs + [s], v, w) == Drain(Register(Shift(r.value, v, s), r.bits + v, r.symbols), w)
  {
    var all := inputs + [s];
    assert all[..|all| - 1] == inputs && all[|all| - 1] == s;
  }
}
