/** Streaming MD5: the 64-byte buffer, the two-word bit counter and the padding. The 64 rounds stay abstract. */
module Md5 {
  import opened CStrings
  import opened Words

  const TWO_64: int := 0x1_0000_0000_0000_0000

  type State = s: seq<word> | |s| == 4 witness [0, 0, 0, 0]

  /** What one 64-byte block does to the state. */
  type Transform = (State, bytes) -> State

  const INIT: State := [0x67452301, 0xEFCDAB89, 0x98BADCFE, 0x10325476]

  method Encode(output: array<byte>, input: seq<word>)
    requires output.Length == 4 * |input|
    modifies output
    ensures output[..] == Encoded(input)
  {
    var i, j := 0, 0;
    while j < 4 * |input|
      invariant j == 4 * i && i <= |input|
      invariant output[..j] == Encoded(input[..i])
    {
      EncodedGrows(input[..i], input[i]);
      assert input[..i] + [input[i]] == input[..i + 1];
      ShiftsTakeBytes(input[i]);
      ghost var done := output[..j];
      output[j] := input[i] % 0x100;
      output[j + 1] := input[i] / 0x100 % 0x100;
      output[j + 2] := input[i] / 0x1_0000 % 0x100;
      output[j + 3] := input[i] / 0x100_0000 % 0x100;
      assert output[..j + 4] == done + WordBytes(input[i]);
      i, j := i + 1, j + 4;
    }
    assert input[..i] == input && output[..j] == output[..];
  }

  method Decode(input: bytes) returns (words: seq<word>)
    requires |input| % 4 == 0
    ensures words == Decoded(input)
  {
    words := [];
    var j := 0;
    while j < |input|
      invariant j % 4 == 0 && j <= |input|
      invariant words == Decoded(input[..j])
    {
      DecodedGrows(input[..j], input[j..j + 4]);
      assert input[..j] + input[j..j + 4] == input[..j + 4];
      words := words + [Assembled(input[j], input[j + 1], input[j + 2], input[j + 3])];
      j := j + 4;
    }
    assert input[..j] == input;
  }

  // ---- The hash of a whole message ----

  /** Runs the transform over the whole blocks of `m`; a rest of less than a block is left alone. */
  function Absorb(t: Transform, state: State, m: bytes): State
    decreases |m|
  {
    if |m| < 64 then state else Absorb(t, t(state, m[..64]), m[64..])
  }

  lemma {:induction false} AbsorbInTwo(t: Transform, state: State, a: bytes, b: bytes)
    requires |a| % 64 == 0
    ensures Absorb(t, state, a + b) == Absorb(t, Absorb(t, state, a), b)
    decreases |a|
  {
    if a == [] {
      assert a + b == b;
    } else {
      AbsorbInTwo(t, t(state, a[..64]), a[64..], b);
      assert (a + b)[..64] == a[..64] && (a + b)[64..] == a[64..] + b;
    }
  }

  /** The bytes that do not fill a block yet. */
  function Rest(m: bytes): bytes {
    m[|m| - |m| % 64..]
  }

  /** A longer message absorbed: the rest of the old one goes first. */
  lemma AbsorbMore(t: Transform, state: State, m: bytes, more: bytes)
    ensures Absorb(t, state, m + more) == Absorb(t, Absorb(t, state, m), Rest(m) + more)
    ensures Rest(m + more) == Rest(Rest(m) + more)
  {
    var whole := m[..|m| - |m| % 64];
    assert m == whole + Rest(m) && m + more == whole + (Rest(m) + more);
    AbsorbInTwo(t, state, whole, Rest(m));
    AbsorbInTwo(t, state, whole, Rest(m) + more);
    RestIgnoresBlocks(whole, Rest(m) + more);
  }

  lemma RestIgnoresBlocks(a: bytes, b: bytes)
    requires |a| % 64 == 0
    ensures Rest(a + b) == Rest(b)
  {
    assert |a + b| % 64 == |b| % 64;
  }

  lemma AbsorbBlock(t: Transform, state: State, block: bytes)
    requires |block| == 64
    ensures Absorb(t, state, block) == t(state, block)
  {
    assert block[..64] == block && block[64..] == [];
  }

  lemma AbsorbNextBlock(t: Transform, state: State, m: bytes, n: nat)
    requires n % 64 == 0 && n + 64 <= |m|
    ensures Absorb(t, state, m[..n + 64]) == t(Absorb(t, state, m[..n]), m[n..n + 64])
  {
    AbsorbInTwo(t, state, m[..n], m[n..n + 64]);
    AbsorbBlock(t, Absorb(t, state, m[..n]), m[n..n + 64]);
    assert m[..n] + m[n..n + 64] == m[..n + 64];
  }

  lemma AbsorbStops(t: Transform, state: State, m: bytes, n: nat)
    requires n % 64 == 0 && n <= |m| < n + 64
    ensures Absorb(t, state, m) == Absorb(t, state, m[..n])
    ensures Rest(m) == m[n..]
  {
    AbsorbInTwo(t, state, m[..n], m[n..]);
    assert m[..n] + m[n..] == m;
  }

  function Zeros(n: nat): bytes {
    seq(n, _ => 0)
  }

  function LengthBytes(m: bytes): (b: bytes)
    ensures |b| == 8
  {
    var bits := 8 * |m| % TWO_64;
    Encoded([bits % TWO_32, bits / TWO_32])
  }

  /** RFC 1321, sections 3.1 and 3.2: a one bit, zeros up to 56 bytes into a block, the length in bits. */
  function Padded(m: bytes): bytes {
    m + [0x80] + Zeros((119 - |m| % 64) % 64) + LengthBytes(m)
  }

  lemma PaddedLength(m: bytes)
    ensures |Padded(m)| == |m| + 9 + (119 - |m| % 64) % 64
  {
  }

  /** The padded message is whole blocks, and no shorter padding would do. */
  lemma PaddedIsBlocks(m: bytes)
    ensures |Padded(m)| % 64 == 0
    ensures forall n: nat :: (n % 64 == 0 && |m| + 9 <= n) ==> |m| + 9 <= |Padded(m)| <= n
  {
    var pad := (119 - |m| % 64) % 64;
    assert |Padded(m)| == |m| + 9 + pad by { PaddedLength(m); }
    BlocksNeeded(|m|);
    forall n: nat | n % 64 == 0 && |m| + 9 <= n ensures |m| + 9 <= |Padded(m)| <= n {
      BlocksAreLeast(|m| + 9, pad, n);
    }
  }

  lemma BlocksAreLeast(m: nat, pad: nat, n: nat)
    requires (m + pad) % 64 == 0 && pad < 64 && n % 64 == 0 && m <= n
    ensures m + pad <= n
  {
    var a, b := (m + pad) / 64, n / 64;
    assert m + pad == 64 * a && n == 64 * b;
  }

  lemma BlocksNeeded(m: nat)
    ensures (m + 9 + (119 - m % 64) % 64) % 64 == 0
    ensures (119 - m % 64) % 64 < 64
  {
    var q, r := m / 64, m % 64;
    assert m == 64 * q + r;
    if r < 56 {
      assert (119 - r) % 64 == 55 - r;
      assert m + 9 + (55 - r) == 64 * (q + 1);
    } else {
      assert (119 - r) % 64 == 119 - r;
      assert m + 9 + (119 - r) == 64 * (q + 2);
    }
  }

  lemma LengthIsKept(m: bytes)
    requires 8 * |m| < TWO_64
    ensures Decoded(LengthBytes(m)) == [8 * |m| % TWO_32, 8 * |m| / TWO_32]
  {
    BitsSplit(8 * |m|);
    DecodeUndoesEncode([8 * |m| % TWO_32, 8 * |m| / TWO_32]);
  }

  lemma BitsSplit(bits: nat)
    requires bits < TWO_64
    ensures bits % TWO_64 == bits && bits / TWO_32 < TWO_32
  {
  }

  lemma PaddedParts(m: bytes)
    ensures Padded(m)[..|m|] == m
    ensures |Padded(m)| >= 8 && Padded(m)[|Padded(m)| - 8..] == LengthBytes(m)
  {
    PaddedLength(m);
  }

  /** Different messages stay different when padded. */
  lemma PaddingIsInjective(a: bytes, b: bytes)
    requires Padded(a) == Padded(b) && 8 * |a| < TWO_64 && 8 * |b| < TWO_64
    ensures a == b
  {
    PaddedParts(a);
    PaddedParts(b);
    LengthIsKept(a);
    LengthIsKept(b);
    var la, lb := [8 * |a| % TWO_32, 8 * |a| / TWO_32], [8 * |b| % TWO_32, 8 * |b| / TWO_32];
    assert la[0] == lb[0] && la[1] == lb[1];
    assert 8 * |a| == la[0] + TWO_32 * la[1] && 8 * |b| == lb[0] + TWO_32 * lb[1];
    assert |a| == |b|;
  }

  lemma EncodedPair(a: word, b: word)
    ensures Encoded([a, b]) == WordBytes(a) + WordBytes(b)
  {
    assert [a, b][1..] == [b] && [b][1..] == [];
    assert Encoded([b]) == WordBytes(b) + Encoded([]);
  }

  /** Dropping multiples of a larger power of two does not change a digit. */
  lemma DigitOfRest(x: nat, d: nat, m: nat)
    requires d > 0 && m > 0
    ensures x % (m * 0x100 * d) / d % 0x100 == x / d % 0x100
  {
    var n := m * 0x100 * d;
    var q, r := x / n, x % n;
    var h := r / d;
    assert x == (m * 0x100 * q + h) * d + r % d by {
      assert n * q == m * 0x100 * q * d;
    }
    DivisionIsUnique(x, d, m * 0x100 * q + h, r % d);
    DivisionIsUnique(m * 0x100 * q + h, 0x100, m * q + h / 0x100, h % 0x100);
  }

  lemma QuotientOfQuotient(x: nat, a: nat, b: nat)
    requires a > 0 && b > 0
    ensures a * b > 0 && x / a / b == x / (a * b)
  {
    var q := x / a;
    assert x == (b * (q / b) + q % b) * a + x % a;
    assert x == (a * b) * (q / b) + (a * (q % b) + x % a);
    assert a * (q % b) <= a * (b - 1);
    DivisionIsUnique(x, a * b, q / b, a * (q % b) + x % a);
  }

  /** The word at the bottom, and the one above it, byte by byte. */
  lemma LengthDigits(x: nat)
    ensures WordBytes(x % TWO_64 % TWO_32)
         == [x % 0x100, x / 0x100 % 0x100, x / 0x1_0000 % 0x100, x / 0x100_0000 % 0x100]
    ensures WordBytes(x % TWO_64 / TWO_32)
         == [x / 0x1_0000_0000 % 0x100, x / 0x100_0000_0000 % 0x100, x / 0x1_0000_0000_0000 % 0x100, x / 0x100_0000_0000_0000 % 0x100]
  {
    var y := x % TWO_64;
    var low, high := y % TWO_32, y / TWO_32;
    ShiftsTakeBytes(low);
    ShiftsTakeBytes(high);
    DigitOfRest(y, 1, 0x100_0000);
    DigitOfRest(y, 0x100, 0x1_0000);
    DigitOfRest(y, 0x1_0000, 0x100);
    DigitOfRest(y, 0x100_0000, 1);
    QuotientOfQuotient(y, TWO_32, 0x100);
    QuotientOfQuotient(y, TWO_32, 0x1_0000);
    QuotientOfQuotient(y, TWO_32, 0x100_0000);
    DigitOfRest(x, 1, 0x100_0000_0000_0000);
    DigitOfRest(x, 0x100, 0x1_0000_0000_0000);
    DigitOfRest(x, 0x1_0000, 0x100_0000_0000);
    DigitOfRest(x, 0x100_0000, 0x1_0000_0000);
    DigitOfRest(x, 0x1_0000_0000, 0x100_0000);
    DigitOfRest(x, 0x100_0000_0000, 0x1_0000);
    DigitOfRest(x, 0x1_0000_0000_0000, 0x100);
    DigitOfRest(x, 0x100_0000_0000_0000, 1);
  }

  /** The padded message bit by bit: the message, a one bit, zeros, and in the last eight bytes the number of its bits, the
      lowest byte first. */
  lemma PaddedBits(m: bytes)
    ensures var p, n, bits := Padded(m), |Padded(m)|, 8 * |m|;
            && n >= |m| + 9 && p[..|m|] == m && p[|m|] == 0x80
            && (forall i :: |m| < i < n - 8 ==> p[i] == 0)
            && p[n - 8..] == [bits % 0x100, bits / 0x100 % 0x100, bits / 0x1_0000 % 0x100, bits / 0x100_0000 % 0x100]
                           + [bits / 0x1_0000_0000 % 0x100, bits / 0x100_0000_0000 % 0x100,
                              bits / 0x1_0000_0000_0000 % 0x100, bits / 0x100_0000_0000_0000 % 0x100]
  {
    PaddedParts(m);
    PaddedLength(m);
    LengthDigits(8 * |m|);
    EncodedPair(8 * |m| % TWO_64 % TWO_32, 8 * |m| % TWO_64 / TWO_32);
    var z := (119 - |m| % 64) % 64;
    forall i | |m| < i < |Padded(m)| - 8 ensures Padded(m)[i] == 0 {
      assert Padded(m)[i] == Zeros(z)[i - |m| - 1];
    }
  }

  /** The start value, low-order bytes first (RFC 1321, section 3.3). */
  lemma InitBytes()
    ensures Encoded(INIT) == [0x01, 0x23, 0x45, 0x67, 0x89, 0xab, 0xcd, 0xef, 0xfe, 0xdc, 0xba, 0x98, 0x76, 0x54, 0x32, 0x10]
  {
    EncodedFour(INIT[0], INIT[1], INIT[2], INIT[3]);
    assert INIT == [INIT[0], INIT[1], INIT[2], INIT[3]];
    assert WordBytes(INIT[0]) == [0x01, 0x23, 0x45, 0x67] && WordBytes(INIT[1]) == [0x89, 0xab, 0xcd, 0xef];
    assert WordBytes(INIT[2]) == [0xfe, 0xdc, 0xba, 0x98] && WordBytes(INIT[3]) == [0x76, 0x54, 0x32, 0x10];
  }

  lemma EncodedFour(a: word, b: word, c: word, d: word)
    ensures Encoded([a, b, c, d]) == WordBytes(a) + WordBytes(b) + WordBytes(c) + WordBytes(d)
  {
    EncodedPair(a, b);
    EncodedGrows([a, b], c);
    EncodedGrows([a, b, c], d);
    assert [a, b] + [c] == [a, b, c] && [a, b, c] + [d] == [a, b, c, d];
  }

  function Digest(t: Transform, m: bytes): bytes {
    Encoded(Absorb(t, INIT, Padded(m)))
  }

  // ---- The bit counter ----

  /** What one call adds to the two words of the counter. */
  function CountAfter(low: word, high: word, length: word): (c: (word, word)) {
    var shifted := length * 8 % TWO_32;
    var low1 := (low + shifted) % TWO_32;
    var high1 := if low1 < shifted then (high + 1) % TWO_32 else high;
    (low1, (high1 + length / 0x2000_0000) % TWO_32)
  }

  /** The carry test is right: the two words count the bits modulo 2^64. */
  lemma CounterCounts(low: word, high: word, length: word, bits: nat)
    requires low + TWO_32 * high == bits % TWO_64
    ensures var c := CountAfter(low, high, length); c.0 + TWO_32 * c.1 == (bits + 8 * length) % TWO_64
  {
    var shifted, top := length * 8 % TWO_32, length / 0x2000_0000;
    assert 8 * length == shifted + TWO_32 * top;
    var c := CountAfter(low, high, length);
    var carry := if low + shifted >= TWO_32 then 1 else 0;
    assert c.0 == low + shifted - TWO_32 * carry;
    assert c.1 == (high + carry + top) % TWO_32;
    var over := (high + carry + top) / TWO_32;
    assert c.0 + TWO_32 * c.1 == bits % TWO_64 + 8 * length - TWO_64 * over;
    ModuloSum(bits, 8 * length, over, c.0 + TWO_32 * c.1);
  }

  lemma ModuloSum(bits: nat, more: nat, over: int, sum: int)
    requires sum == bits % TWO_64 + more - TWO_64 * over && 0 <= sum < TWO_64
    ensures sum == (bits + more) % TWO_64
  {
    assert bits + more == sum + TWO_64 * (bits / TWO_64 + over);
  }

  /** The counter's low word says how full the buffer is. */
  lemma IndexIsRest(low: word, high: word, n: nat)
    requires low + TWO_32 * high == 8 * n % TWO_64
    ensures low / 8 % 64 == n % 64
  {
    var k := TWO_64 / TWO_32 * (8 * n / TWO_64) + high;
    assert 8 * n == low + TWO_32 * k;
    assert low == 8 * (n - 0x2000_0000 * k);
    assert n == low / 8 + 64 * (0x80_0000 * k);
    ModuloShift(low / 8, 0x80_0000 * k);
  }

  lemma ModuloShift(x: int, k: int)
    ensures (x + 64 * k) % 64 == x % 64
  {
  }

  /** `memcpy` of a whole sequence. */
  method Copy(to: array<byte>, at: nat, from: bytes)
    requires at + |from| <= to.Length
    modifies to
    ensures to[..] == old(to[..at]) + from + old(to[at + |from|..])
  {
    for i := 0 to |from|
      invariant to[..] == old(to[..at]) + from[..i] + old(to[at + i..])
    {
      to[at + i] := from[i];
    }
    assert from[..|from|] == from;
  }

  // ---- How long an input may be ----

  /** The block loop's 32-bit index does not wrap. */
  predicate FeedFits(index: nat, length: nat) {
    length < TWO_32 - (if index == 0 then 64 else index)
  }

  /** The loop's index before turn `k`, with `index` bytes buffered before. */
  function LoopIndex(index: nat, k: nat): int {
    (64 - index + 64 * k) % TWO_32
  }

  /** The loop's test fails before turn `k`. */
  predicate StopsAt(index: nat, length: nat, k: nat) {
    (LoopIndex(index, k) + 64) % TWO_32 > length
  }

  lemma NextIndex(index: nat, k: nat)
    requires index < 64
    ensures (LoopIndex(index, k) + 64) % TWO_32 == LoopIndex(index, k + 1)
  {
    var x := 64 - index + 64 * k;
    var q := x / TWO_32;
    assert x + 64 == 64 - index + 64 * (k + 1);
    assert LoopIndex(index, k) == x - TWO_32 * q;
    ModuloSeesNoTurns(x + 64, -q);
  }

  lemma ModuloSeesNoTurns(x: int, q: int)
    ensures (x + TWO_32 * q) % TWO_32 == x % TWO_32
  {
    var p, r := x / TWO_32, x % TWO_32;
    assert x == TWO_32 * p + r;
    DivisionIsUnique(x + TWO_32 * q, TWO_32, p + q, r);
  }

  lemma IndexIsBounded(index: nat, k: nat)
    requires index < 64
    ensures LoopIndex(index, k) <= TWO_32 - (if index == 0 then 64 else index)
  {
    var q := (64 - index + 64 * k) / TWO_32;
    var y := k + 1 - 0x400_0000 * q;
    assert LoopIndex(index, k) == 64 * y - index;
  }

  /** The index gets to its largest value. */
  lemma LargestIndex(index: nat) returns (k: nat)
    requires index < 64
    ensures LoopIndex(index, k + 1) == TWO_32 - (if index == 0 then 64 else index)
  {
    k := if index == 0 then 0x3FF_FFFD else 0x3FF_FFFE;
    assert 64 - index + 64 * (k + 1) == TWO_32 - (if index == 0 then 64 else index);
  }

  ghost predicate LoopEnds(index: nat, length: nat) {
    exists k: nat :: StopsAt(index, length, k)
  }

  /** The block loop of an update ends exactly for the lengths that fit. */
  lemma LoopEndsIffFits(index: nat, length: nat)
    requires index < 64 && 64 - index <= length < TWO_32
    ensures LoopEnds(index, length) <==> FeedFits(index, length)
  {
    forall k: nat | StopsAt(index, length, k) ensures FeedFits(index, length) {
      NextIndex(index, k);
      IndexIsBounded(index, k + 1);
    }
    if FeedFits(index, length) {
      var k := LargestIndex(index);
      NextIndex(index, k);
      assert StopsAt(index, length, k);
    }
  }

  /** No index the loop comes to wraps. */
  lemma BlockFits(index: nat, i: nat, length: nat)
    requires index < 64 && FeedFits(index, length) && i <= length && (index + i) % 64 == 0
    ensures i + 64 < TWO_32
  {
  }

  lemma SliceOfSuffix(all: bytes, input: bytes, index: nat, i: nat)
    requires index <= |all| && all[index..] == input && i + 64 <= |input|
    ensures all[index + i..index + i + 64] == input[i..i + 64]
  {
    assert all[index..][i..i + 64] == all[index + i..index + i + 64];
  }

  const PADDING: bytes := [0x80] + Zeros(63)

  class Context {
    const transform: Transform
    const buffer: array<byte>
    var low: word
    var high: word
    var state: State

    ghost predicate Counts(n: nat)
      reads this
    {
      low + TWO_32 * high == 8 * n % TWO_64
    }

    /** The blocks of `m` are in the state, the rest in the buffer. */
    ghost predicate Carries(m: bytes)
      reads this, buffer
    {
      && buffer.Length == 64
      && state == Absorb(transform, INIT, m)
      && buffer[..|Rest(m)|] == Rest(m)
    }

    /** Everything fed so far is `m`. */
    ghost predicate Holds(m: bytes)
      reads this, buffer
    {
      Counts(|m|) && Carries(m)
    }

    constructor (transform: Transform)
      ensures Holds([]) && this.transform == transform && fresh(buffer)
    {
      this.transform := transform;
      low, high, state := 0, 0, INIT;
      buffer := new byte[64];
    }

    /** Feeds a piece of any length for which the block loop ends. */
    method Update(ghost m: bytes, input: bytes)
      requires Holds(m) && FeedFits(|m| % 64, |input|)
      modifies this, buffer
      ensures Holds(m + input)
    {
      IndexIsRest(low, high, |m|);
      var index := low / 8 % 64;
      CountBits(|m|, |input|);
      TakeBytes(m, index, input);
    }

    /** Adds to the two words of the counter, with the carry between them. */
    method CountBits(ghost n: nat, length: word)
      requires Counts(n)
      modifies this`low, this`high
      ensures Counts(n + length)
    {
      CounterCounts(low, high, length, 8 * n);
      low := (low + length * 8 % TWO_32) % TWO_32;
      if low < length * 8 % TWO_32 {
        high := (high + 1) % TWO_32;
      }
      high := (high + length / 0x2000_0000) % TWO_32;
    }

    /** Completes the buffered block, runs over the whole blocks of the input, and buffers what is left. */
    method TakeBytes(ghost m: bytes, index: nat, input: bytes)
      requires Carries(m) && index == |Rest(m)| && FeedFits(index, |input|)
      modifies this`state, buffer
      ensures Carries(m + input)
    {
      AbsorbMore(transform, INIT, m, input);
      ghost var start, all := state, Rest(m) + input;
      var partlen := 64 - index;
      if |input| < partlen {
        Copy(buffer, index, input);
        assert buffer[..|all|] == all;
      } else {
        Copy(buffer, index, input[..partlen]);
        assert buffer[..] == all[..64];
        state := transform(state, buffer[..]);
        AbsorbBlock(transform, start, all[..64]);
        var i := AbsorbBlocks(start, all, index, input);
        AbsorbStops(transform, start, all, index + i);
        Copy(buffer, 0, input[i..]);
        assert buffer[..|Rest(all)|] == Rest(all);
      }
    }

    /** The loop over the blocks that lie whole in the input. */
    method AbsorbBlocks(ghost start: State, ghost all: bytes, index: nat, input: bytes) returns (i: nat)
      requires index < 64 <= index + |input| == |all| && FeedFits(index, |input|) && all[index..] == input
      requires state == Absorb(transform, start, all[..64])
      modifies this`state
      ensures 64 - index <= i <= |input| < i + 64 && (index + i) % 64 == 0
      ensures state == Absorb(transform, start, all[..index + i])
    {
      i := 64 - index;
      BlockFits(index, i, |input|);
      while (i + 64) % TWO_32 <= |input|
        invariant 64 - index <= i <= |input| && (index + i) % 64 == 0 && i + 64 < TWO_32
        invariant state == Absorb(transform, start, all[..index + i])
      {
        AbsorbNextBlock(transform, start, all, index + i);
        SliceOfSuffix(all, input, index, i);
        state := transform(state, input[i..i + 64]);
        i := i + 64;
        BlockFits(index, i, |input|);
      }
    }

    /** Pads, appends the bit count taken before the padding, and hands out the state. */
    method Final(ghost m: bytes, digest: array<byte>)
      requires Holds(m) && digest.Length == 16 && digest != buffer
      modifies this, buffer, digest
      ensures digest[..] == Digest(transform, m)
    {
      IndexIsRest(low, high, |m|);
      var index := low / 8 % 64;
      var padlen := if index < 56 then 56 - index else 120 - index;
      var bits := new byte[8];
      Encode(bits, [low, high]);
      PaddingFits(m, padlen, low, high);
      ghost var counted := bits[..];
      Update(m, PADDING[..padlen]);
      Update(m + PADDING[..padlen], bits[..]);
      PaddedInPieces(m, PADDING[..padlen], counted);
      Encode(digest, state);
    }
  }

  lemma PaddingFits(m: bytes, padlen: nat, low: word, high: word)
    requires padlen == if |m| % 64 < 56 then 56 - |m| % 64 else 120 - |m| % 64
    requires low + TWO_32 * high == 8 * |m| % TWO_64
    ensures padlen <= 64 && PADDING[..padlen] == [0x80] + Zeros((119 - |m| % 64) % 64)
    ensures Encoded([low, high]) == LengthBytes(m)
  {
    assert (119 - |m| % 64) % 64 == padlen - 1;
    assert PADDING[..padlen] == [0x80] + Zeros(padlen - 1);
    CountIsLength(8 * |m| % TWO_64, low, high);
  }

  lemma PaddedInPieces(m: bytes, padding: bytes, length: bytes)
    requires padding == [0x80] + Zeros((119 - |m| % 64) % 64) && length == LengthBytes(m)
    ensures m + padding + length == Padded(m)
  {
  }

  lemma CountIsLength(bits: nat, low: word, high: word)
    requires low + TWO_32 * high == bits
    ensures low == bits % TWO_32 && high == bits / TWO_32
  {
  }

  function Joined(pieces: seq<bytes>): bytes {
    if pieces == [] then [] else Joined(pieces[..|pieces| - 1]) + pieces[|pieces| - 1]
  }

  /** However a message is cut into pieces, feeding them gives the digest of the whole. */
  method HashPieces(transform: Transform, pieces: seq<bytes>) returns (digest: array<byte>)
    requires forall i :: 0 <= i < |pieces| ==> FeedFits(|Joined(pieces[..i])| % 64, |pieces[i]|)
    ensures digest[..] == Digest(transform, Joined(pieces))
  {
    var context := new Context(transform);
    for i := 0 to |pieces|
      invariant context.Holds(Joined(pieces[..i])) && context.transform == transform && fresh(context) && fresh(context.buffer)
    {
      assert pieces[..i + 1][..i] == pieces[..i];
      context.Update(Joined(pieces[..i]), pieces[i]);
    }
    assert pieces[..|pieces|] == pieces;
    digest := new byte[16];
    context.Final(Joined(pieces), digest);
  }
}
