/** Bytes, C strings and the fixed-width integer operations of the firmware. */
module CStrings {

  type byte = x: int | 0 <= x < 256

  /** The characters of a C buffer. As a C string it ends at its first NUL, or at the terminator behind it. */
  type bytes = seq<byte>

  datatype Option<+T> = None | Some(value: T)

  const COMMA: byte := 0x2C
  const COLON: byte := 0x3A
  const MINUS: byte := 0x2D
  const OPEN_BRACKET: byte := 0x5B
  const CLOSE_BRACKET: byte := 0x5D
  const OPEN_BRACE: byte := 0x7B
  const CLOSE_BRACE: byte := 0x7D

  /** The character a pointer sees at the front of `s`: the terminator once the text is used up. */
  function Peek(s: bytes): byte {
    if s == [] then 0 else s[0]
  }

  /** The character at offset `i` of a C string. Nothing behind the terminator is ever read. */
  function At(s: bytes, i: nat): (c: byte)
    requires i <= |s|
    ensures c == Peek(s[i..])
  {
    if i == |s| then 0 else s[i]
  }

  lemma SuffixOfSuffix(s: bytes, i: nat, n: nat)
    requires i <= |s|
    ensures i + n <= |s| ==> s[i..][n..] == s[i + n..]
  {
  }

  function Ascii(text: string): (r: bytes)
    requires forall i :: 0 <= i < |text| ==> text[i] as int < 128
    ensures |r| == |text|
    ensures forall i :: 0 <= i < |text| ==> r[i] == text[i] as int
  {
    seq(|text|, i requires 0 <= i < |text| => text[i] as int)
  }

  /** `a & b` on natural numbers. */
  function BitAnd(a: nat, b: nat): nat {
    if a == 0 || b == 0 then 0 else (a % 2) * (b % 2) + 2 * BitAnd(a / 2, b / 2)
  }

  predicate PowerOfTwo(n: nat) {
    n == 1 || (n > 0 && n % 2 == 0 && PowerOfTwo(n / 2))
  }

  /** Masking with `cap - 1` is reduction modulo `cap`, because every capacity is a power of two. */
  lemma {:induction false} MaskIsModulo(h: nat, cap: nat)
    requires PowerOfTwo(cap)
    ensures BitAnd(h, cap - 1) == h % cap
  {
    if cap == 1 {
    } else {
      var half := cap / 2;
      MaskIsModulo(h / 2, half);
      assert (cap - 1) / 2 == half - 1 && (cap - 1) % 2 == 1;
      assert BitAnd(h, cap - 1) == h % 2 + 2 * ((h / 2) % half);
      ModuloByDoubling(h, half);
    }
  }

  lemma ModuloByDoubling(h: nat, half: nat)
    requires half > 0
    ensures h % (2 * half) == h % 2 + 2 * ((h / 2) % half)
  {
    var q, r := (h / 2) / half, (h / 2) % half;
    assert h / 2 == half * q + r;
    assert h == (2 * half) * q + (h % 2 + 2 * r);
    DivisionIsUnique(h, 2 * half, q, h % 2 + 2 * r);
  }

  lemma DivisionIsUnique(h: int, m: int, q: int, r: int)
    requires 0 <= r < m
    requires h == m * q + r
    ensures h / m == q && h % m == r
  {
    var d := h / m - q;
    assert m * d == r - h % m by {
      assert h == m * (h / m) + h % m;
      assert m * d == m * (h / m) - m * q;
    }
    SmallMultipleIsZero(m, d);
  }

  lemma SmallMultipleIsZero(m: int, d: int)
    requires -m < m * d < m
    ensures d == 0
  {
    MultipleIsLarge(m, d);
  }

  lemma MultipleIsLarge(m: int, d: int)
    requires 0 < m
    ensures d >= 1 ==> m * d >= m
    ensures d <= -1 ==> m * d <= -m
  {
    assert d >= 1 ==> m * (d - 1) >= 0;
    assert d <= -1 ==> m * (d + 1) <= 0;
  }
}
