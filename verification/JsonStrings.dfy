/** JSON string literals: escaping, finding the closing quote, unescaping (RFC 8259, section 7). */
module JsonStrings {
  import opened CStrings
  import opened Utf8

  const QUOTE: byte := 0x22
  const BACKSLASH: byte := 0x5C
  const SLASH: byte := 0x2F

  // ---- Escaping ----

  function HexDigit(n: nat): byte
    requires n < 16
  {
    if n < 10 then '0' as int + n else 'a' as int + n - 10
  }

  function EscapeByte(c: byte, slashes: bool): (r: bytes)
    ensures r != [] && r[0] != QUOTE && r[0] != 0
  {
    if c == QUOTE then [BACKSLASH, QUOTE]
    else if c == BACKSLASH then [BACKSLASH, BACKSLASH]
    else if c == 0x08 then [BACKSLASH, 'b' as int]
    else if c == 0x0C then [BACKSLASH, 'f' as int]
    else if c == 0x0A then [BACKSLASH, 'n' as int]
    else if c == 0x0D then [BACKSLASH, 'r' as int]
    else if c == 0x09 then [BACKSLASH, 't' as int]
    else if c < 0x20 then [BACKSLASH, 'u' as int, '0' as int, '0' as int, HexDigit(c / 16), HexDigit(c % 16)]
    else if c == SLASH && slashes then [BACKSLASH, SLASH]
    else [c]
  }

  function Escaped(s: bytes, slashes: bool): bytes {
    if s == [] then [] else EscapeByte(s[0], slashes) + Escaped(s[1..], slashes)
  }

  function Quoted(s: bytes, slashes: bool): bytes {
    [QUOTE] + Escaped(s, slashes) + [QUOTE]
  }

  // ---- The closing quote ----

  function Plus(n: nat, ix: int): int {
    if ix < 0 then -1 else n + ix
  }

  /** How many characters lie between an opening quote and its closing quote, or -1; `t` starts behind the former. */
  function ToClosingQuote(t: bytes): (n: int)
    ensures n == -1 || (0 <= n < |t| && t[n] == QUOTE)
  {
    if Peek(t) == QUOTE then 0
    else if Peek(t) == 0 then -1
    else if t[0] == BACKSLASH then
      if Peek(t[1..]) == 0 then -1 else Plus(2, ToClosingQuote(t[2..]))
    else Plus(1, ToClosingQuote(t[1..]))
  }

  /** Where the literal entered before `pos` is closed, as an index into `s`; -1 if it never is. */
  function ClosingIx(s: bytes, pos: nat): (ix: int)
    requires pos <= |s|
    ensures ix == -1 || (pos <= ix < |s| && s[ix] == QUOTE)
  {
    Plus(pos, ToClosingQuote(s[pos..]))
  }

  lemma NextToClosingQuote(s: bytes, pos: nat)
    requires pos <= |s|
    ensures ClosingIx(s, pos)
         == if At(s, pos) == QUOTE then pos
            else if At(s, pos) == 0 then -1
            else if At(s, pos) == BACKSLASH then
              if At(s, pos + 1) == 0 then -1 else ClosingIx(s, pos + 2)
            else ClosingIx(s, pos + 1)
  {
    SuffixOfSuffix(s, pos, 1);
    SuffixOfSuffix(s, pos, 2);
  }

  /** Moves a cursor from an opening quote behind its closing quote. */
  method SkipQuotes(s: bytes, start: nat) returns (ok: bool, pos: nat)
    requires start <= |s|
    ensures ok == (At(s, start) == QUOTE && ClosingIx(s, start + 1) >= 0)
    ensures ok ==> pos == ClosingIx(s, start + 1) + 1
  {
    pos := start;
    if At(s, pos) != QUOTE {
      return false, pos;
    }
    pos := pos + 1;
    ghost var ix := ClosingIx(s, pos);
    while At(s, pos) != QUOTE
      invariant start + 1 <= pos <= |s|
      invariant ix == ClosingIx(s, pos)
      decreases |s| - pos
    {
      NextToClosingQuote(s, pos);
      if At(s, pos) == 0 {
        return false, pos;
      } else if At(s, pos) == BACKSLASH {
        pos := pos + 1;
        if At(s, pos) == 0 {
          return false, pos;
        }
      }
      pos := pos + 1;
    }
    NextToClosingQuote(s, pos);
    return true, pos + 1;
  }

  // ---- Unescaping ----

  function HexValue(c: byte): int {
    if '0' as int <= c <= '9' as int then c - '0' as int
    else if 'a' as int <= c <= 'f' as int then c - 'a' as int + 10
    else if 'A' as int <= c <= 'F' as int then c - 'A' as int + 10
    else -1
  }

  /** Four hex digits in front of `t`. */
  function Hex4(t: bytes): (r: Option<nat>)
    ensures r.Some? ==> |t| >= 4 && r.value < 0x1_0000 && forall i :: 0 <= i < 4 ==> HexValue(t[i]) >= 0
  {
    if |t| < 4 then None
    else
      var x1, x2, x3, x4 := HexValue(t[0]), HexValue(t[1]), HexValue(t[2]), HexValue(t[3]);
      if x1 == -1 || x2 == -1 || x3 == -1 || x4 == -1 then None
      else Some(x1 * 0x1000 + x2 * 0x100 + x3 * 0x10 + x4)
  }

  datatype Escape = Escape(cp: nat, consumed: nat)

  /** A \u escape or surrogate pair; `t` starts behind the `u`. */
  function UnicodeEscape(t: bytes): (r: Option<Escape>)
    ensures r.Some? ==> r.value.consumed in {4, 10} && r.value.consumed <= |t| && Scalar(r.value.cp)
    ensures r.Some? ==> |Encode(r.value.cp)| < r.value.consumed
  {
    match Hex4(t)
    case None => None
    case Some(cp) =>
      if cp < 0xD800 || cp > 0xDFFF then Some(Escape(cp, 4))
      else if cp <= 0xDBFF then
        if Peek(t[4..]) == BACKSLASH && Peek(t[5..]) == 'u' as int then
          match Hex4(t[6..])
          case None => None
          case Some(trail) =>
            if 0xDC00 <= trail <= 0xDFFF then
              Some(Escape((cp - 0xD800) % 0x400 * 0x400 + (trail - 0xDC00) % 0x400 + 0x10000, 10))
            else None
        else None
      else None
  }

  // ---- What a Unicode escape spells ----

  /** The UTF-16 units of a code point: itself, or a surrogate pair. */
  function Utf16(cp: nat): seq<nat> {
    if cp < 0x1_0000 then [cp] else [0xD800 + (cp - 0x1_0000) / 0x400, 0xDC00 + (cp - 0x1_0000) % 0x400]
  }

  /** A hexadecimal digit of value `d`. */
  predicate HexChar(c: byte, d: nat) {
    d < 16 && (c == "0123456789abcdef"[d] as int || c == "0123456789ABCDEF"[d] as int)
  }

  /** `t` starts with the four digits of `u`, most significant first. */
  predicate SpellsUnit(t: bytes, u: nat) {
    && |t| >= 4 && u < 0x1_0000
    && HexChar(t[0], u / 4096) && HexChar(t[1], u / 256 % 16) && HexChar(t[2], u / 16 % 16) && HexChar(t[3], u % 16)
  }

  lemma HexValueIs(c: byte, d: nat)
    ensures HexChar(c, d) <==> d < 16 && HexValue(c) == d
  {
  }

  lemma DigitsOf(d0: nat, d1: nat, d2: nat, d3: nat, u: nat)
    requires d0 < 16 && d1 < 16 && d2 < 16 && d3 < 16
    ensures u == 4096 * d0 + 256 * d1 + 16 * d2 + d3 <==>
            u < 0x1_0000 && u / 4096 == d0 && u / 256 % 16 == d1 && u / 16 % 16 == d2 && u % 16 == d3
  {
    var a, b, c := u / 16, u / 256, u / 4096;
    assert a == 16 * b + a % 16 && b == 16 * c + b % 16 && u == 16 * a + u % 16;
  }

  /** The escape reads exactly the number its four digits spell. */
  lemma Hex4IffSpelled(t: bytes, u: nat)
    ensures Hex4(t) == Some(u) <==> SpellsUnit(t, u)
  {
    if |t| >= 4 {
      HexValueIs(t[0], u / 4096);
      HexValueIs(t[1], u / 256 % 16);
      HexValueIs(t[2], u / 16 % 16);
      HexValueIs(t[3], u % 16);
      var x0, x1, x2, x3 := HexValue(t[0]), HexValue(t[1]), HexValue(t[2]), HexValue(t[3]);
      if x0 >= 0 && x1 >= 0 && x2 >= 0 && x3 >= 0 {
        DigitsOf(x0, x1, x2, x3, u);
      }
    }
  }

  /** It fails exactly when one of the four is missing or no such digit. */
  lemma Hex4FailsIff(t: bytes)
    ensures Hex4(t) == None <==> |t| < 4 || exists i :: 0 <= i < 4 && forall d :: !HexChar(t[i], d)
  {
    if |t| >= 4 {
      forall i | 0 <= i < 4 ensures HexValue(t[i]) == -1 <==> forall d :: !HexChar(t[i], d) {
        HexIsDigit(t[i]);
      }
      assert HexValue(t[0]) == -1 || HexValue(t[1]) == -1 || HexValue(t[2]) == -1 || HexValue(t[3]) == -1 <==> Hex4(t) == None;
    }
  }

  lemma HexIsDigit(c: byte)
    ensures HexValue(c) == -1 <==> forall d :: !HexChar(c, d)
  {
    forall d: nat ensures HexChar(c, d) <==> d < 16 && HexValue(c) == d {
      HexValueIs(c, d);
    }
    if HexValue(c) != -1 {
      assert HexChar(c, HexValue(c));
    }
  }

  /** `t` starts with the units of `cp` in hexadecimal, taking `n` characters with the second unit's `\u`. */
  predicate Spells(t: bytes, cp: nat, n: nat) {
    if cp < 0x1_0000 then n == 4 && SpellsUnit(t, cp)
    else n == 10 && |t| >= 10 && t[4] == '\\' as int && t[5] == 'u' as int &&
         SpellsUnit(t, Utf16(cp)[0]) && SpellsUnit(t[6..], Utf16(cp)[1])
  }

  lemma PairUndone(lead: nat, trail: nat, cp: nat)
    requires 0x1_0000 <= cp <= 0x10FFFF
    requires 0xD800 <= lead <= 0xDBFF && 0xDC00 <= trail <= 0xDFFF
    ensures (lead - 0xD800) % 0x400 * 0x400 + (trail - 0xDC00) % 0x400 + 0x10000 == cp <==> Utf16(cp) == [lead, trail]
  {
    var high, low := (cp - 0x1_0000) / 0x400, (cp - 0x1_0000) % 0x400;
    assert cp == high * 0x400 + low + 0x1_0000;
    assert (lead - 0xD800) % 0x400 == lead - 0xD800 && (trail - 0xDC00) % 0x400 == trail - 0xDC00;
  }

  lemma PairRange(cp: nat)
    requires 0x1_0000 <= cp <= 0x10FFFF
    ensures 0xD800 <= Utf16(cp)[0] <= 0xDBFF && 0xDC00 <= Utf16(cp)[1] <= 0xDFFF
  {
  }

  /** An escape is accepted exactly when it spells a scalar value: a lone or swapped surrogate never is. */
  lemma EscapeIffSpelled(t: bytes, cp: nat, n: nat)
    ensures UnicodeEscape(t) == Some(Escape(cp, n)) <==> Scalar(cp) && Spells(t, cp, n)
  {
    Hex4IffSpelled(t, Utf16(cp)[0]);
    if cp >= 0x1_0000 && |t| >= 10 {
      Hex4IffSpelled(t[6..], Utf16(cp)[1]);
    }
    if Scalar(cp) && Hex4(t).Some? {
      var lead := Hex4(t).value;
      if cp >= 0x1_0000 {
        PairRange(cp);
        if n == 10 && |t| >= 10 && 0xD800 <= lead <= 0xDBFF && Hex4(t[6..]).Some? && 0xDC00 <= Hex4(t[6..]).value <= 0xDFFF {
          PairUndone(lead, Hex4(t[6..]).value, cp);
        }
      }
    }
  }

  /** What an escape stands for is written as UTF-8 that the checker passes and that stands for the same. */
  lemma EscapeBecomesUtf8(t: bytes)
    requires UnicodeEscape(t).Some?
    ensures var cp := UnicodeEscape(t).value.cp;
            VerifySequence(Encode(cp)) == Some(|Encode(cp)|) && Decode(Encode(cp)) == cp
  {
    EncodeIsChecked(UnicodeEscape(t).value.cp);
  }

  function Prepend(front: bytes, rest: Option<bytes>): Option<bytes> {
    match rest
    case None => None
    case Some(s) => Some(front + s)
  }

  /** The byte a one-letter escape stands for. */
  function ShortEscape(c: byte): Option<byte> {
    if c == QUOTE || c == BACKSLASH || c == SLASH then Some(c)
    else if c == 'b' as int then Some(0x08)
    else if c == 'f' as int then Some(0x0C)
    else if c == 'n' as int then Some(0x0A)
    else if c == 'r' as int then Some(0x0D)
    else if c == 't' as int then Some(0x09)
    else None
  }

  /** The characters a string literal's inside stands for, if it is a valid one. */
  function Unescape(t: bytes): Option<bytes> {
    if Peek(t) == 0 then Some([])
    else if t[0] == BACKSLASH then
      if Peek(t[1..]) == 'u' as int then
        match UnicodeEscape(t[2..])
        case None => None
        case Some(e) => Prepend(Encode(e.cp), Unescape(t[2 + e.consumed..]))
      else if |t| >= 2 && ShortEscape(t[1]).Some? then Prepend([ShortEscape(t[1]).value], Unescape(t[2..]))
      else None
    else if t[0] < 0x20 then None
    else Prepend([t[0]], Unescape(t[1..]))
  }

  // ---- What is read, piece by piece ----

  /** A character or escape sequence, and what it stands for (RFC 8259, section 7). */
  ghost predicate Piece(p: bytes, meaning: bytes) {
    || (|p| == 1 && p[0] >= 0x20 && p[0] != '\\' as int && meaning == p)
    || (|p| == 2 && p[0] == '\\' as int && p[1] in {'"' as int, '\\' as int, '/' as int} && meaning == [p[1]])
    || (p == Ascii("\\b") && meaning == [0x08])
    || (p == Ascii("\\f") && meaning == [0x0C])
    || (p == Ascii("\\n") && meaning == [0x0A])
    || (p == Ascii("\\r") && meaning == [0x0D])
    || (p == Ascii("\\t") && meaning == [0x09])
    || (|p| in {6, 12} && p[0] == '\\' as int && p[1] == 'u' as int &&
        exists cp :: Scalar(cp) && Spells(p[2..], cp, |p| - 2) && meaning == Encode(cp))
  }

  lemma SpellsPrefix(t: bytes, cp: nat, n: nat)
    requires Spells(t, cp, n)
    ensures n <= |t| && Spells(t[..n], cp, n)
    ensures forall rest :: Spells(t[..n] + rest, cp, n)
  {
    if n == 10 {
      assert t[..n][6..] == t[6..n];
      forall rest ensures Spells(t[..n] + rest, cp, n) {
        assert (t[..n] + rest)[6..] == t[6..n] + rest;
      }
    }
  }

  /** Every piece in front is read as what it stands for. */
  lemma PieceIsRead(p: bytes, meaning: bytes, rest: bytes)
    requires Piece(p, meaning)
    ensures Unescape(p + rest) == Prepend(meaning, Unescape(rest))
  {
    var t := p + rest;
    assert t[|p|..] == rest;
    if |p| == 1 {
      assert p == [t[0]];
    } else if |p| == 2 {
      assert t[0] == BACKSLASH && t[1..][0] == p[1];
    } else {
      var cp :| Scalar(cp) && Spells(p[2..], cp, |p| - 2) && meaning == Encode(cp);
      UnicodePieceIsRead(p, cp, rest);
    }
  }

  lemma UnicodePieceIsRead(p: bytes, cp: nat, rest: bytes)
    requires |p| in {6, 12} && p[0] == '\\' as int && p[1] == 'u' as int && Scalar(cp) && Spells(p[2..], cp, |p| - 2)
    ensures Unescape(p + rest) == Prepend(Encode(cp), Unescape(rest))
  {
    var t := p + rest;
    assert t[|p|..] == rest;
    assert UnicodeEscape(t[2..]) == Some(Escape(cp, |p| - 2)) by {
      assert t[2..] == p[2..] + rest;
      SpellsPrefix(p[2..], cp, |p| - 2);
      assert p[2..][..|p| - 2] == p[2..];
      EscapeIffSpelled(t[2..], cp, |p| - 2);
    }
    UnicodeStep(t, cp, |p| - 2);
  }

  lemma UnicodeStep(t: bytes, cp: nat, n: nat)
    requires |t| >= 2 + n && t[0] == '\\' as int && t[1] == 'u' as int && UnicodeEscape(t[2..]) == Some(Escape(cp, n))
    ensures Unescape(t) == Prepend(Encode(cp), Unescape(t[2 + n..]))
  {
  }

  /** And nothing else is read: text that is no end of string and accepted starts with a piece. */
  lemma OnlyPiecesAreRead(t: bytes) returns (p: bytes, meaning: bytes)
    requires t != [] && t[0] != 0 && Unescape(t).Some?
    ensures Piece(p, meaning) && p <= t
  {
    if t[0] != BACKSLASH {
      p, meaning := t[..1], t[..1];
    } else {
      assert |t| >= 2 && t[1..][0] == t[1];
      if t[1] == 'u' as int {
        p, meaning := UnicodeInFront(t);
      } else {
        p, meaning := t[..2], [ShortEscape(t[1]).value];
        assert p == [t[0], t[1]];
      }
    }
  }

  lemma UnicodeInFront(t: bytes) returns (p: bytes, meaning: bytes)
    requires |t| >= 2 && t[0] == '\\' as int && t[1] == 'u' as int && UnicodeEscape(t[2..]).Some?
    ensures Piece(p, meaning) && p <= t
  {
    var e := UnicodeEscape(t[2..]).value;
    EscapeIffSpelled(t[2..], e.cp, e.consumed);
    p, meaning := t[..2 + e.consumed], Encode(e.cp);
    assert Spells(p[2..], e.cp, e.consumed) by {
      SpellsPrefix(t[2..], e.cp, e.consumed);
      assert p[2..] == t[2..][..e.consumed];
    }
  }

  /** The escaper writes two characters where there is a short escape, `\u00..` for other control characters, else one. */
  lemma EscapesAre(c: byte, slashes: bool)
    ensures var e := EscapeByte(c, slashes);
            && Piece(e, [c])
            && |e| == (if c in {0x22, 0x5C, 0x08, 0x0C, 0x0A, 0x0D, 0x09} || (c == '/' as int && slashes) then 2
                       else if c < 0x20 then 6 else 1)
  {
    var e := EscapeByte(c, slashes);
    if |e| == 6 {
      assert e[2..] == ['0' as int, '0' as int, HexDigit(c / 16), HexDigit(c % 16)];
      assert SpellsUnit(e[2..], c);
      assert Scalar(c) && Spells(e[2..], c, 4) && [c] == Encode(c);
    }
  }

  // ---- Laws ----

  lemma EscapedByteUnescapes(c: byte, slashes: bool, rest: bytes)
    ensures Unescape(EscapeByte(c, slashes) + rest) == Prepend([c], Unescape(rest))
  {
    var e := EscapeByte(c, slashes);
    var t := e + rest;
    assert t[|e|..] == rest;
    if |e| == 6 {
      assert Hex4(t[2..]) == Some(c);
      assert t[2..][4..] == rest && t[2 + 4..] == rest;
    } else if |e| == 2 {
      assert t[1..][0] == e[1];
    }
  }

  /** Unescaping undoes escaping, for every byte string. */
  lemma {:induction false} UnescapeEscaped(s: bytes, slashes: bool)
    ensures Unescape(Escaped(s, slashes)) == Some(s)
  {
    if s != [] {
      UnescapeEscaped(s[1..], slashes);
      EscapedByteUnescapes(s[0], slashes, Escaped(s[1..], slashes));
      assert [s[0]] + s[1..] == s;
    }
  }

  lemma {:induction false} PlainCharactersAreSkipped(p: bytes, rest: bytes)
    requires forall i :: 0 <= i < |p| ==> p[i] !in {0, QUOTE, BACKSLASH}
    ensures ToClosingQuote(p + rest) == Plus(|p|, ToClosingQuote(rest))
  {
    if p == [] {
      assert p + rest == rest;
    } else {
      PlainCharactersAreSkipped(p[1..], rest);
      assert (p + rest)[1..] == p[1..] + rest;
    }
  }

  predicate SkipsWhole(e: bytes) {
    || (|e| == 1 && e[0] !in {0, QUOTE, BACKSLASH})
    || (|e| == 2 && e[0] == BACKSLASH && e[1] != 0)
    || (|e| == 6 && e[0] == BACKSLASH && e[1] == 'u' as int && forall i :: 2 <= i < 6 ==> e[i] !in {0, QUOTE, BACKSLASH})
  }

  lemma WholeIsSkipped(e: bytes, rest: bytes)
    requires SkipsWhole(e)
    ensures ToClosingQuote(e + rest) == Plus(|e|, ToClosingQuote(rest))
  {
    var t := e + rest;
    if |e| == 6 {
      assert t[0] == BACKSLASH && Peek(t[1..]) == 'u' as int && t[2..] == e[2..] + rest;
      assert ToClosingQuote(t[2..]) == Plus(4, ToClosingQuote(rest)) by {
        PlainCharactersAreSkipped(e[2..], rest);
      }
    } else if |e| == 2 {
      assert t[1..][0] == e[1] && t[2..] == rest;
    } else {
      assert t[1..] == rest;
    }
  }

  lemma EscapedByteIsSkipped(c: byte, slashes: bool, rest: bytes)
    ensures ToClosingQuote(EscapeByte(c, slashes) + rest) == Plus(|EscapeByte(c, slashes)|, ToClosingQuote(rest))
  {
    assert SkipsWhole(EscapeByte(c, slashes));
    WholeIsSkipped(EscapeByte(c, slashes), rest);
  }

  /** Escaped text is passed over as a whole: a quote written behind it is the closing one. */
  lemma {:induction false} EscapedIsSkipped(s: bytes, slashes: bool, rest: bytes)
    ensures ToClosingQuote(Escaped(s, slashes) + rest) == Plus(|Escaped(s, slashes)|, ToClosingQuote(rest))
  {
    if s == [] {
      assert [] + rest == rest;
    } else {
      var e, tail := EscapeByte(s[0], slashes), Escaped(s[1..], slashes);
      EscapedIsSkipped(s[1..], slashes, rest);
      EscapedByteIsSkipped(s[0], slashes, tail + rest);
      assert e + tail + rest == e + (tail + rest);
    }
  }

  /** Unescaping never lengthens a string. */
  lemma {:induction false} UnescapeShrinks(t: bytes)
    ensures Unescape(t).Some? ==> |Unescape(t).value| <= |t|
    decreases |t|
  {
    if Peek(t) != 0 {
      if t[0] != BACKSLASH {
        UnescapeShrinks(t[1..]);
      } else if Peek(t[1..]) != 'u' as int {
        if |t| >= 2 { UnescapeShrinks(t[2..]); }
      } else if UnicodeEscape(t[2..]).Some? {
        UnescapeShrinks(t[2 + UnicodeEscape(t[2..]).value.consumed..]);
      }
    }
  }

  // ---- The in-place unescaper ----

  predicate Closed(input: bytes, i: nat, len: nat)
  {
    i <= len < |input| && ClosingIx(input, i) == len
  }

  /** Plain characters do not hold the closing quote. */
  lemma ClosedBehindPlain(input: bytes, i: nat, n: nat, len: nat)
    requires Closed(input, i, len) && i + n <= |input|
    requires forall k :: i <= k < i + n ==> input[k] !in {0, QUOTE, BACKSLASH}
    ensures Closed(input, i + n, len)
  {
    assert input[i..] == input[i..i + n] + input[i + n..];
    PlainCharactersAreSkipped(input[i..i + n], input[i + n..]);
  }

  lemma HexDigitIsPlain(c: byte)
    requires HexValue(c) >= 0
    ensures c !in {0, QUOTE, BACKSLASH}
  {
  }

  lemma ClosedBehindHex4(input: bytes, i: nat, len: nat)
    requires Closed(input, i, len) && Hex4(input[i..]).Some?
    ensures Closed(input, i + 4, len) && Hex4(input[..len][i..]) == Hex4(input[i..])
  {
    forall k | i <= k < i + 4 ensures input[k] !in {0, QUOTE, BACKSLASH} {
      HexDigitIsPlain(input[i..][k - i]);
    }
    ClosedBehindPlain(input, i, 4, len);
    assert input[..len][i..][..4] == input[i..][..4];
  }

  lemma Hex4StaysInside(input: bytes, i: nat, len: nat)
    requires Closed(input, i, len)
    ensures Hex4(input[..len][i..]) == Hex4(input[i..])
    ensures Hex4(input[i..]).Some? ==> Closed(input, i + 4, len)
  {
    if Hex4(input[i..]).Some? {
      ClosedBehindHex4(input, i, len);
    } else {
      assert i + 4 <= len ==> input[..len][i..][..4] == input[i..][..4];
    }
  }

  /** So do the characters between the halves of a surrogate pair. */
  lemma PairStaysInside(input: bytes, i: nat, len: nat)
    requires Closed(input, i, len)
    ensures At(input, i) == BACKSLASH <==> i < len && input[i] == BACKSLASH
    ensures At(input, i) == BACKSLASH ==> i + 1 < len && Closed(input, i + 2, len)
  {
    NextToClosingQuote(input, i);
  }

  lemma SecondUnitStaysInside(input: bytes, i: nat, len: nat, t: bytes, u: bytes)
    requires i + 4 <= len && Closed(input, i + 4, len) && t == input[i..] && u == input[..len][i..]
    ensures |t| >= 4 && |u| >= 4 && (Peek(t[4..]) == BACKSLASH <==> Peek(u[4..]) == BACKSLASH)
    ensures Peek(t[4..]) == BACKSLASH ==>
      && |t| >= 6 && |u| >= 6 && Peek(t[5..]) == Peek(u[5..]) && Hex4(t[6..]) == Hex4(u[6..])
      && (Hex4(t[6..]).Some? ==> Closed(input, i + 10, len))
  {
    PairStaysInside(input, i + 4, len);
    assert Peek(t[4..]) == At(input, i + 4) by { SuffixOfSuffix(input, i, 4); }
    assert Peek(u[4..]) == (if i + 4 < len then input[i + 4] else 0) by { SuffixOfSuffix(input[..len], i, 4); }
    if Peek(t[4..]) == BACKSLASH {
      assert input[i + 6..] == t[6..] && input[..len][i + 6..] == u[6..];
      Hex4StaysInside(input, i + 6, len);
    }
  }

  /** A \u escape is decided by the characters in front of the closing quote. */
  lemma EscapeStaysInside(input: bytes, i: nat, len: nat)
    requires Closed(input, i, len)
    ensures UnicodeEscape(input[..len][i..]) == UnicodeEscape(input[i..])
    ensures UnicodeEscape(input[i..]).Some? ==> Closed(input, i + UnicodeEscape(input[i..]).value.consumed, len)
  {
    var t, u := input[i..], input[..len][i..];
    Hex4StaysInside(input, i, len);
    if Hex4(t).Some? {
      SecondUnitStaysInside(input, i, len, t, u);
      EscapeDependsOn(t, u);
    }
  }

  lemma EscapeDependsOn(t: bytes, u: bytes)
    requires Hex4(t).Some? && Hex4(t) == Hex4(u) && (Peek(t[4..]) == BACKSLASH <==> Peek(u[4..]) == BACKSLASH)
    requires Peek(t[4..]) == BACKSLASH ==> |t| >= 6 && |u| >= 6 && Peek(t[5..]) == Peek(u[5..]) && Hex4(t[6..]) == Hex4(u[6..])
    ensures UnicodeEscape(t) == UnicodeEscape(u)
    ensures UnicodeEscape(t).Some? && UnicodeEscape(t).value.consumed == 10 ==> Peek(t[4..]) == BACKSLASH && Hex4(t[6..]).Some?
  {
  }

  /** Copies a \u escape's encoding into `output` at `o`; `i` is the index of the `u`. Both cursors end on the last character. */
  method ParseUtf16(input: bytes, i: nat, output: array<byte>, o: nat) returns (ok: bool, i': nat, o': nat)
    requires i < |input| && o <= output.Length
    requires var e := UnicodeEscape(input[i + 1..]); e.Some? ==> o + |Encode(e.value.cp)| <= output.Length
    modifies output
    ensures ok == UnicodeEscape(input[i + 1..]).Some?
    ensures ok ==> var e := UnicodeEscape(input[i + 1..]).value;
                   && i' == i + e.consumed && o' == o + |Encode(e.cp)| - 1
                   && output[..o' + 1] == old(output[..o]) + Encode(e.cp)
  {
    i', o' := i, o;
    var e := UnicodeEscape(input[i + 1..]);
    if e.None? {
      return false, i', o';
    }
    var cp: nat := e.value.cp;
    if cp < 0x80 {
      output[o] := cp;
    } else if cp < 0x800 {
      output[o] := 0xC0 + cp / 64 % 32;
      output[o + 1] := Cont(cp);
      o' := o + 1;
    } else if cp < 0x10000 {
      output[o] := 0xE0 + cp / 64 / 64 % 16;
      output[o + 1] := Cont(cp / 64);
      output[o + 2] := Cont(cp);
      o' := o + 2;
    } else {
      output[o] := 0xF0 + cp / 64 / 64 / 64 % 8;
      output[o + 1] := Cont(cp / 64 / 64);
      output[o + 2] := Cont(cp / 64);
      output[o + 3] := Cont(cp);
      o' := o + 3;
    }
    return true, i + e.value.consumed, o';
  }

  lemma PrependPrepend(a: bytes, b: bytes, r: Option<bytes>)
    ensures Prepend(a, Prepend(b, r)) == Prepend(a + b, r)
  {
    if r.Some? {
      assert a + (b + r.value) == a + b + r.value;
    }
  }

  lemma PrependNothing(r: Option<bytes>)
    ensures Prepend([], r) == r
  {
    if r.Some? {
      assert [] + r.value == r.value;
    }
  }

  /** What is left to unescape at `i`, and how many bytes the next step writes and reads. */
  lemma NextUnescape(t: bytes, i: nat)
    requires i < |t| && t[i] != 0
    ensures Unescape(t[i..])
         == if t[i] == BACKSLASH then
              if i + 1 < |t| && t[i + 1] == 'u' as int then
                match UnicodeEscape(t[i + 2..])
                case None => None
                case Some(e) => Prepend(Encode(e.cp), Unescape(t[i + 2 + e.consumed..]))
              else if i + 1 < |t| && ShortEscape(t[i + 1]).Some? then
                Prepend([ShortEscape(t[i + 1]).value], Unescape(t[i + 2..]))
              else None
            else if t[i] < 0x20 then None
            else Prepend([t[i]], Unescape(t[i + 1..]))
  {
    SuffixOfSuffix(t, i, 1);
    SuffixOfSuffix(t, i, 2);
    if i + 2 <= |t| && UnicodeEscape(t[i + 2..]).Some? {
      SuffixOfSuffix(t, i, 2 + UnicodeEscape(t[i + 2..]).value.consumed);
    }
  }

  lemma UnicodeEscapeStep(input: bytes, i: nat, len: nat)
    requires i < len && Closed(input, i, len) && input[i] == BACKSLASH && At(input, i + 1) == 'u' as int
    ensures match UnicodeEscape(input[i + 2..])
            case None => Unescape(input[..len][i..]) == None
            case Some(e) =>
              && Closed(input, i + 2 + e.consumed, len)
              && Unescape(input[..len][i..]) == Prepend(Encode(e.cp), Unescape(input[..len][i + 2 + e.consumed..]))
  {
    NextUnescape(input[..len], i);
    NextToClosingQuote(input, i);
    EscapeStaysInside(input, i + 2, len);
  }

  lemma ShortEscapeStep(input: bytes, i: nat, len: nat)
    requires i < len && Closed(input, i, len) && input[i] == BACKSLASH && At(input, i + 1) != 'u' as int
    ensures match ShortEscape(At(input, i + 1))
            case None => Unescape(input[..len][i..]) == None
            case Some(c) =>
              && Closed(input, i + 2, len)
              && Unescape(input[..len][i..]) == Prepend([c], Unescape(input[..len][i + 2..]))
  {
    NextUnescape(input[..len], i);
    NextToClosingQuote(input, i);
  }

  method ProcessUnicode(input: bytes, i: nat, len: nat, output: array<byte>, o: nat) returns (ok: bool, i': nat, o': nat)
    requires o <= i < len && Closed(input, i, len) && input[i] == BACKSLASH && At(input, i + 1) == 'u' as int
    requires output.Length == len + 1
    modifies output
    ensures !ok ==> Unescape(input[..len][i..]) == None
    ensures ok ==> o < o' <= i' && Closed(input, i', len) && i < i' && output[..o] == old(output[..o])
    ensures ok ==> Unescape(input[..len][i..]) == Prepend(output[o..o'], Unescape(input[..len][i'..]))
  {
    UnicodeEscapeStep(input, i, len);
    ghost var before, e := output[..o], UnicodeEscape(input[i + 2..]);
    ok, i', o' := ParseUtf16(input, i + 1, output, o);
    if !ok {
      return;
    }
    ghost var text := output[..o' + 1];
    assert text == before + Encode(e.value.cp);
    assert output[o..o' + 1] == text[o..] == Encode(e.value.cp);
    assert output[..o] == text[..o] == before;
    i', o' := i' + 1, o' + 1;
  }

  /** The escape sequence at `i`, a backslash: what it stands for goes to `output` at `o`. */
  method ProcessEscape(input: bytes, i: nat, len: nat, output: array<byte>, o: nat) returns (ok: bool, i': nat, o': nat)
    requires o <= i < len && Closed(input, i, len) && input[i] == BACKSLASH
    requires output.Length == len + 1
    modifies output
    ensures !ok ==> Unescape(input[..len][i..]) == None
    ensures ok ==> o < o' <= i' && Closed(input, i', len) && i < i' && output[..o] == old(output[..o])
    ensures ok ==> Unescape(input[..len][i..]) == Prepend(output[o..o'], Unescape(input[..len][i'..]))
  {
    NextToClosingQuote(input, i);
    i', o' := i + 1, o;
    if At(input, i') == 'u' as int {
      ok, i', o' := ProcessUnicode(input, i, len, output, o);
      return;
    }
    ShortEscapeStep(input, i, len);
    var c := ShortEscape(At(input, i'));
    if c.None? {
      return false, i', o';
    }
    output[o] := c.value;
    assert output[o..o + 1] == [c.value];
    return true, i' + 1, o' + 1;
  }

  /**
    Unescapes the inside of a literal whose closing quote is at `len`, in a buffer of `len + 1` bytes that is never
    overrun.
  */
  method ProcessString(input: bytes, len: nat) returns (r: Option<bytes>)
    requires Closed(input, 0, len)
    ensures r == Unescape(input[..len])
  {
    var output := new byte[len + 1];
    ghost var t := input[..len];
    ghost var whole := Unescape(t);
    var i, o := 0, 0;
    PrependNothing(whole);
    assert t[0..] == t && output[..0] == [];
    while At(input, i) != 0 && i < len
      invariant o <= i && Closed(input, i, len)
      invariant whole == Prepend(output[..o], Unescape(t[i..]))
      decreases len - i
    {
      ghost var done, o0 := output[..o], o;
      NextUnescape(t, i);
      assert input[i] != BACKSLASH ==> Closed(input, i + 1, len) by { NextToClosingQuote(input, i); }
      if input[i] == BACKSLASH {
        var ok;
        ok, i, o := ProcessEscape(input, i, len, output, o);
        if !ok {
          return None;
        }
      } else if input[i] < 0x20 {
        return None;
      } else {
        output[o] := input[i];
        i, o := i + 1, o + 1;
        assert output[o0..o] == [input[i - 1]];
      }
      assert output[..o] == done + output[o0..o] by { assert output[..o0] == done; }
      assert whole == Prepend(output[..o], Unescape(t[i..])) by { PrependPrepend(done, output[o0..o], Unescape(t[i..])); }
    }
    NextToClosingQuote(input, i);
    assert t[i..] == [] && output[..o] + [] == output[..o];
    r := Some(output[..o]);
    output[o] := 0;
  }
}
