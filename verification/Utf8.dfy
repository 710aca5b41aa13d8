/** The UTF-8 checker and encoder of the JSON library, against section 4 of RFC 3629. */
module Utf8 {
  import opened CStrings

  /** `IS_CONT`: the two high bits are 10. */
  predicate IsCont(c: byte) {
    c / 64 == 2
  }

  /** The length a lead byte announces; 0 for a byte that cannot lead. */
  function NumBytes(c: byte): nat {
    if c == 0xC0 || c == 0xC1 || c > 0xF4 || IsCont(c) then 0
    else if c < 0x80 then 1
    else if c / 32 == 6 then 2
    else if c / 16 == 14 then 3
    else if c / 8 == 30 then 4
    else 0
  }

  /** `(cp << 6) | (c & 0x3F)` */
  function Shift6(cp: nat, c: byte): nat {
    cp * 64 + c % 64
  }

  /** The source's check of the sequence at the front of `s`: its length, or nothing. */
  function VerifySequence(s: bytes): Option<nat>
    requires s != []
  {
    var len := NumBytes(s[0]);
    if len == 1 then Accept(s[0], 1)
    else if len == 2 && IsCont(Peek(s[1..])) then
      Accept(Shift6(s[0] % 32, s[1]), 2)
    else if len == 3 && IsCont(Peek(s[1..])) && IsCont(Peek(s[2..])) then
      Accept(Shift6(Shift6(s[0] % 16, s[1]), s[2]), 3)
    else if len == 4 && IsCont(Peek(s[1..])) && IsCont(Peek(s[2..])) && IsCont(Peek(s[3..])) then
      Accept(Shift6(Shift6(Shift6(s[0] % 8, s[1]), s[2]), s[3]), 4)
    else None
  }

  /** Rejects overlong encodings, code points beyond Unicode and surrogate halves. */
  function Accept(cp: nat, len: nat): Option<nat> {
    if (cp < 0x80 && len > 1) || (cp < 0x800 && len > 2) || (cp < 0x10000 && len > 3) then None
    else if cp > 0x10FFFF then None
    else if 0xD800 <= cp <= 0xDFFF then None
    else Some(len)
  }

  // ---- The grammar of RFC 3629, section 4 ----

  predicate Tail(s: bytes, i: nat, lo: byte, hi: byte) {
    i < |s| && lo <= s[i] <= hi
  }

  /** UTF8-1, UTF8-2, UTF8-3 and UTF8-4: the length of the well-formed sequence in front, or 0. */
  function GrammarLength(s: bytes): (n: nat)
    ensures n <= 4 && n <= |s|
  {
    if Tail(s, 0, 0x00, 0x7F) then 1
    else if Tail(s, 0, 0xC2, 0xDF) && Tail(s, 1, 0x80, 0xBF) then 2
    else if Tail(s, 0, 0xE0, 0xE0) && Tail(s, 1, 0xA0, 0xBF) && Tail(s, 2, 0x80, 0xBF) then 3
    else if Tail(s, 0, 0xE1, 0xEC) && Tail(s, 1, 0x80, 0xBF) && Tail(s, 2, 0x80, 0xBF) then 3
    else if Tail(s, 0, 0xED, 0xED) && Tail(s, 1, 0x80, 0x9F) && Tail(s, 2, 0x80, 0xBF) then 3
    else if Tail(s, 0, 0xEE, 0xEF) && Tail(s, 1, 0x80, 0xBF) && Tail(s, 2, 0x80, 0xBF) then 3
    else if Tail(s, 0, 0xF0, 0xF0) && Tail(s, 1, 0x90, 0xBF) && Tail(s, 2, 0x80, 0xBF) && Tail(s, 3, 0x80, 0xBF) then 4
    else if Tail(s, 0, 0xF1, 0xF3) && Tail(s, 1, 0x80, 0xBF) && Tail(s, 2, 0x80, 0xBF) && Tail(s, 3, 0x80, 0xBF) then 4
    else if Tail(s, 0, 0xF4, 0xF4) && Tail(s, 1, 0x80, 0x8F) && Tail(s, 2, 0x80, 0xBF) && Tail(s, 3, 0x80, 0xBF) then 4
    else 0
  }

  /** UTF8-octets: well-formed sequences one after the other. */
  predicate WellFormed(s: bytes) {
    s == [] || (GrammarLength(s) > 0 && WellFormed(s[GrammarLength(s)..]))
  }

  lemma CheckerMatchesGrammar(s: bytes)
    requires s != []
    ensures VerifySequence(s) == if GrammarLength(s) == 0 then None else Some(GrammarLength(s))
  {
  }

  /** Whole-string check: `len` bytes at the front of memory `s`. The last sequence may run past them. */
  function ValidUpTo(s: bytes, len: nat): bool
    requires len <= |s|
  {
    if len == 0 then true
    else
      match VerifySequence(s)
      case None => false
      case Some(n) =>
        CheckerMatchesGrammar(s);
        if n >= len then true else ValidUpTo(s[n..], len - n)
  }

  method IsValidUtf8(s: bytes, len: nat) returns (valid: bool)
    requires len <= |s|
    ensures valid == ValidUpTo(s, len)
  {
    var i := 0;
    while i < len
      invariant 0 <= i <= |s|
      invariant ValidUpTo(s, len) == if i >= len then true else ValidUpTo(s[i..], len - i)
    {
      CheckerMatchesGrammar(s[i..]);
      match VerifySequence(s[i..])
      case None => return false;
      case Some(n) =>
        assert s[i..][n..] == s[i + n..];
        i := i + n;
    }
    return true;
  }

  predicate AllCont(s: bytes) {
    forall i :: 0 <= i < |s| ==> IsCont(s[i])
  }

  lemma GrammarLengthOfPrefix(s: bytes, n: nat)
    requires n <= |s|
    ensures GrammarLength(s[..n]) == if GrammarLength(s) <= n then GrammarLength(s) else 0
  {
    forall lo, hi, i: nat ensures Tail(s[..n], i, lo, hi) == (i < n && Tail(s, i, lo, hi)) {}
  }

  /** The bytes in range are completed to a well-formed string by `k` continuation bytes right behind them. */
  predicate CompletedBy(s: bytes, len: nat, k: nat) {
    len + k <= |s| && AllCont(s[len..len + k]) && WellFormed(s[..len + k])
  }

  lemma CompletedBehindSequence(s: bytes, len: nat, m: nat, k: nat)
    requires 0 < m < len <= |s| && m == GrammarLength(s)
    ensures CompletedBy(s[m..], len - m, k) <==> CompletedBy(s, len, k)
  {
    if len + k <= |s| {
      GrammarLengthOfPrefix(s, len + k);
      assert |s[..len + k]| == len + k;
      assert s[m..][..len - m + k] == s[..len + k][m..];
      assert s[m..][len - m..len - m + k] == s[len..len + k];
    }
  }

  /** The check accepts exactly the ranges that are well-formed up to continuation bytes directly behind them. */
  lemma {:induction false} ValidIffCompletable(s: bytes, len: nat)
    requires len <= |s|
    ensures ValidUpTo(s, len) <==> exists k :: 0 <= k <= 3 && CompletedBy(s, len, k)
  {
    if len == 0 {
      assert CompletedBy(s, 0, 0);
    } else {
      CheckerMatchesGrammar(s);
      var m := GrammarLength(s);
      if 0 < m < len {
        var rest, n := s[m..], len - m;
        ValidIffCompletable(rest, n);
        forall k: nat | 0 <= k <= 3 ensures CompletedBy(rest, n, k) <==> CompletedBy(s, len, k) {
          CompletedBehindSequence(s, len, m, k);
        }
        if k :| 0 <= k <= 3 && CompletedBy(s, len, k) {
          assert CompletedBy(rest, n, k);
        }
      } else {
        forall k | 0 <= k <= 3 && CompletedBy(s, len, k) ensures m > 0 {
          GrammarLengthOfPrefix(s, len + k);
        }
        if m > 0 {
          GrammarLengthOfPrefix(s, m);
          assert s[..m][m..] == [];
          assert CompletedBy(s, len, m - len);
        }
      }
    }
  }

  lemma NextByteContinues(s: bytes, len: nat, k: nat)
    requires k > 0 && len + k <= |s| && AllCont(s[len..len + k])
    ensures IsCont(Peek(s[len..]))
  {
    assert s[len..len + k][0] == Peek(s[len..]);
  }

  /** Exact on every range that no continuation byte follows: in particular on a whole C string. */
  lemma ValidIffWellFormed(s: bytes, len: nat)
    requires len <= |s|
    requires !IsCont(Peek(s[len..]))
    ensures ValidUpTo(s, len) <==> WellFormed(s[..len])
  {
    ValidIffCompletable(s, len);
    forall k: nat | 0 <= k <= 3 && CompletedBy(s, len, k) ensures k == 0 {
      if k > 0 {
        NextByteContinues(s, len, k);
      }
    }
    assert s[len..len + 0] == [];
    assert CompletedBy(s, len, 0) <==> WellFormed(s[..len]);
  }

  /** It is not exact on a range that cuts a sequence: the first byte of a two-byte sequence passes alone. */
  lemma CutSequencePasses(lead: byte, tail: byte)
    requires 0xC2 <= lead <= 0xDF && IsCont(tail)
    ensures ValidUpTo([lead, tail], 1) && !WellFormed([lead, tail][..1])
  {
    CheckerMatchesGrammar([lead, tail]);
    assert [lead, tail][..1] == [lead];
  }

  // ---- Encoding, as the \u escapes are decoded ----

  predicate Scalar(cp: nat) {
    cp < 0xD800 || 0xDFFF < cp <= 0x10FFFF
  }

  /** `(x & 0x3F) | 0x80` */
  function Cont(x: nat): (c: byte)
    ensures IsCont(c) && c % 64 == x % 64
  {
    0x80 + x % 64
  }

  function Encode(cp: nat): (r: bytes)
    requires cp <= 0x10FFFF
    ensures 1 <= |r| <= 4
  {
    var c1 := cp / 64;
    var c2 := c1 / 64;
    var c3 := c2 / 64;
    if cp < 0x80 then [cp]
    else if cp < 0x800 then [0xC0 + c1 % 32, Cont(cp)]
    else if cp < 0x10000 then [0xE0 + c2 % 16, Cont(c1), Cont(cp)]
    else [0xF0 + c3 % 8, Cont(c2), Cont(c1), Cont(cp)]
  }

  lemma ShiftUndone(p: nat, c: byte)
    ensures Shift6(p, c) / 64 == p
    ensures IsCont(c) ==> Cont(Shift6(p, c)) == c
    ensures Shift6(p / 64, Cont(p)) == p
  {
  }

  /** The code point a well-formed sequence stands for. */
  function Decode(s: bytes): nat
    requires 1 <= |s| <= 4
  {
    if |s| == 1 then s[0]
    else if |s| == 2 then Shift6(s[0] % 32, s[1])
    else if |s| == 3 then Shift6(Shift6(s[0] % 16, s[1]), s[2])
    else Shift6(Shift6(Shift6(s[0] % 8, s[1]), s[2]), s[3])
  }

  /** What a well-formed sequence stands for: the bits behind its markers, six in every continuation byte. */
  lemma DecodeWeighs(s: bytes)
    requires s != [] && GrammarLength(s) == |s|
    ensures |s| == 1 ==> Decode(s) == s[0]
    ensures |s| == 2 ==> Decode(s) == 64 * (s[0] as int - 0xC0) + (s[1] as int - 0x80)
    ensures |s| == 3 ==> Decode(s) == 4096 * (s[0] as int - 0xE0) + 64 * (s[1] as int - 0x80) + (s[2] as int - 0x80)
    ensures |s| == 4 ==>
      Decode(s) == 262144 * (s[0] as int - 0xF0) + 4096 * (s[1] as int - 0x80) + 64 * (s[2] as int - 0x80) + (s[3] as int - 0x80)
  {
    BitsBehindMarker(s[0]);
    if |s| > 1 {
      BitsBehindMarker(s[1]);
    }
    if |s| > 2 {
      BitsBehindMarker(s[2]);
    }
    if |s| > 3 {
      BitsBehindMarker(s[3]);
    }
  }

  lemma BitsBehindMarker(c: byte)
    ensures 0x80 <= c < 0xC0 ==> c % 64 == c as int - 0x80
    ensures 0xC0 <= c < 0xE0 ==> c % 32 == c as int - 0xC0
    ensures 0xE0 <= c < 0xF0 ==> c % 16 == c as int - 0xE0
    ensures 0xF0 <= c < 0xF8 ==> c % 8 == c as int - 0xF0
  {
  }

  /** What is encoded passes the checker as one whole sequence and stands for the same code point. */
  lemma EncodeIsChecked(cp: nat)
    requires Scalar(cp)
    ensures VerifySequence(Encode(cp)) == Some(|Encode(cp)|)
    ensures Decode(Encode(cp)) == cp
    ensures WellFormed(Encode(cp))
  {
    EncodeIsGrammatical(cp);
    DecodeUndoesEncode(cp);
    CheckerMatchesGrammar(Encode(cp));
    assert Encode(cp)[|Encode(cp)|..] == [];
  }

  lemma EncodeIsGrammatical(cp: nat)
    requires Scalar(cp)
    ensures GrammarLength(Encode(cp)) == |Encode(cp)|
  {
    var c1 := cp / 64;
    var c2 := c1 / 64;
    var c3 := c2 / 64;
    LeadBits(c1, c2, c3);
    if cp < 0x800 {
      assert c1 < 32;
    } else if cp < 0x10000 {
      assert 32 <= c1 < 1024 && c2 < 16;
      assert c2 == 0 ==> Cont(c1) >= 0xA0;
      assert c2 == 13 ==> Cont(c1) <= 0x9F;
    } else {
      assert 16 <= c2 < 0x110 && c3 <= 4;
      assert c3 == 0 ==> Cont(c2) >= 0x90;
      assert c3 == 4 ==> Cont(c2) <= 0x8F;
    }
  }

  lemma DecodeUndoesEncode(cp: nat)
    requires cp <= 0x10FFFF
    ensures Decode(Encode(cp)) == cp
  {
    var c1 := cp / 64;
    var c2 := c1 / 64;
    var c3 := c2 / 64;
    ShiftUndone(cp, 0);
    ShiftUndone(c1, 0);
    ShiftUndone(c2, 0);
    LeadBits(c1, c2, c3);
    if cp < 0x80 {
    } else if cp < 0x800 {
      assert Shift6((0xC0 + c1 % 32) % 32, Cont(cp)) == cp;
    } else if cp < 0x10000 {
      assert Shift6((0xE0 + c2 % 16) % 16, Cont(c1)) == c1;
    } else {
      assert Shift6((0xF0 + c3 % 8) % 8, Cont(c2)) == c2;
    }
  }

  lemma LeadBits(c1: nat, c2: nat, c3: nat)
    ensures c1 < 32 ==> (0xC0 + c1 % 32) % 32 == c1
    ensures c2 < 16 ==> (0xE0 + c2 % 16) % 16 == c2
    ensures c3 < 8 ==> (0xF0 + c3 % 8) % 8 == c3
  {
  }

  /** And every accepted sequence is the encoding of the code point it stands for. */
  lemma CheckedIsEncoded(s: bytes)
    requires s != [] && VerifySequence(s).Some?
    ensures var n := VerifySequence(s).value;
            1 <= n <= |s| && n <= 4 && Scalar(Decode(s[..n])) && Encode(Decode(s[..n])) == s[..n]
  {
    CheckerMatchesGrammar(s);
    GrammarLengthOfPrefix(s, GrammarLength(s));
    EncodeUndoesDecode(s[..GrammarLength(s)]);
  }

  lemma EncodeUndoesDecode(e: bytes)
    requires 1 <= |e| <= 4 && GrammarLength(e) == |e|
    ensures Scalar(Decode(e)) && Encode(Decode(e)) == e
  {
    if |e| == 2 {
      TwoBytesUndone(e[0], e[1]);
      assert e == [e[0], e[1]];
    } else if |e| == 3 {
      ThreeBytesUndone(e[0], e[1], e[2]);
      assert e == [e[0], e[1], e[2]];
    } else if |e| == 4 {
      FourBytesUndone(e[0], e[1], e[2], e[3]);
      assert e == [e[0], e[1], e[2], e[3]];
    }
  }

  lemma TwoBytesUndone(b0: byte, b1: byte)
    requires 0xC2 <= b0 <= 0xDF && IsCont(b1)
    ensures var cp := Shift6(b0 % 32, b1); Scalar(cp) && Encode(cp) == [b0, b1]
  {
    var p: nat := b0 - 0xC0;
    assert b0 % 32 == p % 32 == p;
    var cp := Shift6(p, b1);
    assert cp / 64 == p && Cont(cp) == b1 by { ShiftUndone(p, b1); }
    assert 0x80 <= cp < 0x800 by { ShiftRange(p, b1); }
  }

  lemma ThreeBytesUndone(b0: byte, b1: byte, b2: byte)
    requires 0xE0 <= b0 <= 0xEF && IsCont(b1) && IsCont(b2)
    requires (b0 == 0xE0 ==> b1 >= 0xA0) && (b0 == 0xED ==> b1 <= 0x9F)
    ensures var cp := Shift6(Shift6(b0 % 16, b1), b2); Scalar(cp) && Encode(cp) == [b0, b1, b2]
  {
    var p: nat := b0 - 0xE0;
    assert b0 % 16 == p % 16 == p;
    var c1 := Shift6(p, b1);
    var cp := Shift6(c1, b2);
    assert c1 / 64 == p && Cont(c1) == b1 by { ShiftUndone(p, b1); }
    assert cp / 64 == c1 && Cont(cp) == b2 by { ShiftUndone(c1, b2); }
    assert 0x800 <= cp < 0x1_0000 && Scalar(cp) by {
      ShiftRange(p, b1);
      ShiftRange(c1, b2);
      assert 32 <= c1 < 864 || 896 <= c1 < 1024;
    }
  }

  lemma FourBytesUndone(b0: byte, b1: byte, b2: byte, b3: byte)
    requires 0xF0 <= b0 <= 0xF4 && IsCont(b1) && IsCont(b2) && IsCont(b3)
    requires (b0 == 0xF0 ==> b1 >= 0x90) && (b0 == 0xF4 ==> b1 <= 0x8F)
    ensures var cp := Shift6(Shift6(Shift6(b0 % 8, b1), b2), b3); Scalar(cp) && Encode(cp) == [b0, b1, b2, b3]
  {
    var p: nat := b0 - 0xF0;
    assert b0 % 8 == p % 8 == p;
    var c2 := Shift6(p, b1);
    var c1 := Shift6(c2, b2);
    var cp := Shift6(c1, b3);
    assert c2 / 64 == p && Cont(c2) == b1 by { ShiftUndone(p, b1); }
    assert c1 / 64 == c2 && Cont(c1) == b2 by { ShiftUndone(c2, b2); }
    assert cp / 64 == c1 && Cont(cp) == b3 by { ShiftUndone(c1, b3); }
    assert 0x1_0000 <= cp <= 0x10FFFF by {
      ShiftRange(p, b1);
      ShiftRange(c2, b2);
      ShiftRange(c1, b3);
      assert 16 <= c2 < 0x110;
    }
  }

  lemma ShiftRange(p: nat, c: byte)
    requires IsCont(c)
    ensures Shift6(p, c) == 64 * p + (c - 0x80)
  {
  }
}
