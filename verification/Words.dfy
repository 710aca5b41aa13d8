/** 32-bit words laid out as bytes, least significant first. */
module Words {
  import opened CStrings

  const TWO_32: int := 0x1_0000_0000

  type half = x: int | 0 <= x < 0x1_0000

  /** A checksum: some function of the bytes. */
  type Crc = bytes -> half

  type word = x: int | 0 <= x < 0x1_0000_0000

  function WordBytes(w: word): (b: bytes)
    ensures |b| == 4
  {
    [w % 0x100, w / 0x100 % 0x100, w / 0x100 / 0x100 % 0x100, w / 0x100 / 0x100 / 0x100]
  }

  function Encoded(words: seq<word>): (b: bytes)
    ensures |b| == 4 * |words|
  {
    if words == [] then [] else WordBytes(words[0]) + Encoded(words[1..])
  }

  function BytesWord(b: bytes): word
    requires |b| == 4
  {
    Assembled(b[0], b[1], b[2], b[3])
  }

  function Assembled(b0: int, b1: int, b2: int, b3: int): int {
    b0 + 0x100 * (b1 + 0x100 * (b2 + 0x100 * b3))
  }

  function Decoded(b: bytes): seq<word>
    requires |b| % 4 == 0
  {
    if b == [] then [] else [BytesWord(b[..4])] + Decoded(b[4..])
  }

  lemma WordSurvives(w: word)
    ensures BytesWord(WordBytes(w)) == w
  {
  }

  /** Shifting by whole bytes takes the same bytes. */
  lemma ShiftsTakeBytes(w: word)
    ensures WordBytes(w) == [w % 0x100, w / 0x100 % 0x100, w / 0x1_0000 % 0x100, w / 0x100_0000 % 0x100]
  {
    var a, b := w / 0x100, w / 0x100 / 0x100;
    assert w == 0x100 * a + w % 0x100 && a == 0x100 * b + a % 0x100 && b == 0x100 * (b / 0x100) + b % 0x100;
    assert w / 0x1_0000 == b && w / 0x100_0000 == b / 0x100;
  }

  lemma SplitByte(low: byte, high: nat)
    ensures (low + 0x100 * high) % 0x100 == low && (low + 0x100 * high) / 0x100 == high
  {
  }

  lemma {:induction false} DecodeUndoesEncode(words: seq<word>)
    ensures Decoded(Encoded(words)) == words
  {
    if words != [] {
      WordSurvives(words[0]);
      DecodeUndoesEncode(words[1..]);
      assert Encoded(words)[..4] == WordBytes(words[0]) && Encoded(words)[4..] == Encoded(words[1..]);
    }
  }

  lemma BytesSurvive(b: bytes)
    requires |b| == 4
    ensures WordBytes(BytesWord(b)) == b
  {
    SplitByte(b[0], Assembled(b[1], b[2], b[3], 0));
    SplitByte(b[1], Assembled(b[2], b[3], 0, 0));
    SplitByte(b[2], b[3]);
  }

  lemma {:induction false} EncodeUndoesDecode(b: bytes)
    requires |b| % 4 == 0
    ensures Encoded(Decoded(b)) == b
    decreases |b|
  {
    if b != [] {
      BytesSurvive(b[..4]);
      EncodeUndoesDecode(b[4..]);
      assert b == b[..4] + b[4..];
    }
  }

  lemma {:induction false} EncodedGrows(words: seq<word>, w: word)
    ensures Encoded(words + [w]) == Encoded(words) + WordBytes(w)
  {
    if words == [] {
      assert words + [w] == [w] && Encoded([]) == [];
    } else {
      EncodedGrows(words[1..], w);
      assert (words + [w])[1..] == words[1..] + [w];
    }
  }

  lemma {:induction false} DecodedGrows(b: bytes, c: bytes)
    requires |b| % 4 == 0 && |c| == 4
    ensures Decoded(b + c) == Decoded(b) + [BytesWord(c)]
    decreases |b|
  {
    if b == [] {
      assert b + c == c && c[..4] == c && c[4..] == [];
      assert Decoded(c[4..]) == [];
    } else {
      DecodedGrows(b[4..], c);
      assert (b + c)[..4] == b[..4] && (b + c)[4..] == b[4..] + c;
    }
  }
}
