/** Coil bits packed into bytes, least significant bit first (Modbus Application Protocol V1.1b3, section 6.1). */
module ModbusBits {
  import opened CStrings

  function Pow2(n: nat): (p: nat)
    ensures p > 0
  {
    if n == 0 then 1 else 2 * Pow2(n - 1)
  }

  /** `a | b` on natural numbers. */
  function BitOr(a: nat, b: nat): nat {
    if a == 0 then b else if b == 0 then a else (if a % 2 == 1 || b % 2 == 1 then 1 else 0) + 2 * BitOr(a / 2, b / 2)
  }

  /** Setting a bit above all set ones adds its weight. */
  lemma {:induction false} OrAdds(a: nat, k: nat)
    requires a < Pow2(k)
    ensures BitOr(a, Pow2(k)) == a + Pow2(k)
  {
    if a != 0 {
      OrAdds(a / 2, k - 1);
    }
  }

  /** `ceil(n / 8)`. */
  function BytesNeeded(n: nat): nat {
    (n + 7) / 8
  }

  /** Bit `i` of a packed sequence. */
  function BitAt(data: bytes, i: nat): nat
    requires i < 8 * |data|
  {
    data[i / 8] / Pow2(i % 8) % 2
  }

  predicate IsSet(bits: seq<bool>, i: nat) {
    i < |bits| && bits[i]
  }

  /** The value of up to eight bits from `from` on; bits behind the end count as clear. */
  function Weight(bits: seq<bool>, from: nat, n: nat): (w: nat)
    ensures w < Pow2(n)
  {
    if n == 0 then 0 else Weight(bits, from, n - 1) + if IsSet(bits, from + n - 1) then Pow2(n - 1) else 0
  }

  lemma EightBits()
    ensures Pow2(8) == 256
  {
    assert Pow2(8) == 2 * Pow2(7) == 4 * Pow2(6) == 8 * Pow2(5) == 16 * Pow2(4);
    assert Pow2(4) == 2 * Pow2(3) == 4 * Pow2(2) == 8 * Pow2(1) == 16;
  }

  function Packed(bits: seq<bool>): (data: bytes)
    ensures |data| == BytesNeeded(|bits|)
  {
    EightBits();
    seq(BytesNeeded(|bits|), k requires 0 <= k < BytesNeeded(|bits|) => Weight(bits, 8 * k, 8))
  }

  lemma {:induction false} WeightHalves(bits: seq<bool>, from: nat, n: nat)
    requires n > 0
    ensures Weight(bits, from, n) == (if IsSet(bits, from) then 1 else 0) + 2 * Weight(bits, from + 1, n - 1)
  {
    if n > 1 {
      WeightHalves(bits, from, n - 1);
      assert from + 1 + (n - 2) == from + n - 1;
    } else {
      assert Weight(bits, from, 0) == 0 && Pow2(0) == 1;
    }
  }

  lemma {:induction false} WeightBit(bits: seq<bool>, from: nat, n: nat, k: nat)
    requires k < n
    ensures Weight(bits, from, n) / Pow2(k) % 2 == if IsSet(bits, from + k) then 1 else 0
    decreases n
  {
    WeightHalves(bits, from, n);
    var w, rest := Weight(bits, from, n), Weight(bits, from + 1, n - 1);
    if k == 0 {
      assert Pow2(0) == 1;
    } else {
      WeightBit(bits, from + 1, n - 1, k - 1);
      assert w / 2 == rest;
      HalveFirst(w, Pow2(k - 1));
      assert from + 1 + (k - 1) == from + k;
    }
  }

  lemma HalveFirst(w: nat, d: nat)
    requires d > 0
    ensures w / (2 * d) == w / 2 / d
  {
    var q, r := w / 2 / d, w / 2 % d;
    assert w == 2 * (q * d + r) + w % 2;
    assert 2 * (q * d) == q * (2 * d);
    DivisionIsUnique(w, 2 * d, q, 2 * r + w % 2);
  }

  /** Every bit is read back as it was packed, and the bits that fill the last byte are clear. */
  lemma PackedBits(bits: seq<bool>, i: nat)
    requires i < 8 * BytesNeeded(|bits|)
    ensures BitAt(Packed(bits), i) == if IsSet(bits, i) then 1 else 0
  {
    WeightBit(bits, 8 * (i / 8), 8, i % 8);
    assert 8 * (i / 8) + i % 8 == i;
  }

  /** The weights of eight bits, the first one the lightest. */
  lemma PackedOctet(bits: seq<bool>, k: nat)
    requires k < BytesNeeded(|bits|)
    ensures Packed(bits)[k]
         == One(bits, 8 * k) + 2 * One(bits, 8 * k + 1) + 4 * One(bits, 8 * k + 2) + 8 * One(bits, 8 * k + 3)
            + 16 * One(bits, 8 * k + 4) + 32 * One(bits, 8 * k + 5) + 64 * One(bits, 8 * k + 6) + 128 * One(bits, 8 * k + 7)
  {
    var i := 8 * k;
    assert Pow2(0) == 1 && Pow2(1) == 2 && Pow2(2) == 4 && Pow2(3) == 8 && Pow2(4) == 16 && Pow2(5) == 32 && Pow2(6) == 64
        && Pow2(7) == 128;
    WeightGrows(bits, i, 0);
    WeightGrows(bits, i, 1);
    WeightGrows(bits, i, 2);
    WeightGrows(bits, i, 3);
    WeightGrows(bits, i, 4);
    WeightGrows(bits, i, 5);
    WeightGrows(bits, i, 6);
    WeightGrows(bits, i, 7);
  }

  function One(bits: seq<bool>, i: nat): nat {
    if i < |bits| && bits[i] then 1 else 0
  }

  lemma WeightGrows(bits: seq<bool>, from: nat, n: nat)
    ensures Weight(bits, from, n + 1) == Weight(bits, from, n) + Pow2(n) * One(bits, from + n)
    ensures Weight(bits, from, 0) == 0
  {
  }

  function Unpacked(data: bytes, n: nat): (bits: seq<bool>)
    requires n <= 8 * |data|
    ensures |bits| == n
  {
    seq(n, i requires 0 <= i < n => BitAt(data, i) == 1)
  }

  lemma UnpackUndoesPack(bits: seq<bool>)
    ensures Unpacked(Packed(bits), |bits|) == bits
  {
    forall i | 0 <= i < |bits| ensures Unpacked(Packed(bits), |bits|)[i] == bits[i] {
      PackedBits(bits, i);
    }
  }

  lemma {:induction false} WeightRebuilds(bits: seq<bool>, from: nat, n: nat, x: nat)
    requires forall j :: 0 <= j < n ==> (IsSet(bits, from + j) <==> x / Pow2(j) % 2 == 1)
    ensures Weight(bits, from, n) == x % Pow2(n)
    decreases n
  {
    if n > 0 {
      assert IsSet(bits, from + 0) <==> x / Pow2(0) % 2 == 1;
      forall j | 0 <= j < n - 1 ensures IsSet(bits, from + 1 + j) <==> x / 2 / Pow2(j) % 2 == 1 {
        assert IsSet(bits, from + (j + 1)) <==> x / Pow2(j + 1) % 2 == 1;
        HalveFirst(x, Pow2(j));
        assert from + 1 + j == from + (j + 1);
      }
      WeightRebuilds(bits, from + 1, n - 1, x / 2);
      WeightHalves(bits, from, n);
      ModuloByDoubling(x, Pow2(n - 1));
    }
  }

  lemma UnpackedBit(data: bytes, k: nat, j: nat)
    requires k < |data| && j < 8
    ensures IsSet(Unpacked(data, 8 * |data|), 8 * k + j) <==> data[k] / Pow2(j) % 2 == 1
  {
    BitPlace(k, j);
    assert BitAt(data, 8 * k + j) == data[k] / Pow2(j) % 2;
  }

  lemma OctetIsRebuilt(data: bytes, bits: seq<bool>, k: nat)
    requires k < |data| && bits == Unpacked(data, 8 * |data|)
    ensures Weight(bits, 8 * k, 8) == data[k]
  {
    forall j | 0 <= j < 8 ensures IsSet(bits, 8 * k + j) <==> data[k] / Pow2(j) % 2 == 1 {
      UnpackedBit(data, k, j);
    }
    var x: nat := data[k];
    WeightRebuilds(bits, 8 * k, 8, x);
    EightBits();
    ByteIsSmall(x, Pow2(8));
  }

  lemma ByteIsSmall(x: nat, p: nat)
    requires x < p == 256
    ensures x % p == x
  {
  }

  lemma BitPlace(k: nat, j: nat)
    requires j < 8
    ensures (8 * k + j) / 8 == k && (8 * k + j) % 8 == j
  {
  }

  lemma PackUndoesUnpack(data: bytes)
    ensures Packed(Unpacked(data, 8 * |data|)) == data
  {
    var again := Packed(Unpacked(data, 8 * |data|));
    assert |again| == |data|;
    forall k | 0 <= k < |data| ensures again[k] == data[k] {
      OctetIsRebuilt(data, Unpacked(data, 8 * |data|), k);
    }
  }

  /** A cell of an interpreter array. */
  datatype Cell = Integer(n: int) | Real(r: real) | Other

  /** The integer a cell stands for, if it stands for one. */
  function Whole(c: Cell): Option<int> {
    match c
    case Integer(n) => Some(n)
    case Real(r) => if r.Floor as real == r then Some(r.Floor) else None
    case Other => None
  }

  /** A cell stands for an integer when it holds it, as an integer or as a real without a fraction. */
  lemma WholeIff(c: Cell, n: int)
    ensures Whole(c) == Some(n) <==> c == Integer(n) || c == Real(n as real)
  {
  }

  predicate AreWhole(cells: seq<Cell>) {
    forall i :: 0 <= i < |cells| ==> Whole(cells[i]).Some?
  }

  /** Anything but zero is a set bit. */
  function BitsOf(cells: seq<Cell>): (bits: seq<bool>)
    requires AreWhole(cells)
    ensures |bits| == |cells|
  {
    seq(|cells|, i requires 0 <= i < |cells| => Whole(cells[i]).value != 0)
  }

  /** Reads the cells, then packs them byte by byte. */
  method PackBits(cells: seq<Cell>, capacity: nat) returns (data: Option<bytes>)
    ensures data == if BytesNeeded(|cells|) <= capacity && AreWhole(cells) then Some(Packed(BitsOf(cells))) else None
  {
    var needed := (|cells| + 7) / 8;
    if needed > capacity {
      return None;
    }
    var bits: seq<bool> := [];
    for i := 0 to |cells|
      invariant AreWhole(cells[..i]) && bits == BitsOf(cells[..i])
    {
      var value := Whole(cells[i]);
      if value == None {
        return None;
      }
      assert cells[..i + 1] == cells[..i] + [cells[i]];
      bits := bits + [value.value != 0];
    }
    assert cells[..|cells|] == cells;
    var packed: bytes := [];
    for i := 0 to needed
      invariant packed == Packed(bits)[..i]
    {
      var octet := PackOctet(bits, 8 * i);
      packed := packed + [octet];
    }
    assert Packed(bits)[..needed] == Packed(bits);
    data := Some(packed);
  }

  method PackOctet(bits: seq<bool>, from: nat) returns (octet: byte)
    ensures octet == Weight(bits, from, 8)
  {
    var packed: nat := 0;
    var bit := 0;
    while bit < 8 && from + bit < |bits|
      invariant 0 <= bit <= 8 && packed == Weight(bits, from, bit)
    {
      assert BitOr(packed, Pow2(bit)) == packed + Pow2(bit) by { OrAdds(packed, bit); }
      if bits[from + bit] {
        packed := BitOr(packed, Pow2(bit));
      }
      bit := bit + 1;
    }
    NothingBehind(bits, from, bit, 8);
    assert packed < 256 by { EightBits(); }
    octet := packed;
  }

  lemma {:induction false} NothingBehind(bits: seq<bool>, from: nat, n: nat, more: nat)
    requires n <= more && (n < more ==> from + n >= |bits|)
    ensures Weight(bits, from, more) == Weight(bits, from, n)
  {
    if n < more {
      NothingBehind(bits, from, n, more - 1);
    }
  }

  /** Writes the bits as cells 0 and 1. */
  method UnpackBits(data: bytes, n: nat, cells: array<Cell>)
    requires n <= 8 * |data| && n <= cells.Length
    modifies cells
    ensures forall i :: 0 <= i < n ==> cells[i] == Integer(BitAt(data, i))
    ensures cells[n..] == old(cells[n..])
  {
    for i := 0 to n
      invariant forall j :: 0 <= j < i ==> cells[j] == Integer(BitAt(data, j))
      invariant cells[n..] == old(cells[n..])
    {
      cells[i] := Integer(data[i / 8] / Pow2(i % 8) % 2);
    }
  }
}
