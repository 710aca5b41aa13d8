/** The 64 KiB EEPROM with 128-byte pages: paged writes, and two script slots behind the configuration area. */
module Eeprom {
  import opened CStrings
  import opened Words

  const SIZE: nat := 0x1_0000
  const PAGE: nat := 128

  type Memory = m: seq<byte> | |m| == SIZE witness seq(SIZE, _ => 0)

  /** How one page write ends: stored, broken off after some bytes, or stored with the device not answering afterwards. */
  datatype Outcome = Done | Torn(n: nat) | NotReady

  // ---- What a page write stores ----

  /** The cast to `uint16_t`. */
  function Uint16(x: nat): (r: nat)
    ensures r < 0x1_0000 && (x - r) % 0x1_0000 == 0
  {
    if x < 0x1_0000 then x else x % 0x1_0000
  }

  /** The address counter of the device wraps inside the page. */
  function PageCell(at: nat, i: nat): nat {
    at - at % PAGE + (at % PAGE + i) % PAGE
  }

  function PageWritten(m: seq<byte>, at: nat, data: bytes): (r: seq<byte>)
    requires |m| == SIZE && at < SIZE
    ensures |r| == SIZE
  {
    if data == [] then m else
      var n := |data| - 1;
      PageCellsExist(at, n);
      PageWritten(m, at, data[..n])[PageCell(at, n) := data[n]]
  }

  lemma PageCellsExist(at: nat, i: nat)
    requires at < SIZE
    ensures 0 <= PageCell(at, i) < SIZE
  {
  }

  function Overwritten(m: seq<byte>, at: nat, data: bytes): (r: seq<byte>)
    requires |m| == SIZE && at + |data| <= SIZE
    ensures |r| == SIZE
  {
    m[..at] + data + m[at + |data|..]
  }

  /** A page write that stays inside its page is a flat one. */
  lemma {:induction false} WithinPageIsFlat(m: seq<byte>, at: nat, data: bytes)
    requires |m| == SIZE && at < SIZE && at % PAGE + |data| <= PAGE
    ensures at + |data| <= SIZE && PageWritten(m, at, data) == Overwritten(m, at, data)
  {
    if data != [] {
      var n := |data| - 1;
      WithinPageIsFlat(m, at, data[..n]);
      assert PageCell(at, n) == at + n;
      assert at + n < SIZE by { PageCellsExist(at, n); }
    }
  }

  lemma {:induction false} PageWriteStaysInPage(m: seq<byte>, at: nat, data: bytes, c: nat)
    requires |m| == SIZE && at < SIZE && c < SIZE && c >= at - at % PAGE + PAGE
    ensures PageWritten(m, at, data)[c] == m[c]
  {
    if data != [] {
      PageWriteStaysInPage(m, at, data[..|data| - 1], c);
    }
  }

  predicate StoresFlat(m: seq<byte>, at: nat, data: bytes) {
    |m| == SIZE && at < SIZE && at + |data| <= SIZE ==> PageWritten(m, at, data) == Overwritten(m, at, data)
  }

  /** Page writes of a length store flat exactly when they stay inside the page. */
  lemma FlatIffWithinPage(at: nat, length: nat)
    requires 0 < length && at + length <= 65536
    ensures (forall m, data :: |data| == length ==> StoresFlat(m, at, data)) <==> at % 128 + length <= 128
  {
    if at % PAGE + length <= PAGE {
      forall m: seq<byte>, data: bytes | |data| == length ensures StoresFlat(m, at, data) {
        if |m| == SIZE {
          WithinPageIsFlat(m, at, data);
        }
      }
    } else {
      var m: seq<byte>, data: bytes := seq(SIZE, _ => 0), seq(length, _ => 1);
      PageWriteStaysInPage(m, at, data, at + length - 1);
      assert Overwritten(m, at, data)[at + length - 1] == 1;
      assert !StoresFlat(m, at, data);
    }
  }

  lemma OverwrittenInTwo(m: seq<byte>, at: nat, a: bytes, b: bytes)
    requires |m| == SIZE && at + |a| + |b| <= SIZE
    ensures Overwritten(Overwritten(m, at, a), at + |a|, b) == Overwritten(m, at, a + b)
  {
  }

  /** One more chunk, of which `k` bytes are stored. */
  lemma ChunkStored(m: seq<byte>, at: nat, data: bytes, written: nat, chunk: nat, k: nat)
    requires |m| == SIZE && at + |data| <= SIZE && k <= chunk && written + chunk <= |data|
    ensures Overwritten(Overwritten(m, at, data[..written]), at + written, data[written..written + chunk][..k]) ==
            Overwritten(m, at, data[..written + k])
  {
    OverwrittenInTwo(m, at, data[..written], data[written..written + chunk][..k]);
    assert data[..written] + data[written..written + chunk][..k] == data[..written + k];
  }

  lemma OverwrittenNothing(m: seq<byte>, at: nat)
    requires |m| == SIZE && at <= SIZE
    ensures Overwritten(m, at, []) == m
  {
  }

  lemma ReadsBack(m: seq<byte>, at: nat, data: bytes)
    requires |m| == SIZE && at + |data| <= SIZE
    ensures Overwritten(m, at, data)[at..at + |data|] == data
  {
  }

  /** Reading elsewhere sees nothing of a write. */
  lemma ReadsAround(m: seq<byte>, at: nat, data: bytes, lo: nat, hi: nat)
    requires |m| == SIZE && at + |data| <= SIZE && lo <= hi <= SIZE && (hi <= at || at + |data| <= lo)
    ensures Overwritten(m, at, data)[lo..hi] == m[lo..hi]
  {
    var r := Overwritten(m, at, data);
    forall i | lo <= i < hi ensures r[i] == m[i] {
    }
  }

  // ---- The header of a script slot ----

  const MAGIC: word := 0x42415331
  const VERSION: nat := 1
  const HEADER: nat := 32
  const NAME: nat := 16
  const SLOT: nat := 4096
  const BASE: nat := 0x2000
  const MAX_SCRIPT: nat := 4064

  function HalfBytes(h: half): bytes {
    [h % 0x100, h / 0x100]
  }

  function BytesHalf(b: bytes): half
    requires |b| == 2
  {
    b[0] + 0x100 * (b[1] as int)
  }

  predicate Separator(c: byte) {
    c == '/' as int || c == '\\' as int
  }

  /** The part of a path behind its last separator. */
  function Leaf(name: bytes): bytes {
    if name == [] then []
    else if Separator(name[|name| - 1]) then []
    else Leaf(name[..|name| - 1]) + [name[|name| - 1]]
  }

  /** `strncpy` into a cleared field: at most 15 characters, the rest NUL. */
  function NameField(leaf: bytes): (f: bytes)
    ensures |f| == NAME
  {
    if |leaf| < NAME then leaf + seq(NAME - |leaf|, _ => 0) else leaf[..NAME - 1] + [0]
  }

  datatype Header = Header(magic: word, version: half, headerSize: half, name: bytes, size: word, crc: half, reserved: half)

  function HeaderBytes(h: Header): (b: bytes)
    requires |h.name| == NAME
    ensures |b| == HEADER
  {
    WordBytes(h.magic) + HalfBytes(h.version) + HalfBytes(h.headerSize) + h.name + WordBytes(h.size) + HalfBytes(h.crc)
    + HalfBytes(h.reserved)
  }

  function HeaderOf(b: bytes): (h: Header)
    requires |b| == HEADER
    ensures |h.name| == NAME
  {
    Header(BytesWord(b[..4]), BytesHalf(b[4..6]), BytesHalf(b[6..8]), b[8..24], BytesWord(b[24..28]), BytesHalf(b[28..30]), BytesHalf(b[30..32]))
  }

  lemma HeaderSurvives(h: Header)
    requires |h.name| == NAME
    ensures HeaderOf(HeaderBytes(h)) == h
  {
    HeaderFields(h);
    WordSurvives(h.magic);
    WordSurvives(h.size);
  }

  lemma HeaderFields(h: Header)
    requires |h.name| == NAME
    ensures var b := HeaderBytes(h);
            && b[..4] == WordBytes(h.magic) && b[4..6] == HalfBytes(h.version) && b[6..8] == HalfBytes(h.headerSize)
            && b[8..24] == h.name && b[24..28] == WordBytes(h.size) && b[28..30] == HalfBytes(h.crc) && b[30..32] == HalfBytes(h.reserved)
  {
    var front := WordBytes(h.magic) + HalfBytes(h.version) + HalfBytes(h.headerSize) + h.name;
    var back := WordBytes(h.size) + HalfBytes(h.crc) + HalfBytes(h.reserved);
    var b := HeaderBytes(h);
    assert b == front + back;
    assert b[..4] == front[..4] && b[4..6] == front[4..6] && b[6..8] == front[6..8] && b[8..24] == front[8..24];
    assert b[24..28] == back[..4] && b[28..30] == back[4..6] && b[30..32] == back[6..8];
  }

  // ---- Scripts in slots ----

  function SlotBase(slot: nat): nat {
    Uint16(BASE + slot * SLOT)
  }

  predicate SlotExists(slot: nat) {
    slot == 0 || slot == 1
  }

  predicate Writable(slot: nat, script: bytes) {
    SlotExists(slot) && 0 < |script| <= MAX_SCRIPT
  }

  function NewHeader(crc: Crc, name: bytes, script: bytes): (h: Header)
    requires |script| <= MAX_SCRIPT
    ensures |h.name| == NAME
  {
    Header(MAGIC, VERSION, HEADER, NameField(Leaf(name)), |script|, crc(script), 0)
  }

  /** Memory once the first `n` bytes of the payload are stored, the header still being the old one. */
  function PayloadStored(m: Memory, slot: nat, script: bytes, n: nat): Memory
    requires Writable(slot, script) && n <= |script|
  {
    Overwritten(m, SlotBase(slot) + HEADER, script[..n])
  }

  /** Memory once the payload and the first `n` bytes of the header are stored. */
  function HeaderStored(m: Memory, crc: Crc, slot: nat, name: bytes, script: bytes, n: nat): Memory
    requires Writable(slot, script) && n <= HEADER
  {
    Overwritten(PayloadStored(m, slot, script, |script|), SlotBase(slot), HeaderBytes(NewHeader(crc, name, script))[..n])
  }

  function SlotHeader(m: Memory, slot: nat): Header
    requires SlotExists(slot)
  {
    HeaderOf(m[SlotBase(slot)..SlotBase(slot) + HEADER])
  }

  predicate Sound(h: Header) {
    h.magic == MAGIC && h.version == VERSION && h.headerSize == HEADER && 0 < h.size <= MAX_SCRIPT
  }

  /** What reading a slot into a buffer of `room` bytes yields. */
  function ScriptIn(m: Memory, crc: Crc, slot: nat, room: nat): Option<bytes> {
    if !SlotExists(slot) then None else
      var h := SlotHeader(m, slot);
      if !Sound(h) || h.size >= room then None else
        var text := m[SlotBase(slot) + HEADER..SlotBase(slot) + HEADER + h.size];
        if crc(text) == h.crc then Some(text) else None
  }

  /** A written script is read back whole by every buffer with room for it and its terminator, and by no smaller one. */
  lemma ScriptSurvives(m: Memory, crc: Crc, slot: nat, name: bytes, script: bytes, room: nat)
    requires Writable(slot, script)
    ensures ScriptIn(HeaderStored(m, crc, slot, name, script, HEADER), crc, slot, room) == if |script| < room then Some(script) else None
  {
    var base, header := SlotBase(slot), NewHeader(crc, name, script);
    var mid, done := PayloadStored(m, slot, script, |script|), HeaderStored(m, crc, slot, name, script, HEADER);
    assert script[..|script|] == script && HeaderBytes(header)[..HEADER] == HeaderBytes(header);
    ReadsBack(mid, base, HeaderBytes(header));
    HeaderSurvives(header);
    ReadsBack(m, base + HEADER, script);
    ReadsAround(mid, base, HeaderBytes(header), base + HEADER, base + HEADER + |script|);
  }

  /** What lies outside a slot is the same: the configuration in front, the other slot, and all behind. */
  predicate SameOutside(m: Memory, r: Memory, crc: Crc, slot: nat, room: nat)
    requires SlotExists(slot)
  {
    && r[..0x2000 + slot * 0x1000] == m[..0x2000 + slot * 0x1000]
    && r[0x3000 + slot * 0x1000..] == m[0x3000 + slot * 0x1000..]
    && ScriptIn(r, crc, 1 - slot, room) == ScriptIn(m, crc, 1 - slot, room)
  }

  /** Writing, even when it breaks off, leaves everything outside the slot alone. */
  lemma SlotsAreApart(m: Memory, crc: Crc, slot: nat, name: bytes, script: bytes, n: nat, room: nat)
    requires Writable(slot, script)
    ensures n <= |script| ==> SameOutside(m, PayloadStored(m, slot, script, n), crc, slot, room)
    ensures n <= 32 ==> SameOutside(m, HeaderStored(m, crc, slot, name, script, n), crc, slot, room)
  {
    if n <= |script| {
      OutsideSlot(m, slot, HEADER, script[..n], crc, room);
    }
    if n <= HEADER {
      var mid, header := PayloadStored(m, slot, script, |script|), HeaderBytes(NewHeader(crc, name, script))[..n];
      assert SameOutside(m, mid, crc, slot, room) by { OutsideSlot(m, slot, HEADER, script[..|script|], crc, room); }
      assert SameOutside(mid, HeaderStored(m, crc, slot, name, script, n), crc, slot, room) by {
        OutsideSlot(mid, slot, 0, header, crc, room);
      }
    }
  }

  lemma OutsideSlot(m: Memory, slot: nat, off: nat, data: bytes, crc: Crc, room: nat)
    requires SlotExists(slot) && off + |data| <= SLOT
    ensures SlotBase(slot) + off + |data| <= SIZE && SameOutside(m, Overwritten(m, SlotBase(slot) + off, data), crc, slot, room)
  {
    var base, at := 0x2000 + slot * 0x1000, SlotBase(slot) + off;
    var r := Overwritten(m, at, data);
    assert SlotBase(slot) == base && SlotBase(1 - slot) == 0x5000 - base;
    assert r[..base] == m[..base];
    assert r[base + 0x1000..] == m[base + 0x1000..];
    assert r[0x5000 - base..0x6000 - base] == m[0x5000 - base..0x6000 - base] by {
      ReadsAround(m, at, data, 0x5000 - base, 0x6000 - base);
    }
    SameSlotReadsAlike(m, r, crc, 1 - slot, 0x5000 - base, room);
  }

  lemma SameSlotReadsAlike(m: Memory, r: Memory, crc: Crc, slot: nat, base: nat, room: nat)
    requires SlotExists(slot) && base == SlotBase(slot) && m[base..base + 0x1000] == r[base..base + 0x1000]
    ensures ScriptIn(m, crc, slot, room) == ScriptIn(r, crc, slot, room)
  {
    SamePart(m, r, base, 0, HEADER);
    var h := SlotHeader(m, slot);
    if Sound(h) {
      SamePart(m, r, base, HEADER, HEADER + h.size);
    }
  }

  lemma SamePart(m: Memory, r: Memory, base: nat, lo: nat, hi: nat)
    requires base + 0x1000 <= SIZE && m[base..base + 0x1000] == r[base..base + 0x1000] && lo <= hi <= 0x1000
    ensures m[base + lo..base + hi] == r[base + lo..base + hi]
  {
    var part := m[base..base + 0x1000];
    forall i | base + lo <= i < base + hi ensures m[i] == r[i] {
      assert m[i] == part[i - base] == r[i];
    }
  }

  // ---- The bytes of a slot ----

  /** A leaf is what stands behind the last slash or backslash. */
  lemma {:induction false} LeafIsBehindSeparator(name: bytes)
    ensures var leaf := Leaf(name);
            && |leaf| <= |name| && name[|name| - |leaf|..] == leaf
            && '/' as int !in leaf && '\\' as int !in leaf
            && (leaf == name || name[|name| - |leaf| - 1] in {'/' as int, '\\' as int})
  {
    if name != [] && !Separator(name[|name| - 1]) {
      LeafIsBehindSeparator(name[..|name| - 1]);
    }
  }

  /** Number of the little-endian bytes at `i`. */
  function Little16(m: seq<byte>, i: nat): int
    requires i + 2 <= |m|
  {
    m[i] + 0x100 * (m[i + 1] as int)
  }

  function Little32(m: seq<byte>, i: nat): int
    requires i + 4 <= |m|
  {
    m[i] + 0x100 * (m[i + 1] as int) + 0x1_0000 * (m[i + 2] as int) + 0x100_0000 * (m[i + 3] as int)
  }

  lemma FieldsAt(m: Memory, slot: nat)
    requires SlotExists(slot)
    ensures var h, base := SlotHeader(m, slot), 0x2000 + slot * 0x1000;
            && h.magic == Little32(m, base) && h.version == Little16(m, base + 4) && h.headerSize == Little16(m, base + 6)
            && h.name == m[base + 8..base + 24] && h.size == Little32(m, base + 24) && h.crc == Little16(m, base + 28)
  {
    var base := 0x2000 + slot * 0x1000;
    assert SlotBase(slot) == base;
    var b := m[base..base + 32];
    assert b[8..24] == m[base + 8..base + 24];
    assert b[0..4] == b[..4];
    WordAt(m, base, b, 0);
    HalfAt(m, base, b, 4);
    HalfAt(m, base, b, 6);
    WordAt(m, base, b, 24);
    HalfAt(m, base, b, 28);
  }

  lemma HalfAt(m: seq<byte>, base: nat, b: bytes, i: nat)
    requires i + 2 <= |b| && base + |b| <= |m| && b == m[base..base + |b|]
    ensures BytesHalf(b[i..i + 2]) == Little16(m, base + i)
  {
    assert b[i] == m[base + i] && b[i + 1] == m[base + i + 1];
  }

  lemma WordAt(m: seq<byte>, base: nat, b: bytes, i: nat)
    requires i + 4 <= |b| && base + |b| <= |m| && b == m[base..base + |b|]
    ensures BytesWord(b[i..i + 4]) == Little32(m, base + i)
  {
    assert b[i] == m[base + i] && b[i + 1] == m[base + i + 1] && b[i + 2] == m[base + i + 2] && b[i + 3] == m[base + i + 3];
  }

  /** What a slot must hold for a text to be read. */
  ghost predicate HoldsScript(m: Memory, crc: Crc, slot: nat, text: bytes) {
    var base := 0x2000 + slot * 0x1000;
    && slot <= 1 && 1 <= |text| <= 4064
    && Little32(m, base) == 0x42415331 && Little16(m, base + 4) == 1 && Little16(m, base + 6) == 32
    && Little32(m, base + 24) == |text| && Little16(m, base + 28) == crc(text)
    && m[base + 32..base + 32 + |text|] == text
  }

  /** A text is read out of a slot exactly when the slot holds it and the buffer has room for it and a terminator. */
  lemma ReadIffHeld(m: Memory, crc: Crc, slot: nat, room: nat, text: bytes)
    ensures ScriptIn(m, crc, slot, room) == Some(text) <==> HoldsScript(m, crc, slot, text) && |text| < room
  {
    if slot <= 1 {
      FieldsAt(m, slot);
    }
  }

  /** Fifteen characters at most, and zeros. */
  predicate IsNameOf(f: bytes, leaf: bytes) {
    |f| == 16 && f[15] == 0 && forall i :: 0 <= i < 15 ==> f[i] == if i < |leaf| then leaf[i] else 0
  }

  lemma HeaderImage(crc: Crc, name: bytes, script: bytes)
    requires |script| <= MAX_SCRIPT
    ensures var b, leaf := HeaderBytes(NewHeader(crc, name, script)), Leaf(name);
            && b[..8] == [0x31, 0x53, 0x41, 0x42, 1, 0, 32, 0]
            && IsNameOf(b[8..24], leaf)
            && b[24..28] == [|script| % 0x100, |script| / 0x100, 0, 0]
            && b[28..30] == [crc(script) % 0x100, crc(script) / 0x100] && b[30..32] == [0, 0]
  {
    var h := NewHeader(crc, name, script);
    var b := HeaderBytes(h);
    HeaderFields(h);
    assert b[..8] == b[..4] + b[4..6] + b[6..8];
  }

  /** A written slot byte by byte: magic, version, header size, the leaf of the name, size, checksum, and the script. */
  lemma SlotImage(m: Memory, crc: Crc, slot: nat, name: bytes, script: bytes)
    requires Writable(slot, script)
    ensures var r, base, leaf := HeaderStored(m, crc, slot, name, script, 32), 0x2000 + slot * 0x1000, Leaf(name);
            && r[base..base + 8] == [0x31, 0x53, 0x41, 0x42, 1, 0, 32, 0]
            && IsNameOf(r[base + 8..base + 24], leaf)
            && r[base + 24..base + 28] == [|script| % 0x100, |script| / 0x100, 0, 0]
            && r[base + 28..base + 32] == [crc(script) % 0x100, crc(script) / 0x100, 0, 0]
            && r[base + 32..base + 32 + |script|] == script
  {
    var r, base := HeaderStored(m, crc, slot, name, script, 32), 0x2000 + slot * 0x1000;
    HeaderStoredParts(m, crc, slot, name, script, 32);
    HeaderImage(crc, name, script);
    var b := HeaderBytes(NewHeader(crc, name, script));
    assert r[base..base + 32] == b;
    ImageParts(r, base, b);
  }

  lemma ImageParts(r: seq<byte>, base: nat, b: bytes)
    requires |b| == 32 && base + 32 <= |r| && r[base..base + 32] == b
    ensures r[base..base + 8] == b[..8] && r[base + 24..base + 28] == b[24..28] && r[base + 28..base + 32] == b[28..30] + b[30..32]
    ensures r[base + 8..base + 24] == b[8..24]
  {
    forall i | 0 <= i < 32 ensures r[base + i] == b[i] {
      assert r[base..base + 32][i] == b[i];
    }
  }

  /** A write that breaks off in the payload leaves the old header to judge: no text with another checksum is ever read. */
  lemma BrokenWriteIsJudged(m: Memory, crc: Crc, slot: nat, script: bytes, n: nat, room: nat)
    requires Writable(slot, script) && n <= |script|
    ensures var r := PayloadStored(m, slot, script, n);
            && SlotHeader(r, slot) == SlotHeader(m, slot)
            && match ScriptIn(r, crc, slot, room)
               case None => true
               case Some(text) =>
                 && |text| == SlotHeader(m, slot).size && crc(text) == SlotHeader(m, slot).crc
                 && text[..if n < |text| then n else |text|] == script[..if n < |text| then n else |text|]
  {
    var base, r := SlotBase(slot), PayloadStored(m, slot, script, n);
    ReadsAround(m, base + HEADER, script[..n], base, base + HEADER);
    ReadsBack(m, base + HEADER, script[..n]);
    match ScriptIn(r, crc, slot, room)
    case None =>
    case Some(text) =>
      var k := if n < |text| then n else |text|;
      assert text[..k] == r[base + HEADER..base + HEADER + n][..k];
  }

  /** A header torn after `n` bytes: new fields in front, old ones behind. */
  function TornHeader(m: Memory, crc: Crc, slot: nat, name: bytes, script: bytes, n: nat): (b: bytes)
    requires Writable(slot, script) && n <= HEADER
    ensures |b| == HEADER
  {
    HeaderBytes(NewHeader(crc, name, script))[..n] + m[SlotBase(slot)..SlotBase(slot) + HEADER][n..]
  }

  lemma HeaderStoredParts(m: Memory, crc: Crc, slot: nat, name: bytes, script: bytes, n: nat)
    requires Writable(slot, script) && n <= HEADER
    ensures var r, base := HeaderStored(m, crc, slot, name, script, n), SlotBase(slot);
            && r[base..base + HEADER] == TornHeader(m, crc, slot, name, script, n)
            && r[base + HEADER..base + HEADER + |script|] == script
  {
    var base, header := SlotBase(slot), HeaderBytes(NewHeader(crc, name, script));
    var mid, r := PayloadStored(m, slot, script, |script|), HeaderStored(m, crc, slot, name, script, n);
    assert script[..|script|] == script;
    ReadsBack(m, base + HEADER, script);
    ReadsAround(m, base + HEADER, script, base, base + HEADER);
    ReadsBack(mid, base, header[..n]);
    ReadsAround(mid, base, header[..n], base + HEADER, base + HEADER + |script|);
    ReadsAround(mid, base, header[..n], base + n, base + HEADER);
    assert r[base..base + HEADER] == r[base..base + n] + r[base + n..base + HEADER];
    assert mid[base + n..base + HEADER] == mid[base..base + HEADER][n..];
  }

  /** Which fields of a torn header are new and which old. */
  lemma TornFields(m: Memory, crc: Crc, slot: nat, name: bytes, script: bytes, n: nat)
    requires Writable(slot, script) && n <= HEADER
    ensures var h, late, early := HeaderOf(TornHeader(m, crc, slot, name, script, n)), NewHeader(crc, name, script), SlotHeader(m, slot);
            && (n <= 24 ==> h.size == early.size && h.crc == early.crc)
            && (n >= 8 ==> h.magic == late.magic && h.version == late.version && h.headerSize == late.headerSize)
            && (n >= 28 ==> h.size == late.size)
            && (n >= 30 ==> h.crc == late.crc)
  {
    var b, early := TornHeader(m, crc, slot, name, script, n), m[SlotBase(slot)..SlotBase(slot) + HEADER];
    var late := HeaderBytes(NewHeader(crc, name, script));
    HeaderSurvives(NewHeader(crc, name, script));
    if n <= 24 {
      assert b[24..28] == early[24..28] && b[28..30] == early[28..30];
    }
    if n >= 8 {
      assert b[..4] == late[..4] && b[4..6] == late[4..6] && b[6..8] == late[6..8];
    }
    if n >= 28 {
      assert b[24..28] == late[24..28];
    }
    if n >= 30 {
      assert b[28..30] == late[28..30];
    }
  }

  /**
    A write that breaks off in the header: the torn header judges the new payload. Up to byte 24 it still asks for the
    old size and checksum; from byte 28 on only the whole new script can be read, and from byte 30 on it is.
  */
  lemma BrokenHeaderIsJudged(m: Memory, crc: Crc, slot: nat, name: bytes, script: bytes, n: nat, room: nat)
    requires Writable(slot, script) && n <= HEADER
    ensures var r := HeaderStored(m, crc, slot, name, script, n);
            var h, early := HeaderOf(TornHeader(m, crc, slot, name, script, n)), SlotHeader(m, slot);
            && SlotHeader(r, slot) == h
            && (n <= 24 ==> h.size == early.size && h.crc == early.crc)
            && (n >= 30 ==> ScriptIn(r, crc, slot, room) == if |script| < room then Some(script) else None)
            && match ScriptIn(r, crc, slot, room)
               case None => true
               case Some(text) =>
                 && |text| == h.size && crc(text) == h.crc && (n >= 28 ==> text == script)
                 && (text <= script || script <= text)
  {
    var base, r := SlotBase(slot), HeaderStored(m, crc, slot, name, script, n);
    HeaderStoredParts(m, crc, slot, name, script, n);
    TornFields(m, crc, slot, name, script, n);
    match ScriptIn(r, crc, slot, room)
    case None =>
    case Some(text) =>
      assert text == r[base + HEADER..base + HEADER + |text|];
      PrefixesAgree(r, base + HEADER, |text|, |script|);
  }

  lemma PrefixesAgree(m: seq<byte>, at: nat, i: nat, j: nat)
    requires at + i <= |m| && at + j <= |m|
    ensures m[at..at + i] <= m[at..at + j] || m[at..at + j] <= m[at..at + i]
  {
    if i <= j {
      assert m[at..at + j][..i] == m[at..at + i];
    } else {
      assert m[at..at + i][..j] == m[at..at + j];
    }
  }

  // ---- The device and the driver ----

  /** What still fits the page, or all that is left. */
  function ChunkSize(at: nat, left: nat): (chunk: nat)
    ensures at % PAGE + chunk <= PAGE && chunk <= left
    ensures left > 0 ==> chunk > 0
  {
    var room := PAGE - at % PAGE;
    if left < room then left else room
  }

  class Device {
    const cells: array<byte>
    /** How the `k`-th page write will end, and whether the `k`-th read succeeds. */
    const outcomes: nat -> Outcome
    const readable: nat -> bool
    const crc: Crc
    var writeCount: nat
    var readCount: nat

    ghost predicate Valid() {
      cells.Length == SIZE
    }

    constructor (contents: Memory, outcomes: nat -> Outcome, readable: nat -> bool, crc: Crc)
      ensures Valid() && cells[..] == contents && fresh(cells)
      ensures this.outcomes == outcomes && this.readable == readable && this.crc == crc
    {
      cells := new byte[SIZE](i requires 0 <= i < SIZE => contents[i]);
      this.outcomes, this.readable, this.crc := outcomes, readable, crc;
      writeCount, readCount := 0, 0;
    }

    /** The device stores a page write byte by byte, wrapping at the end of the page. */
    method StorePage(at: nat, data: bytes)
      requires Valid() && at < SIZE
      modifies cells
      ensures cells[..] == PageWritten(old(cells[..]), at, data)
    {
      for i := 0 to |data|
        invariant cells[..] == PageWritten(old(cells[..]), at, data[..i])
      {
        PageCellsExist(at, i);
        assert data[..i + 1][..i] == data[..i];
        cells[PageCell(at, i)] := data[i];
      }
      assert data[..|data|] == data;
    }

    /** One page write and the wait for the device, of a chunk inside one page. */
    method WriteChunk(at: nat, data: bytes) returns (ok: bool, ghost n: nat)
      requires Valid() && at < SIZE && at % PAGE + |data| <= PAGE
      modifies this`writeCount, cells
      ensures at + |data| <= SIZE && n <= |data| && cells[..] == Overwritten(old(cells[..]), at, data[..n])
      ensures ok == outcomes(old(writeCount)).Done? && writeCount == old(writeCount) + 1 && (ok ==> n == |data|)
    {
      var outcome := outcomes(writeCount);
      writeCount := writeCount + 1;
      var stored := if outcome.Torn? && outcome.n < |data| then outcome.n else |data|;
      WithinPageIsFlat(cells[..], at, data);
      WithinPageIsFlat(cells[..], at, data[..stored]);
      StorePage(at, data[..stored]);
      n := stored;
      ok := outcome.Done?;
      assert ok ==> data[..n] == data;
    }

    /** Splits the data at page ends. Success is a flat overwrite; a failure leaves the first bytes of one. */
    method WriteBytes(at: nat, data: bytes) returns (ok: bool, ghost n: nat)
      requires Valid() && at < SIZE
      modifies this`writeCount, cells
      ensures at + |data| > 65536 || data == [] || |data| > 0xFFFF ==> !ok && n == 0 && cells[..] == old(cells[..])
      ensures n <= |data| && (ok ==> n == |data|)
      ensures at + |data| <= 65536 ==> cells[..] == Overwritten(old(cells[..]), at, data[..n])
      ensures 0 < |data| <= 0xFFFF && at + |data| <= 65536 && (forall k :: outcomes(k).Done?) ==> ok
    {
      if data == [] || |data| > 0xFFFF || at + |data| > SIZE {
        if at + |data| <= SIZE {
          OverwrittenNothing(cells[..], at);
        }
        return false, 0;
      }
      ok, n := WritePages(at, data);
    }

    method WritePages(at: nat, data: bytes) returns (ok: bool, ghost n: nat)
      requires Valid() && at < SIZE && at + |data| <= SIZE && |data| <= 0xFFFF
      modifies this`writeCount, cells
      ensures n <= |data| && (ok ==> n == |data|)
      ensures cells[..] == Overwritten(old(cells[..]), at, data[..n])
      ensures (forall k :: outcomes(k).Done?) ==> ok
    {
      ghost var before := cells[..];
      OverwrittenNothing(before, at);
      var written := 0;
      while written < |data|
        invariant 0 <= written <= |data|
        invariant cells[..] == Overwritten(before, at, data[..written])
      {
        var current := Uint16(at + written);
        var chunk := ChunkSize(current, |data| - written);
        ok, n := WriteChunk(current, data[written..written + chunk]);
        ChunkStored(before, at, data, written, chunk, n);
        if !ok {
          n := written + n;
          return;
        }
        written := Uint16(written + chunk);
      }
      ok, n := true, |data|;
    }

    method ReadBytes(at: nat, length: nat) returns (r: Option<bytes>)
      requires Valid()
      modifies this`readCount
      ensures 0 < length <= 0xFFFF && at + length <= 65536 && readable(old(readCount)) ==> r == Some(cells[at..at + length])
      ensures !(0 < length <= 0xFFFF && at + length <= 65536 && readable(old(readCount))) ==> r == None
    {
      if length == 0 || length > 0xFFFF || at + length > SIZE {
        return None;
      }
      readCount := readCount + 1;
      return if readable(readCount - 1) then Some(cells[at..at + length]) else None;
    }

    /** The payload first and its header last. */
    method WriteScript(slot: nat, name: bytes, script: bytes) returns (ok: bool, ghost n: nat, ghost headed: bool)
      requires Valid()
      modifies this`writeCount, cells
      ensures !(slot <= 1 && 1 <= |script| <= 4064) ==> !ok && cells[..] == old(cells[..])
      ensures slot <= 1 && 1 <= |script| <= 4064 ==>
        && n <= (if headed then HEADER else |script|)
        && cells[..] == (if headed then HeaderStored(old(cells[..]), crc, slot, name, script, n) else PayloadStored(old(cells[..]), slot, script, n))
        && (ok ==> headed && n == HEADER)
        && ((forall k :: outcomes(k).Done?) ==> ok)
    {
      n, headed := 0, false;
      if !SlotExists(slot) || script == [] || |script| > MAX_SCRIPT {
        return false, 0, false;
      }
      var leaf := LeafName(name);
      var header := Header(MAGIC, VERSION, HEADER, NameField(leaf), |script|, crc(script), 0);
      ok, n := WriteBytes(SlotBase(slot) + HEADER, script);
      if !ok {
        return;
      }
      headed := true;
      ok, n := WriteBytes(SlotBase(slot), HeaderBytes(header));
    }

    /** The script in a slot, terminated in the caller's buffer, or nothing. */
    method ReadScript(slot: nat, buf: array<byte>) returns (size: Option<nat>)
      requires Valid() && buf != cells
      modifies this`readCount, buf
      ensures ScriptIn(cells[..], crc, slot, buf.Length) == None ==> size == None
      ensures size.Some? ==>
        && size.value < buf.Length && buf[size.value] == 0
        && ScriptIn(cells[..], crc, slot, buf.Length) == Some(buf[..size.value])
      ensures (forall k :: readable(k)) ==> (size.Some? <==> ScriptIn(cells[..], crc, slot, buf.Length).Some?)
    {
      if !SlotExists(slot) || buf.Length == 0 {
        return None;
      }
      var base := SlotBase(slot);
      var bytes := ReadBytes(base, HEADER);
      if bytes == None {
        return None;
      }
      var h := HeaderOf(bytes.value);
      if h.magic != MAGIC || h.version != VERSION || h.headerSize != HEADER || h.size == 0 || h.size > MAX_SCRIPT || h.size >= buf.Length {
        return None;
      }
      var text := ReadBytes(base + HEADER, h.size);
      if text == None {
        return None;
      }
      for i := 0 to h.size
        invariant buf[..i] == text.value[..i]
      {
        buf[i] := text.value[i];
      }
      assert buf[..h.size] == text.value;
      if crc(buf[..h.size]) != h.crc {
        return None;
      }
      buf[h.size] := 0;
      return Some(h.size);
    }
  }

  /** Finds the leaf of a path by moving a mark behind every separator. */
  method LeafName(name: bytes) returns (leaf: bytes)
    ensures leaf == Leaf(name)
  {
    var mark := 0;
    for i := 0 to |name|
      invariant 0 <= mark <= i && name[mark..i] == Leaf(name[..i])
    {
      assert name[..i + 1][..i] == name[..i];
      if Separator(name[i]) {
        mark := i + 1;
      }
    }
    assert name[..|name|] == name;
    leaf := name[mark..];
  }
}
