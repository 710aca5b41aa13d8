/** The Modbus RTU master behind the script functions: bounded frames, checked replies, the last error. */
module ModbusMaster {
  import opened CStrings
  import opened Words
  import opened ModbusBits

  const FRAME_MAX: nat := 110
  const READ_DATA_MAX: nat := 105
  const WRITE_DATA_MAX: nat := 101

  const WRITE_REGISTER: byte := 0x06
  const WRITE_COILS: byte := 0x0F
  const WRITE_REGISTERS: byte := 0x10

  const NO_ERROR: byte := 0
  const INVALID_DATA: byte := 0x02
  const NO_RESPONSE: byte := 0xF1
  const BAD_FRAME: byte := 0xF2
  const BAD_CRC: byte := 0xF3

  // ---- Frames ----

  /** A 16-bit value, most significant byte first. */
  function BigEndian(h: half): (b: bytes)
    ensures |b| == 2
  {
    [h / 0x100, h % 0x100]
  }

  function HalfAt(b: bytes, i: nat): int
    requires i + 2 <= |b|
  {
    0x100 * (b[i] as int) + b[i + 1]
  }

  function WithCrc(crc: Crc, body: bytes): (frame: bytes)
    ensures |frame| == |body| + 2 && frame[..|body|] == body
  {
    body + BigEndian(crc(body))
  }

  function SimpleRequest(crc: Crc, slave: byte, func: byte, addr: half, value: half): (frame: bytes)
    ensures |frame| == 8
  {
    WithCrc(crc, [slave, func] + BigEndian(addr) + BigEndian(value))
  }

  function MultipleRequest(crc: Crc, slave: byte, func: byte, addr: half, count: half, data: bytes): (frame: bytes)
    requires |data| < 0x100
    ensures |frame| == |data| + 9
  {
    WithCrc(crc, [slave, func] + BigEndian(addr) + BigEndian(count) + [|data|] + data)
  }

  /** What a slave answers to a read: its address, the function, a byte count and the data. */
  function ReadReply(crc: Crc, slave: byte, func: byte, data: bytes): (frame: bytes)
    requires |data| < 0x100
    ensures |frame| == |data| + 5
  {
    WithCrc(crc, [slave, func, |data|] + data)
  }

  /** A refusal: the function with its top bit set and an exception code. */
  function ExceptionReply(crc: Crc, slave: byte, func: byte, code: byte): (frame: bytes)
    requires func < 0x80
    ensures |frame| == 5
  {
    WithCrc(crc, [slave, func + 0x80, code])
  }

  predicate CrcFits(crc: Crc, frame: bytes) {
    |frame| >= 2 && HalfAt(frame, |frame| - 2) == crc(frame[..|frame| - 2])
  }

  lemma OwnCrcFits(crc: Crc, body: bytes)
    ensures CrcFits(crc, WithCrc(crc, body))
  {
  }

  // ---- A slave's view of a request of eight bytes (Modbus Application Protocol V1.1b3, sections 6.1 to 6.6) ----

  /** Address and quantity, or address and value. */
  datatype Asked = Asked(slave: byte, func: byte, addr: int, value: int)

  function AskedBy(crc: Crc, f: bytes): Option<Asked> {
    if |f| == 8 && 0x100 * (f[6] as int) + f[7] == crc(f[..6])
    then Some(Asked(f[0], f[1], 0x100 * (f[2] as int) + f[3], 0x100 * (f[4] as int) + f[5]))
    else None
  }

  /** The frame sent is the one and only frame that asks for it. */
  lemma SimpleRequestIff(crc: Crc, f: bytes, slave: byte, func: byte, addr: half, value: half)
    ensures f == SimpleRequest(crc, slave, func, addr, value) <==> AskedBy(crc, f) == Some(Asked(slave, func, addr, value))
  {
    var body := [slave, func] + BigEndian(addr) + BigEndian(value);
    if f == SimpleRequest(crc, slave, func, addr, value) {
      assert f[..6] == body && f[2..4] == BigEndian(addr) && f[4..6] == BigEndian(value) && f[6..8] == BigEndian(crc(body));
      assert f[2] == f[2..4][0] && f[3] == f[2..4][1] && f[4] == f[4..6][0] && f[5] == f[4..6][1];
      assert f[6] == f[6..8][0] && f[7] == f[6..8][1];
    }
    if AskedBy(crc, f) == Some(Asked(slave, func, addr, value)) {
      assert f[..6] == [f[0], f[1], f[2], f[3], f[4], f[5]] == body;
      assert f == f[..6] + [f[6], f[7]];
      assert [f[6], f[7]] == BigEndian(crc(body));
    }
  }

  // ---- A slave's view of a write request (Modbus Application Protocol V1.1b3, sections 6.11 and 6.12) ----

  datatype Write<T> = Write(slave: byte, addr: int, items: seq<T>)

  function HeadOf(crc: Crc, frame: bytes, func: byte, perByte: bool): Option<(bytes, int)>
  {
    if |frame| < 9 || frame[1] != func || !CrcFits(crc, frame) then None else
      var count, data := 0x100 * (frame[4] as int) + frame[5], frame[7..|frame| - 2];
      if frame[6] == |data| && |data| == (if perByte then BytesNeeded(count) else 2 * count) then Some((data, count)) else None
  }

  function CoilsWritten(crc: Crc, frame: bytes): Option<Write<bool>> {
    match HeadOf(crc, frame, 0x0F, true)
    case None => None
    case Some(h) => Some(Write(frame[0], 0x100 * (frame[2] as int) + frame[3], Unpacked(h.0, h.1)))
  }

  function RegistersWritten(crc: Crc, frame: bytes): Option<Write<byte>> {
    match HeadOf(crc, frame, 0x10, false)
    case None => None
    case Some(h) => Some(Write(frame[0], 0x100 * (frame[2] as int) + frame[3], h.0))
  }

  lemma MultipleFields(crc: Crc, slave: byte, func: byte, addr: half, count: half, data: bytes)
    requires |data| < 0x100
    ensures var f := MultipleRequest(crc, slave, func, addr, count, data);
            && CrcFits(crc, f) && f[0] == slave && f[1] == func && HalfAt(f, 2) == addr && HalfAt(f, 4) == count
            && f[6] == |data| && f[7..|f| - 2] == data
  {
    OwnCrcFits(crc, [slave, func] + BigEndian(addr) + BigEndian(count) + [|data|] + data);
  }

  /** A slave reads out of a coil request exactly the coils that went in, and the frame fits every buffer. */
  lemma CoilRequestIsUnderstood(crc: Crc, slave: byte, addr: half, bits: seq<bool>)
    requires 1 <= |bits| <= 808
    ensures BytesNeeded(|bits|) < 0x100
    ensures var f := MultipleRequest(crc, slave, WRITE_COILS, addr, |bits|, Packed(bits));
            |f| <= 110 && CoilsWritten(crc, f) == Some(Write(slave, addr, bits))
  {
    MultipleFields(crc, slave, WRITE_COILS, addr, |bits|, Packed(bits));
    UnpackUndoesPack(bits);
  }

  lemma RegisterRequestIsUnderstood(crc: Crc, slave: byte, addr: half, count: half, data: bytes)
    requires 1 <= count <= 50 && |data| == 2 * count
    ensures var f := MultipleRequest(crc, slave, WRITE_REGISTERS, addr, count, data);
            |f| <= 110 && RegistersWritten(crc, f) == Some(Write(slave, addr, data))
  {
    MultipleFields(crc, slave, WRITE_REGISTERS, addr, count, data);
  }

  // ---- The master ----

  /** The verdict on a reply: which error it leaves, or none. */
  function Verdict(crc: Crc, response: bytes, slave: byte, func: byte): Option<byte>
    requires func < 0x80
  {
    if !(5 <= |response| <= FRAME_MAX) then Some(BAD_FRAME)
    else if !CrcFits(crc, response) then Some(BAD_CRC)
    else if response[0] != slave then Some(BAD_FRAME)
    else if response[1] == func + 0x80 && |response| == 5 then Some(response[2])
    else if response[1] != func then Some(BAD_FRAME)
    else None
  }

  /** A reply passes if and only if it has 5 to 110 bytes, a fitting checksum, the slave's address and the function's code. */
  lemma VerdictIff(crc: Crc, r: bytes, slave: byte, func: byte)
    requires func < 0x80
    ensures Verdict(crc, r, slave, func) == None <==>
      && 5 <= |r| <= 110 && 0x100 * (r[|r| - 2] as int) + r[|r| - 1] == crc(r[..|r| - 2])
      && r[0] == slave && r[1] == func
  {
  }

  function Taken(b: bytes, n: nat): bytes {
    if |b| <= n then b else b[..n]
  }

  datatype Answer = Data(data: bytes) | Failed(error: byte)

  /** What a read makes of whatever comes back on the bus. */
  function Answered(crc: Crc, reply: bytes, slave: byte, func: byte, dataLen: nat): Answer
    requires func < 0x80
  {
    var r := Taken(reply, dataLen + 5);
    if r == [] then Failed(NO_RESPONSE) else
      match Verdict(crc, r, slave, func)
      case Some(e) => Failed(e)
      case None => if r[2] != dataLen || |r| != dataLen + 5 then Failed(BAD_FRAME) else Data(r[3..3 + dataLen])
  }

  lemma ReplyFields(crc: Crc, slave: byte, func: byte, data: bytes)
    requires |data| < 0x100
    ensures var f := ReadReply(crc, slave, func, data);
            CrcFits(crc, f) && f[0] == slave && f[1] == func && f[2] == |data| && f[3..3 + |data|] == data
  {
    OwnCrcFits(crc, [slave, func, |data|] + data);
  }

  lemma ReplyIsItsFields(crc: Crc, slave: byte, func: byte, r: bytes, dataLen: nat)
    requires dataLen < 0x100 && |r| == dataLen + 5 && CrcFits(crc, r) && r[0] == slave && r[1] == func && r[2] == dataLen
    ensures r == ReadReply(crc, slave, func, r[3..3 + dataLen])
  {
    var body := [slave, func, dataLen] + r[3..3 + dataLen];
    assert r[..|r| - 2] == body;
    assert r == body + r[|r| - 2..];
    assert r[|r| - 2..] == BigEndian(crc(body));
  }

  /** Data is taken from exactly the replies a slave should give, and from no others. */
  lemma DataIffReply(crc: Crc, reply: bytes, slave: byte, func: byte, dataLen: nat, data: bytes)
    requires func < 0x80 && 1 <= dataLen <= 105
    ensures Answered(crc, reply, slave, func, dataLen) == Data(data) <==>
            |data| == dataLen && Taken(reply, dataLen + 5) == ReadReply(crc, slave, func, data)
  {
    var r := Taken(reply, dataLen + 5);
    if Answered(crc, reply, slave, func, dataLen) == Data(data) {
      ReplyIsItsFields(crc, slave, func, r, dataLen);
    }
    if |data| == dataLen && r == ReadReply(crc, slave, func, data) {
      ReplyFields(crc, slave, func, data);
    }
  }

  lemma ExceptionIsSeen(crc: Crc, slave: byte, func: byte, code: byte, dataLen: nat)
    requires func < 0x80
    ensures Answered(crc, ExceptionReply(crc, slave, func, code), slave, func, dataLen) == Failed(code)
  {
    OwnCrcFits(crc, [slave, func + 0x80, code]);
  }

  /** What else an answer can be: nothing, a damaged frame, or an intact one that does not answer the request. */
  lemma OtherAnswers(crc: Crc, reply: bytes, slave: byte, func: byte, dataLen: nat)
    requires func < 0x80 && 1 <= dataLen <= 105
    requires !exists data: bytes :: |data| == dataLen && Taken(reply, dataLen + 5) == ReadReply(crc, slave, func, data)
    requires !exists code: byte :: Taken(reply, dataLen + 5) == ExceptionReply(crc, slave, func, code)
    ensures var r := Taken(reply, dataLen + 5);
            Answered(crc, reply, slave, func, dataLen)
            == Failed(if r == [] then 0xF1
                      else if |r| >= 5 && 0x100 * (r[|r| - 2] as int) + r[|r| - 1] != crc(r[..|r| - 2]) then 0xF3 else 0xF2)
  {
    var r, a := Taken(reply, dataLen + 5), Answered(crc, reply, slave, func, dataLen);
    if a.Data? {
      DataIffReply(crc, reply, slave, func, dataLen, a.data);
    }
    if |r| == 5 && CrcFits(crc, r) && r[0] == slave && r[1] == func + 0x80 {
      ExceptionIsItsFields(crc, slave, func, r);
    }
  }

  lemma ExceptionIsItsFields(crc: Crc, slave: byte, func: byte, r: bytes)
    requires func < 0x80 && |r| == 5 && CrcFits(crc, r) && r[0] == slave && r[1] == func + 0x80
    ensures r == ExceptionReply(crc, slave, func, r[2])
  {
    assert r[..3] == [r[0], r[1], r[2]];
    assert r == r[..3] + [r[3], r[4]];
  }

  /** The coils a slave reports are the coils the script gets. */
  lemma CoilsArrive(crc: Crc, slave: byte, func: byte, bits: seq<bool>)
    requires func < 0x80 && 1 <= |bits| <= 840
    ensures BytesNeeded(|bits|) <= 105 && BytesNeeded(|bits|) + 5 <= 110
    ensures Answered(crc, ReadReply(crc, slave, func, Packed(bits)), slave, func, BytesNeeded(|bits|)) == Data(Packed(bits))
    ensures forall i :: 0 <= i < |bits| ==> BitAt(Packed(bits), i) == if bits[i] then 1 else 0
  {
    DataIffReply(crc, ReadReply(crc, slave, func, Packed(bits)), slave, func, BytesNeeded(|bits|), Packed(bits));
    forall i | 0 <= i < |bits| ensures BitAt(Packed(bits), i) == if bits[i] then 1 else 0 {
      PackedBits(bits, i);
    }
  }

  /** What a write makes of the reply: an error, or none. */
  function Confirmed(crc: Crc, reply: bytes, request: bytes, slave: byte, func: byte): Option<byte>
    requires func < 0x80 && |request| >= 6
  {
    var r := Taken(reply, 8);
    if r == [] then Some(NO_RESPONSE) else
      match Verdict(crc, r, slave, func)
      case Some(e) => Some(e)
      case None => if |r| != 8 || r[..6] != request[..6] then Some(BAD_FRAME) else None
  }

  /** A write succeeds exactly when the reply repeats the first six bytes of the request under a checksum of their own. */
  lemma ConfirmedIffEcho(crc: Crc, reply: bytes, request: bytes, slave: byte, func: byte)
    requires func < 0x80 && |request| >= 6 && request[0] == slave && request[1] == func
    ensures Confirmed(crc, reply, request, slave, func) == None <==> Taken(reply, 8) == WithCrc(crc, request[..6])
  {
    var r, body := Taken(reply, 8), request[..6];
    if Confirmed(crc, reply, request, slave, func) == None {
      assert r == r[..6] + r[6..];
      assert r[6..] == BigEndian(crc(body));
    }
    if r == WithCrc(crc, body) {
      OwnCrcFits(crc, body);
      assert r[0] == body[0] && r[1] == body[1];
    }
  }

  /** What a write that is not confirmed leaves: the exception's code, or what the frame lacks. */
  lemma OtherConfirmations(crc: Crc, reply: bytes, request: bytes, slave: byte, func: byte)
    requires func < 0x80 && |request| >= 6 && request[0] == slave && request[1] == func
    requires Taken(reply, 8) != WithCrc(crc, request[..6])
    ensures var r := Taken(reply, 8);
            Confirmed(crc, reply, request, slave, func)
            == Some(if r == [] then 0xF1
                    else if |r| >= 5 && 0x100 * (r[|r| - 2] as int) + r[|r| - 1] != crc(r[..|r| - 2]) then 0xF3
                    else if |r| == 5 && r[0] == slave && r[1] == func + 0x80 then r[2] else 0xF2)
  {
    ConfirmedIffEcho(crc, reply, request, slave, func);
  }

  class Master {
    const crc: Crc
    /** What comes back on the bus for a request. */
    const bus: bytes -> bytes
    var lastError: byte

    constructor (crc: Crc, bus: bytes -> bytes)
      ensures this.crc == crc && this.bus == bus && lastError == NO_ERROR
    {
      this.crc, this.bus, lastError := crc, bus, NO_ERROR;
    }

    /** Sends a request and takes at most the expected bytes of the answer. */
    method Exchange(request: bytes, expected: nat) returns (response: Option<bytes>)
      requires request != []
      modifies this
      ensures expected > 110 ==> response == None && lastError == 0x02
      ensures expected <= 110 ==>
        var r := Taken(bus(request), expected);
        if r == [] then response == None && lastError == 0xF1 else response == Some(r) && lastError == old(lastError)
    {
      if expected > FRAME_MAX {
        lastError := INVALID_DATA;
        return None;
      }
      var r := Taken(bus(request), expected);
      if r == [] {
        lastError := NO_RESPONSE;
        return None;
      }
      return Some(r);
    }

    method ValidateResponse(response: bytes, slave: byte, func: byte) returns (ok: bool)
      requires func < 0x80
      modifies this
      ensures ok == Verdict(crc, response, slave, func).None?
      ensures lastError == if ok then old(lastError) else Verdict(crc, response, slave, func).value
    {
      if |response| < 5 || |response| > FRAME_MAX {
        lastError := BAD_FRAME;
        return false;
      }
      var received := 0x100 * (response[|response| - 2] as int) + response[|response| - 1];
      if crc(response[..|response| - 2]) != received {
        lastError := BAD_CRC;
        return false;
      }
      if response[0] != slave {
        lastError := BAD_FRAME;
        return false;
      }
      if response[1] == func + 0x80 && |response| == 5 {
        lastError := response[2];
        return false;
      }
      if response[1] != func {
        lastError := BAD_FRAME;
        return false;
      }
      return true;
    }

    /** The part shared by both reads. */
    method Fetch(slave: byte, func: byte, addr: half, count: half, dataLen: nat) returns (data: Option<bytes>, request: bytes)
      requires func < 0x80 && 1 <= dataLen <= READ_DATA_MAX
      modifies this
      ensures AskedBy(crc, request) == Some(Asked(slave, func, addr, count))
      ensures match Answered(crc, bus(request), slave, func, dataLen)
              case Data(d) => data == Some(d) && |d| == dataLen && lastError == old(lastError)
              case Failed(e) => data == None && lastError == e
    {
      request, data := SimpleRequest(crc, slave, func, addr, count), None;
      assert AskedBy(crc, request) == Some(Asked(slave, func, addr, count)) by {
        SimpleRequestIff(crc, request, slave, func, addr, count);
      }
      var response := Exchange(request, dataLen + 5);
      if response == None {
        return;
      }
      var r := response.value;
      var ok := ValidateResponse(r, slave, func);
      if !ok {
        return;
      }
      if r[2] != dataLen || |r| != dataLen + 5 {
        lastError := BAD_FRAME;
        return;
      }
      data := Some(r[3..3 + dataLen]);
    }

    /** Reads coils or inputs into a script array; `None` is a script error, 0 a failed read. */
    method ReadBits(slave: int, func: byte, addr: int, count: int, cells: array<Cell>) returns (r: Option<int>, sent: Option<bytes>)
      requires func == 0x01 || func == 0x02
      modifies this, cells
      ensures r == None <==> !(1 <= slave <= 247 && 0 <= addr <= 65535 && 1 <= count <= 840)
      ensures r == None || r == Some(0) ==> cells[..] == old(cells[..])
      ensures r == None ==> sent == None && lastError == old(lastError)
      ensures r.Some? && !(count <= cells.Length <= 65535) ==> r == Some(0) && sent == None && lastError == 0x02
      ensures r.Some? && count <= cells.Length <= 65535 ==>
        && sent.Some? && AskedBy(crc, sent.value) == Some(Asked(slave, func, addr, count))
        && match Answered(crc, bus(sent.value), slave, func, BytesNeeded(count))
           case Failed(e) => r == Some(0) && lastError == e
           case Data(d) =>
               && r == Some(count) && lastError == 0 && |d| == BytesNeeded(count)
               && (forall i :: 0 <= i < count ==> cells[i] == Integer(BitAt(d, i)))
               && cells[count..] == old(cells[count..])
    {
      if !InRange(slave, addr, count, 8 * READ_DATA_MAX) {
        return None, None;
      }
      if !Capacity(cells.Length, count) {
        lastError := INVALID_DATA;
        return Some(0), None;
      }
      var data, request := Fetch(slave, func, addr, count, (count + 7) / 8);
      if data == None {
        return Some(0), Some(request);
      }
      UnpackBits(data.value, count, cells);
      lastError := NO_ERROR;
      return Some(count), Some(request);
    }

    /** Reads registers into a script array, two cells a register. */
    method ReadRegisters(slave: int, func: byte, addr: int, count: int, cells: array<Cell>)
      returns (r: Option<int>, sent: Option<bytes>)
      requires func == 0x03 || func == 0x04
      modifies this, cells
      ensures r == None <==> !(1 <= slave <= 247 && 0 <= addr <= 65535 && 1 <= count <= 52)
      ensures r == None || r == Some(0) ==> cells[..] == old(cells[..])
      ensures r == None ==> sent == None && lastError == old(lastError)
      ensures r.Some? && !(2 * count <= cells.Length <= 65535) ==> r == Some(0) && sent == None && lastError == 0x02
      ensures r.Some? && 2 * count <= cells.Length <= 65535 ==>
        && sent.Some? && AskedBy(crc, sent.value) == Some(Asked(slave, func, addr, count))
        && match Answered(crc, bus(sent.value), slave, func, 2 * count)
           case Failed(e) => r == Some(0) && lastError == e
           case Data(d) =>
               && r == Some(count) && lastError == 0 && |d| == 2 * count
               && (forall i :: 0 <= i < 2 * count ==> cells[i] == Integer(d[i]))
               && cells[2 * count..] == old(cells[2 * count..])
    {
      if !InRange(slave, addr, count, READ_DATA_MAX / 2) {
        return None, None;
      }
      if !Capacity(cells.Length, 2 * count) {
        lastError := INVALID_DATA;
        return Some(0), None;
      }
      var data, request := Fetch(slave, func, addr, count, 2 * count);
      if data == None {
        return Some(0), Some(request);
      }
      for i := 0 to 2 * count
        invariant forall j :: 0 <= j < i ==> cells[j] == Integer(data.value[j])
        invariant cells[2 * count..] == old(cells[2 * count..])
      {
        cells[i] := Integer(data.value[i]);
      }
      lastError := NO_ERROR;
      return Some(count), Some(request);
    }

    /** Sends a write and checks the echo. */
    method Send(request: bytes, slave: byte, func: byte) returns (ok: bool)
      requires func < 0x80 && |request| >= 6 && request[0] == slave && request[1] == func
      modifies this
      ensures ok == Confirmed(crc, bus(request), request, slave, func).None?
      ensures lastError == if ok then NO_ERROR else Confirmed(crc, bus(request), request, slave, func).value
    {
      var response := Exchange(request, 8);
      if response == None {
        return false;
      }
      var r := response.value;
      ok := ValidateResponse(r, slave, func);
      if !ok {
        return false;
      }
      if |r| != 8 || r[0] != slave || r[1] != func || r[..6] != request[..6] {
        lastError := BAD_FRAME;
        return false;
      }
      lastError := NO_ERROR;
    }

    /** Writes one coil or register; any nonzero value sets a coil. Success is the request itself coming back. */
    method WriteSingle(slave: int, func: byte, addr: int, value: int) returns (r: Option<bool>, sent: Option<bytes>)
      requires func == 0x05 || func == 0x06
      modifies this
      ensures r == None <==> !(1 <= slave <= 247 && 0 <= addr <= 65535)
      ensures r == None ==> sent == None && lastError == old(lastError)
      ensures r.Some? && func == 0x06 && !(0 <= value <= 65535) ==> r == Some(false) && sent == None && lastError == 0x02
      ensures r.Some? && (func == 0x05 || 0 <= value <= 65535) ==>
        && sent.Some?
        && AskedBy(crc, sent.value)
           == Some(Asked(slave, func, addr, if func == 0x06 then value else if value != 0 then 0xFF00 else 0))
        && (r == Some(true) <==> Taken(bus(sent.value), 8) == sent.value)
        && var error := Confirmed(crc, bus(sent.value), sent.value, slave, func);
        && r == Some(error.None?) && lastError == (if error.None? then 0 else error.value)
    {
      if !InRange(slave, addr, 1, 1) {
        return None, None;
      }
      var wire := if value != 0 then 0xFF00 else 0;
      if func == WRITE_REGISTER {
        if value < 0 || value > 0xFFFF {
          lastError := INVALID_DATA;
          return Some(false), None;
        }
        wire := value;
      }
      var request := SimpleRequest(crc, slave, func, addr, wire);
      SimpleRequestIff(crc, request, slave, func, addr, wire);
      ConfirmedIffEcho(crc, bus(request), request, slave, func);
      var ok := Send(request, slave, func);
      return Some(ok), Some(request);
    }

    /** Writes coils: what a slave reads out of the request are the cells of the script, nonzero being set. */
    method WriteCoils(slave: int, addr: int, count: int, cells: seq<Cell>) returns (r: Option<bool>, sent: Option<bytes>)
      modifies this
      ensures r == None <==>
        || !(1 <= slave <= 247 && 0 <= addr <= 65535 && 1 <= count <= 808)
        || (count <= |cells| <= 65535 && !AreWhole(cells[..count]))
      ensures r == None ==> sent == None && lastError == old(lastError)
      ensures r.Some? && !(count <= |cells| <= 65535) ==> r == Some(false) && sent == None && lastError == 0x02
      ensures r.Some? && count <= |cells| <= 65535 ==>
        && sent.Some? && |sent.value| <= 110
        && CoilsWritten(crc, sent.value) == Some(Write(slave, addr, BitsOf(cells[..count])))
        && var error := Confirmed(crc, bus(sent.value), sent.value, slave, WRITE_COILS);
        && r == Some(error.None?) && lastError == (if error.None? then 0 else error.value)
    {
      sent := None;
      if !InRange(slave, addr, count, 8 * WRITE_DATA_MAX) {
        return None, None;
      }
      if !Capacity(|cells|, count) {
        lastError := INVALID_DATA;
        return Some(false), None;
      }
      var data := PackBits(cells[..count], WRITE_DATA_MAX);
      if data == None {
        return None, None;
      }
      CoilRequestIsUnderstood(crc, slave, addr, BitsOf(cells[..count]));
      var request := MultipleRequest(crc, slave, WRITE_COILS, addr, count, data.value);
      var ok := Send(request, slave, WRITE_COILS);
      return Some(ok), Some(request);
    }

    /** Writes registers from two cells each; what a slave reads out of the request are the cells' bytes. */
    method WriteRegisters(slave: int, addr: int, count: int, cells: seq<Cell>) returns (r: Option<bool>, sent: Option<bytes>)
      modifies this
      ensures r == None <==>
        || !(1 <= slave <= 247 && 0 <= addr <= 65535 && 1 <= count <= 50)
        || (2 * count <= |cells| <= 65535 && !AreBytes(cells[..2 * count]))
      ensures r == None ==> sent == None && lastError == old(lastError)
      ensures r.Some? && !(2 * count <= |cells| <= 65535) ==> r == Some(false) && sent == None && lastError == 0x02
      ensures r.Some? && 2 * count <= |cells| <= 65535 ==>
        && sent.Some? && |sent.value| <= 110
        && RegistersWritten(crc, sent.value) == Some(Write(slave, addr, BytesOf(cells[..2 * count])))
        && var error := Confirmed(crc, bus(sent.value), sent.value, slave, WRITE_REGISTERS);
        && r == Some(error.None?) && lastError == (if error.None? then 0 else error.value)
    {
      sent := None;
      if !InRange(slave, addr, count, WRITE_DATA_MAX / 2) {
        return None, None;
      }
      if !Capacity(|cells|, 2 * count) {
        lastError := INVALID_DATA;
        return Some(false), None;
      }
      var data: bytes := [];
      ghost var used := cells[..2 * count];
      for i := 0 to 2 * count
        invariant AreBytes(used[..i]) && data == BytesOf(used[..i])
      {
        var value := Whole(cells[i]);
        if value == None || !(0 <= value.value <= 255) {
          assert !AreBytes(used) by { assert used[i] == cells[i]; }
          return None, None;
        }
        assert used[..i + 1] == used[..i] + [cells[i]];
        data := data + [value.value];
      }
      assert used[..2 * count] == used;
      RegisterRequestIsUnderstood(crc, slave, addr, count, data);
      var request := MultipleRequest(crc, slave, WRITE_REGISTERS, addr, count, data);
      var ok := Send(request, slave, WRITE_REGISTERS);
      return Some(ok), Some(request);
    }
  }

  /** A coil is set by any cell but zero, and a register's bytes are its cells' numbers. */
  lemma CellsAreSent(cells: seq<Cell>, i: nat)
    requires i < |cells|
    ensures AreWhole(cells) ==> (BitsOf(cells)[i] <==> cells[i] !in {Integer(0), Real(0.0)})
    ensures AreBytes(cells) ==> cells[i] in {Integer(BytesOf(cells)[i]), Real(BytesOf(cells)[i] as real)}
  {
    WholeIff(cells[i], 0);
    if AreBytes(cells) {
      WholeIff(cells[i], BytesOf(cells)[i]);
    }
  }

  predicate AreBytes(cells: seq<Cell>) {
    forall i :: 0 <= i < |cells| ==> Whole(cells[i]).Some? && 0 <= Whole(cells[i]).value <= 255
  }

  function BytesOf(cells: seq<Cell>): (data: bytes)
    requires AreBytes(cells)
    ensures |data| == |cells|
  {
    seq(|cells|, i requires 0 <= i < |cells| => Whole(cells[i]).value)
  }

  /** The arguments every function checks first; `max` is its largest quantity. */
  predicate InRange(slave: int, addr: int, count: int, max: nat) {
    1 <= slave <= 247 && 0 <= addr <= 0xFFFF && 1 <= count <= max
  }

  /** The script's array has room. */
  predicate Capacity(length: nat, needed: int) {
    0 < length <= 0xFFFF && needed <= length
  }
}
