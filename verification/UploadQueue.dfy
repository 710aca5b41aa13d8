/** The ring of telemetry payloads waiting for the broker. */
module UploadQueue {
  import opened CStrings
  import opened Entries
  import opened JsonStrings
  import opened JsonValues
  import opened JsonGrammar
  import opened JsonRoundTrip
  import opened JsonSerializer
  import opened Windows
  import opened Telemetry

  const SLOTS: nat := 8
  const PAYLOAD: nat := 768

  /** How payloads are printed: compact, slashes escaped. */
  const STYLE: Style := Style(false, true)

  function Text(v: Value): bytes {
    Print(v, 0, STYLE)
  }

  // ---- The queue as a machine ----

  datatype Queue = Queue(waiting: seq<Value>, lastFlush: Tick)

  predicate Accepts(q: Queue, v: Value) {
    |q.waiting| < SLOTS && |Text(v)| < PAYLOAD
  }

  function AfterEnqueue(q: Queue, v: Value): Queue {
    if Accepts(q, v) then q.(waiting := q.waiting + [v]) else q
  }

  /** The head is offered to the broker. */
  predicate Offers(q: Queue, now: Tick, ready: bool) {
    q.waiting != [] && ready && Spaced(q.lastFlush, now)
  }

  function AfterFlush(q: Queue, now: Tick, ready: bool, delivered: bool): Queue {
    if Offers(q, now, ready) && delivered then Queue(q.waiting[1..], now) else q
  }

  datatype Event = Enqueue(v: Value) | Flush(now: Tick, ready: bool, delivered: bool) | Reset

  datatype Publication = Publication(v: Value, now: Tick)

  /** The queue with everything accepted and published since the last reset. */
  datatype Log = Log(queue: Queue, accepted: seq<Value>, published: seq<Publication>)

  const START: Log := Log(Queue([], 0), [], [])

  function Logged(log: Log, e: Event): Log {
    match e
    case Enqueue(v) => Log(AfterEnqueue(log.queue, v), if Accepts(log.queue, v) then log.accepted + [v] else log.accepted, log.published)
    case Flush(now, ready, delivered) =>
      Log(AfterFlush(log.queue, now, ready, delivered), log.accepted,
          if Offers(log.queue, now, ready) && delivered then log.published + [Publication(log.queue.waiting[0], now)] else log.published)
    case Reset => START
  }

  function RunLog(events: seq<Event>): Log {
    if events == [] then START else Logged(RunLog(events[..|events| - 1]), events[|events| - 1])
  }

  function Payloads(published: seq<Publication>): seq<Value> {
    seq(|published|, i requires 0 <= i < |published| => published[i].v)
  }

  /** A minute of ticks, which wrap around; a last tick of zero stands for none. */
  predicate Apart(last: Tick, now: Tick) {
    last == 0 || (now - last) % 0x1_0000_0000 >= 60000
  }

  lemma SpacedIsApart(last: Tick, now: Tick)
    ensures Spaced(last, now) <==> Apart(last, now)
  {
  }

  ghost predicate Faithful(log: Log) {
    && Payloads(log.published) + log.queue.waiting == log.accepted
    && |log.queue.waiting| <= 8
    && log.queue.lastFlush == (if log.published == [] then 0 else log.published[|log.published| - 1].now)
    && (forall i :: 0 <= i < |log.accepted| ==> |Print(log.accepted[i], 0, Style(false, true))| < 768)
    && (forall i :: 0 < i < |log.published| ==> Apart(log.published[i - 1].now, log.published[i].now))
  }

  lemma LoggedIsFaithful(log: Log, e: Event)
    requires Faithful(log)
    ensures Faithful(Logged(log, e))
  {
    var next := Logged(log, e);
    if e.Flush? && Offers(log.queue, e.now, e.ready) && e.delivered {
      SpacedIsApart(log.queue.lastFlush, e.now);
      var v := log.queue.waiting[0];
      assert Payloads(next.published) == Payloads(log.published) + [v];
      assert log.queue.waiting == [v] + next.queue.waiting;
    }
  }

  /**
    In every run: what was published since the last reset is the front of what was accepted, in order, with the queue
    as the rest of it; publications keep their distance.
  */
  lemma {:induction false} RunIsFaithful(events: seq<Event>)
    ensures Faithful(RunLog(events))
  {
    if events != [] {
      RunIsFaithful(events[..|events| - 1]);
      LoggedIsFaithful(RunLog(events[..|events| - 1]), events[|events| - 1]);
    }
  }

  predicate PublishedAt(events: seq<Event>, i: nat, first: Tick, second: Tick) {
    var published := RunLog(events).published;
    i + 1 < |published| && published[i].now == first && published[i + 1].now == second
  }

  lemma LoggedNext(events: seq<Event>, e: Event)
    ensures RunLog(events + [e]) == Logged(RunLog(events), e)
  {
    assert (events + [e])[..|events|] == events;
  }

  /** Consecutive publications can be closer than the interval exactly when the earlier one is at tick 0. */
  lemma ClosePublicationsIff(first: Tick, second: Tick)
    requires (second - first) % 0x1_0000_0000 < 60000
    ensures (exists events, i :: PublishedAt(events, i, first, second)) <==> first == 0
  {
    if events, i :| PublishedAt(events, i, first, second) {
      RunIsFaithful(events);
    }
    if first == 0 {
      var one, two := [Enqueue(Null)], [Enqueue(Null)] + [Enqueue(Null)];
      var three := two + [Flush(0, true, true)];
      var four := three + [Flush(second, true, true)];
      LoggedNext([], Enqueue(Null));
      assert [] + [Enqueue(Null)] == one;
      LoggedNext(one, Enqueue(Null));
      LoggedNext(two, Flush(0, true, true));
      LoggedNext(three, Flush(second, true, true));
      assert PublishedAt(four, 0, first, second);
    }
  }

  // ---- Payload texts ----

  predicate NoNul(s: bytes) {
    forall i :: 0 <= i < |s| ==> s[i] != 0
  }

  lemma {:induction false} EscapedHasNoNul(s: bytes, slashes: bool)
    ensures NoNul(Escaped(s, slashes))
  {
    if s != [] {
      EscapedHasNoNul(s[1..], slashes);
    }
  }

  lemma {:induction false} TextHasNoNul(v: Value, level: nat, style: Style)
    ensures NoNul(Print(v, level, style))
    decreases v, 1
  {
    match v
    case String(s) => EscapedHasNoNul(s, style.slashes);
    case Array(items) =>
      if items != [] {
        ItemsHaveNoNul(items, level, style);
      }
    case Object(members) =>
      if members != [] {
        MembersHaveNoNul(members, level, style);
      }
    case _ =>
  }

  lemma {:induction false} ItemsHaveNoNul(items: seq<Value>, level: nat, style: Style)
    requires items != []
    ensures NoNul(PrintItems(items, level, style))
    decreases items, 0
  {
    TextHasNoNul(items[0], level + 1, style);
    if |items| > 1 {
      ItemsHaveNoNul(items[1..], level, style);
    }
  }

  lemma {:induction false} MembersHaveNoNul(members: seq<Entry<Value>>, level: nat, style: Style)
    requires members != []
    ensures NoNul(PrintMembers(members, level, style))
    decreases members, 0
  {
    var member := PrintMember(members[0], level + 1, style);
    assert NoNul(member) by {
      EscapedHasNoNul(members[0].name, style.slashes);
      TextHasNoNul(members[0].value, level + 1, style);
    }
    var rest := PrintMembers(members, level, style)[|member|..];
    assert NoNul(rest) by {
      if |members| > 1 {
        MembersHaveNoNul(members[1..], level, style);
      }
    }
    assert PrintMembers(members, level, style) == member + rest;
  }

  /** Every level of nesting takes room in the text. */
  lemma {:induction false} DepthTakesRoom(v: Value, level: nat, style: Style)
    ensures |Print(v, level, style)| > Depth(v)
    decreases v, 1
  {
    match v
    case Array(items) =>
      if items != [] {
        ItemsTakeRoom(items, level, style);
      }
    case Object(members) =>
      if members != [] {
        MembersTakeRoom(members, level, style);
      }
    case _ =>
  }

  lemma {:induction false} ItemsTakeRoom(items: seq<Value>, level: nat, style: Style)
    requires items != []
    ensures |PrintItems(items, level, style)| > ItemsDepth(items)
    decreases items, 0
  {
    DepthTakesRoom(items[0], level + 1, style);
    if |items| > 1 {
      ItemsTakeRoom(items[1..], level, style);
    }
  }

  lemma {:induction false} MembersTakeRoom(members: seq<Entry<Value>>, level: nat, style: Style)
    requires members != []
    ensures |PrintMembers(members, level, style)| > MembersDepth(members)
    decreases members, 0
  {
    DepthTakesRoom(members[0].value, level + 1, style);
    if |members| > 1 {
      MembersTakeRoom(members[1..], level, style);
    }
  }

  /** Whatever the queue accepts is read back as the same value. */
  lemma AcceptedIsReadable(v: Value)
    requires Storable(v) && |Text(v)| < 768
    ensures ParseText(Text(v)) == Accept(v, [])
  {
    DepthTakesRoom(v, 0, STYLE);
    RoundTrip(v, STYLE);
  }

  // ---- The ring ----

  /** A buffer that holds `t` as a C string. */
  predicate HoldsText(buf: bytes, t: bytes) {
    |t| < |buf| && buf[..|t|] == t && buf[|t|] == 0
  }

  lemma NulEndsText(buf: bytes, t: bytes, n: nat)
    requires HoldsText(buf, t) && NoNul(t) && n <= |t|
    ensures buf[n] == 0 <==> n == |t|
  {
    assert n < |t| ==> buf[n] == buf[..|t|][n];
  }

  /** Reads a C string out of a buffer that holds one. */
  method ReadText(buf: array<byte>, ghost t: bytes) returns (s: bytes)
    requires HoldsText(buf[..], t) && NoNul(t)
    ensures s == t
  {
    var n := 0;
    NulEndsText(buf[..], t, 0);
    while buf[n] != 0
      invariant n <= |t| && (buf[n] == 0 <==> n == |t|)
      decreases |t| - n
    {
      n := n + 1;
      NulEndsText(buf[..], t, n);
    }
    s := buf[..n];
  }

  /** Which place in the queue a cell of the ring has. */
  function Place(head: nat, c: nat): nat
    requires head < SLOTS
  {
    (c + SLOTS - head) % SLOTS
  }

  class Ring {
    const used: array<bool>
    const payloads: seq<array<byte>>
    var head: nat
    var count: nat
    var lastFlush: Tick
    /** Everything enqueued, flushed and reset so far. */
    ghost var log: Log

    ghost predicate Shape()
      reads this
    {
      && used.Length == SLOTS && |payloads| == SLOTS
      && (forall i :: 0 <= i < SLOTS ==> payloads[i].Length == PAYLOAD)
      && (forall i, j :: 0 <= i < j < SLOTS ==> payloads[i] != payloads[j])
    }

    /** The flags mark exactly the occupied cells, and these hold the texts of the waiting payloads in order. */
    ghost predicate Represents(waiting: seq<Value>)
      reads this, used, payloads
    {
      && Shape()
      && head < SLOTS && count == |waiting| <= SLOTS
      && (forall c :: 0 <= c < SLOTS ==> (used[c] <==> Place(head, c) < count))
      && (forall c :: 0 <= c < SLOTS && Place(head, c) < count ==> HoldsText(payloads[c][..], Text(waiting[Place(head, c)])))
    }

    ghost predicate Valid()
      reads this, used, payloads
    {
      Represents(log.queue.waiting) && lastFlush == log.queue.lastFlush
    }

    constructor ()
      ensures Valid() && log == START && fresh(used)
      ensures forall i :: 0 <= i < SLOTS ==> fresh(payloads[i])
    {
      var buffers := NewBuffers();
      payloads := buffers;
      used := new bool[SLOTS](_ => false);
      head, count, lastFlush, log := 0, 0, 0, START;
    }

    method Reset()
      requires Valid()
      modifies this, used, payloads
      ensures Valid() && log == START
    {
      for i := 0 to SLOTS
        invariant Shape() && forall j :: 0 <= j < i ==> !used[j]
      {
        used[i] := false;
        ClearBuffer(payloads[i]);
      }
      head, count, lastFlush, log := 0, 0, 0, START;
    }

    /** Drops a payload that does not fit, or the newest one when the ring is full. */
    method EnqueuePayload(v: Value) returns (ok: bool)
      requires Valid()
      modifies this, used, payloads
      ensures Valid() && log == Logged(old(log), Enqueue(v))
      ensures ok == (|old(log).queue.waiting| < 8 && |Print(v, 0, Style(false, true))| < 768)
      ensures log.queue.waiting == if ok then old(log).queue.waiting + [v] else old(log).queue.waiting
    {
      ghost var waiting := log.queue.waiting;
      log := Logged(log, Enqueue(v));
      if count >= SLOTS {
        return false;
      }
      var needed := SerializationSize(v, STYLE);
      if needed == 0 || needed > PAYLOAD {
        return false;
      }
      ok := true;
      AddTail(waiting, v);
    }

    /** Prints the payload into the first free cell. */
    method AddTail(ghost waiting: seq<Value>, v: Value)
      requires Represents(waiting) && count < SLOTS && |Text(v)| < PAYLOAD
      modifies this`count, used, payloads
      ensures Represents(waiting + [v])
    {
      var tail := (head + count) % SLOTS;
      TailIsFirstFree(head, count);
      var printed := SerializeToBuffer(v, STYLE, payloads[tail], PAYLOAD);
      assert HoldsText(payloads[tail][..], Text(v));
      assert forall c :: 0 <= c < SLOTS && c != tail ==> payloads[c][..] == old(payloads[c][..]);
      used[tail] := true;
      count := count + 1;
      forall c | 0 <= c < SLOTS
        ensures used[c] <==> Place(head, c) < count
        ensures Place(head, c) < count ==> HoldsText(payloads[c][..], Text((waiting + [v])[Place(head, c)]))
      {
        assert Place(head, c) == count - 1 <==> c == tail;
      }
    }

    /** Offers the head to the broker and gives it up only once it is delivered. */
    method FlushOne(now: Tick, ready: bool, delivered: bool) returns (sent: bool, offered: Option<bytes>)
      requires Valid()
      modifies this, used, payloads
      ensures Valid() && log == Logged(old(log), Flush(now, ready, delivered))
      ensures offered
           == if old(log).queue.waiting != [] && ready && Apart(old(log).queue.lastFlush, now)
              then Some(Print(old(log).queue.waiting[0], 0, Style(false, true))) else None
      ensures sent == (offered.Some? && delivered)
    {
      ghost var waiting := log.queue.waiting;
      SpacedIsApart(log.queue.lastFlush, now);
      log := Logged(log, Flush(now, ready, delivered));
      PlacesShift(head);
      if count == 0 || !used[head] || !ready {
        return false, None;
      }
      if lastFlush != 0 && (now - lastFlush) % 0x1_0000_0000 < INTERVAL {
        return false, None;
      }
      TextHasNoNul(waiting[0], 0, STYLE);
      var text := ReadText(payloads[head], Text(waiting[0]));
      offered := Some(text);
      if !delivered {
        return false, offered;
      }
      DropHead(waiting);
      lastFlush := now;
      sent := true;
    }

    method DropHead(ghost waiting: seq<Value>)
      requires Represents(waiting) && waiting != []
      modifies this`head, this`count, used, payloads[head]
      ensures Represents(waiting[1..])
    {
      ghost var first := head;
      used[head] := false;
      ClearBuffer(payloads[head]);
      assert forall c :: 0 <= c < SLOTS && c != head ==> payloads[c][..] == old(payloads[c][..]);
      head := (head + 1) % SLOTS;
      count := count - 1;
      forall c | 0 <= c < SLOTS
        ensures used[c] <==> Place(head, c) < count
        ensures Place(head, c) < count ==> HoldsText(payloads[c][..], Text(waiting[1..][Place(head, c)]))
      {
        PlacesShift(first);
      }
    }
  }

  method NewBuffers() returns (buffers: seq<array<byte>>)
    ensures |buffers| == SLOTS
    ensures forall i :: 0 <= i < SLOTS ==> fresh(buffers[i]) && buffers[i].Length == PAYLOAD
    ensures forall i, j :: 0 <= i < j < SLOTS ==> buffers[i] != buffers[j]
  {
    buffers := [];
    for n := 0 to SLOTS
      invariant |buffers| == n
      invariant forall i :: 0 <= i < n ==> fresh(buffers[i]) && buffers[i].Length == PAYLOAD
      invariant forall i, j :: 0 <= i < j < n ==> buffers[i] != buffers[j]
    {
      var buffer := new byte[PAYLOAD];
      buffers := buffers + [buffer];
    }
  }

  method ClearBuffer(buf: array<byte>)
    modifies buf
    ensures forall i :: 0 <= i < buf.Length ==> buf[i] == 0
  {
    for i := 0 to buf.Length
      invariant forall j :: 0 <= j < i ==> buf[j] == 0
    {
      buf[i] := 0;
    }
  }

  /** The first free cell has the first free place, and no other cell has it. */
  lemma TailIsFirstFree(head: nat, count: nat)
    requires head < SLOTS && count < SLOTS
    ensures forall c :: 0 <= c < SLOTS ==> (Place(head, c) == count <==> c == (head + count) % SLOTS)
  {
  }

  /** Moving the head by one moves every place by one. */
  lemma PlacesShift(head: nat)
    requires head < SLOTS
    ensures forall c :: 0 <= c < SLOTS ==>
      (Place(head, c) == 0 <==> c == head) &&
      Place((head + 1) % SLOTS, c) == if c == head then SLOTS - 1 else Place(head, c) - 1
  {
  }
}
