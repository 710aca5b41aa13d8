/**
  The two-pass serializer: without a buffer it only counts, with one it writes the same text. Every piece is followed
  by an interim NUL that the next piece overwrites.
*/
module JsonSerializer {
  import opened CStrings
  import opened Entries
  import opened JsonStrings
  import opened JsonValues

  /** `now` is `orig` with `text` written at `off`; only the byte behind the text is left open. */
  ghost predicate Painted(now: bytes, orig: bytes, off: nat, text: bytes) {
    && |now| == |orig|
    && off + |text| < |orig|
    && now[..off] == orig[..off]
    && now[off..off + |text|] == text
    && now[off + |text| + 1..] == orig[off + |text| + 1..]
  }

  lemma PaintMore(now: bytes, mid: bytes, orig: bytes, off: nat, a: bytes, b: bytes)
    requires Painted(mid, orig, off, a) && Painted(now, mid, off + |a|, b)
    ensures Painted(now, orig, off, a + b)
  {
    assert now[..off] == now[..off + |a|][..off] == mid[..off + |a|][..off] == mid[..off];
    assert now[off..off + |a|] == now[..off + |a|][off..] == mid[..off + |a|][off..] == a;
    assert now[off..off + |a + b|] == now[off..off + |a|] + now[off + |a|..off + |a| + |b|];
    var k := off + |a| + |b| + 1;
    assert mid[k..] == mid[off + |a| + 1..][|b|..] == orig[off + |a| + 1..][|b|..] == orig[k..];
  }

  /** In the writing pass, `done` ends just before `end` in what was `orig`; in the sizing pass, nothing is written. */
  ghost predicate Written(buf: array?<byte>, orig: bytes, end: nat, done: bytes)
    reads buf
  {
    |done| <= end && (buf != null ==> Painted(buf[..], orig, end - |done|, done))
  }

  ghost predicate Fits(buf: array?<byte>, end: nat, text: bytes) {
    buf != null ==> end + |text| < buf.Length
  }

  /** `APPEND_STRING`: the text, then an interim NUL. */
  method AppendString(text: bytes, buf: array?<byte>, end: nat, ghost orig: bytes, ghost done: bytes) returns (end': nat)
    requires Written(buf, orig, end, done) && Fits(buf, end, text)
    modifies buf
    ensures end' == end + |text| && Written(buf, orig, end', done + text)
    ensures buf != null ==> buf[end'] == 0
  {
    end' := end + |text|;
    if buf != null {
      ghost var mid := buf[..];
      forall i | 0 <= i < |text| {
        buf[end + i] := text[i];
      }
      buf[end'] := 0;
      PaintMore(buf[..], mid, orig, end - |done|, done, text);
    }
  }

  /** A plain character of a string literal: no interim NUL. */
  method AppendChar(c: byte, buf: array?<byte>, end: nat, ghost orig: bytes, ghost done: bytes) returns (end': nat)
    requires Written(buf, orig, end, done) && Fits(buf, end, [c])
    modifies buf
    ensures end' == end + 1 && Written(buf, orig, end', done + [c])
  {
    if buf != null {
      ghost var mid := buf[..];
      buf[end] := c;
      PaintMore(buf[..], mid, orig, end - |done|, done, [c]);
    }
    return end + 1;
  }

  lemma Assoc(a: bytes, b: bytes, c: bytes)
    ensures a + b + c == a + (b + c)
  {
  }

  lemma SpacesJoin(m: nat, n: nat)
    ensures Spaces(m) + Spaces(n) == Spaces(m + n)
  {
  }

  /** `APPEND_INDENT`, in pretty form only. */
  method AppendIndent(level: nat, style: Style, buf: array?<byte>, end: nat, ghost orig: bytes, ghost done: bytes)
    returns (end': nat)
    requires Written(buf, orig, end, done) && Fits(buf, end, Indent(level, style))
    modifies buf
    ensures end' == end + |Indent(level, style)| && Written(buf, orig, end', done + Indent(level, style))
  {
    end' := end;
    assert done + [] == done && Spaces(0) == [];
    if style.pretty {
      for i := 0 to level
        invariant end' == end + 4 * i && Written(buf, orig, end', done + Spaces(4 * i))
      {
        end' := AppendString(Spaces(4), buf, end', orig, done + Spaces(4 * i));
        SpacesJoin(4 * i, 4);
        assert done + Spaces(4 * i) + Spaces(4) == done + Spaces(4 * (i + 1));
      }
    }
  }

  /** One character of a string literal. */
  method AppendEscaped(c: byte, slashes: bool, buf: array?<byte>, end: nat, ghost orig: bytes, ghost done: bytes)
    returns (end': nat)
    requires Written(buf, orig, end, done) && Fits(buf, end, EscapeByte(c, slashes))
    modifies buf
    ensures end' == end + |EscapeByte(c, slashes)| && Written(buf, orig, end', done + EscapeByte(c, slashes))
  {
    var e := EscapeByte(c, slashes);
    if |e| > 1 || c == SLASH {
      end' := AppendString(e, buf, end, orig, done);
    } else {
      end' := AppendChar(c, buf, end, orig, done);
    }
  }

  lemma EscapedSplit(s: bytes, slashes: bool, i: nat, text: bytes)
    requires i < |s|
    ensures text + (Escaped(s[i..], slashes) + [QUOTE])
         == text + EscapeByte(s[i], slashes) + (Escaped(s[i + 1..], slashes) + [QUOTE])
  {
    assert s[i..][1..] == s[i + 1..];
  }

  /** A string literal: escapes one by one, plain characters without an interim NUL. */
  method SerializeString(s: bytes, slashes: bool, buf: array?<byte>, end: nat, ghost orig: bytes, ghost done: bytes)
    returns (end': nat)
    requires Written(buf, orig, end, done) && Fits(buf, end, Quoted(s, slashes))
    modifies buf
    ensures end' == end + |Quoted(s, slashes)| && Written(buf, orig, end', done + Quoted(s, slashes))
    ensures buf != null ==> buf[end'] == 0
  {
    ghost var text := [QUOTE];
    end' := AppendString([QUOTE], buf, end, orig, done);
    for i := 0 to |s|
      invariant Quoted(s, slashes) == text + (Escaped(s[i..], slashes) + [QUOTE])
      invariant end' == end + |text| && Written(buf, orig, end', done + text)
    {
      EscapedSplit(s, slashes, i, text);
      end' := AppendEscaped(s[i], slashes, buf, end', orig, done + text);
      Assoc(done, text, EscapeByte(s[i], slashes));
      text := text + EscapeByte(s[i], slashes);
    }
    end' := AppendString([QUOTE], buf, end', orig, done + text);
    Assoc(done, text, [QUOTE]);
    assert Escaped(s[|s|..], slashes) + [QUOTE] == [QUOTE];
  }

  /** What is left to write before item `i`: its indentation and the rest, or the last line's and the bracket. */
  function ItemsLeft(items: seq<Value>, i: nat, level: nat, style: Style): bytes
    requires i <= |items|
  {
    if i < |items| then Indent(level + 1, style) + PrintItems(items[i..], level, style)
    else Indent(level, style) + [CLOSE_BRACKET]
  }

  function MembersLeft(members: seq<Entry<Value>>, i: nat, level: nat, style: Style): bytes
    requires i <= |members|
  {
    if i < |members| then Indent(level + 1, style) + PrintMembers(members[i..], level, style)
    else Indent(level, style) + [CLOSE_BRACE]
  }

  /** A comma unless it is the last element, then the line end. */
  function Separator(last: bool, style: Style): bytes {
    (if last then [] else [COMMA]) + Newline(style)
  }

  lemma NextLine(level: nat, style: Style, text: bytes)
    ensures [COMMA] + (Gap(level + 1, style) + text) == Separator(false, style) + (Indent(level + 1, style) + text)
  {
  }

  lemma ItemsLeftSplit(items: seq<Value>, i: nat, level: nat, style: Style)
    requires i < |items|
    ensures ItemsLeft(items, i, level, style)
         == Indent(level + 1, style) + (Print(items[i], level + 1, style)
            + (Separator(i == |items| - 1, style) + ItemsLeft(items, i + 1, level, style)))
  {
    assert items[i..][1..] == items[i + 1..] && items[i..][0] == items[i];
    if i == |items| - 1 {
      Assoc(Newline(style), Indent(level, style), [CLOSE_BRACKET]);
      assert [] + Newline(style) == Newline(style);
    } else {
      NextLine(level, style, PrintItems(items[i + 1..], level, style));
    }
  }

  lemma MembersLeftSplit(members: seq<Entry<Value>>, i: nat, level: nat, style: Style)
    requires i < |members|
    ensures MembersLeft(members, i, level, style)
         == Indent(level + 1, style) + (PrintMember(members[i], level + 1, style)
            + (Separator(i == |members| - 1, style) + MembersLeft(members, i + 1, level, style)))
  {
    assert members[i..][1..] == members[i + 1..] && members[i..][0] == members[i];
    if i == |members| - 1 {
      Assoc(Newline(style), Indent(level, style), [CLOSE_BRACE]);
      assert [] + Newline(style) == Newline(style);
    } else {
      NextLine(level, style, PrintMembers(members[i + 1..], level, style));
    }
  }

  method AppendSeparator(last: bool, style: Style, buf: array?<byte>, end: nat, ghost orig: bytes, ghost done: bytes)
    returns (end': nat)
    requires Written(buf, orig, end, done) && Fits(buf, end, Separator(last, style))
    modifies buf
    ensures end' == end + |Separator(last, style)| && Written(buf, orig, end', done + Separator(last, style))
  {
    end' := end;
    ghost var comma := if last then [] else [COMMA];
    assert done + [] == done;
    if !last {
      end' := AppendString([COMMA], buf, end', orig, done);
    }
    end' := AppendNewline(style, buf, end', orig, done + comma);
    Assoc(done, comma, Newline(style));
  }

  method AppendNewline(style: Style, buf: array?<byte>, end: nat, ghost orig: bytes, ghost done: bytes) returns (end': nat)
    requires Written(buf, orig, end, done) && Fits(buf, end, Newline(style))
    modifies buf
    ensures end' == end + |Newline(style)| && Written(buf, orig, end', done + Newline(style))
  {
    end' := end;
    assert done + [] == done;
    if style.pretty {
      end' := AppendString([0x0A], buf, end', orig, done);
    }
  }

  method AppendColon(style: Style, buf: array?<byte>, end: nat, ghost orig: bytes, ghost done: bytes) returns (end': nat)
    requires Written(buf, orig, end, done) && Fits(buf, end, Colon(style))
    modifies buf
    ensures end' == end + |Colon(style)| && Written(buf, orig, end', done + Colon(style))
  {
    end' := AppendString([COLON], buf, end, orig, done);
    if style.pretty {
      end' := AppendString([0x20], buf, end', orig, done + [COLON]);
      Assoc(done, [COLON], [0x20]);
    }
  }

  lemma Regroup(now: bytes, a: bytes, b: bytes, c: bytes, d: bytes)
    ensures now + (a + (b + (c + d))) == now + a + b + c + d
  {
  }

  method Serialize(v: Value, level: nat, style: Style, buf: array?<byte>, end: nat, ghost orig: bytes, ghost done: bytes)
    returns (end': nat)
    requires Written(buf, orig, end, done) && Fits(buf, end, Print(v, level, style))
    modifies buf
    ensures end' == end + |Print(v, level, style)| && Written(buf, orig, end', done + Print(v, level, style))
    ensures buf != null ==> buf[end'] == 0
    decreases v, 2
  {
    match v
    case Null => end' := AppendString(Ascii("null"), buf, end, orig, done);
    case Bool(b) => end' := AppendString(if b then Ascii("true") else Ascii("false"), buf, end, orig, done);
    case Number(n) => end' := AppendString(Decimal(n), buf, end, orig, done);
    case String(s) => end' := SerializeString(s, style.slashes, buf, end, orig, done);
    case Array(items) => end' := SerializeItems(items, level, style, buf, end, orig, done);
    case Object(members) => end' := SerializeMembers(members, level, style, buf, end, orig, done);
  }

  method SerializeItems(items: seq<Value>, level: nat, style: Style, buf: array?<byte>, end: nat, ghost orig: bytes,
                        ghost done: bytes)
    returns (end': nat)
    requires Written(buf, orig, end, done) && Fits(buf, end, Print(Array(items), level, style))
    modifies buf
    ensures end' == end + |Print(Array(items), level, style)|
    ensures Written(buf, orig, end', done + Print(Array(items), level, style))
    ensures buf != null ==> buf[end'] == 0
    decreases items, 1
  {
    ghost var target, now := done + Print(Array(items), level, style), done + [OPEN_BRACKET];
    end' := AppendString([OPEN_BRACKET], buf, end, orig, done);
    if items == [] {
      assert target == now + [CLOSE_BRACKET];
      end' := AppendString([CLOSE_BRACKET], buf, end', orig, now);
      return;
    }
    assert target == now + (Newline(style) + ItemsLeft(items, 0, level, style));
    end' := AppendNewline(style, buf, end', orig, now);
    now := now + Newline(style);
    for i := 0 to |items|
      invariant target == now + ItemsLeft(items, i, level, style)
      invariant |now| - |done| == end' - end && Written(buf, orig, end', now)
    {
      ItemsLeftSplit(items, i, level, style);
      end', now := SerializeItem(items, i, level, style, buf, end', orig, now, target);
    }
    Assoc(now, Indent(level, style), [CLOSE_BRACKET]);
    end' := AppendIndent(level, style, buf, end', orig, now);
    end' := AppendString([CLOSE_BRACKET], buf, end', orig, now + Indent(level, style));
  }

  /** One turn of the item loop. */
  method SerializeItem(items: seq<Value>, i: nat, level: nat, style: Style, buf: array?<byte>, end: nat,
                       ghost orig: bytes, ghost now: bytes, ghost target: bytes)
    returns (end': nat, ghost now': bytes)
    requires i < |items| && target == now + ItemsLeft(items, i, level, style)
    requires Written(buf, orig, end, now) && Fits(buf, end, ItemsLeft(items, i, level, style))
    modifies buf
    ensures target == now' + ItemsLeft(items, i + 1, level, style)
    ensures |now'| - |now| == end' - end && Written(buf, orig, end', now')
    decreases items, 0
  {
    var last := i == |items| - 1;
    ghost var indent, sep, left := Indent(level + 1, style), Separator(last, style), ItemsLeft(items, i + 1, level, style);
    ghost var p := Print(items[i], level + 1, style);
    ItemsLeftSplit(items, i, level, style);
    Regroup(now, indent, p, sep, left);
    end' := AppendIndent(level + 1, style, buf, end, orig, now);
    end' := Serialize(items[i], level + 1, style, buf, end', orig, now + indent);
    end' := AppendSeparator(last, style, buf, end', orig, now + indent + p);
    now' := now + indent + p + sep;
  }

  method SerializeMembers(members: seq<Entry<Value>>, level: nat, style: Style, buf: array?<byte>, end: nat, ghost orig: bytes,
                        ghost done: bytes)
    returns (end': nat)
    requires Written(buf, orig, end, done) && Fits(buf, end, Print(Object(members), level, style))
    modifies buf
    ensures end' == end + |Print(Object(members), level, style)|
    ensures Written(buf, orig, end', done + Print(Object(members), level, style))
    ensures buf != null ==> buf[end'] == 0
    decreases members, 1
  {
    ghost var target, now := done + Print(Object(members), level, style), done + [OPEN_BRACE];
    end' := AppendString([OPEN_BRACE], buf, end, orig, done);
    if members == [] {
      assert target == now + [CLOSE_BRACE];
      end' := AppendString([CLOSE_BRACE], buf, end', orig, now);
      return;
    }
    assert target == now + (Newline(style) + MembersLeft(members, 0, level, style));
    end' := AppendNewline(style, buf, end', orig, now);
    now := now + Newline(style);
    for i := 0 to |members|
      invariant target == now + MembersLeft(members, i, level, style)
      invariant |now| - |done| == end' - end && Written(buf, orig, end', now)
    {
      MembersLeftSplit(members, i, level, style);
      end', now := SerializeMember(members, i, level, style, buf, end', orig, now, target);
    }
    Assoc(now, Indent(level, style), [CLOSE_BRACE]);
    end' := AppendIndent(level, style, buf, end', orig, now);
    end' := AppendString([CLOSE_BRACE], buf, end', orig, now + Indent(level, style));
  }

  /** One turn of the member loop. */
  method SerializeMember(members: seq<Entry<Value>>, i: nat, level: nat, style: Style, buf: array?<byte>, end: nat,
                       ghost orig: bytes, ghost now: bytes, ghost target: bytes)
    returns (end': nat, ghost now': bytes)
    requires i < |members| && target == now + MembersLeft(members, i, level, style)
    requires Written(buf, orig, end, now) && Fits(buf, end, MembersLeft(members, i, level, style))
    modifies buf
    ensures target == now' + MembersLeft(members, i + 1, level, style)
    ensures |now'| - |now| == end' - end && Written(buf, orig, end', now')
    decreases members, 0
  {
    var last := i == |members| - 1;
    ghost var indent, sep, left := Indent(level + 1, style), Separator(last, style), MembersLeft(members, i + 1, level, style);
    ghost var p := PrintMember(members[i], level + 1, style);
    ghost var whole := MembersLeft(members, i, level, style);
    assert whole == indent + (p + (sep + left)) by { MembersLeftSplit(members, i, level, style); }
    assert target == now + indent + p + sep + left by { Regroup(now, indent, p, sep, left); }
    assert |whole| == |indent| + |p| + |sep| + |left|;
    end' := AppendIndent(level + 1, style, buf, end, orig, now);
    end' := SerializePair(members[i], level + 1, style, buf, end', orig, now + indent);
    end' := AppendSeparator(last, style, buf, end', orig, now + indent + p);
    now' := now + indent + p + sep;
  }

  method SerializePair(m: Entry<Value>, level: nat, style: Style, buf: array?<byte>, end: nat, ghost orig: bytes,
                       ghost done: bytes)
    returns (end': nat)
    requires Written(buf, orig, end, done) && Fits(buf, end, PrintMember(m, level, style))
    modifies buf
    ensures end' == end + |PrintMember(m, level, style)| && Written(buf, orig, end', done + PrintMember(m, level, style))
    decreases m, 3
  {
    ghost var q, colon, p := Quoted(m.name, style.slashes), Colon(style), Print(m.value, level, style);
    end' := SerializeString(m.name, style.slashes, buf, end, orig, done);
    end' := AppendColon(style, buf, end', orig, done + q);
    end' := Serialize(m.value, level, style, buf, end', orig, done + q + colon);
    Assoc(done + q, colon, p);
    Assoc(done, q, colon + p);
  }

  /** The sizing pass: exactly the length of the text and one byte for its NUL. */
  method SerializationSize(v: Value, style: Style) returns (size: nat)
    ensures size == |Print(v, 0, style)| + 1
  {
    var end := Serialize(v, 0, style, null, 0, [], []);
    size := end + 1;
  }

  lemma PaintedWhole(now: bytes, orig: bytes, text: bytes)
    requires Painted(now, orig, 0, [] + text) && now[|text|] == 0
    ensures now == text + [0] + orig[|text| + 1..]
  {
    assert [] + text == text;
    assert now == now[0..|text|] + [now[|text|]] + now[|text| + 1..];
  }

  /** Writes the text and its NUL when both fit in `size` bytes, and touches nothing else; otherwise nothing at all. */
  method SerializeToBuffer(v: Value, style: Style, buf: array<byte>, size: nat) returns (ok: bool)
    requires size <= buf.Length
    modifies buf
    ensures ok == (|Print(v, 0, style)| < size)
    ensures !ok ==> buf[..] == old(buf[..])
    ensures ok ==> buf[..] == Print(v, 0, style) + [0] + old(buf[|Print(v, 0, style)| + 1..])
  {
    var needed := SerializationSize(v, style);
    if size < needed {
      return false;
    }
    ghost var orig := buf[..];
    var end := Serialize(v, 0, style, buf, 0, orig, []);
    PaintedWhole(buf[..], orig, Print(v, 0, style));
    return true;
  }

  /** A buffer of exactly the size the sizing pass asks for holds the text and its terminator. */
  method SerializeToString(v: Value, style: Style) returns (buf: array<byte>)
    ensures fresh(buf) && buf[..] == Print(v, 0, style) + [0]
  {
    var size := SerializationSize(v, style);
    buf := new byte[size];
    var ok := SerializeToBuffer(v, style, buf, size);
  }
}
