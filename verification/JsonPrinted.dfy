/**
  What the printer writes, as a layout: nothing between the tokens in compact form; in pretty form a line feed and four
  blanks a level, and one blank behind a colon. And what a whole text is parsed to.
*/
module JsonPrinted {
  import opened CStrings
  import opened Utf8
  import opened Entries
  import opened JsonStrings
  import opened JsonValues
  import opened JsonGrammar
  import opened JsonRoundTrip
  import opened JsonLayouts

  function LineStart(level: nat, style: Style): bytes {
    if style.pretty then ['\n' as int] + seq(4 * level, _ => ' ' as int) else []
  }

  /** Every character by the escaper's choice, one glyph each. */
  function LaidString(s: bytes, slashes: bool): (gs: seq<Glyph>)
    ensures |gs| == |s|
  {
    seq(|s|, i requires 0 <= i < |s| => Glyph(EscapeByte(s[i], slashes), [s[i]]))
  }

  function Laid(v: Value, level: nat, style: Style): Layout
    decreases v, 0
  {
    match v
    case Number(n) => Num(n < 0, if n < 0 then -n else n)
    case String(s) => Str(LaidString(s, style.slashes))
    case Array(items) => Arr([], LaidItems(items, level, style), false, [])
    case Object(members) => Obj([], LaidMembers(members, level, style), false, [])
    case _ => Word(v)
  }

  function After(last: bool, level: nat, style: Style): bytes {
    if last then LineStart(level, style) else []
  }

  function LaidItems(items: seq<Value>, level: nat, style: Style): (slots: seq<Slot>)
    ensures |slots| == |items|
    decreases items, 1
  {
    if items == [] then []
    else [Slot(LineStart(level + 1, style), Laid(items[0], level + 1, style), After(|items| == 1, level, style))]
         + LaidItems(items[1..], level, style)
  }

  function LaidMember(m: Entry<Value>, last: bool, level: nat, style: Style): Field
    decreases m, 2
  {
    Field(LineStart(level + 1, style), LaidString(m.name, style.slashes), [], if style.pretty then [' ' as int] else [],
          Laid(m.value, level + 1, style), After(last, level, style))
  }

  function LaidMembers(members: seq<Entry<Value>>, level: nat, style: Style): (fields: seq<Field>)
    ensures |fields| == |members|
    decreases members, 1
  {
    if members == [] then []
    else [LaidMember(members[0], |members| == 1, level, style)] + LaidMembers(members[1..], level, style)
  }

  // ---- The printed text is that layout's ----

  lemma {:induction false} StringIsLaid(s: bytes, slashes: bool)
    ensures Inside(LaidString(s, slashes)) == Escaped(s, slashes) && Meaning(LaidString(s, slashes)) == s
    ensures LiteralText(LaidString(s, slashes)) == Quoted(s, slashes) && ProperGlyphs(LaidString(s, slashes))
  {
    if s != [] {
      StringIsLaid(s[1..], slashes);
      assert LaidString(s, slashes)[1..] == LaidString(s[1..], slashes);
      assert s == [s[0]] + s[1..];
    }
    assert ProperGlyphs(LaidString(s, slashes)) by {
      forall i | 0 <= i < |s| ensures ProperGlyph(LaidString(s, slashes)[i]) {
        EscapesAre(s[i], slashes);
        EscapeIsNoQuote(s[i], slashes);
      }
    }
  }

  lemma EscapeIsNoQuote(c: byte, slashes: bool)
    ensures EscapeByte(c, slashes) != ['"' as int]
  {
    EscapesAre(c, slashes);
  }

  lemma LineStartIsGap(level: nat, style: Style)
    ensures LineStart(level, style) == Gap(level, style) && Blank(LineStart(level, style))
  {
  }

  /** The printer writes the value's layout, which is proper if the value can be stored. */
  lemma {:induction false} PrintedIsLaid(v: Value, level: nat, style: Style)
    ensures Print(v, level, style) == TextOf(Laid(v, level, style))
    ensures ValueOf(Laid(v, level, style)) == v
    ensures Storable(v) ==> Proper(Laid(v, level, style))
    decreases v, 1
  {
    match v
    case String(s) => StringIsLaid(s, style.slashes);
    case Array(items) =>
      ItemsAreLaid(items, level, style);
      LineStartIsGap(level + 1, style);
    case Object(members) =>
      MembersAreLaid(members, level, style);
      LineStartIsGap(level + 1, style);
    case _ =>
  }

  /** The text of one item more: what stands behind the last one, and behind another. */
  lemma OneItem(slot: Slot, level: nat, style: Style)
    requires slot.after == LineStart(level, style)
    ensures ItemsText([slot], false, []) == TextOf(slot.text) + (Gap(level, style) + [CLOSE_BRACKET])
  {
    LineStartIsGap(level, style);
    assert ItemsBehind([slot], false, []) == [CLOSE_BRACKET];
  }

  lemma MoreItems(slot: Slot, others: seq<Slot>, level: nat, style: Style)
    requires slot.after == [] && others != [] && others[0].before == LineStart(level + 1, style)
    ensures ItemsText([slot] + others, false, [])
         == TextOf(slot.text) + ([COMMA] + (Gap(level + 1, style) + ItemsText(others, false, [])))
  {
    LineStartIsGap(level + 1, style);
    var items := [slot] + others;
    assert items[1..] == others && items[1] == others[0];
    var behind := ItemsBehind(items, false, []);
    assert [] + behind == behind;
  }

  lemma {:induction false} ItemsAreLaid(items: seq<Value>, level: nat, style: Style)
    ensures items != [] ==> PrintItems(items, level, style) == ItemsText(LaidItems(items, level, style), false, [])
    ensures ItemValues(LaidItems(items, level, style)) == items
    ensures Storable(Array(items)) ==> ProperSlots(LaidItems(items, level, style))
    decreases items, 0
  {
    if items != [] {
      PrintedIsLaid(items[0], level + 1, style);
      ItemsAreLaid(items[1..], level, style);
      var slots := LaidItems(items, level, style);
      var slot, others := slots[0], slots[1..];
      assert slots == [slot] + others && others == LaidItems(items[1..], level, style);
      assert PrintItems(items, level, style) == ItemsText(slots, false, []) by {
        if |items| == 1 {
          OneItem(slot, level, style);
        } else {
          MoreItems(slot, others, level, style);
        }
      }
      if Storable(Array(items)) {
        StorableItems(items);
        SlotIsProper(slot, level, style);
        SlotsSplit(slots);
      }
    }
  }

  lemma StorableItems(items: seq<Value>)
    requires items != [] && Storable(Array(items))
    ensures Storable(items[0]) && Storable(Array(items[1..]))
  {
  }

  lemma SlotIsProper(slot: Slot, level: nat, style: Style)
    requires slot.before == LineStart(level + 1, style) && slot.after in {LineStart(level, style), []} && Proper(slot.text)
    ensures ProperSlot(slot)
  {
    LineStartIsGap(level, style);
    LineStartIsGap(level + 1, style);
  }

  lemma OneField(f: Field, level: nat, style: Style)
    requires f.after == LineStart(level, style)
    ensures FieldsText([f], false, []) == FieldText(f) + (Gap(level, style) + [CLOSE_BRACE])
  {
    LineStartIsGap(level, style);
    assert FieldsBehind([f], false, []) == [CLOSE_BRACE];
  }

  lemma MoreFields(f: Field, others: seq<Field>, level: nat, style: Style)
    requires f.after == [] && others != [] && others[0].before == LineStart(level + 1, style)
    ensures FieldsText([f] + others, false, [])
         == FieldText(f) + ([COMMA] + (Gap(level + 1, style) + FieldsText(others, false, [])))
  {
    LineStartIsGap(level + 1, style);
    var fields := [f] + others;
    assert fields[1..] == others && fields[1] == others[0];
    var behind := FieldsBehind(fields, false, []);
    assert [] + behind == behind;
  }

  lemma {:induction false} MemberIsLaid(m: Entry<Value>, last: bool, level: nat, style: Style)
    ensures PrintMember(m, level + 1, style) == FieldText(LaidMember(m, last, level, style))
    ensures FieldValue(LaidMember(m, last, level, style)) == m
    ensures 0 !in m.name && Storable(m.value) ==> ProperField(LaidMember(m, last, level, style))
    decreases m, 2
  {
    var f := LaidMember(m, last, level, style);
    StringIsLaid(m.name, style.slashes);
    PrintedIsLaid(m.value, level + 1, style);
    assert PrintMember(m, level + 1, style) == FieldText(f) by {
      ColonAndBlank(style, TextOf(f.text));
    }
    if 0 !in m.name && Storable(m.value) {
      FieldIsProper(f, level, style);
    }
  }

  lemma ColonAndBlank(style: Style, text: bytes)
    ensures Colon(style) + text == [] + ([':' as int] + ((if style.pretty then [' ' as int] else []) + text))
  {
  }

  lemma FieldIsProper(f: Field, level: nat, style: Style)
    requires f.before == LineStart(level + 1, style) && f.after in {LineStart(level, style), []} && f.gap1 == []
    requires f.gap2 in {[' ' as int], []} && ProperGlyphs(f.name) && 0 !in Meaning(f.name) && Proper(f.text)
    ensures ProperField(f)
  {
    LineStartIsGap(level, style);
    LineStartIsGap(level + 1, style);
  }

  lemma {:induction false} MembersAreLaid(members: seq<Entry<Value>>, level: nat, style: Style)
    ensures members != [] ==> PrintMembers(members, level, style) == FieldsText(LaidMembers(members, level, style), false, [])
    ensures FieldValues(LaidMembers(members, level, style)) == members
    ensures Storable(Object(members)) ==> ProperFields(LaidMembers(members, level, style))
    decreases members, 0
  {
    if members != [] {
      MemberIsLaid(members[0], |members| == 1, level, style);
      MembersAreLaid(members[1..], level, style);
      var fields := LaidMembers(members, level, style);
      var f, others := fields[0], fields[1..];
      assert fields == [f] + others && others == LaidMembers(members[1..], level, style);
      assert PrintMembers(members, level, style) == FieldsText(fields, false, []) by {
        if |members| == 1 {
          OneField(f, level, style);
        } else {
          MoreFields(f, others, level, style);
        }
      }
      if Storable(Object(members)) {
        StorableMembers(members);
        FieldsSplit(fields);
      }
    }
  }

  lemma StorableMembers(members: seq<Entry<Value>>)
    requires members != [] && Storable(Object(members))
    ensures 0 !in members[0].name && Storable(members[0].value) && Storable(Object(members[1..]))
  {
  }

  // ---- Decimal text ----

  /** What decimal digits stand for. */
  function FromDecimal(s: bytes): int {
    if s == [] then 0 else 10 * FromDecimal(s[..|s| - 1]) + (s[|s| - 1] - '0' as int)
  }

  /** The digits of a number: the one decimal text of it without a leading zero. */
  predicate IsDecimal(s: bytes) {
    s != [] && (forall i :: 0 <= i < |s| ==> '0' as int <= s[i] <= '9' as int) && (s[0] == '0' as int ==> |s| == 1)
  }

  /** The digits of a number: the one decimal text of it without a leading zero. */
  lemma {:induction false} DigitsIff(n: nat, s: bytes)
    ensures Digits(n) == s <==> IsDecimal(s) && FromDecimal(s) == n
    decreases n + |s|
  {
    if n < 10 {
      DigitIff(n, s);
    } else {
      DigitsAreDecimal(n);
      if IsDecimal(s) && FromDecimal(s) == n {
        if |s| == 1 {
          OneDigitIsSmall(s);
        }
        DigitsIff(n / 10, s[..|s| - 1]);
        assert s == s[..|s| - 1] + [s[|s| - 1]];
      }
    }
  }

  lemma OneDigitIsSmall(s: bytes)
    requires IsDecimal(s) && |s| == 1
    ensures FromDecimal(s) <= 9
  {
    assert FromDecimal(s[..0]) == 0;
  }

  lemma {:induction false} DecimalIsPositive(s: bytes)
    requires IsDecimal(s) && s[0] != '0' as int
    ensures FromDecimal(s) > 0
  {
    if |s| > 1 {
      DecimalIsPositive(s[..|s| - 1]);
    }
  }

  lemma DigitIff(n: nat, s: bytes)
    requires n < 10
    ensures Digits(n) == s <==> IsDecimal(s) && FromDecimal(s) == n
  {
    if IsDecimal(s) && FromDecimal(s) == n {
      if |s| > 1 {
        DecimalIsPositive(s[..|s| - 1]);
      }
      assert s == [s[0]];
    }
    assert FromDecimal([]) == 0;
  }

  lemma {:induction false} DigitsAreDecimal(n: nat)
    ensures IsDecimal(Digits(n)) && FromDecimal(Digits(n)) == n
  {
    if n >= 10 {
      DigitsAreDecimal(n / 10);
      NoLeadingZero(n);
      assert Digits(n)[..|Digits(n)| - 1] == Digits(n / 10);
    } else {
      DigitIff(n, Digits(n));
    }
  }

  // ---- Whole texts ----

  /** A whole text is parsed like the text behind its byte order mark, if it starts with one. */
  lemma TextIffWritten(s: bytes, v: Value, rest: bytes)
    ensures var t := if |s| >= 3 && s[0] == 0xEF && s[1] == 0xBB && s[2] == 0xBF then s[3..] else s;
            ParseText(s) == Accept(v, rest) <==> (Written(t, v, rest) && Depth(v) <= 2048) || LoneMinus(t, v, rest)
  {
    assert |s| >= 3 ==> (s[..3] == [0xEF, 0xBB, 0xBF] <==> s[0] == 0xEF && s[1] == 0xBB && s[2] == 0xBF);
    var t := if |s| >= 3 && s[0] == 0xEF && s[1] == 0xBB && s[2] == 0xBF then s[3..] else s;
    AcceptedIffWritten(t, v, rest);
  }
}
