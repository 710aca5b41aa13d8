/**
  JSON text as one may write it: any spelling of strings, and white space before and after every token (RFC 8259, section
  2). Such text, with at most a comma too many at the end of a container, is exactly what the parser accepts.
*/
module JsonLayouts {
  import opened CStrings
  import opened Utf8
  import opened Entries
  import opened JsonStrings
  import opened JsonValues
  import opened JsonGrammar
  import opened JsonRoundTrip

  /** What the C library's `isspace` takes for white space. */
  predicate Blank(s: bytes) {
    forall i :: 0 <= i < |s| ==> s[i] in {0x20, 0x09, 0x0A, 0x0B, 0x0C, 0x0D}
  }

  lemma BlankIsSpace(s: bytes)
    ensures Blank(s) <==> AllSpace(s)
  {
    forall c: byte ensures c in {0x20, 0x09, 0x0A, 0x0B, 0x0C, 0x0D} <==> IsSpace(c) {}
    if Blank(s) {
      forall i | 0 <= i < |s| ensures IsSpace(s[i]) {
        assert s[i] in {0x20, 0x09, 0x0A, 0x0B, 0x0C, 0x0D};
      }
    }
    if AllSpace(s) {
      forall i | 0 <= i < |s| ensures s[i] in {0x20, 0x09, 0x0A, 0x0B, 0x0C, 0x0D} {
        assert IsSpace(s[i]);
      }
    }
  }

  // ---- String literals ----

  /** One character of a literal as it is spelled, and what it stands for. */
  datatype Glyph = Glyph(text: bytes, meaning: bytes)

  ghost predicate ProperGlyph(g: Glyph) {
    Piece(g.text, g.meaning) && g.text != ['"' as int]
  }

  ghost predicate ProperGlyphs(gs: seq<Glyph>) {
    forall i :: 0 <= i < |gs| ==> ProperGlyph(gs[i])
  }

  function Inside(gs: seq<Glyph>): bytes {
    if gs == [] then [] else gs[0].text + Inside(gs[1..])
  }

  function Meaning(gs: seq<Glyph>): bytes {
    if gs == [] then [] else gs[0].meaning + Meaning(gs[1..])
  }

  function LiteralText(gs: seq<Glyph>): bytes {
    ['"' as int] + Inside(gs) + ['"' as int]
  }

  lemma SpelledUnitIsPlain(t: bytes, u: nat)
    requires SpellsUnit(t, u)
    ensures forall i :: 0 <= i < 4 ==> t[i] !in {0, QUOTE, BACKSLASH}
  {
    HexValueIs(t[0], u / 4096);
    HexValueIs(t[1], u / 256 % 16);
    HexValueIs(t[2], u / 16 % 16);
    HexValueIs(t[3], u % 16);
  }

  /** A piece is passed over as a whole by the search for the closing quote. */
  lemma GlyphIsSkipped(g: Glyph, rest: bytes)
    requires ProperGlyph(g)
    ensures ToClosingQuote(g.text + rest) == Plus(|g.text|, ToClosingQuote(rest))
  {
    var p := g.text;
    GlyphIsWhole(p, g.meaning);
    if |p| == 12 {
      assert p + rest == p[..6] + (p[6..] + rest);
      WholeIsSkipped(p[..6], p[6..] + rest);
      WholeIsSkipped(p[6..], rest);
    } else {
      WholeIsSkipped(p, rest);
    }
  }

  lemma GlyphIsWhole(p: bytes, meaning: bytes)
    requires Piece(p, meaning) && p != ['"' as int]
    ensures if |p| == 12 then SkipsWhole(p[..6]) && SkipsWhole(p[6..]) else SkipsWhole(p)
  {
    PieceLengths(p, meaning);
    if |p| > 2 {
      var cp :| Scalar(cp) && Spells(p[2..], cp, |p| - 2) && meaning == Encode(cp);
      UnitsAreWhole(p, cp);
      assert |p| == 6 ==> p[..6] == p;
    }
  }

  lemma PieceLengths(p: bytes, meaning: bytes)
    requires Piece(p, meaning) && p != ['"' as int]
    ensures |p| in {1, 2} ==> SkipsWhole(p)
    ensures |p| > 2 ==>
      && |p| in {6, 12} && p[0] == '\\' as int && p[1] == 'u' as int
      && exists cp :: Scalar(cp) && Spells(p[2..], cp, |p| - 2) && meaning == Encode(cp)
  {
    if |p| == 1 {
      assert p == [p[0]];
    }
  }

  lemma UnitsAreWhole(p: bytes, cp: nat)
    requires |p| in {6, 12} && p[0] == '\\' as int && p[1] == 'u' as int && Scalar(cp) && Spells(p[2..], cp, |p| - 2)
    ensures SkipsWhole(p[..6]) && (|p| == 12 ==> SkipsWhole(p[6..]))
  {
    SpelledUnitIsPlain(p[2..], Utf16(cp)[0]);
    assert forall i :: 2 <= i < 6 ==> p[i] == p[2..][i - 2];
    if |p| == 12 {
      var second := p[2..][6..];
      SpelledUnitIsPlain(second, Utf16(cp)[1]);
      assert forall i :: 2 <= i < 6 ==> p[6..][i] == second[i - 2];
    }
  }

  lemma {:induction false} InsideIsSkipped(gs: seq<Glyph>, rest: bytes)
    requires ProperGlyphs(gs)
    ensures ToClosingQuote(Inside(gs) + rest) == Plus(|Inside(gs)|, ToClosingQuote(rest))
  {
    if gs == [] {
      assert [] + rest == rest;
    } else {
      GlyphIsSkipped(gs[0], Inside(gs[1..]) + rest);
      InsideIsSkipped(gs[1..], rest);
      assert gs[0].text + Inside(gs[1..]) + rest == gs[0].text + (Inside(gs[1..]) + rest);
    }
  }

  lemma {:induction false} InsideIsRead(gs: seq<Glyph>)
    requires ProperGlyphs(gs)
    ensures Unescape(Inside(gs)) == Some(Meaning(gs))
  {
    if gs != [] {
      PieceIsRead(gs[0].text, gs[0].meaning, Inside(gs[1..]));
      InsideIsRead(gs[1..]);
    }
  }

  lemma LiteralIsParsed(gs: seq<Glyph>, rest: bytes)
    requires ProperGlyphs(gs)
    ensures ParseString(LiteralText(gs) + rest) == Accept(Meaning(gs), rest)
  {
    var e, t := Inside(gs), LiteralText(gs) + rest;
    assert t[0] == QUOTE && t[1..] == e + ([QUOTE] + rest);
    InsideIsSkipped(gs, [QUOTE] + rest);
    assert t[1..][..|e|] == e && t[|e| + 2..] == rest;
    InsideIsRead(gs);
  }

  lemma PieceInFront(t: bytes) returns (g: Glyph, tail: bytes)
    requires t != [] && t[0] != 0 && Unescape(t).Some?
    ensures Piece(g.text, g.meaning) && g.text != [] && t == g.text + tail
    ensures Unescape(t) == Prepend(g.meaning, Unescape(tail))
  {
    var p, meaning := OnlyPiecesAreRead(t);
    g, tail := Glyph(p, meaning), t[|p|..];
    assert t == p + tail;
    PieceIsNotEmpty(p, meaning);
    PieceIsRead(p, meaning, tail);
  }

  lemma GlyphInFront(g: Glyph, tail: bytes, rest: bytes)
    requires ProperGlyph(g)
    ensures ToClosingQuote(g.text + tail + rest) == Plus(|g.text|, ToClosingQuote(tail + rest))
  {
    assert g.text + tail + rest == g.text + (tail + rest);
    GlyphIsSkipped(g, tail + rest);
  }

  lemma QuoteIsNotInside(t: bytes, rest: bytes)
    requires t != [] && ToClosingQuote(t + rest) >= |t|
    ensures t[0] !in {0, '"' as int}
  {
    assert (t + rest)[0] == t[0];
  }

  lemma FirstGlyph(t: bytes, rest: bytes) returns (g: Glyph, tail: bytes)
    requires t != [] && Unescape(t).Some? && ToClosingQuote(t + rest) >= |t|
    ensures ProperGlyph(g) && t == g.text + tail && |tail| < |t|
    ensures Unescape(t) == Prepend(g.meaning, Unescape(tail)) && ToClosingQuote(tail + rest) >= |tail|
  {
    QuoteIsNotInside(t, rest);
    g, tail := PieceInFront(t);
    assert g.text[0] == t[0];
    GlyphInFront(g, tail, rest);
  }

  lemma PieceIsNotEmpty(p: bytes, meaning: bytes)
    requires Piece(p, meaning)
    ensures |p| > 0
  {
  }

  /** Whatever is unescaped can be taken apart into glyphs. */
  lemma {:induction false} GlyphsOf(t: bytes, rest: bytes) returns (gs: seq<Glyph>)
    requires Unescape(t).Some? && ToClosingQuote(t + rest) >= |t|
    ensures ProperGlyphs(gs) && Inside(gs) == t && Unescape(t) == Some(Meaning(gs))
    decreases |t|
  {
    gs := [];
    if t != [] {
      var g, tail := FirstGlyph(t, rest);
      gs := GlyphsOf(tail, rest);
      gs := [g] + gs;
    }
  }

  lemma LiteralOf(t: bytes) returns (gs: seq<Glyph>)
    requires ParseString(t).Accept?
    ensures ProperGlyphs(gs) && t == LiteralText(gs) + ParseString(t).rest && ParseString(t).value == Meaning(gs)
  {
    var n := ToClosingQuote(t[1..]);
    var e := t[1..][..n];
    assert t[1..] == e + t[1..][n..];
    gs := GlyphsOf(e, t[1..][n..]);
    assert t == [t[0]] + e + [t[1..][n]] + t[n + 2..];
  }

  // ---- Layouts of values ----

  datatype Layout =
    | Word(value: Value)
    | Num(negative: bool, magnitude: nat)
    | Str(glyphs: seq<Glyph>)
    | Arr(space: bytes, items: seq<Slot>, comma: bool, end: bytes)
    | Obj(space: bytes, fields: seq<Field>, comma: bool, end: bytes)

  /** An item with the white space around it. */
  datatype Slot = Slot(before: bytes, text: Layout, after: bytes)

  /** A member with the white space around it and around its colon. */
  datatype Field = Field(before: bytes, name: seq<Glyph>, gap1: bytes, gap2: bytes, text: Layout, after: bytes)

  /** White space where it may stand, words that are words, exact numbers, distinct names without NUL. */
  ghost predicate Proper(l: Layout) {
    match l
    case Word(v) => v.Null? || v.Bool?
    case Num(_, m) => m <= 9007199254740992
    case Str(gs) => ProperGlyphs(gs)
    case Arr(space, items, _, end) => Blank(space) && Blank(end) && ProperSlots(items)
    case Obj(space, fields, _, end) => Blank(space) && Blank(end) && ProperFields(fields) && Distinct(FieldValues(fields))
  }

  ghost predicate ProperSlots(items: seq<Slot>) {
    items == [] || (ProperSlot(items[0]) && ProperSlots(items[1..]))
  }

  ghost predicate ProperFields(fields: seq<Field>) {
    fields == [] || (ProperField(fields[0]) && ProperFields(fields[1..]))
  }

  ghost predicate ProperSlot(s: Slot) {
    Blank(s.before) && Blank(s.after) && Proper(s.text)
  }

  ghost predicate ProperField(f: Field) {
    && Blank(f.before) && Blank(f.gap1) && Blank(f.gap2) && Blank(f.after)
    && ProperGlyphs(f.name) && 0 !in Meaning(f.name) && Proper(f.text)
  }

  lemma SlotsSplit(items: seq<Slot>)
    requires items != []
    ensures ProperSlots(items) <==> ProperSlot(items[0]) && ProperSlots(items[1..])
    ensures ProperSlots(items) && |items| > 1 ==> ProperSlot(items[1])
  {
  }

  lemma FieldsSplit(fields: seq<Field>)
    requires fields != []
    ensures ProperFields(fields) <==> ProperField(fields[0]) && ProperFields(fields[1..])
    ensures ProperFields(fields) && |fields| > 1 ==> ProperField(fields[1])
  {
  }

  function ValueOf(l: Layout): Value {
    match l
    case Word(v) => v
    case Num(negative, m) => var n: int := m; Number(if negative then -n else n)
    case Str(gs) => String(Meaning(gs))
    case Arr(_, items, _, _) => Array(ItemValues(items))
    case Obj(_, fields, _, _) => Object(FieldValues(fields))
  }

  function ItemValues(items: seq<Slot>): (vs: seq<Value>)
    ensures |vs| == |items|
  {
    if items == [] then [] else [ValueOf(items[0].text)] + ItemValues(items[1..])
  }

  function FieldValue(f: Field): Entry<Value> {
    Entry(Meaning(f.name), ValueOf(f.text))
  }

  function FieldValues(fields: seq<Field>): (ms: seq<Entry<Value>>)
    ensures |ms| == |fields|
  {
    if fields == [] then [] else [FieldValue(fields[0])] + FieldValues(fields[1..])
  }

  function WordText(v: Value): bytes {
    if v == Bool(true) then Ascii("true") else if v == Bool(false) then Ascii("false") else Ascii("null")
  }

  function NumText(negative: bool, m: nat): bytes {
    (if negative then ['-' as int] else []) + Digits(m)
  }

  /** The text from the first token to the last. */
  function TextOf(l: Layout): bytes
    decreases l, 3
  {
    match l
    case Word(v) => WordText(v)
    case Num(negative, m) => NumText(negative, m)
    case Str(gs) => LiteralText(gs)
    case Arr(space, items, comma, end) =>
      ['[' as int] + (if items == [] then space + [']' as int] else items[0].before + ItemsText(items, comma, end))
    case Obj(space, fields, comma, end) =>
      ['{' as int] + (if fields == [] then space + ['}' as int] else fields[0].before + FieldsText(fields, comma, end))
  }

  /** What follows an element: the bracket that closes its container, perhaps behind a comma; or a comma and the others. */
  function Behind(last: bool, comma: bool, end: bytes, close: byte, before: bytes, others: bytes): bytes {
    if last then (if comma then [',' as int] + end else []) + [close] else [',' as int] + (before + others)
  }

  /** A comma and then more text, or the end of the container and the text behind it. */
  function Onward(more: bool, gap: bytes, comma: bool, end: bytes, close: byte, rest: bytes): bytes {
    if more then [',' as int] + (gap + rest) else Behind(true, comma, end, close, [], []) + rest
  }

  function ItemsText(items: seq<Slot>, comma: bool, end: bytes): bytes
    requires items != []
    decreases items, 2
  {
    TextOf(items[0].text) + (items[0].after + ItemsBehind(items, comma, end))
  }

  function ItemsBehind(items: seq<Slot>, comma: bool, end: bytes): bytes
    requires items != []
    decreases items, 1
  {
    if |items| == 1 then Behind(true, comma, end, ']' as int, [], [])
    else Behind(false, comma, end, ']' as int, items[1].before, ItemsText(items[1..], comma, end))
  }

  function FieldText(f: Field): bytes
    decreases f, 4
  {
    LiteralText(f.name) + (f.gap1 + ([':' as int] + (f.gap2 + TextOf(f.text))))
  }

  function FieldsText(fields: seq<Field>, comma: bool, end: bytes): bytes
    requires fields != []
    decreases fields, 2
  {
    FieldText(fields[0]) + (fields[0].after + FieldsBehind(fields, comma, end))
  }

  function FieldsBehind(fields: seq<Field>, comma: bool, end: bytes): bytes
    requires fields != []
    decreases fields, 1
  {
    if |fields| == 1 then Behind(true, comma, end, '}' as int, [], [])
    else Behind(false, comma, end, '}' as int, fields[1].before, FieldsText(fields[1..], comma, end))
  }

  // ---- Layouts are parsed ----

  lemma BlankIsSkipped(space: bytes, t: bytes)
    requires Blank(space) && !IsSpace(Peek(t))
    ensures SkipSpace(space + t) == t
  {
    BlankIsSpace(space);
    SpaceIsSkipped(space, t);
  }

  lemma BlankEnds(space: bytes, t: bytes)
    requires Blank(space) && Ends(t)
    ensures Ends(space + t)
  {
    if space == [] {
      assert space + t == t;
    } else {
      assert space[0] in {0x20, 0x09, 0x0A, 0x0B, 0x0C, 0x0D};
    }
  }

  predicate Closer(close: byte) {
    close == ']' as int || close == '}' as int
  }

  /** Behind an element: where the parser goes on. */
  lemma BehindIsContinued(after: bytes, last: bool, comma: bool, end: bytes, close: byte, before: bytes, others: bytes, rest: bytes)
    requires Blank(after) && Blank(end) && Blank(before) && Closer(close) && (!last ==> StartsToken(others + rest))
    ensures var t := after + (Behind(last, comma, end, close, before, others) + rest);
            && Continue(t, close) == (if last then Accept(false, rest) else Accept(true, others + rest))
            && Ends(t)
  {
    var b := Behind(last, comma, end, close, before, others) + rest;
    BlankIsSkipped(after, b);
    BlankEnds(after, b);
    if last && !comma {
      assert b == [close] + rest;
    } else {
      var space, tail: bytes := if last then end else before, if last then [close] + rest else others + rest;
      BehindAComma(last, end, close, before, others, rest);
      assert b[1..] == space + tail;
      BlankIsSkipped(space, tail);
    }
  }

  lemma BehindAComma(last: bool, end: bytes, close: byte, before: bytes, others: bytes, rest: bytes)
    ensures Behind(last, true, end, close, before, others) + rest
         == [',' as int] + (if last then end + ([close] + rest) else before + (others + rest))
    ensures !last ==> Behind(false, false, end, close, before, others) + rest == [',' as int] + (before + (others + rest))
  {
  }

  lemma LayoutStartsToken(l: Layout, rest: bytes)
    requires Proper(l)
    ensures StartsToken(TextOf(l) + rest)
  {
  }

  lemma NumIsTaken(negative: bool, m: nat, rest: bytes)
    requires m <= 9007199254740992 && Ends(rest)
    ensures var t := NumText(negative, m) + rest;
            && ParseNumber(t) == Accept(ValueOf(Num(negative, m)), rest)
            && (Peek(t) == '-' as int || IsDigit(Peek(t)))
  {
    var t, digits := NumText(negative, m) + rest, Digits(m) + rest;
    MagnitudeIsParsed(m, rest);
    if negative {
      assert t[0] == MINUS && t[1..] == digits;
    } else {
      assert t == digits;
    }
  }

  lemma NumIsParsed(negative: bool, m: nat, rest: bytes, nesting: nat)
    requires m <= 9007199254740992 && Ends(rest)
    ensures ParseValue(NumText(negative, m) + rest, nesting) == IfWithin(nesting, 0, ValueOf(Num(negative, m)), rest)
  {
    var t := NumText(negative, m) + rest;
    NumIsTaken(negative, m, rest);
    assert SkipSpace(t) == t;
  }

  lemma WordIsParsed(v: Value, rest: bytes, nesting: nat)
    requires v.Null? || v.Bool?
    ensures ParseValue(WordText(v) + rest, nesting) == IfWithin(nesting, 0, v, rest)
  {
    var t, w := WordText(v) + rest, WordText(v);
    assert SkipSpace(t) == t && t[..|w|] == w && t[|w|..] == rest;
  }

  lemma StrIsParsed(gs: seq<Glyph>, rest: bytes, nesting: nat)
    requires ProperGlyphs(gs)
    ensures ParseValue(LiteralText(gs) + rest, nesting) == IfWithin(nesting, 0, String(Meaning(gs)), rest)
  {
    var t := LiteralText(gs) + rest;
    LiteralIsParsed(gs, rest);
    assert SkipSpace(t) == t;
  }

  /** A layout in front is parsed to its value, and the text behind it is left, exactly when it is not nested too deep. */
  lemma {:induction false} LayoutIsParsed(l: Layout, rest: bytes, nesting: nat)
    requires Proper(l) && (l.Num? ==> Ends(rest))
    ensures ParseValue(TextOf(l) + rest, nesting) == IfWithin(nesting, Depth(ValueOf(l)), ValueOf(l), rest)
    decreases l, 5
  {
    match l
    case Word(v) => WordIsParsed(v, rest, nesting);
    case Num(negative, m) => NumIsParsed(negative, m, rest, nesting);
    case Str(gs) => StrIsParsed(gs, rest, nesting);
    case Arr(space, items, comma, end) => ArrIsParsed(space, items, comma, end, rest, nesting);
    case Obj(space, fields, comma, end) => ObjIsParsed(space, fields, comma, end, rest, nesting);
  }

  lemma EmptyIsParsed(open: byte, space: bytes, close: byte, rest: bytes, nesting: nat)
    requires Blank(space) && ((open == '[' as int && close == ']' as int) || (open == '{' as int && close == '}' as int))
    ensures ParseValue([open] + (space + [close]) + rest, nesting)
         == IfWithin(nesting, 0, if open == '[' as int then Array([]) else Object([]), rest)
  {
    var t := [open] + (space + [close]) + rest;
    assert SkipSpace(t) == t && t[1..] == space + ([close] + rest);
    BlankIsSkipped(space, [close] + rest);
  }

  lemma {:induction false} ArrIsParsed(space: bytes, items: seq<Slot>, comma: bool, end: bytes, rest: bytes, nesting: nat)
    requires Proper(Arr(space, items, comma, end))
    ensures ParseValue(TextOf(Arr(space, items, comma, end)) + rest, nesting)
         == IfWithin(nesting, ItemsDepth(ItemValues(items)), Array(ItemValues(items)), rest)
    decreases items, 4
  {
    if items == [] {
      EmptyIsParsed('[' as int, space, ']' as int, rest, nesting);
    } else if nesting > MAX_NESTING {
      TooDeepIsRejected(TextOf(Arr(space, items, comma, end)) + rest, nesting);
    } else {
      OpenArr(space, items, comma, end, rest, nesting);
      AllSlotsAreParsed(items, comma, end, rest, nesting);
    }
  }

  lemma {:induction false} AllSlotsAreParsed(items: seq<Slot>, comma: bool, end: bytes, rest: bytes, nesting: nat)
    requires items != [] && Blank(end) && ProperSlots(items)
    ensures ParseItems(ItemsText(items, comma, end) + rest, nesting + 1, [])
         == IfWithin(nesting, ItemsDepth(ItemValues(items)), Array(ItemValues(items)), rest)
    decreases items, 3
  {
    var values := ItemValues(items);
    assert [] + values == values;
    assert ItemsDepth(values) > 0 by { ItemsDepthStep(values, nesting); }
    SlotsAreParsed(items, comma, end, rest, nesting + 1, []);
    OneDeeper(nesting, ItemsDepth(values), Array(values), rest);
  }

  lemma OpenArr(space: bytes, items: seq<Slot>, comma: bool, end: bytes, rest: bytes, nesting: nat)
    requires items != [] && ProperSlots(items) && nesting <= MAX_NESTING
    ensures ParseValue(TextOf(Arr(space, items, comma, end)) + rest, nesting)
         == ParseItems(ItemsText(items, comma, end) + rest, nesting + 1, [])
  {
    var t, text := TextOf(Arr(space, items, comma, end)) + rest, ItemsText(items, comma, end) + rest;
    SlotsSplit(items);
    assert StartsToken(text) by { ItemsStartToken(items, comma, end, rest); }
    assert t[0] == '[' as int && t[1..] == items[0].before + text;
    BlankIsSkipped(items[0].before, text);
    OpenArrayStep(t, nesting, text);
  }

  lemma ItemsStartToken(items: seq<Slot>, comma: bool, end: bytes, rest: bytes)
    requires items != [] && ProperSlot(items[0])
    ensures StartsToken(ItemsText(items, comma, end) + rest)
  {
    var behind := items[0].after + ItemsBehind(items, comma, end);
    LayoutStartsToken(items[0].text, behind + rest);
    assert ItemsText(items, comma, end) + rest == TextOf(items[0].text) + (behind + rest);
  }

  lemma {:induction false} SlotsAreParsed(items: seq<Slot>, comma: bool, end: bytes, rest: bytes, nesting: nat, before: seq<Value>)
    requires items != [] && Blank(end) && ProperSlots(items)
    ensures ParseItems(ItemsText(items, comma, end) + rest, nesting, before)
         == IfWithin(nesting, DepthBelow(ItemValues(items)), Array(before + ItemValues(items)), rest)
    decreases items, 2
  {
    var v, values := ValueOf(items[0].text), ItemValues(items);
    if |items| > 1 {
      SlotsAreParsed(items[1..], comma, end, rest, nesting, before + [v]);
      assert before + [v] + ItemValues(items[1..]) == before + values;
    } else {
      assert before + [v] == before + values;
    }
    FirstSlotIsParsed(items, comma, end, rest, nesting, before);
    ItemsDepthStep(values, nesting);
    assert values[0] == v && values[1..] == ItemValues(items[1..]);
  }

  lemma {:induction false} FirstSlotIsParsed(items: seq<Slot>, comma: bool, end: bytes, rest: bytes, nesting: nat, before: seq<Value>)
    requires items != [] && Blank(end) && ProperSlots(items)
    ensures ParseItems(ItemsText(items, comma, end) + rest, nesting, before)
         == if !WithinNesting(nesting, Depth(ValueOf(items[0].text))) then Reject
            else if |items| == 1 then Accept(Array(before + [ValueOf(items[0].text)]), rest)
            else ParseItems(ItemsText(items[1..], comma, end) + rest, nesting, before + [ValueOf(items[0].text)])
    decreases items, 1
  {
    var v, text := ValueOf(items[0].text), ItemsText(items, comma, end) + rest;
    var after := items[0].after + (ItemsBehind(items, comma, end) + rest);
    ItemsStartToken(items, comma, end, rest);
    assert text == TextOf(items[0].text) + after;
    if |items| == 1 {
      BehindIsContinued(items[0].after, true, comma, end, ']' as int, [], [], rest);
      LayoutIsParsed(items[0].text, after, nesting);
      LastItemStep(text, nesting, before, v, after, rest);
    } else {
      var others := ItemsText(items[1..], comma, end);
      ItemsStartToken(items[1..], comma, end, rest);
      BehindIsContinued(items[0].after, false, comma, end, ']' as int, items[1].before, others, rest);
      LayoutIsParsed(items[0].text, after, nesting);
      MoreItemsStep(text, nesting, before, v, after, others + rest);
    }
  }

  lemma {:induction false} ObjIsParsed(space: bytes, fields: seq<Field>, comma: bool, end: bytes, rest: bytes, nesting: nat)
    requires Proper(Obj(space, fields, comma, end))
    ensures ParseValue(TextOf(Obj(space, fields, comma, end)) + rest, nesting)
         == IfWithin(nesting, MembersDepth(FieldValues(fields)), Object(FieldValues(fields)), rest)
    decreases fields, 3
  {
    if fields == [] {
      EmptyIsParsed('{' as int, space, '}' as int, rest, nesting);
    } else if nesting > MAX_NESTING {
      TooDeepIsRejected(TextOf(Obj(space, fields, comma, end)) + rest, nesting);
    } else {
      OpenObj(space, fields, comma, end, rest, nesting);
      AllFieldsAreParsed(fields, comma, end, rest, nesting);
    }
  }

  lemma {:induction false} AllFieldsAreParsed(fields: seq<Field>, comma: bool, end: bytes, rest: bytes, nesting: nat)
    requires fields != [] && Blank(end) && ProperFields(fields)
    requires Distinct(FieldValues(fields))
    ensures ParseMembers(FieldsText(fields, comma, end) + rest, nesting + 1, [])
         == IfWithin(nesting, MembersDepth(FieldValues(fields)), Object(FieldValues(fields)), rest)
    decreases fields, 2
  {
    var members := FieldValues(fields);
    assert [] + members == members;
    FieldsAreParsed(fields, comma, end, rest, nesting + 1, []);
    OneDeeper(nesting, MembersDepth(members), Object(members), rest);
  }

  lemma OpenObj(space: bytes, fields: seq<Field>, comma: bool, end: bytes, rest: bytes, nesting: nat)
    requires fields != [] && ProperFields(fields) && nesting <= MAX_NESTING
    ensures ParseValue(TextOf(Obj(space, fields, comma, end)) + rest, nesting)
         == ParseMembers(FieldsText(fields, comma, end) + rest, nesting + 1, [])
  {
    var t, text := TextOf(Obj(space, fields, comma, end)) + rest, FieldsText(fields, comma, end) + rest;
    FieldsSplit(fields);
    assert StartsToken(text) by { FieldsStartToken(fields, comma, end, rest); }
    assert t[0] == '{' as int && t[1..] == fields[0].before + text;
    BlankIsSkipped(fields[0].before, text);
    OpenObjectStep(t, nesting, text);
  }

  lemma FieldsStartToken(fields: seq<Field>, comma: bool, end: bytes, rest: bytes)
    requires fields != []
    ensures StartsToken(FieldsText(fields, comma, end) + rest)
  {
    assert LiteralText(fields[0].name)[0] == '"' as int;
    assert FieldText(fields[0])[0] == '"' as int;
    assert (FieldsText(fields, comma, end) + rest)[0] == '"' as int;
  }

  lemma {:induction false} FieldsAreParsed(fields: seq<Field>, comma: bool, end: bytes, rest: bytes, nesting: nat, before: seq<Entry<Value>>)
    requires fields != [] && Blank(end) && Distinct(before + FieldValues(fields))
    requires ProperFields(fields)
    ensures MembersDepth(FieldValues(fields)) > 0
    ensures ParseMembers(FieldsText(fields, comma, end) + rest, nesting, before)
         == IfWithin(nesting, MembersDepth(FieldValues(fields)) - 1, Object(before + FieldValues(fields)), rest)
    decreases fields, 1, 1
  {
    var members := FieldValues(fields);
    assert members[0] == FieldValue(fields[0]) && members[1..] == FieldValues(fields[1..]);
    NameIsNew(before, members);
    if |fields| > 1 {
      FieldsAreParsed(fields[1..], comma, end, rest, nesting, before + [members[0]]);
    }
    FieldsFollowFirst(fields, comma, end, rest, nesting, before);
  }

  lemma {:induction false} FieldsFollowFirst(fields: seq<Field>, comma: bool, end: bytes, rest: bytes, nesting: nat,
                                             before: seq<Entry<Value>>)
    requires fields != [] && Blank(end) && !HasName(before, Meaning(fields[0].name))
    requires ProperFields(fields)
    requires |fields| > 1 ==>
      && MembersDepth(FieldValues(fields[1..])) > 0
      && ParseMembers(FieldsText(fields[1..], comma, end) + rest, nesting, before + [FieldValue(fields[0])])
         == IfWithin(nesting, MembersDepth(FieldValues(fields[1..])) - 1, Object(before + FieldValues(fields)), rest)
    ensures MembersDepth(FieldValues(fields)) > 0
    ensures ParseMembers(FieldsText(fields, comma, end) + rest, nesting, before)
         == IfWithin(nesting, MembersDepth(FieldValues(fields)) - 1, Object(before + FieldValues(fields)), rest)
    decreases fields, 1, 0
  {
    var members := FieldValues(fields);
    assert members[0] == FieldValue(fields[0]) && members[1..] == FieldValues(fields[1..]);
    FirstFieldIsParsed(fields, comma, end, rest, nesting, before);
    assert |fields| == 1 ==> before + [members[0]] == before + members;
    var others := if |fields| == 1 then Reject
      else ParseMembers(FieldsText(fields[1..], comma, end) + rest, nesting, before + [FieldValue(fields[0])]);
    FirstThenOthers(members, ParseMembers(FieldsText(fields, comma, end) + rest, nesting, before), others, Object(before + members), rest,
                    nesting);
  }

  lemma FirstThenOthers(members: seq<Entry<Value>>, all: Parsed<Value>, others: Parsed<Value>, v: Value, rest: bytes, nesting: nat)
    requires members != []
    requires |members| > 1 ==>
      MembersDepth(members[1..]) > 0 && others == IfWithin(nesting, MembersDepth(members[1..]) - 1, v, rest)
    requires all == if !WithinNesting(nesting, Depth(members[0].value)) then Reject
                    else if |members| == 1 then Accept(v, rest) else others
    ensures MembersDepth(members) > 0 && all == IfWithin(nesting, MembersDepth(members) - 1, v, rest)
  {
    MembersDepthStep(members, nesting);
  }

  lemma NameAndColon(f: Field, after: bytes, nesting: nat) returns (t1: bytes)
    requires ProperField(f)
    ensures ParseName(FieldText(f) + after) == Accept(Meaning(f.name), t1)
    ensures ParseValue(t1, nesting) == ParseValue(TextOf(f.text) + after, nesting)
  {
    var text := TextOf(f.text) + after;
    t1 := f.gap2 + text;
    var colon := [':' as int] + t1;
    assert FieldText(f) + after == LiteralText(f.name) + (f.gap1 + colon);
    LiteralIsParsed(f.name, f.gap1 + colon);
    BlankIsSkipped(f.gap1, colon);
    assert colon[1..] == t1;
    NameThenGap(LiteralText(f.name) + (f.gap1 + colon), Meaning(f.name), f.gap1 + colon, colon);
    LayoutStartsToken(f.text, after);
    BlankIsSpace(f.gap2);
    LeadingSpaceIsIgnored(f.gap2, text, nesting);
  }

  lemma NameThenGap(t: bytes, name: bytes, behind: bytes, colon: bytes)
    requires 0 !in name && ParseString(t) == Accept(name, behind) && SkipSpace(behind) == colon && colon != [] && colon[0] == ':' as int
    ensures ParseName(t) == Accept(name, colon[1..])
  {
  }

  lemma {:induction false} FirstFieldIsParsed(fields: seq<Field>, comma: bool, end: bytes, rest: bytes, nesting: nat,
                                              before: seq<Entry<Value>>)
    requires fields != [] && Blank(end) && ProperFields(fields)
    requires !HasName(before, Meaning(fields[0].name))
    ensures ParseMembers(FieldsText(fields, comma, end) + rest, nesting, before)
         == if !WithinNesting(nesting, Depth(ValueOf(fields[0].text))) then Reject
            else if |fields| == 1 then Accept(Object(before + [FieldValue(fields[0])]), rest)
            else ParseMembers(FieldsText(fields[1..], comma, end) + rest, nesting, before + [FieldValue(fields[0])])
    decreases fields, 0
  {
    var m, text := FieldValue(fields[0]), FieldsText(fields, comma, end) + rest;
    var after := fields[0].after + (FieldsBehind(fields, comma, end) + rest);
    FieldIsContinued(fields, comma, end, rest);
    var t1 := FieldIsRead(fields[0], after, nesting);
    FieldsTextSplits(fields, comma, end, rest);
    if |fields| == 1 {
      LastMemberStep(text, nesting, before, m, t1, after, rest);
    } else {
      MoreMembersStep(text, nesting, before, m, t1, after, FieldsText(fields[1..], comma, end) + rest);
    }
  }

  lemma FieldsTextSplits(fields: seq<Field>, comma: bool, end: bytes, rest: bytes)
    requires fields != []
    ensures FieldsText(fields, comma, end) + rest
         == FieldText(fields[0]) + (fields[0].after + (FieldsBehind(fields, comma, end) + rest))
  {
  }

  lemma {:induction false} FieldIsRead(f: Field, after: bytes, nesting: nat) returns (t1: bytes)
    requires ProperField(f) && Ends(after)
    ensures ParseName(FieldText(f) + after) == Accept(Meaning(f.name), t1)
    ensures ParseValue(t1, nesting) == IfWithin(nesting, Depth(ValueOf(f.text)), ValueOf(f.text), after)
    decreases f, 6
  {
    t1 := NameAndColon(f, after, nesting);
    LayoutIsParsed(f.text, after, nesting);
  }

  lemma FieldIsContinued(fields: seq<Field>, comma: bool, end: bytes, rest: bytes)
    requires fields != [] && Blank(end) && ProperFields(fields)
    ensures var after := fields[0].after + (FieldsBehind(fields, comma, end) + rest);
            && Ends(after)
            && Continue(after, CLOSE_BRACE)
            == if |fields| == 1 then Accept(false, rest) else Accept(true, FieldsText(fields[1..], comma, end) + rest)
  {
    FieldsSplit(fields);
    if |fields| == 1 {
      BehindIsContinued(fields[0].after, true, comma, end, '}' as int, [], [], rest);
    } else {
      FieldsStartToken(fields[1..], comma, end, rest);
      BehindIsContinued(fields[0].after, false, comma, end, '}' as int, fields[1].before, FieldsText(fields[1..], comma, end), rest);
    }
  }

  // ---- What is parsed is a layout ----

  lemma {:induction false} SpaceInFront(t: bytes) returns (space: bytes)
    ensures Blank(space) && t == space + SkipSpace(t)
  {
    space := [];
    if IsSpace(Peek(t)) {
      space := SpaceInFront(t[1..]);
      BlankIsSpace([t[0]]);
      space := [t[0]] + space;
    }
  }

  /** A minus sign without digits in front: it is taken for zero and left where it is. */
  predicate LoneMinus(t: bytes, v: Value, rest: bytes) {
    && v == Number(0) && rest == SkipSpace(t) && Peek(rest) == '-' as int
    && !('0' as int <= Peek(rest[1..]) <= '9' as int)
    && Peek(rest[1..]) !in {'.' as int, 'e' as int, 'E' as int, 'x' as int, 'X' as int, 'i' as int, 'I' as int, 'n' as int, 'N' as int}
  }

  /** `t` starts, behind white space, with a layout of `v`. */
  ghost predicate Written(t: bytes, v: Value, rest: bytes) {
    exists space, l :: WrittenAs(t, v, rest, space, l)
  }

  ghost predicate WrittenAs(t: bytes, v: Value, rest: bytes, space: bytes, l: Layout) {
    Blank(space) && Proper(l) && ValueOf(l) == v && t == space + (TextOf(l) + rest) && (l.Num? ==> Ends(rest))
  }

  lemma OneMoreDigit(n: nat, d: nat)
    requires n > 0 && d < 10
    ensures Digits(10 * n + d) == Digits(n) + ['0' as int + d]
  {
  }

  lemma {:induction false} MoreDigitsTaken(t: bytes, n: nat)
    requires n > 0
    ensures var (m, rest) := TakeDigits(t, n);
            |rest| <= |t| && Digits(m) == Digits(n) + t[..|t| - |rest|] && t[|t| - |rest|..] == rest
    decreases |t|
  {
    if IsDigit(Peek(t)) {
      var d := t[0] - '0' as int;
      var (m, rest) := TakeDigits(t[1..], 10 * n + d);
      assert TakeDigits(t, n) == (m, rest);
      MoreDigitsTaken(t[1..], 10 * n + d);
      assert Digits(10 * n + d) == Digits(n) + [t[0]] by { OneMoreDigit(n, d); }
      assert t[..|t| - |rest|] == [t[0]] + t[1..][..|t| - 1 - |rest|];
    }
  }

  /** Digits without a leading zero are the decimal text of the number they are taken for. */
  lemma TakenDigits(t: bytes)
    requires IsDigit(Peek(t)) && (Peek(t) == '0' as int ==> |TakeDigits(t, 0).1| + 1 == |t|)
    ensures t == Digits(TakeDigits(t, 0).0) + TakeDigits(t, 0).1
  {
    var d := t[0] - '0' as int;
    var (m, rest) := TakeDigits(t, 0);
    assert TakeDigits(t, 0) == TakeDigits(t[1..], d);
    assert Digits(d) == [t[0]];
    if d == 0 {
      assert rest == t[1..];
    } else {
      MoreDigitsTaken(t[1..], d);
      assert t == [t[0]] + t[1..][..|t| - 1 - |rest|] + rest;
    }
  }

  lemma NumberOfText(t: bytes) returns (l: Layout)
    requires ParseNumber(t).Accept? && (Peek(t) == '-' as int || IsDigit(Peek(t))) && !LoneMinus(t, ParseNumber(t).value, ParseNumber(t).rest)
    ensures l.Num? && Proper(l) && ValueOf(l) == ParseNumber(t).value && t == TextOf(l) + ParseNumber(t).rest && Ends(ParseNumber(t).rest)
  {
    var negative := Peek(t) == MINUS;
    var digits := if negative then t[1..] else t;
    assert SkipSpace(t) == t;
    TakenDigits(digits);
    l := Num(negative, TakeDigits(digits, 0).0);
  }

  lemma WordOfText(t: bytes, nesting: nat) returns (l: Layout)
    requires ParseValue(t, nesting).Accept? && !IsSpace(Peek(t))
    requires Peek(t) !in {OPEN_BRACE, OPEN_BRACKET, QUOTE, MINUS} && !IsDigit(Peek(t))
    ensures l.Word? && Proper(l) && ValueOf(l) == ParseValue(t, nesting).value && t == TextOf(l) + ParseValue(t, nesting).rest
  {
    l := Word(ParseValue(t, nesting).value);
    assert t == WordText(l.value) + ParseValue(t, nesting).rest;
  }

  lemma ScalarOfText(t: bytes, nesting: nat) returns (l: Layout)
    requires ParseValue(t, nesting).Accept? && !IsSpace(Peek(t)) && Peek(t) !in {OPEN_BRACE, OPEN_BRACKET}
    requires !LoneMinus(t, ParseValue(t, nesting).value, ParseValue(t, nesting).rest)
    ensures WrittenAs(t, ParseValue(t, nesting).value, ParseValue(t, nesting).rest, [], l)
  {
    var v, rest, c := ParseValue(t, nesting).value, ParseValue(t, nesting).rest, Peek(t);
    if c == QUOTE {
      assert ParseString(t).Accept? && v == String(ParseString(t).value) && rest == ParseString(t).rest;
      var gs := LiteralOf(t);
      l := Str(gs);
    } else if c == MINUS || IsDigit(c) {
      assert ParseNumber(t) == ParseValue(t, nesting);
      l := NumberOfText(t);
    } else {
      l := WordOfText(t, nesting);
    }
    assert [] + (TextOf(l) + rest) == TextOf(l) + rest;
  }

  /** Behind an element the parser went on, or did not. */
  lemma ContinuedBehind(t: bytes, close: byte) returns (after: bytes, comma: bool, end: bytes, before: bytes)
    requires Closer(close) && Continue(t, close).Accept?
    ensures Blank(after) && Blank(end) && Blank(before)
    ensures var c := Continue(t, close);
            t == after + Onward(c.value, before, comma, end, close, c.rest)
  {
    after := SpaceInFront(t);
    var t1 := SkipSpace(t);
    comma, end, before := false, [], [];
    if Peek(t1) == COMMA {
      comma := true;
      end := SpaceInFront(t1[1..]);
      before := end;
      BehindComma(t1, end, close);
    } else {
      assert t1 == Behind(true, false, [], close, [], []) + t1[1..];
    }
  }

  lemma BehindComma(t: bytes, end: bytes, close: byte)
    requires Peek(t) == ',' as int && t[1..] == end + SkipSpace(t[1..])
    ensures t == [',' as int] + (end + SkipSpace(t[1..]))
    ensures var u := SkipSpace(t[1..]);
            u != [] && u[0] == close ==> t == Behind(true, true, end, close, [], []) + u[1..]
  {
    var u := SkipSpace(t[1..]);
    assert t == [',' as int] + t[1..];
    if u != [] && u[0] == close {
      CommaAndClose(end, close, u);
    }
  }

  lemma CommaAndClose(end: bytes, close: byte, t: bytes)
    requires t != [] && t[0] == close
    ensures [',' as int] + (end + t) == Behind(true, true, end, close, [], []) + t[1..]
  {
  }

  lemma NoMinusBehind(t: bytes, v: Value, rest: bytes, close: byte)
    requires LoneMinus(t, v, rest) && Closer(close)
    ensures Continue(rest, close) == Reject
  {
    assert SkipSpace(rest) == rest;
  }

  lemma {:induction false} AcceptedIsWritten(t: bytes, nesting: nat)
    requires ParseValue(t, nesting).Accept?
    ensures var (v, rest) := (ParseValue(t, nesting).value, ParseValue(t, nesting).rest); LoneMinus(t, v, rest) || Written(t, v, rest)
    decreases |t|, 5
  {
    var v, rest, t0 := ParseValue(t, nesting).value, ParseValue(t, nesting).rest, SkipSpace(t);
    var space := SpaceInFront(t);
    assert SkipSpace(t0) == t0 && ParseValue(t0, nesting) == ParseValue(t, nesting);
    if !LoneMinus(t, v, rest) {
      var l;
      if Peek(t0) == OPEN_BRACKET {
        l := ArrOfText(t0, nesting);
      } else if Peek(t0) == OPEN_BRACE {
        l := ObjOfText(t0, nesting);
      } else {
        l := ScalarOfText(t0, nesting);
        assert [] + (TextOf(l) + rest) == TextOf(l) + rest;
      }
      assert WrittenAs(t, v, rest, space, l);
    }
  }

  /** How a container starts: it is empty, or its elements follow. */
  lemma ArrOpens(t: bytes, nesting: nat) returns (space: bytes, u: bytes)
    requires ParseValue(t, nesting).Accept? && SkipSpace(t) == t && Peek(t) == OPEN_BRACKET
    ensures Blank(space) && t == ['[' as int] + (space + u)
    ensures ParseValue(t, nesting) == if Peek(u) == CLOSE_BRACKET then Accept(Array([]), u[1..]) else ParseItems(u, nesting + 1, [])
  {
    space := SpaceInFront(t[1..]);
    u := SkipSpace(t[1..]);
  }

  lemma ObjOpens(t: bytes, nesting: nat) returns (space: bytes, u: bytes)
    requires ParseValue(t, nesting).Accept? && SkipSpace(t) == t && Peek(t) == OPEN_BRACE
    ensures Blank(space) && t == ['{' as int] + (space + u)
    ensures ParseValue(t, nesting) == if Peek(u) == CLOSE_BRACE then Accept(Object([]), u[1..]) else ParseMembers(u, nesting + 1, [])
  {
    space := SpaceInFront(t[1..]);
    u := SkipSpace(t[1..]);
  }

  lemma EmptyAround(t: bytes, open: byte, space: bytes, close: byte, u: bytes)
    requires u != [] && u[0] == close && t == [open] + (space + u)
    ensures t == [open] + (space + [close]) + u[1..]
  {
  }

  lemma {:induction false} ArrOfText(t: bytes, nesting: nat) returns (l: Layout)
    requires ParseValue(t, nesting).Accept? && SkipSpace(t) == t && Peek(t) == OPEN_BRACKET
    ensures Proper(l) && l.Arr? && ValueOf(l) == ParseValue(t, nesting).value && t == TextOf(l) + ParseValue(t, nesting).rest
    decreases |t|, 2
  {
    var space, u := ArrOpens(t, nesting);
    var r := ParseValue(t, nesting);
    if Peek(u) == CLOSE_BRACKET {
      l := Arr(space, [], false, []);
      EmptyAround(t, '[' as int, space, ']' as int, u);
    } else {
      var items, comma, end, values := ItemsOfText(u, nesting + 1, []);
      assert [] + values == values;
      l := ArrAround(t, space, u, items, comma, end, values, r.rest);
    }
  }

  lemma ArrAround(t: bytes, space: bytes, u: bytes, items: seq<Slot>, comma: bool, end: bytes, values: seq<Value>, rest: bytes)
    returns (l: Layout)
    requires ItemsAre(u, items, comma, end, values, rest) && Blank(space) && t == ['[' as int] + (space + u)
    ensures Proper(l) && l.Arr? && ValueOf(l) == Array(values) && t == TextOf(l) + rest
  {
    var first := items[0].(before := space + items[0].before);
    var all := [first] + items[1..];
    l := Arr([], all, comma, end);
    assert ItemsText(all, comma, end) == ItemsText(items, comma, end) && ItemValues(all) == values by {
      SameBehindFirst(items, first, comma, end);
    }
    assert ProperSlots(all) by {
      SlotsSplit(items);
      BlankAndBlank(space, items[0].before);
      SlotsSplit(all);
      assert all[1..] == items[1..];
    }
    MoreSpaceInFront('[' as int, space, items[0].before, ItemsText(items, comma, end), rest);
  }

  lemma MoreSpaceInFront(open: byte, space: bytes, before: bytes, text: bytes, rest: bytes)
    ensures [open] + (space + (before + (text + rest))) == [open] + (space + before + text) + rest
  {
  }

  lemma BlankAndBlank(a: bytes, b: bytes)
    requires Blank(a) && Blank(b)
    ensures Blank(a + b)
  {
  }

  /** The white space in front of the first item is not part of the items' text. */
  lemma SameBehindFirst(items: seq<Slot>, first: Slot, comma: bool, end: bytes)
    requires items != [] && first.text == items[0].text && first.after == items[0].after
    ensures ItemsText([first] + items[1..], comma, end) == ItemsText(items, comma, end)
    ensures ItemValues([first] + items[1..]) == ItemValues(items)
  {
    assert ([first] + items[1..])[1..] == items[1..];
  }

  /** A value inside a container and what follows it; a lone minus cannot stand there. */
  lemma {:induction false} ElementOfText(t: bytes, nesting: nat, close: byte)
    returns (space: bytes, l: Layout, after: bytes, comma: bool, end: bytes, gap: bytes)
    requires ParseValue(t, nesting).Accept? && Closer(close) && Continue(ParseValue(t, nesting).rest, close).Accept?
    ensures Blank(space) && Proper(l) && Blank(after) && Blank(end) && Blank(gap) && ValueOf(l) == ParseValue(t, nesting).value
    ensures var c := Continue(ParseValue(t, nesting).rest, close);
            t == space + (TextOf(l) + (after + Onward(c.value, gap, comma, end, close, c.rest)))
    decreases |t|, 6
  {
    var v, t1 := ParseValue(t, nesting).value, ParseValue(t, nesting).rest;
    AcceptedIsWritten(t, nesting);
    if LoneMinus(t, v, t1) {
      NoMinusBehind(t, v, t1, close);
    }
    space, l :| WrittenAs(t, v, t1, space, l);
    after, comma, end, gap := ContinuedBehind(t1, close);
  }

  lemma ItemsJoin(slot: Slot, others: seq<Slot>, comma: bool, end: bytes, rest: bytes)
    requires others != []
    ensures ItemsText([slot] + others, comma, end) + rest
         == TextOf(slot.text) + (slot.after + ([',' as int] + (others[0].before + (ItemsText(others, comma, end) + rest))))
    ensures ItemValues([slot] + others) == [ValueOf(slot.text)] + ItemValues(others)
  {
    var items := [slot] + others;
    assert items[1..] == others && items[1] == others[0];
    var others' := ItemsText(others, comma, end);
    assert ItemsText(items, comma, end) == TextOf(slot.text) + (slot.after + ([',' as int] + (others[0].before + others')));
  }

  lemma ItemsEnd(slot: Slot, comma: bool, end: bytes, rest: bytes)
    ensures ItemsText([slot], comma, end) + rest
         == TextOf(slot.text) + (slot.after + (Behind(true, comma, end, ']' as int, [], []) + rest))
    ensures ItemValues([slot]) == [ValueOf(slot.text)]
  {
    assert [slot][1..] == [];
  }

  ghost predicate ItemsAre(t: bytes, items: seq<Slot>, comma: bool, end: bytes, values: seq<Value>, rest: bytes) {
    && items != [] && Blank(end) && ProperSlots(items)
    && ItemValues(items) == values && t == items[0].before + (ItemsText(items, comma, end) + rest)
  }

  /** One more item in front, behind which white space and the others follow. */
  lemma ItemInFront(t: bytes, slot: Slot, gap: bytes, u: bytes, items: seq<Slot>, comma: bool, end: bytes, values: seq<Value>, rest: bytes)
    returns (all: seq<Slot>)
    requires ItemsAre(u, items, comma, end, values, rest) && Blank(gap) && ProperSlot(slot)
    requires t == slot.before + (TextOf(slot.text) + (slot.after + ([',' as int] + (gap + u))))
    ensures ItemsAre(t, all, comma, end, [ValueOf(slot.text)] + values, rest)
  {
    var second := items[0].(before := gap + items[0].before);
    var others := [second] + items[1..];
    all := [slot] + others;
    assert ProperSlots(all) by {
      SlotsSplit(items);
      BlankAndBlank(gap, items[0].before);
      SlotsSplit(others);
      assert others[1..] == items[1..];
      SlotsSplit(all);
      assert all[1..] == others;
    }
    SameBehindFirst(items, second, comma, end);
    ItemsJoin(slot, others, comma, end, rest);
    assert gap + u == others[0].before + (ItemsText(others, comma, end) + rest);
  }

  /** The first item of a list, and where the parser goes on. */
  lemma {:induction false} FirstItemOfText(t: bytes, nesting: nat, before: seq<Value>)
    returns (slot: Slot, comma: bool, end: bytes, gap: bytes, more: bool, u: bytes)
    requires ParseItems(t, nesting, before).Accept?
    ensures ProperSlot(slot) && Blank(end) && Blank(gap) && |u| < |t|
    ensures t == slot.before + (TextOf(slot.text) + (slot.after + Onward(more, gap, comma, end, ']' as int, u)))
    ensures ParseItems(t, nesting, before)
         == if more then ParseItems(u, nesting, before + [ValueOf(slot.text)]) else Accept(Array(before + [ValueOf(slot.text)]), u)
    decreases |t|, 7
  {
    var space, l, after;
    space, l, after, comma, end, gap := ElementOfText(t, nesting, ']' as int);
    slot := Slot(space, l, after);
    var c := Continue(ParseValue(t, nesting).rest, CLOSE_BRACKET);
    more, u := c.value, c.rest;
  }

  lemma {:induction false} ItemsOfText(t: bytes, nesting: nat, before: seq<Value>)
    returns (items: seq<Slot>, comma: bool, end: bytes, values: seq<Value>)
    requires ParseItems(t, nesting, before).Accept?
    ensures ItemsAre(t, items, comma, end, values, ParseItems(t, nesting, before).rest)
    ensures ParseItems(t, nesting, before).value == Array(before + values)
    decreases |t|, 9
  {
    var slot, gap, more, u;
    slot, comma, end, gap, more, u := FirstItemOfText(t, nesting, before);
    if more {
      items, comma, end, values := MoreItemsOfText(t, nesting, before, slot, gap, u);
    } else {
      items, values := [slot], [ValueOf(slot.text)];
      ItemsEnd(slot, comma, end, u);
    }
  }

  lemma {:induction false} MoreItemsOfText(t: bytes, nesting: nat, before: seq<Value>, slot: Slot, gap: bytes, u: bytes)
    returns (items: seq<Slot>, comma: bool, end: bytes, values: seq<Value>)
    requires ParseItems(u, nesting, before + [ValueOf(slot.text)]).Accept? && |u| < |t|
    requires Blank(gap) && ProperSlot(slot)
    requires t == slot.before + (TextOf(slot.text) + (slot.after + ([',' as int] + (gap + u))))
    ensures var p := ParseItems(u, nesting, before + [ValueOf(slot.text)]);
            ItemsAre(t, items, comma, end, values, p.rest) && p.value == Array(before + values)
    decreases |t|, 8
  {
    var v := ValueOf(slot.text);
    items, comma, end, values := ItemsOfText(u, nesting, before + [v]);
    items := ItemInFront(t, slot, gap, u, items, comma, end, values, ParseItems(u, nesting, before + [v]).rest);
    assert before + [v] + values == before + ([v] + values);
    values := [v] + values;
  }

  lemma {:induction false} ObjOfText(t: bytes, nesting: nat) returns (l: Layout)
    requires ParseValue(t, nesting).Accept? && SkipSpace(t) == t && Peek(t) == OPEN_BRACE
    ensures Proper(l) && l.Obj? && ValueOf(l) == ParseValue(t, nesting).value && t == TextOf(l) + ParseValue(t, nesting).rest
    decreases |t|, 2
  {
    var space, u := ObjOpens(t, nesting);
    var r := ParseValue(t, nesting);
    if Peek(u) == CLOSE_BRACE {
      l := Obj(space, [], false, []);
      EmptyAround(t, '{' as int, space, '}' as int, u);
    } else {
      var fields, comma, end, members := FieldsOfText(u, nesting + 1, []);
      assert [] + members == members;
      l := ObjAround(t, space, u, fields, comma, end, members, r.rest);
    }
  }

  lemma ObjAround(t: bytes, space: bytes, u: bytes, fields: seq<Field>, comma: bool, end: bytes, members: seq<Entry<Value>>, rest: bytes)
    returns (l: Layout)
    requires FieldsAre(u, fields, comma, end, members, rest) && Distinct(members) && Blank(space) && t == ['{' as int] + (space + u)
    ensures Proper(l) && l.Obj? && ValueOf(l) == Object(members) && t == TextOf(l) + rest
  {
    var first := fields[0].(before := space + fields[0].before);
    var all := [first] + fields[1..];
    l := Obj([], all, comma, end);
    assert FieldsText(all, comma, end) == FieldsText(fields, comma, end) && FieldValues(all) == members by {
      SameFieldsBehindFirst(fields, first, comma, end);
    }
    assert ProperFields(all) by {
      FieldsSplit(fields);
      BlankAndBlank(space, fields[0].before);
      FieldsSplit(all);
      assert all[1..] == fields[1..];
    }
    MoreSpaceInFront('{' as int, space, fields[0].before, FieldsText(fields, comma, end), rest);
  }

  lemma SameFieldsBehindFirst(fields: seq<Field>, first: Field, comma: bool, end: bytes)
    requires fields != [] && first == fields[0].(before := first.before)
    ensures FieldsText([first] + fields[1..], comma, end) == FieldsText(fields, comma, end)
    ensures FieldValues([first] + fields[1..]) == FieldValues(fields)
  {
    assert ([first] + fields[1..])[1..] == fields[1..];
  }

  lemma NameOfText(t: bytes) returns (gs: seq<Glyph>, gap: bytes)
    requires ParseName(t).Accept?
    ensures ProperGlyphs(gs) && Blank(gap) && Meaning(gs) == ParseName(t).value && 0 !in Meaning(gs)
    ensures t == LiteralText(gs) + (gap + ([':' as int] + ParseName(t).rest))
  {
    gs := LiteralOf(t);
    var behind := ParseString(t).rest;
    gap := SpaceInFront(behind);
    var colon := SkipSpace(behind);
    assert colon == [':' as int] + colon[1..];
  }

  lemma FieldsJoin(f: Field, others: seq<Field>, comma: bool, end: bytes, rest: bytes)
    requires others != []
    ensures FieldsText([f] + others, comma, end) + rest
         == FieldText(f) + (f.after + ([',' as int] + (others[0].before + (FieldsText(others, comma, end) + rest))))
    ensures FieldValues([f] + others) == [FieldValue(f)] + FieldValues(others)
  {
    var fields := [f] + others;
    assert fields[1..] == others && fields[1] == others[0];
    var text := FieldsText(others, comma, end);
    assert FieldsText(fields, comma, end) == FieldText(f) + (f.after + ([',' as int] + (others[0].before + text)));
  }

  lemma FieldsEnd(f: Field, comma: bool, end: bytes, rest: bytes)
    ensures FieldsText([f], comma, end) + rest == FieldText(f) + (f.after + (Behind(true, comma, end, '}' as int, [], []) + rest))
    ensures FieldValues([f]) == [FieldValue(f)]
  {
    assert [f][1..] == [];
  }

  /** The first member of an object, and where the parser goes on. */
  lemma {:induction false} FirstFieldOfText(t: bytes, nesting: nat, before: seq<Entry<Value>>)
    returns (f: Field, comma: bool, end: bytes, gap: bytes, more: bool, u: bytes)
    requires ParseMembers(t, nesting, before).Accept?
    ensures ProperField(f) && f.before == [] && Blank(end) && Blank(gap) && |u| < |t| && !HasName(before, FieldValue(f).name)
    ensures t == FieldText(f) + (f.after + Onward(more, gap, comma, end, '}' as int, u))
    ensures ParseMembers(t, nesting, before)
         == if more then ParseMembers(u, nesting, before + [FieldValue(f)]) else Accept(Object(before + [FieldValue(f)]), u)
    decreases |t|, 7
  {
    var gs, gap1 := NameOfText(t);
    var name, t1 := ParseName(t).value, ParseName(t).rest;
    MembersStep(t, nesting, before, name, t1);
    var c := Continue(ParseValue(t1, nesting).rest, CLOSE_BRACE);
    var space, l, after;
    space, l, after, comma, end, gap := ElementOfText(t1, nesting, '}' as int);
    f := Field([], gs, gap1, space, l, after);
    more, u := c.value, c.rest;
    FieldTextIs(f, t, t1, Onward(more, gap, comma, end, '}' as int, u));
  }

  lemma MembersStep(t: bytes, nesting: nat, before: seq<Entry<Value>>, name: bytes, t1: bytes)
    requires ParseMembers(t, nesting, before).Accept? && ParseName(t) == Accept(name, t1)
    ensures ParseValue(t1, nesting).Accept? && Continue(ParseValue(t1, nesting).rest, CLOSE_BRACE).Accept? && !HasName(before, name)
    ensures |t1| < |t| && |Continue(ParseValue(t1, nesting).rest, CLOSE_BRACE).rest| < |t|
    ensures var m, c := Entry(name, ParseValue(t1, nesting).value), Continue(ParseValue(t1, nesting).rest, CLOSE_BRACE);
            ParseMembers(t, nesting, before)
            == if c.value then ParseMembers(c.rest, nesting, before + [m]) else Accept(Object(before + [m]), c.rest)
  {
  }

  lemma FieldTextIs(f: Field, t: bytes, t1: bytes, tail: bytes)
    requires t == LiteralText(f.name) + (f.gap1 + ([':' as int] + t1)) && t1 == f.gap2 + (TextOf(f.text) + (f.after + tail))
    ensures t == FieldText(f) + (f.after + tail)
  {
  }

  ghost predicate FieldsAre(t: bytes, fields: seq<Field>, comma: bool, end: bytes, members: seq<Entry<Value>>, rest: bytes) {
    && fields != [] && Blank(end) && ProperFields(fields)
    && FieldValues(fields) == members && t == fields[0].before + (FieldsText(fields, comma, end) + rest)
  }

  lemma FieldInFront(t: bytes, f: Field, gap: bytes, u: bytes, fields: seq<Field>, comma: bool, end: bytes, members: seq<Entry<Value>>,
                     rest: bytes)
    returns (all: seq<Field>)
    requires FieldsAre(u, fields, comma, end, members, rest) && Blank(gap) && ProperField(f) && f.before == []
    requires t == FieldText(f) + (f.after + ([',' as int] + (gap + u)))
    ensures FieldsAre(t, all, comma, end, [FieldValue(f)] + members, rest)
  {
    var second := fields[0].(before := gap + fields[0].before);
    var others := [second] + fields[1..];
    all := [f] + others;
    assert ProperFields(all) by {
      FieldsSplit(fields);
      BlankAndBlank(gap, fields[0].before);
      FieldsSplit(others);
      assert others[1..] == fields[1..];
      FieldsSplit(all);
      assert all[1..] == others;
    }
    assert FieldsText(others, comma, end) == FieldsText(fields, comma, end) && FieldValues(others) == members by {
      SameFieldsBehindFirst(fields, second, comma, end);
    }
    assert gap + u == others[0].before + (FieldsText(others, comma, end) + rest);
    FieldsJoin(f, others, comma, end, rest);
    assert [] + (FieldsText(all, comma, end) + rest) == FieldsText(all, comma, end) + rest;
  }

  lemma LastField(t: bytes, f: Field, comma: bool, end: bytes, u: bytes)
    requires ProperField(f) && f.before == [] && Blank(end)
    requires t == FieldText(f) + (f.after + (Behind(true, comma, end, '}' as int, [], []) + u))
    ensures FieldsAre(t, [f], comma, end, [FieldValue(f)], u)
  {
    FieldsEnd(f, comma, end, u);
    assert [] + (FieldsText([f], comma, end) + u) == FieldsText([f], comma, end) + u;
  }

  lemma {:induction false} FieldsOfText(t: bytes, nesting: nat, before: seq<Entry<Value>>)
    returns (fields: seq<Field>, comma: bool, end: bytes, members: seq<Entry<Value>>)
    requires ParseMembers(t, nesting, before).Accept? && Distinct(before)
    ensures FieldsAre(t, fields, comma, end, members, ParseMembers(t, nesting, before).rest)
    ensures ParseMembers(t, nesting, before).value == Object(before + members) && Distinct(before + members)
    decreases |t|, 9
  {
    var f, gap, more, u;
    f, comma, end, gap, more, u := FirstFieldOfText(t, nesting, before);
    DistinctMore(before, FieldValue(f));
    if more {
      fields, comma, end, members := MoreFieldsOfText(t, nesting, before, f, gap, u);
    } else {
      fields, members := [f], [FieldValue(f)];
      LastField(t, f, comma, end, u);
    }
  }

  lemma {:induction false} MoreFieldsOfText(t: bytes, nesting: nat, before: seq<Entry<Value>>, f: Field, gap: bytes, u: bytes)
    returns (fields: seq<Field>, comma: bool, end: bytes, members: seq<Entry<Value>>)
    requires ParseMembers(u, nesting, before + [FieldValue(f)]).Accept? && Distinct(before + [FieldValue(f)]) && |u| < |t|
    requires Blank(gap) && ProperField(f) && f.before == [] && t == FieldText(f) + (f.after + ([',' as int] + (gap + u)))
    ensures var p := ParseMembers(u, nesting, before + [FieldValue(f)]);
            FieldsAre(t, fields, comma, end, members, p.rest) && p.value == Object(before + members) && Distinct(before + members)
    decreases |t|, 8
  {
    var m := FieldValue(f);
    fields, comma, end, members := FieldsOfText(u, nesting, before + [m]);
    fields := FieldInFront(t, f, gap, u, fields, comma, end, members, ParseMembers(u, nesting, before + [m]).rest);
    Regroup(before, m, members);
    members := [m] + members;
  }

  lemma Regroup<T>(a: seq<T>, x: T, b: seq<T>)
    ensures a + [x] + b == a + ([x] + b)
  {
  }

  lemma DistinctMore(before: seq<Entry<Value>>, m: Entry<Value>)
    requires Distinct(before) && !HasName(before, m.name)
    ensures Distinct(before + [m])
  {
  }

  /** The parser accepts exactly the texts that start with a layout not nested too deep, or with a lone minus sign. */
  lemma AcceptedIffWritten(t: bytes, v: Value, rest: bytes)
    ensures ParseValue(t, 0) == Accept(v, rest) <==> (Written(t, v, rest) && Depth(v) <= 2048) || LoneMinus(t, v, rest)
  {
    if ParseValue(t, 0) == Accept(v, rest) {
      AcceptedIsWritten(t, 0);
      AcceptedIsStorable(t, 0);
    }
    if LoneMinus(t, v, rest) {
      assert ParseNumber(rest) == Accept(Number(0), rest);
    }
    if Written(t, v, rest) && Depth(v) <= 2048 {
      var space, l :| WrittenAs(t, v, rest, space, l);
      LayoutIsParsed(l, rest, 0);
      LayoutStartsToken(l, rest);
      BlankIsSpace(space);
      LeadingSpaceIsIgnored(space, TextOf(l) + rest, 0);
    }
  }
}
