/** Parsing what the printer wrote gives the value back and uses up exactly the printed text. */
module JsonRoundTrip {
  import opened CStrings
  import opened Entries
  import opened JsonStrings
  import opened JsonValues
  import opened JsonGrammar

  /** Text that may follow a number without changing it. */
  predicate Ends(rest: bytes) {
    !IsDigit(Peek(rest)) && !ExtendsNumber(Peek(rest))
  }

  lemma {:induction false} SpaceIsSkipped(space: bytes, t: bytes)
    requires forall i :: 0 <= i < |space| ==> IsSpace(space[i])
    requires !IsSpace(Peek(t))
    ensures SkipSpace(space + t) == t
  {
    if space == [] {
      assert space + t == t;
    } else {
      assert (space + t)[1..] == space[1..] + t;
      SpaceIsSkipped(space[1..], t);
    }
  }

  // ---- Numbers ----

  lemma {:induction false} DigitsAreTaken(n: nat, rest: bytes)
    ensures TakeDigits(Digits(n) + rest, 0) == TakeDigits(rest, n)
  {
    if n < 10 {
      assert (Digits(n) + rest)[1..] == rest;
    } else {
      var d := ['0' as int + n % 10];
      DigitsAreTaken(n / 10, d + rest);
      assert Digits(n) + rest == Digits(n / 10) + (d + rest);
      assert (d + rest)[1..] == rest;
    }
  }

  lemma {:induction false} NoLeadingZero(n: nat)
    ensures Digits(n)[0] == '0' as int ==> |Digits(n)| == 1
  {
    if n >= 10 {
      NoLeadingZero(n / 10);
      assert Digits(n)[0] == Digits(n / 10)[0];
      if n / 10 < 10 {
        assert Digits(n / 10)[0] != '0' as int;
      }
    }
  }

  lemma MagnitudeIsParsed(m: nat, rest: bytes)
    requires Ends(rest)
    ensures var t := Digits(m) + rest;
            && IsDigit(Peek(t)) && TakeDigits(t, 0) == (m, rest)
            && (Peek(t) == '0' as int ==> |rest| + 1 == |t|)
  {
    NoLeadingZero(m);
    DigitsAreTaken(m, rest);
  }

  lemma NumberIsParsed(n: int, rest: bytes)
    requires -MAX_EXACT <= n <= MAX_EXACT && Ends(rest)
    ensures ParseNumber(Decimal(n) + rest) == Accept(Number(n), rest)
  {
    var m := if n < 0 then -n else n;
    var digits := Digits(m) + rest;
    var t := if n < 0 then [MINUS] + digits else digits;
    assert Decimal(n) + rest == t;
    NumberOf(t, n, m, digits, rest) by {
      MagnitudeIsParsed(m, rest);
      assert n < 0 ==> t[1..] == digits;
    }
  }

  lemma NumberOf(t: bytes, n: int, m: nat, digits: bytes, rest: bytes)
    requires -MAX_EXACT <= n <= MAX_EXACT && Ends(rest) && m == if n < 0 then -n else n
    requires if n < 0 then t != [] && t[0] == MINUS && t[1..] == digits else t == digits
    requires IsDigit(Peek(digits)) && TakeDigits(digits, 0) == (m, rest)
    requires Peek(digits) == '0' as int ==> |rest| + 1 == |digits|
    ensures ParseNumber(t) == Accept(Number(n), rest)
  {
  }

  // ---- Strings ----

  lemma StringIsParsed(s: bytes, slashes: bool, rest: bytes)
    ensures ParseString(Quoted(s, slashes) + rest) == Accept(s, rest)
  {
    var e := Escaped(s, slashes);
    var t := Quoted(s, slashes) + rest;
    assert t[1..] == e + ([QUOTE] + rest);
    EscapedIsSkipped(s, slashes, [QUOTE] + rest);
    assert t[1..][..|e|] == e && t[|e| + 2..] == rest;
    UnescapeEscaped(s, slashes);
  }

  // ---- Containers ----

  predicate AllSpace(s: bytes) {
    forall i :: 0 <= i < |s| ==> IsSpace(s[i])
  }

  predicate StartsToken(t: bytes) {
    t != [] && !IsSpace(t[0]) && t[0] !in {0, COMMA, CLOSE_BRACKET, CLOSE_BRACE}
  }

  /** The text of a value starts with a character of its own, which is enough to tell its kind. */
  lemma PrintStartsToken(v: Value, level: nat, style: Style, rest: bytes)
    ensures StartsToken(Print(v, level, style) + rest)
    ensures (Print(v, level, style) + rest)[0] != 0xEF
  {
  }

  lemma ContinueAtClose(space: bytes, close: byte, rest: bytes)
    requires AllSpace(space) && close in {CLOSE_BRACKET, CLOSE_BRACE}
    ensures Continue(space + ([close] + rest), close) == Accept(false, rest)
  {
    SpaceIsSkipped(space, [close] + rest);
  }

  lemma ContinueAtComma(space: bytes, body: bytes, close: byte)
    requires AllSpace(space) && StartsToken(body) && close in {CLOSE_BRACKET, CLOSE_BRACE}
    ensures Continue([COMMA] + (space + body), close) == Accept(true, body)
  {
    var t := [COMMA] + (space + body);
    assert t[1..] == space + body;
    SpaceIsSkipped(space, body);
  }

  predicate WithinNesting(nesting: nat, depth: nat) {
    nesting + depth <= MAX_NESTING
  }

  function IfWithin<T>(nesting: nat, depth: nat, value: T, rest: bytes): Parsed<T> {
    if WithinNesting(nesting, depth) then Accept(value, rest) else Reject
  }

  /** The text behind one element of a container, up to the closing bracket and what follows it. */
  function Behind(last: bool, level: nat, style: Style, close: byte, body: bytes): bytes {
    if last then Gap(level, style) + ([close] + body) else [COMMA] + (Gap(level + 1, style) + body)
  }

  lemma ContinueBehind(last: bool, level: nat, style: Style, close: byte, body: bytes)
    requires close in {CLOSE_BRACKET, CLOSE_BRACE} && (!last ==> StartsToken(body))
    ensures Continue(Behind(last, level, style, close, body), close) == Accept(!last, body)
    ensures Ends(Behind(last, level, style, close, body))
  {
    if last {
      ContinueAtClose(Gap(level, style), close, body);
    } else {
      ContinueAtComma(Gap(level + 1, style), body, close);
    }
  }

  lemma OpeningIsSkipped(open: byte, level: nat, style: Style, text: bytes)
    requires StartsToken(text)
    ensures SkipSpace(([open] + (Gap(level, style) + text))[1..]) == text
  {
    assert ([open] + (Gap(level, style) + text))[1..] == Gap(level, style) + text;
    SpaceIsSkipped(Gap(level, style), text);
  }

  /**
    Printed text parses back to its value, leaving exactly what follows it, whenever the nesting limit allows; and is
    rejected whenever it does not.
  */
  lemma {:induction false} ParsePrinted(v: Value, level: nat, style: Style, rest: bytes, nesting: nat)
    requires Storable(v) && Ends(rest)
    ensures ParseValue(Print(v, level, style) + rest, nesting) == IfWithin(nesting, Depth(v), v, rest)
    decreases v, 4
  {
    match v
    case Array(items) => if items != [] { ArrayIsParsed(items, level, style, rest, nesting); }
                         else { EmptyIsParsed(v, level, style, rest, nesting); }
    case Object(members) => if members != [] { ObjectIsParsed(members, level, style, rest, nesting); }
                            else { EmptyIsParsed(v, level, style, rest, nesting); }
    case _ => ScalarIsParsed(v, level, style, rest, nesting);
  }

  lemma ScalarIsParsed(v: Value, level: nat, style: Style, rest: bytes, nesting: nat)
    requires Storable(v) && Ends(rest) && !v.Array? && !v.Object?
    ensures ParseValue(Print(v, level, style) + rest, nesting) == IfWithin(nesting, 0, v, rest)
  {
    var t := Print(v, level, style) + rest;
    PrintStartsToken(v, level, style, rest);
    assert SkipSpace(t) == t;
    match v
    case Null => assert t[..4] == Ascii("null") && t[4..] == rest;
    case Bool(b) =>
      var word := if b then "true" else "false";
      assert t[..|word|] == Ascii(word) && t[|word|..] == rest;
    case Number(n) => NumberIsParsed(n, rest);
    case String(s) => StringIsParsed(s, style.slashes, rest);
  }

  lemma EmptyIsParsed(v: Value, level: nat, style: Style, rest: bytes, nesting: nat)
    requires v == Array([]) || v == Object([])
    ensures ParseValue(Print(v, level, style) + rest, nesting) == IfWithin(nesting, 0, v, rest)
  {
    var t := Print(v, level, style) + rest;
    assert SkipSpace(t) == t && t[1..] == [t[1]] + rest && SkipSpace(t[1..]) == t[1..];
  }

  // ---- Arrays ----

  /** The depth of the items themselves. */
  function DepthBelow(items: seq<Value>): nat {
    if ItemsDepth(items) == 0 then 0 else ItemsDepth(items) - 1
  }

  lemma ItemsDepthStep(items: seq<Value>, nesting: nat)
    requires items != []
    ensures WithinNesting(nesting, ItemsDepth(items) - 1)
        <==> WithinNesting(nesting, Depth(items[0])) && (|items| > 1 ==> WithinNesting(nesting, ItemsDepth(items[1..]) - 1))
    ensures ItemsDepth(items) > 0 && (|items| > 1 ==> ItemsDepth(items[1..]) > 0)
  {
    if |items| > 1 {
      ItemsDepthStep(items[1..], nesting);
    }
  }

  lemma OpenArrayStep(t: bytes, nesting: nat, text: bytes)
    requires t != [] && t[0] == OPEN_BRACKET && SkipSpace(t[1..]) == text && StartsToken(text) && nesting <= MAX_NESTING
    ensures ParseValue(t, nesting) == ParseItems(text, nesting + 1, [])
  {
  }

  /** One turn of the item loop, for the last item and for the others. */
  lemma LastItemStep(t: bytes, nesting: nat, before: seq<Value>, v: Value, after: bytes, rest: bytes)
    requires StartsToken(t)
    requires ParseValue(t, nesting) == IfWithin(nesting, Depth(v), v, after)
    requires Continue(after, CLOSE_BRACKET) == Accept(false, rest)
    ensures ParseItems(t, nesting, before) == IfWithin(nesting, Depth(v), Array(before + [v]), rest)
  {
  }

  lemma MoreItemsStep(t: bytes, nesting: nat, before: seq<Value>, v: Value, after: bytes, body: bytes)
    requires StartsToken(t)
    requires ParseValue(t, nesting) == IfWithin(nesting, Depth(v), v, after)
    requires Continue(after, CLOSE_BRACKET) == Accept(true, body)
    ensures ParseItems(t, nesting, before)
         == if WithinNesting(nesting, Depth(v)) then ParseItems(body, nesting, before + [v]) else Reject
  {
  }

  lemma PrintItemsSplit(items: seq<Value>, level: nat, style: Style, rest: bytes)
    requires items != []
    ensures PrintItems(items, level, style) + rest
         == Print(items[0], level + 1, style)
            + Behind(|items| == 1, level, style, CLOSE_BRACKET,
                     if |items| == 1 then rest else PrintItems(items[1..], level, style) + rest)
    ensures StartsToken(PrintItems(items, level, style) + rest)
  {
    PrintStartsToken(items[0], level + 1, style, []);
  }

  /** Where the text of the first item ends, and where the parser goes on. */
  lemma SplitItems(items: seq<Value>, level: nat, style: Style, rest: bytes) returns (after: bytes)
    requires items != []
    ensures PrintItems(items, level, style) + rest == Print(items[0], level + 1, style) + after
    ensures StartsToken(PrintItems(items, level, style) + rest) && Ends(after)
    ensures Continue(after, CLOSE_BRACKET)
         == if |items| == 1 then Accept(false, rest) else Accept(true, PrintItems(items[1..], level, style) + rest)
  {
    var last := |items| == 1;
    var body := if last then rest else PrintItems(items[1..], level, style) + rest;
    after := Behind(last, level, style, CLOSE_BRACKET, body);
    PrintItemsSplit(items, level, style, rest);
    if !last { PrintItemsSplit(items[1..], level, style, rest); }
    ContinueBehind(last, level, style, CLOSE_BRACKET, body);
  }

  lemma OpenArray(items: seq<Value>, level: nat, style: Style, rest: bytes, nesting: nat)
    requires items != [] && nesting <= MAX_NESTING
    ensures ParseValue(Print(Array(items), level, style) + rest, nesting)
         == ParseItems(PrintItems(items, level, style) + rest, nesting + 1, [])
  {
    var text := PrintItems(items, level, style) + rest;
    var t := [OPEN_BRACKET] + (Gap(level + 1, style) + text);
    assert Print(Array(items), level, style) + rest == t;
    PrintItemsSplit(items, level, style, rest);
    OpeningIsSkipped(OPEN_BRACKET, level + 1, style, text);
    OpenArrayStep(t, nesting, text);
  }

  lemma {:induction false} ArrayIsParsed(items: seq<Value>, level: nat, style: Style, rest: bytes, nesting: nat)
    requires items != [] && forall i :: 0 <= i < |items| ==> Storable(items[i])
    ensures ParseValue(Print(Array(items), level, style) + rest, nesting)
         == IfWithin(nesting, ItemsDepth(items), Array(items), rest)
    decreases items, 3
  {
    var t := Print(Array(items), level, style) + rest;
    assert ItemsDepth(items) > 0 by { ItemsDepthStep(items, nesting); }
    if nesting > MAX_NESTING {
      TooDeepIsRejected(t, nesting);
    } else {
      OpenArray(items, level, style, rest, nesting);
      ItemsAreParsed(items, level, style, rest, nesting + 1, []);
      assert [] + items == items;
      OneDeeper(nesting, ItemsDepth(items), Array(items), rest);
    }
  }

  lemma TooDeepIsRejected(t: bytes, nesting: nat)
    requires nesting > MAX_NESTING
    ensures ParseValue(t, nesting) == Reject
  {
  }

  lemma OneDeeper(nesting: nat, depth: nat, v: Value, rest: bytes)
    requires depth > 0
    ensures IfWithin(nesting + 1, depth - 1, v, rest) == IfWithin(nesting, depth, v, rest)
  {
  }

  lemma {:induction false} ItemsAreParsed(items: seq<Value>, level: nat, style: Style, rest: bytes, nesting: nat,
                                          before: seq<Value>)
    requires items != [] && forall i :: 0 <= i < |items| ==> Storable(items[i])
    ensures ItemsDepth(items) > 0
    ensures ParseItems(PrintItems(items, level, style) + rest, nesting, before)
         == IfWithin(nesting, DepthBelow(items), Array(before + items), rest)
    decreases items, 2
  {
    if |items| > 1 {
      ItemsAreParsed(items[1..], level, style, rest, nesting, before + [items[0]]);
      assert before + [items[0]] + items[1..] == before + items;
    }
    ItemsFollowFirst(items, level, style, rest, nesting, before);
  }

  lemma {:induction false} ItemsFollowFirst(items: seq<Value>, level: nat, style: Style, rest: bytes, nesting: nat,
                                            before: seq<Value>)
    requires items != [] && Storable(items[0])
    requires |items| > 1 ==>
      ParseItems(PrintItems(items[1..], level, style) + rest, nesting, before + [items[0]])
      == IfWithin(nesting, DepthBelow(items[1..]), Array(before + items), rest)
    ensures ItemsDepth(items) > 0
    ensures ParseItems(PrintItems(items, level, style) + rest, nesting, before)
         == IfWithin(nesting, DepthBelow(items), Array(before + items), rest)
    decreases items, 1
  {
    ItemsDepthStep(items, nesting);
    FirstItemIsParsed(items, level, style, rest, nesting, before);
    assert |items| == 1 ==> before + [items[0]] == before + items;
  }

  lemma {:induction false} FirstItemIsParsed(items: seq<Value>, level: nat, style: Style, rest: bytes, nesting: nat,
                                             before: seq<Value>)
    requires items != [] && Storable(items[0])
    ensures ParseItems(PrintItems(items, level, style) + rest, nesting, before)
         == if !WithinNesting(nesting, Depth(items[0])) then Reject
            else if |items| == 1 then Accept(Array(before + [items[0]]), rest)
            else ParseItems(PrintItems(items[1..], level, style) + rest, nesting, before + [items[0]])
    decreases items, 0
  {
    var text := PrintItems(items, level, style) + rest;
    var after := SplitItems(items, level, style, rest);
    ParsePrinted(items[0], level + 1, style, after, nesting);
    if |items| == 1 {
      LastItemStep(text, nesting, before, items[0], after, rest);
    } else {
      MoreItemsStep(text, nesting, before, items[0], after, PrintItems(items[1..], level, style) + rest);
    }
  }

  // ---- Objects ----

  lemma MembersDepthStep(members: seq<Entry<Value>>, nesting: nat)
    requires members != []
    ensures WithinNesting(nesting, MembersDepth(members) - 1)
        <==> && WithinNesting(nesting, Depth(members[0].value))
             && (|members| > 1 ==> WithinNesting(nesting, MembersDepth(members[1..]) - 1))
    ensures MembersDepth(members) > 0 && (|members| > 1 ==> MembersDepth(members[1..]) > 0)
  {
    if |members| > 1 {
      MembersDepthStep(members[1..], nesting);
    }
  }

  lemma OpenObjectStep(t: bytes, nesting: nat, text: bytes)
    requires t != [] && t[0] == OPEN_BRACE && SkipSpace(t[1..]) == text && StartsToken(text) && nesting <= MAX_NESTING
    ensures ParseValue(t, nesting) == ParseMembers(text, nesting + 1, [])
  {
  }

  lemma LastMemberStep(t: bytes, nesting: nat, before: seq<Entry<Value>>, m: Entry<Value>, t1: bytes, after: bytes, rest: bytes)
    requires ParseName(t) == Accept(m.name, t1) && !HasName(before, m.name)
    requires ParseValue(t1, nesting) == IfWithin(nesting, Depth(m.value), m.value, after)
    requires Continue(after, CLOSE_BRACE) == Accept(false, rest)
    ensures ParseMembers(t, nesting, before) == IfWithin(nesting, Depth(m.value), Object(before + [m]), rest)
  {
  }

  lemma MoreMembersStep(t: bytes, nesting: nat, before: seq<Entry<Value>>, m: Entry<Value>, t1: bytes, after: bytes, body: bytes)
    requires ParseName(t) == Accept(m.name, t1) && !HasName(before, m.name)
    requires ParseValue(t1, nesting) == IfWithin(nesting, Depth(m.value), m.value, after)
    requires Continue(after, CLOSE_BRACE) == Accept(true, body)
    ensures ParseMembers(t, nesting, before)
         == if WithinNesting(nesting, Depth(m.value)) then ParseMembers(body, nesting, before + [m]) else Reject
  {
  }

  /** A name, a colon, and the space that pretty form puts before the value. */
  lemma NameIsParsed(m: Entry<Value>, level: nat, style: Style, after: bytes)
    requires 0 !in m.name
    ensures var space := Colon(style)[1..];
            ParseName(PrintMember(m, level, style) + after) == Accept(m.name, space + (Print(m.value, level, style) + after))
  {
    var text := Print(m.value, level, style) + after;
    assert PrintMember(m, level, style) + after == Quoted(m.name, style.slashes) + (Colon(style) + text);
    QuotedNameIsParsed(m.name, style, text);
  }

  lemma QuotedNameIsParsed(name: bytes, style: Style, text: bytes)
    requires 0 !in name
    ensures ParseName(Quoted(name, style.slashes) + (Colon(style) + text)) == Accept(name, Colon(style)[1..] + text)
  {
    var behind := Colon(style) + text;
    StringIsParsed(name, style.slashes, behind);
    NameThenColon(Quoted(name, style.slashes) + behind, name, behind);
    assert behind[1..] == Colon(style)[1..] + text;
  }

  lemma NameThenColon(t: bytes, name: bytes, behind: bytes)
    requires 0 !in name && ParseString(t) == Accept(name, behind) && behind != [] && behind[0] == COLON
    ensures ParseName(t) == Accept(name, behind[1..])
  {
  }

  lemma LeadingSpaceIsIgnored(space: bytes, t: bytes, nesting: nat)
    requires AllSpace(space) && StartsToken(t)
    ensures ParseValue(space + t, nesting) == ParseValue(t, nesting)
  {
    SpaceIsSkipped(space, t);
  }

  lemma PrintMembersSplit(members: seq<Entry<Value>>, level: nat, style: Style, rest: bytes)
    requires members != []
    ensures PrintMembers(members, level, style) + rest
         == PrintMember(members[0], level + 1, style)
            + Behind(|members| == 1, level, style, CLOSE_BRACE,
                     if |members| == 1 then rest else PrintMembers(members[1..], level, style) + rest)
  {
    var p, gap := PrintMember(members[0], level + 1, style), Gap(level, style);
    if |members| == 1 {
      assert p + (gap + [CLOSE_BRACE]) + rest == p + (gap + ([CLOSE_BRACE] + rest));
    } else {
      var gap', tail := Gap(level + 1, style), PrintMembers(members[1..], level, style);
      assert p + ([COMMA] + (gap' + tail)) + rest == p + ([COMMA] + (gap' + (tail + rest)));
    }
  }

  lemma MembersStartToken(members: seq<Entry<Value>>, level: nat, style: Style, rest: bytes)
    requires members != []
    ensures StartsToken(PrintMembers(members, level, style) + rest)
  {
    assert PrintMember(members[0], level + 1, style)[0] == QUOTE;
  }

  /** The value behind a name parses as if the space before it were not there. */
  lemma MemberIsSplit(m: Entry<Value>, level: nat, style: Style, after: bytes, nesting: nat) returns (t1: bytes)
    requires 0 !in m.name
    ensures ParseName(PrintMember(m, level, style) + after) == Accept(m.name, t1)
    ensures ParseValue(t1, nesting) == ParseValue(Print(m.value, level, style) + after, nesting)
  {
    t1 := Colon(style)[1..] + (Print(m.value, level, style) + after);
    NameIsParsed(m, level, style, after);
    PrintStartsToken(m.value, level, style, after);
    LeadingSpaceIsIgnored(Colon(style)[1..], Print(m.value, level, style) + after, nesting);
  }

  /** Where the text of the first member ends, and where the parser goes on. */
  lemma SplitMembers(members: seq<Entry<Value>>, level: nat, style: Style, rest: bytes) returns (after: bytes)
    requires members != []
    ensures PrintMembers(members, level, style) + rest == PrintMember(members[0], level + 1, style) + after
    ensures Ends(after)
    ensures Continue(after, CLOSE_BRACE)
         == if |members| == 1 then Accept(false, rest) else Accept(true, PrintMembers(members[1..], level, style) + rest)
  {
    var last := |members| == 1;
    var body := if last then rest else PrintMembers(members[1..], level, style) + rest;
    after := Behind(last, level, style, CLOSE_BRACE, body);
    PrintMembersSplit(members, level, style, rest);
    if !last { MembersStartToken(members[1..], level, style, rest); }
    ContinueBehind(last, level, style, CLOSE_BRACE, body);
  }

  lemma OpenObject(members: seq<Entry<Value>>, level: nat, style: Style, rest: bytes, nesting: nat)
    requires members != [] && nesting <= MAX_NESTING
    ensures ParseValue(Print(Object(members), level, style) + rest, nesting)
         == ParseMembers(PrintMembers(members, level, style) + rest, nesting + 1, [])
  {
    var text := PrintMembers(members, level, style) + rest;
    var t := [OPEN_BRACE] + (Gap(level + 1, style) + text);
    assert Print(Object(members), level, style) + rest == t;
    MembersStartToken(members, level, style, rest);
    OpeningIsSkipped(OPEN_BRACE, level + 1, style, text);
    OpenObjectStep(t, nesting, text);
  }

  lemma {:induction false} ObjectIsParsed(members: seq<Entry<Value>>, level: nat, style: Style, rest: bytes, nesting: nat)
    requires members != [] && Distinct(members)
    requires forall i :: 0 <= i < |members| ==> 0 !in members[i].name && Storable(members[i].value)
    ensures ParseValue(Print(Object(members), level, style) + rest, nesting)
         == IfWithin(nesting, MembersDepth(members), Object(members), rest)
    decreases members, 3
  {
    MembersAreParsed(members, level, style, rest, nesting + 1, []);
    assert [] + members == members;
    if nesting <= MAX_NESTING {
      OpenObject(members, level, style, rest, nesting);
    }
  }

  lemma {:induction false} MembersAreParsed(members: seq<Entry<Value>>, level: nat, style: Style, rest: bytes,
                                            nesting: nat, before: seq<Entry<Value>>)
    requires members != [] && Distinct(before + members)
    requires forall i :: 0 <= i < |members| ==> 0 !in members[i].name && Storable(members[i].value)
    ensures MembersDepth(members) > 0
    ensures ParseMembers(PrintMembers(members, level, style) + rest, nesting, before)
         == IfWithin(nesting, MembersDepth(members) - 1, Object(before + members), rest)
    decreases members, 2
  {
    NameIsNew(before, members);
    FirstMemberIsParsed(members, level, style, rest, nesting, before);
    MembersDepthStep(members, nesting);
    if |members| > 1 {
      MembersAreParsed(members[1..], level, style, rest, nesting, before + [members[0]]);
    }
  }

  lemma {:induction false} FirstMemberIsParsed(members: seq<Entry<Value>>, level: nat, style: Style, rest: bytes,
                                               nesting: nat, before: seq<Entry<Value>>)
    requires members != [] && 0 !in members[0].name && Storable(members[0].value) && !HasName(before, members[0].name)
    ensures ParseMembers(PrintMembers(members, level, style) + rest, nesting, before)
         == if !WithinNesting(nesting, Depth(members[0].value)) then Reject
            else if |members| == 1 then Accept(Object(before + [members[0]]), rest)
            else ParseMembers(PrintMembers(members[1..], level, style) + rest, nesting, before + [members[0]])
    decreases members, 1
  {
    var m := members[0];
    var text := PrintMembers(members, level, style) + rest;
    var after := SplitMembers(members, level, style, rest);
    var t1 := MemberIsSplit(m, level + 1, style, after, nesting);
    ParsePrinted(m.value, level + 1, style, after, nesting);
    if |members| == 1 {
      LastMemberStep(text, nesting, before, m, t1, after, rest);
    } else {
      MoreMembersStep(text, nesting, before, m, t1, after, PrintMembers(members[1..], level, style) + rest);
    }
  }

  lemma NameIsNew(before: seq<Entry<Value>>, members: seq<Entry<Value>>)
    requires members != [] && Distinct(before + members)
    ensures !HasName(before, members[0].name)
    ensures |members| == 1 ==> before + members == before + [members[0]]
    ensures before + [members[0]] + members[1..] == before + members
  {
    var all := before + members;
    forall i | 0 <= i < |before| ensures before[i].name != members[0].name {
      assert all[i] == before[i] && all[|before|] == members[0];
    }
  }

  // ---- Whole texts ----

  /** `json_parse_string`: a byte order mark in front and anything behind the value are ignored. */
  function ParseText(s: bytes): Parsed<Value> {
    ParseValue(Unmarked(s), 0)
  }

  function Unmarked(s: bytes): bytes {
    if |s| >= 3 && s[..3] == [0xEF, 0xBB, 0xBF] then s[3..] else s
  }

  /** Parsing undoes printing exactly for the values nested at most 2048 deep; deeper ones are printed but rejected. */
  lemma RoundTrip(v: Value, style: Style)
    requires Storable(v)
    ensures ParseText(Print(v, 0, style)) == if Depth(v) <= MAX_NESTING then Accept(v, []) else Reject
  {
    var t := Print(v, 0, style);
    assert t + [] == t;
    assert Unmarked(t) == t by { PrintStartsToken(v, 0, style, []); }
    ParsePrinted(v, 0, style, [], 0);
  }

  // ---- What is accepted at all ----

  lemma {:induction false} ItemsDepthIsBound(items: seq<Value>, d: nat)
    ensures ItemsDepth(items) <= d <==> forall i :: 0 <= i < |items| ==> Depth(items[i]) < d
  {
    if items != [] {
      ItemsDepthIsBound(items[1..], d);
      assert forall i :: 0 < i < |items| ==> items[i] == items[1..][i - 1];
      assert forall i :: 0 <= i < |items| - 1 ==> items[1..][i] == items[i + 1];
    }
  }

  lemma {:induction false} MembersDepthIsBound(members: seq<Entry<Value>>, d: nat)
    ensures MembersDepth(members) <= d <==> forall i :: 0 <= i < |members| ==> Depth(members[i].value) < d
  {
    if members != [] {
      MembersDepthIsBound(members[1..], d);
      assert forall i :: 0 < i < |members| ==> members[i] == members[1..][i - 1];
      assert forall i :: 0 <= i < |members| - 1 ==> members[1..][i] == members[i + 1];
    }
  }

  predicate Held(v: Value, nesting: nat) {
    Storable(v) && WithinNesting(nesting, Depth(v))
  }

  /** Every accepted value has distinct C-string names, exact numbers and a depth within the limit. */
  lemma {:induction false} AcceptedIsStorable(t: bytes, nesting: nat)
    ensures ParseValue(t, nesting).Accept? ==> Held(ParseValue(t, nesting).value, nesting)
    decreases |t|, 3
  {
    var t0 := SkipSpace(t);
    if nesting <= MAX_NESTING && t0 != [] {
      var t1 := SkipSpace(t0[1..]);
      if t0[0] == OPEN_BRACKET {
        AcceptedItemsAreStorable(t1, nesting + 1, []);
      } else if t0[0] == OPEN_BRACE {
        AcceptedMembersAreStorable(t1, nesting + 1, []);
      }
    }
  }

  lemma {:induction false} AcceptedItemsAreStorable(t: bytes, nesting: nat, before: seq<Value>)
    requires nesting > 0 && forall i :: 0 <= i < |before| ==> Held(before[i], nesting)
    ensures ParseItems(t, nesting, before).Accept? ==> Held(ParseItems(t, nesting, before).value, nesting - 1)
    decreases |t|, 4
  {
    AcceptedIsStorable(t, nesting);
    var r := ParseValue(t, nesting);
    if r.Accept? && Continue(r.rest, CLOSE_BRACKET).Accept? {
      var c, items := Continue(r.rest, CLOSE_BRACKET), before + [r.value];
      if c.value {
        AcceptedItemsAreStorable(c.rest, nesting, items);
      } else {
        ItemsDepthIsBound(items, MAX_NESTING + 1 - nesting);
      }
    }
  }

  lemma {:induction false} AcceptedMembersAreStorable(t: bytes, nesting: nat, before: seq<Entry<Value>>)
    requires nesting > 0 && Distinct(before)
    requires forall i :: 0 <= i < |before| ==> 0 !in before[i].name && Held(before[i].value, nesting)
    ensures ParseMembers(t, nesting, before).Accept? ==> Held(ParseMembers(t, nesting, before).value, nesting - 1)
    decreases |t|, 4
  {
    var name := ParseName(t);
    if name.Accept? {
      AcceptedIsStorable(name.rest, nesting);
      var r := ParseValue(name.rest, nesting);
      if r.Accept? && !HasName(before, name.value) && Continue(r.rest, CLOSE_BRACE).Accept? {
        var c, members := Continue(r.rest, CLOSE_BRACE), before + [Entry(name.value, r.value)];
        assert Distinct(members);
        if c.value {
          AcceptedMembersAreStorable(c.rest, nesting, members);
        } else {
          MembersDepthIsBound(members, MAX_NESTING + 1 - nesting);
        }
      }
    }
  }

  /** Printing an accepted value and parsing it again changes nothing, whatever the layout of the first text. */
  lemma ReprintedParsesAlike(s: bytes, style: Style)
    requires ParseText(s).Accept?
    ensures ParseText(Print(ParseText(s).value, 0, style)) == Accept(ParseText(s).value, [])
  {
    AcceptedIsStorable(Unmarked(s), 0);
    RoundTrip(ParseText(s).value, style);
  }
}
