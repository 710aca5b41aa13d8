/** What the recursive-descent parser accepts and yields, as functions on the text still to be read. */
module JsonGrammar {
  import opened CStrings
  import opened Entries
  import opened JsonStrings
  import opened JsonValues

  const MAX_NESTING: nat := 2048

  datatype Parsed<+T> = Reject | Accept(value: T, rest: bytes)

  predicate IsSpace(c: byte) {
    c == 0x20 || 0x09 <= c <= 0x0D
  }

  function SkipSpace(t: bytes): (r: bytes)
    ensures |r| <= |t| && !IsSpace(Peek(r))
  {
    if IsSpace(Peek(t)) then SkipSpace(t[1..]) else t
  }

  predicate IsDigit(c: byte) {
    '0' as int <= c <= '9' as int
  }

  /** The value of the digits in front of `t`, read behind digits of value `n`. */
  function TakeDigits(t: bytes, n: nat): (r: (nat, bytes))
    ensures |r.1| <= |t| && !IsDigit(Peek(r.1)) && (IsDigit(Peek(t)) ==> |r.1| < |t|)
    decreases |t|
  {
    if IsDigit(Peek(t)) then TakeDigits(t[1..], 10 * n + (t[0] - '0' as int)) else (n, t)
  }

  /** Characters that would carry a number on beyond the integers: fraction, exponent, hexadecimal. */
  predicate ExtendsNumber(c: byte) {
    c in {'.' as int, 'e' as int, 'E' as int, 'x' as int, 'X' as int}
  }

  /**
    An integer. A minus sign without digits converts to 0 and uses up nothing. No leading zeros. Fractions, exponents
    and integers beyond the exact range are outside this model and rejected.
  */
  function ParseNumber(t: bytes): (r: Parsed<Value>)
    ensures r.Accept? ==> |r.rest| <= |t|
  {
    var negative := Peek(t) == MINUS;
    var digits := if negative then t[1..] else t;
    if !IsDigit(Peek(digits)) then
      if ExtendsNumber(Peek(digits)) || Peek(digits) in {'i' as int, 'I' as int, 'n' as int, 'N' as int} then Reject
      else Accept(Number(0), t)
    else
      var (magnitude, rest) := TakeDigits(digits, 0);
      var n: int := magnitude;
      if Peek(digits) == '0' as int && |rest| + 1 < |digits| then Reject
      else if ExtendsNumber(Peek(rest)) || n > MAX_EXACT then Reject
      else Accept(Number(if negative then -n else n), rest)
  }

  function ParseWord(t: bytes, word: string, v: Value): (r: Parsed<Value>)
    requires forall i :: 0 <= i < |word| ==> word[i] as int < 128
    ensures r.Accept? ==> |r.rest| <= |t|
  {
    if |word| <= |t| && t[..|word|] == Ascii(word) then Accept(v, t[|word|..]) else Reject
  }

  function ParseString(t: bytes): (r: Parsed<bytes>)
    ensures r.Accept? ==> |r.rest| < |t|
  {
    if Peek(t) != QUOTE then Reject
    else
      var n := ToClosingQuote(t[1..]);
      if n < 0 then Reject
      else
        match Unescape(t[1..][..n])
        case None => Reject
        case Some(s) => Accept(s, t[n + 2..])
  }

  function ParseValue(text: bytes, nesting: nat): (r: Parsed<Value>)
    ensures r.Accept? ==> |r.rest| <= |text|
    decreases |text|, 3
  {
    if nesting > MAX_NESTING then Reject
    else
      var t := SkipSpace(text);
      var c := Peek(t);
      if c == OPEN_BRACE then
        var t1 := SkipSpace(t[1..]);
        if Peek(t1) == CLOSE_BRACE then Accept(Object([]), t1[1..]) else ParseMembers(t1, nesting + 1, [])
      else if c == OPEN_BRACKET then
        var t1 := SkipSpace(t[1..]);
        if Peek(t1) == CLOSE_BRACKET then Accept(Array([]), t1[1..]) else ParseItems(t1, nesting + 1, [])
      else if c == QUOTE then
        match ParseString(t)
        case Reject => Reject
        case Accept(s, rest) => Accept(String(s), rest)
      else if c == 'f' as int || c == 't' as int then
        match ParseWord(t, "true", Bool(true))
        case Accept(v, rest) => Accept(v, rest)
        case Reject => ParseWord(t, "false", Bool(false))
      else if c == MINUS || IsDigit(c) then ParseNumber(t)
      else if c == 'n' as int then ParseWord(t, "null", Null)
      else Reject
  }

  /** What follows a value in a container that `close` ends: nothing more, or more items from here on. */
  function Continue(t: bytes, close: byte): (r: Parsed<bool>)
    ensures r.Accept? ==> |r.rest| < |t|
  {
    var t1 := SkipSpace(t);
    if Peek(t1) == COMMA then
      var t2 := SkipSpace(t1[1..]);
      if t2 != [] && t2[0] == close then Accept(false, t2[1..]) else Accept(true, t2)
    else if t1 != [] && t1[0] == close then Accept(false, t1[1..])
    else Reject
  }

  function ParseItems(t: bytes, nesting: nat, items: seq<Value>): (r: Parsed<Value>)
    ensures r.Accept? ==> |r.rest| <= |t|
    decreases |t|, 4
  {
    if Peek(t) == 0 then Reject
    else
      match ParseValue(t, nesting)
      case Reject => Reject
      case Accept(v, t1) =>
        match Continue(t1, CLOSE_BRACKET)
        case Reject => Reject
        case Accept(false, rest) => Accept(Array(items + [v]), rest)
        case Accept(true, rest) => ParseItems(rest, nesting, items + [v])
  }

  /** A member's name: a string without NUL, then a colon. */
  function ParseName(t: bytes): (r: Parsed<bytes>)
    ensures r.Accept? ==> |r.rest| < |t|
  {
    match ParseString(t)
    case Reject => Reject
    case Accept(name, t1) =>
      var t2 := SkipSpace(t1);
      if 0 in name || Peek(t2) != COLON then Reject else Accept(name, t2[1..])
  }

  function ParseMembers(t: bytes, nesting: nat, members: seq<Entry<Value>>): (r: Parsed<Value>)
    ensures r.Accept? ==> |r.rest| <= |t|
    decreases |t|, 4
  {
    match ParseName(t)
    case Reject => Reject
    case Accept(name, t1) =>
      match ParseValue(t1, nesting)
      case Reject => Reject
      case Accept(v, t2) =>
        if HasName(members, name) then Reject
        else
          match Continue(t2, CLOSE_BRACE)
          case Reject => Reject
          case Accept(false, rest) => Accept(Object(members + [Entry(name, v)]), rest)
          case Accept(true, rest) => ParseMembers(rest, nesting, members + [Entry(name, v)])
  }
}
