/** JSON values and their printed form, compact or pretty. */
module JsonValues {
  import opened CStrings
  import opened Entries
  import opened JsonStrings

  datatype Value =
    | Null
    | Bool(b: bool)
    | Number(n: int)
    | String(s: bytes)
    | Array(items: seq<Value>)
    | Object(members: seq<Entry<Value>>)

  /** The integers a double holds exactly; `%1.17g` prints them as plain digits. */
  const MAX_EXACT: int := 0x20_0000_0000_0000

  /** What the library can hold: exact numbers, distinct names that are C strings. */
  predicate Storable(v: Value) {
    match v
    case Number(n) => -MAX_EXACT <= n <= MAX_EXACT
    case Array(items) => forall i :: 0 <= i < |items| ==> Storable(items[i])
    case Object(members) =>
      && Distinct(members)
      && forall i :: 0 <= i < |members| ==> 0 !in members[i].name && Storable(members[i].value)
    case _ => true
  }

  function Max(a: nat, b: nat): nat {
    if a < b then b else a
  }

  /** How many containers are nested around the innermost value. */
  function Depth(v: Value): nat {
    match v
    case Array(items) => ItemsDepth(items)
    case Object(members) => MembersDepth(members)
    case _ => 0
  }

  function ItemsDepth(items: seq<Value>): nat {
    if items == [] then 0 else Max(1 + Depth(items[0]), ItemsDepth(items[1..]))
  }

  function MembersDepth(members: seq<Entry<Value>>): nat {
    if members == [] then 0 else Max(1 + Depth(members[0].value), MembersDepth(members[1..]))
  }

  // ---- Printing ----

  datatype Style = Style(pretty: bool, slashes: bool)

  function Spaces(n: nat): (r: bytes)
    ensures |r| == n && forall i :: 0 <= i < n ==> r[i] == 0x20
  {
    seq(n, _ => 0x20)
  }

  /** Four spaces per level, in pretty form only. */
  function Indent(level: nat, style: Style): bytes {
    if style.pretty then Spaces(4 * level) else []
  }

  function Newline(style: Style): bytes {
    if style.pretty then [0x0A] else []
  }

  function Digits(n: nat): (r: bytes)
    ensures r != [] && forall i :: 0 <= i < |r| ==> '0' as int <= r[i] <= '9' as int
  {
    if n < 10 then ['0' as int + n] else Digits(n / 10) + ['0' as int + n % 10]
  }

  function Decimal(n: int): bytes {
    if n < 0 then [MINUS] + Digits(-n) else Digits(n)
  }

  /** The line end and indentation between two tokens of a container; nothing in compact form. */
  function Gap(level: nat, style: Style): bytes {
    Newline(style) + Indent(level, style)
  }

  function Colon(style: Style): bytes {
    if style.pretty then [COLON, 0x20] else [COLON]
  }

  function Print(v: Value, level: nat, style: Style): bytes
    decreases v
  {
    match v
    case Null => Ascii("null")
    case Bool(b) => if b then Ascii("true") else Ascii("false")
    case Number(n) => Decimal(n)
    case String(s) => Quoted(s, style.slashes)
    case Array(items) =>
      if items == [] then Ascii("[]")
      else [OPEN_BRACKET] + (Gap(level + 1, style) + PrintItems(items, level, style))
    case Object(members) =>
      if members == [] then Ascii("{}")
      else [OPEN_BRACE] + (Gap(level + 1, style) + PrintMembers(members, level, style))
  }

  /** The items from the first one's text to the closing bracket. */
  function PrintItems(items: seq<Value>, level: nat, style: Style): bytes
    requires items != []
    decreases items
  {
    Print(items[0], level + 1, style)
    + (if |items| == 1 then Gap(level, style) + [CLOSE_BRACKET]
       else [COMMA] + (Gap(level + 1, style) + PrintItems(items[1..], level, style)))
  }

  function PrintMember(m: Entry<Value>, level: nat, style: Style): bytes
    decreases m
  {
    Quoted(m.name, style.slashes) + (Colon(style) + Print(m.value, level, style))
  }

  function PrintMembers(members: seq<Entry<Value>>, level: nat, style: Style): bytes
    requires members != []
    decreases members
  {
    PrintMember(members[0], level + 1, style)
    + (if |members| == 1 then Gap(level, style) + [CLOSE_BRACE]
       else [COMMA] + (Gap(level + 1, style) + PrintMembers(members[1..], level, style)))
  }
}
