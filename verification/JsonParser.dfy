/** The recursive-descent parser with its moving cursor, building every object in a hash table. */
module JsonParser {
  import opened CStrings
  import opened Entries
  import opened JsonStrings
  import opened JsonValues
  import opened JsonGrammar
  import opened ObjectTable

  /** What a parsing method has done: the outcome the grammar prescribes, with the cursor behind the value. */
  ghost predicate Agrees<T>(spec: Parsed<T>, r: Option<T>, input: bytes, pos: nat) {
    match spec
    case Reject => r == None
    case Accept(v, rest) => r == Some(v) && pos <= |input| && input[pos..] == rest
  }

  class Parser {
    const input: bytes
    var pos: nat

    constructor (input: bytes)
      ensures this.input == input && pos == 0
    {
      this.input := input;
      pos := 0;
    }

    ghost function Rest(): bytes
      reads this
      requires pos <= |input|
    {
      input[pos..]
    }

    method SkipWhitespaces()
      requires pos <= |input|
      modifies this
      ensures pos <= |input| && Rest() == SkipSpace(old(Rest()))
    {
      while IsSpace(At(input, pos))
        invariant pos <= |input| && SkipSpace(Rest()) == SkipSpace(old(Rest()))
        decreases |input| - pos
      {
        SuffixOfSuffix(input, pos, 1);
        pos := pos + 1;
      }
    }

    /** The string literal at the cursor, unescaped. */
    method GetQuotedString() returns (r: Option<bytes>)
      requires pos <= |input|
      modifies this
      ensures Agrees(ParseString(old(Rest())), r, input, pos)
    {
      var start := pos;
      ghost var t := Rest();
      var ok;
      ok, pos := SkipQuotes(input, start);
      if !ok {
        return None;
      }
      SuffixOfSuffix(input, start, 1);
      var len := pos - start - 2;
      r := ProcessString(input[start + 1..], len);
      assert t[len + 2..] == input[pos..];
    }

    method ParseWord(word: string) returns (ok: bool)
      requires pos <= |input| && forall i :: 0 <= i < |word| ==> word[i] as int < 128
      modifies this
      ensures pos <= |input|
      ensures ok == (|word| <= |old(Rest())| && old(Rest())[..|word|] == Ascii(word))
      ensures Rest() == if ok then old(Rest())[|word|..] else old(Rest())
    {
      ok := pos + |word| <= |input| && input[pos..pos + |word|] == Ascii(word);
      if ok {
        pos := pos + |word|;
      }
    }

    method ParseNumber() returns (r: Option<Value>)
      requires pos <= |input|
      modifies this
      ensures Agrees(JsonGrammar.ParseNumber(old(Rest())), r, input, pos)
    {
      ghost var t := Rest();
      var start := pos;
      var negative := At(input, pos) == MINUS;
      if negative {
        pos := pos + 1;
      }
      var first := At(input, pos);
      if !IsDigit(first) {
        if ExtendsNumber(first) || first in {'i' as int, 'I' as int, 'n' as int, 'N' as int} {
          return None;
        }
        pos := start;
        return Some(Number(0));
      }
      ghost var digits := Rest();
      var from := pos;
      var n: nat := 0;
      while IsDigit(At(input, pos))
        invariant from <= pos <= |input| && TakeDigits(digits, 0) == TakeDigits(Rest(), n)
        decreases |input| - pos
      {
        SuffixOfSuffix(input, pos, 1);
        n := 10 * n + (input[pos] - '0' as int);
        pos := pos + 1;
      }
      if (first == '0' as int && from + 1 < pos) || ExtendsNumber(At(input, pos)) || n > MAX_EXACT {
        return None;
      }
      var value: int := n;
      return Some(Number(if negative then -value else value));
    }

    method ParseValue(nesting: nat) returns (r: Option<Value>)
      requires pos <= |input|
      modifies this
      ensures Agrees(JsonGrammar.ParseValue(old(Rest()), nesting), r, input, pos)
      decreases |input| - pos, 4
    {
      if nesting > MAX_NESTING {
        return None;
      }
      SkipWhitespaces();
      var c := At(input, pos);
      if c == OPEN_BRACE {
        r := ParseObject(nesting + 1);
      } else if c == OPEN_BRACKET {
        r := ParseArray(nesting + 1);
      } else if c == QUOTE {
        var s := GetQuotedString();
        r := match s case None => None case Some(chars) => Some(String(chars));
      } else if c == 'f' as int || c == 't' as int {
        var ok := ParseWord("true");
        if ok {
          return Some(Bool(true));
        }
        ok := ParseWord("false");
        r := if ok then Some(Bool(false)) else None;
      } else if c == MINUS || IsDigit(c) {
        r := ParseNumber();
      } else if c == 'n' as int {
        var ok := ParseWord("null");
        r := if ok then Some(Null) else None;
      } else {
        r := None;
      }
    }

    /** What the grammar reads at an opening bracket or brace. */
    ghost function ArraySpec(t: bytes, nesting: nat): Parsed<Value>
      requires t != [] && t[0] == OPEN_BRACKET
    {
      var t1 := SkipSpace(t[1..]);
      if Peek(t1) == CLOSE_BRACKET then Accept(Array([]), t1[1..]) else ParseItems(t1, nesting, [])
    }

    method ParseArray(nesting: nat) returns (r: Option<Value>)
      requires pos < |input| && input[pos] == OPEN_BRACKET
      modifies this
      ensures Agrees(ArraySpec(old(Rest()), nesting), r, input, pos)
      decreases |input| - pos, 2
    {
      ghost var start := pos;
      SuffixOfSuffix(input, pos, 1);
      pos := pos + 1;
      SkipWhitespaces();
      if At(input, pos) == CLOSE_BRACKET {
        SuffixOfSuffix(input, pos, 1);
        pos := pos + 1;
        return Some(Array([]));
      }
      var items := [];
      ghost var spec := ParseItems(Rest(), nesting, []);
      while At(input, pos) != 0
        invariant start < pos <= |input| && spec == ParseItems(Rest(), nesting, items)
        decreases |input| - pos
      {
        var ok, more;
        ok, more, items := ParseNextItem(nesting, items);
        if !ok {
          return None;
        }
        if !more {
          return Some(Array(items));
        }
      }
      return None;
    }

    /** One item and what follows it. */
    method ParseNextItem(nesting: nat, items: seq<Value>) returns (ok: bool, more: bool, items': seq<Value>)
      requires pos <= |input|
      modifies this
      ensures var spec := ParseItems(old(Rest()), nesting, items);
              if !ok then spec == Reject
              else
                && old(pos) < pos <= |input|
                && spec == if more then ParseItems(Rest(), nesting, items') else Accept(Array(items'), Rest())
      decreases |input| - pos, 5
    {
      ok, more, items' := false, false, items;
      var v := ParseValue(nesting);
      if v == None {
        return;
      }
      items' := items + [v.value];
      more, ok := Continues(CLOSE_BRACKET);
    }

    ghost function ObjectSpec(t: bytes, nesting: nat): Parsed<Value>
      requires t != [] && t[0] == OPEN_BRACE
    {
      var t1 := SkipSpace(t[1..]);
      if Peek(t1) == CLOSE_BRACE then Accept(Object([]), t1[1..]) else ParseMembers(t1, nesting, [])
    }

    /** Members go into a hash table; its items in order are the object's members. */
    method ParseObject(nesting: nat) returns (r: Option<Value>)
      requires pos < |input| && input[pos] == OPEN_BRACE
      modifies this
      ensures Agrees(ObjectSpec(old(Rest()), nesting), r, input, pos)
      decreases |input| - pos, 3
    {
      SuffixOfSuffix(input, pos, 1);
      pos := pos + 1;
      SkipWhitespaces();
      if At(input, pos) == CLOSE_BRACE {
        SuffixOfSuffix(input, pos, 1);
        pos := pos + 1;
        return Some(Object([]));
      }
      r := ParseMemberList(nesting);
    }

    /** The member loop, entered at the first name. */
    method ParseMemberList(nesting: nat) returns (r: Option<Value>)
      requires pos <= |input|
      modifies this
      ensures Agrees(ParseMembers(old(Rest()), nesting, []), r, input, pos)
      decreases |input| - pos, 3
    {
      var table := new Table<Value>(0);
      ghost var start, spec := pos, ParseMembers(Rest(), nesting, []);
      while At(input, pos) != 0
        invariant start <= pos <= |input| && table.Valid()
        invariant forall o :: o in table.Repr() ==> fresh(o)
        invariant spec == ParseMembers(Rest(), nesting, table.Contents())
        decreases |input| - pos
      {
        var ok, more := ParseNextMember(table, nesting);
        if !ok {
          return None;
        }
        if !more {
          var members := table.Items();
          return Some(Object(members));
        }
      }
      return None;
    }

    /** One turn of the member loop. */
    method ParseNextMember(table: Table<Value>, nesting: nat) returns (ok: bool, more: bool)
      requires pos <= |input| && table.Valid() && this !in table.Repr()
      modifies this, table.Repr()
      ensures table.Valid() && forall o :: o in table.Repr() ==> o in old(table.Repr()) || fresh(o)
      ensures var spec := ParseMembers(old(Rest()), nesting, old(table.Contents()));
              if !ok then spec == Reject
              else
                && old(pos) < pos <= |input|
                && spec == if more then ParseMembers(Rest(), nesting, table.Contents())
                           else Accept(Object(table.Contents()), Rest())
      decreases |input| - pos, 2
    {
      ok, more := false, false;
      var m := ParseMember(nesting);
      if m == None {
        return;
      }
      var added := table.Add(m.value.name, m.value.value);
      if !added {
        return;
      }
      more, ok := Continues(CLOSE_BRACE);
    }

    /** A name, a colon and a value. */
    ghost function MemberSpec(t: bytes, nesting: nat): Parsed<Entry<Value>> {
      match ParseName(t)
      case Reject => Reject
      case Accept(name, t1) =>
        match JsonGrammar.ParseValue(t1, nesting)
        case Reject => Reject
        case Accept(v, t2) => Accept(Entry(name, v), t2)
    }

    method ParseMember(nesting: nat) returns (r: Option<Entry<Value>>)
      requires pos <= |input|
      modifies this
      ensures Agrees(MemberSpec(old(Rest()), nesting), r, input, pos)
      decreases |input| - pos, 1
    {
      ghost var t := Rest();
      var name := GetQuotedString();
      if name == None {
        assert ParseName(t) == Reject;
        return None;
      }
      SkipWhitespaces();
      if 0 in name.value || At(input, pos) != COLON {
        assert ParseName(t) == Reject;
        return None;
      }
      SuffixOfSuffix(input, pos, 1);
      pos := pos + 1;
      assert ParseName(t) == Accept(name.value, Rest());
      var v := ParseValue(nesting);
      if v == None {
        return None;
      }
      return Some(Entry(name.value, v.value));
    }

    /** Behind an element: the comma before the next one, or the closing bracket. */
    method Continues(close: byte) returns (more: bool, ok: bool)
      requires pos <= |input| && close != COMMA && close != 0 && !IsSpace(close)
      modifies this
      ensures Agrees(Continue(old(Rest()), close), if ok then Some(more) else None, input, pos)
    {
      SkipWhitespaces();
      if At(input, pos) == COMMA {
        SuffixOfSuffix(input, pos, 1);
        pos := pos + 1;
        SkipWhitespaces();
        if At(input, pos) != close {
          return true, true;
        }
      }
      SkipWhitespaces();
      ghost var t := Rest();
      if At(input, pos) != close {
        return false, false;
      }
      SuffixOfSuffix(input, pos, 1);
      pos := pos + 1;
      assert Rest() == t[1..];
      return false, true;
    }
  }
}
