/** Dotted names: setting, reading and removing values deep inside nested objects. */
module DotPath {
  import opened CStrings
  import opened Entries
  import opened JsonValues
  import opened ObjectTable

  const DOT: byte := 0x2E

  type Members = seq<Entry<Value>>

  /** `strchr(name, '.')`: the first dot, or the length of a name without one. */
  function DotPos(name: bytes): (k: nat)
    ensures k <= |name| && (k < |name| ==> name[k] == DOT) && DOT !in name[..k]
  {
    if name == [] || name[0] == DOT then 0
    else
      assert name[..1 + DotPos(name[1..])] == [name[0]] + name[1..][..DotPos(name[1..])];
      1 + DotPos(name[1..])
  }

  /** What an object holds under a name, as the dotted operations tell it apart. */
  datatype Child = Missing | Inner(members: Members) | Other

  function ChildOf(members: Members, name: bytes): Child {
    match Lookup<Value>(members, name)
    case None => Missing
    case Some(v) => if v.Object? then Inner(v.members) else Other
  }

  function DotGet(members: Members, name: bytes): Option<Value>
    decreases |name|
  {
    var k := DotPos(name);
    if k == |name| then Lookup(members, name)
    else
      match ChildOf(members, name[..k])
      case Inner(inner) => DotGet(inner, name[k + 1..])
      case _ => None
  }

  function Wrap(members: Members, name: bytes, inner: Option<Members>): Option<Members> {
    match inner
    case None => None
    case Some(ms) => Some(Put(members, name, Object(ms)))
  }

  /** The object a set descends into; a fresh one where there is none. */
  function InnerOf(members: Members, name: bytes): Members {
    var child := ChildOf(members, name);
    if child.Inner? then child.members else []
  }

  /** A value that already has a parent cannot be set. Missing objects on the way are made, other values are kept. */
  function DotSet(members: Members, name: bytes, v: Value, owned: bool): Option<Members>
    decreases |name|, 0
  {
    var k := DotPos(name);
    if k == |name| then (if owned then None else Some(Put(members, name, v)))
    else
      DotSetInside(members, name[..k], name[k + 1..], v, owned)
  }

  function DotSetInside(members: Members, head: bytes, rest: bytes, v: Value, owned: bool): Option<Members>
    decreases |rest|, 1
  {
    if ChildOf(members, head).Other? then None
    else Wrap(members, head, DotSet(InnerOf(members, head), rest, v, owned))
  }

  function DotRemove(members: Members, name: bytes): Option<Members>
    decreases |name|
  {
    var k := DotPos(name);
    if k == |name| then (if HasName(members, name) then Some(Delete(members, name)) else None)
    else
      match ChildOf(members, name[..k])
      case Inner(inner) => Wrap(members, name[..k], DotRemove(inner, name[k + 1..]))
      case _ => None
  }

  // ---- Paths ----

  /** The names between the dots. */
  function Segments(name: bytes): (p: seq<bytes>)
    ensures p != []
    decreases |name|
  {
    var k := DotPos(name);
    if k == |name| then [name] else [name[..k]] + Segments(name[k + 1..])
  }

  /** Names joined by dots. */
  function Joined(p: seq<bytes>): bytes
    requires p != []
  {
    if |p| == 1 then p[0] else p[0] + ['.' as int] + Joined(p[1..])
  }

  predicate Undotted(p: seq<bytes>) {
    forall i :: 0 <= i < |p| ==> '.' as int !in p[i]
  }

  /** Between the dots stand exactly the names without a dot that, joined by dots, give the name back. */
  lemma {:induction false} SegmentsIffJoined(name: bytes, p: seq<bytes>)
    ensures Segments(name) == p <==> p != [] && Undotted(p) && name == Joined(p)
    decreases |name|
  {
    var k := DotPos(name);
    if k < |name| {
      var rest := Segments(name[k + 1..]);
      SegmentsIffJoined(name[k + 1..], rest);
      assert ([name[..k]] + rest)[1..] == rest;
      assert name == name[..k] + ['.' as int] + name[k + 1..];
    }
    if p != [] && Undotted(p) && name == Joined(p) {
      if |p| > 1 {
        DotBehindFirst(name, p[0], Joined(p[1..]));
        SegmentsIffJoined(name[k + 1..], p[1..]);
      }
    }
  }

  lemma {:induction false} DotBehindFirst(name: bytes, first: bytes, rest: bytes)
    requires '.' as int !in first && name == first + ['.' as int] + rest
    ensures DotPos(name) == |first| < |name| && name[..|first|] == first && name[|first| + 1..] == rest
    decreases |first|
  {
    if first == [] {
      assert name[0] == '.' as int;
    } else {
      assert name[0] == first[0] && name[1..] == first[1..] + ['.' as int] + rest;
      DotBehindFirst(name[1..], first[1..], rest);
    }
  }

  /** The value a path leads to. */
  function ValueAt(members: Members, p: seq<bytes>): Option<Value>
    requires p != []
    decreases |p|
  {
    if |p| == 1 then Lookup(members, p[0])
    else
      match ChildOf(members, p[0])
      case Inner(inner) => ValueAt(inner, p[1..])
      case _ => None
  }

  /** What a value shows under a path into it; the empty path shows the value itself. */
  function Below(v: Value, p: seq<bytes>): Option<Value> {
    if p == [] then Some(v) else if v.Object? then ValueAt(v.members, p) else None
  }

  /** The members of the object a path leads to, or none. */
  function ObjectAt(members: Members, p: seq<bytes>): Members
    requires p != []
  {
    match ValueAt(members, p)
    case Some(v) => if v.Object? then v.members else []
    case None => []
  }

  function SetAt(members: Members, p: seq<bytes>, v: Value): Option<Members>
    requires p != []
    decreases |p|
  {
    if |p| == 1 then Some(Put(members, p[0], v))
    else
      if ChildOf(members, p[0]).Other? then None else Wrap(members, p[0], SetAt(InnerOf(members, p[0]), p[1..], v))
  }

  function RemoveAt(members: Members, p: seq<bytes>): Option<Members>
    requires p != []
    decreases |p|
  {
    if |p| == 1 then (if HasName(members, p[0]) then Some(Delete(members, p[0])) else None)
    else
      match ChildOf(members, p[0])
      case Inner(inner) => Wrap(members, p[0], RemoveAt(inner, p[1..]))
      case _ => None
  }

  /** The dotted operations are the path operations on the names between the dots. */
  lemma {:induction false} DotsFollowSegments(members: Members, name: bytes, v: Value, owned: bool)
    ensures DotGet(members, name) == ValueAt(members, Segments(name))
    ensures DotSet(members, name, v, owned) == if owned then None else SetAt(members, Segments(name), v)
    ensures DotRemove(members, name) == RemoveAt(members, Segments(name))
    decreases |name|
  {
    var k := DotPos(name);
    if k < |name| {
      assert Segments(name)[1..] == Segments(name[k + 1..]);
      DotsFollowSegments(InnerOf(members, name[..k]), name[k + 1..], v, owned);
    }
  }

  // ---- Laws ----

  /** Names are distinct in every object of the tree. */
  predicate Tree(members: Members) {
    Distinct(members) && forall i :: 0 <= i < |members| ==> ValueTree(members[i].value)
  }

  predicate ValueTree(v: Value) {
    v.Object? ==> Tree(v.members)
  }

  lemma ChildIsTree(members: Members, name: bytes)
    requires Tree(members)
    ensures ChildOf(members, name).Inner? ==> Tree(ChildOf(members, name).members)
  {
    var k := IndexOf(members, name);
    assert k < |members| ==> ValueTree(members[k].value);
  }

  lemma PutKeepsTree(members: Members, name: bytes, v: Value)
    requires Tree(members) && ValueTree(v)
    ensures Tree(Put(members, name, v))
  {
    LookupAfterPut(members, name, v, name);
    var k, t := IndexOf(members, name), Put(members, name, v);
    forall i | 0 <= i < |t| ensures ValueTree(t[i].value) {
      assert i != k ==> t[i] == members[i] && ValueTree(members[i].value);
    }
  }

  lemma DeleteKeepsTree(members: Members, name: bytes)
    requires Tree(members)
    ensures Tree(Delete(members, name))
  {
    LookupAfterDelete(members, name, name);
    var k, t := IndexOf(members, name), Delete(members, name);
    forall i | 0 <= i < |t| ensures ValueTree(t[i].value) {
      var j := if i == k then |members| - 1 else i;
      assert t[i] == members[j] && ValueTree(members[j].value);
    }
  }

  lemma {:induction false} SetKeepsTree(members: Members, p: seq<bytes>, v: Value)
    requires p != [] && Tree(members) && ValueTree(v)
    ensures SetAt(members, p, v).Some? ==> Tree(SetAt(members, p, v).value)
    decreases |p|
  {
    if |p| == 1 {
      PutKeepsTree(members, p[0], v);
    } else if SetAt(members, p, v).Some? {
      ChildIsTree(members, p[0]);
      var inner := InnerOf(members, p[0]);
      SetKeepsTree(inner, p[1..], v);
      PutKeepsTree(members, p[0], Object(SetAt(inner, p[1..], v).value));
    }
  }

  lemma {:induction false} RemoveKeepsTree(members: Members, p: seq<bytes>)
    requires p != [] && Tree(members)
    ensures RemoveAt(members, p).Some? ==> Tree(RemoveAt(members, p).value)
    decreases |p|
  {
    if |p| == 1 {
      DeleteKeepsTree(members, p[0]);
    } else if RemoveAt(members, p).Some? {
      ChildIsTree(members, p[0]);
      var inner := ChildOf(members, p[0]).members;
      RemoveKeepsTree(inner, p[1..]);
      PutKeepsTree(members, p[0], Object(RemoveAt(inner, p[1..]).value));
    }
  }

  /** A set fails exactly when some name on the way leads to something that is no object. */
  predicate Blocked(members: Members, p: seq<bytes>) {
    exists k :: 0 < k < |p| && BlockedAt(members, p[..k])
  }

  predicate BlockedAt(members: Members, p: seq<bytes>)
    requires p != []
  {
    ValueAt(members, p).Some? && !ValueAt(members, p).value.Object?
  }

  lemma {:induction false} SetFailsIffBlocked(members: Members, p: seq<bytes>, v: Value)
    requires p != []
    ensures SetAt(members, p, v).None? <==> Blocked(members, p)
    decreases |p|
  {
    if |p| > 1 {
      var child := ChildOf(members, p[0]);
      var inner := InnerOf(members, p[0]);
      SetFailsIffBlocked(inner, p[1..], v);
      assert p[..1] == [p[0]];
      forall k | 1 < k < |p| ensures p[..k][1..] == p[1..][..k - 1] && p[..k][0] == p[0] {}
      if child.Other? {
        assert BlockedAt(members, p[..1]);
      } else if Blocked(inner, p[1..]) {
        var k :| 0 < k < |p| - 1 && BlockedAt(inner, p[1..][..k]);
        if child.Inner? {
          assert BlockedAt(members, p[..k + 1]);
        } else {
          NothingBelowNothing(p[1..][..k]);
        }
      } else if Blocked(members, p) {
        var k :| 0 < k < |p| && BlockedAt(members, p[..k]);
        assert k > 1;
        assert BlockedAt(inner, p[1..][..k - 1]);
      }
    }
  }

  lemma NothingBelowNothing(p: seq<bytes>)
    requires p != []
    ensures ValueAt([], p) == None
  {
  }

  /** Two paths relate as their tails do, once they start with the same name. */
  lemma PathsByTails(p: seq<bytes>, q: seq<bytes>)
    requires p != [] && q != []
    ensures p <= q <==> p[0] == q[0] && p[1..] <= q[1..]
    ensures q < p <==> p[0] == q[0] && q[1..] < p[1..]
    ensures p <= q ==> q[|p|..] == q[1..][|p[1..]|..]
    ensures q < p ==> p[|q|..] == p[1..][|q[1..]|..]
  {
    assert p == [p[0]] + p[1..] && q == [q[0]] + q[1..];
  }

  /** What `q` shows after a set of `p` to `v`. */
  function ShownAfterSet(members: Members, p: seq<bytes>, v: Value, q: seq<bytes>): Option<Value>
    requires p != [] && q != []
  {
    if p <= q then Below(v, q[|p|..])
    else if q < p then
      match SetAt(ObjectAt(members, q), p[|q|..], v)
      case None => None
      case Some(inner) => Some(Object(inner))
    else ValueAt(members, q)
  }

  /** One level: only paths through the name just put are affected, and show what was put. */
  lemma ReadAfterPut(members: Members, name: bytes, v: Value, q: seq<bytes>)
    requires q != [] && Distinct(members)
    ensures ValueAt(Put(members, name, v), q) == if q[0] == name then Below(v, q[1..]) else ValueAt(members, q)
  {
    LookupAfterPut(members, name, v, q[0]);
  }

  lemma ReadBelow(members: Members, q: seq<bytes>)
    requires |q| > 1 && !ChildOf(members, q[0]).Other?
    ensures ValueAt(members, q) == ValueAt(InnerOf(members, q[0]), q[1..])
    ensures ObjectAt(members, q) == ObjectAt(InnerOf(members, q[0]), q[1..])
  {
    NothingBelowNothing(q[1..]);
  }

  /**
    Reading any path after a set: at and below `p` the new value shows; above `p` there are objects, changed only along
    `p`; every other path reads as before.
  */
  lemma {:induction false} ReadAfterSet(members: Members, p: seq<bytes>, v: Value, q: seq<bytes>)
    requires p != [] && q != [] && Tree(members) && SetAt(members, p, v).Some?
    ensures ValueAt(SetAt(members, p, v).value, q) == ShownAfterSet(members, p, v, q)
    decreases |p|
  {
    PathsByTails(p, q);
    if |p| == 1 {
      ReadAfterPut(members, p[0], v, q);
    } else {
      ChildIsTree(members, p[0]);
      var inner := InnerOf(members, p[0]);
      ReadAfterPut(members, p[0], Object(SetAt(inner, p[1..], v).value), q);
      if q[0] == p[0] && |q| > 1 {
        ReadAfterSet(inner, p[1..], v, q[1..]);
        ReadBelow(members, q);
      }
    }
  }

  /** A remove succeeds exactly when there is a value at `p`. */
  lemma {:induction false} RemoveNeedsValue(members: Members, p: seq<bytes>)
    requires p != []
    ensures RemoveAt(members, p).Some? <==> ValueAt(members, p).Some?
    decreases |p|
  {
    if |p| > 1 && ChildOf(members, p[0]).Inner? {
      RemoveNeedsValue(ChildOf(members, p[0]).members, p[1..]);
    }
  }

  /** What `q` shows after `p` was removed. */
  function ShownAfterRemove(members: Members, p: seq<bytes>, q: seq<bytes>): Option<Value>
    requires p != [] && q != []
  {
    if p <= q then None
    else if q < p then
      match RemoveAt(ObjectAt(members, q), p[|q|..])
      case None => None
      case Some(inner) => Some(Object(inner))
    else ValueAt(members, q)
  }

  /** Reading any path after a remove: nothing at or below `p`, changed objects above it, all else as before. */
  lemma {:induction false} ReadAfterRemove(members: Members, p: seq<bytes>, q: seq<bytes>)
    requires p != [] && q != [] && Tree(members) && RemoveAt(members, p).Some?
    ensures ValueAt(RemoveAt(members, p).value, q) == ShownAfterRemove(members, p, q)
    decreases |p|
  {
    PathsByTails(p, q);
    if |p| == 1 {
      LookupAfterDelete(members, p[0], q[0]);
    } else {
      ChildIsTree(members, p[0]);
      var inner := ChildOf(members, p[0]).members;
      LookupAfterPut(members, p[0], Object(RemoveAt(inner, p[1..]).value), q[0]);
      if q[0] == p[0] && |q| > 1 {
        ReadAfterRemove(inner, p[1..], q[1..]);
      }
    }
  }

  // ---- In terms of dotted names ----

  /** What any dotted name reads after a successful dotted set; the set name itself reads the new value. */
  lemma DotGetAfterDotSet(members: Members, name: bytes, v: Value, owned: bool, other: bytes)
    requires Tree(members) && DotSet(members, name, v, owned).Some?
    ensures DotGet(DotSet(members, name, v, owned).value, other)
         == ShownAfterSet(members, Segments(name), v, Segments(other))
    ensures DotGet(DotSet(members, name, v, owned).value, name) == Some(v)
  {
    DotsFollowSegments(members, name, v, owned);
    var after := DotSet(members, name, v, owned).value;
    DotsFollowSegments(after, other, v, owned);
    DotsFollowSegments(after, name, v, owned);
    ReadAfterSet(members, Segments(name), v, Segments(other));
    ReadAfterSet(members, Segments(name), v, Segments(name));
  }

  /** A dotted remove succeeds exactly on a name that reads a value, which is then gone; what any other name reads. */
  lemma DotGetAfterDotRemove(members: Members, name: bytes, other: bytes)
    requires Tree(members)
    ensures DotRemove(members, name).Some? <==> DotGet(members, name).Some?
    ensures DotRemove(members, name).Some? ==>
              && DotGet(DotRemove(members, name).value, other) == ShownAfterRemove(members, Segments(name), Segments(other))
              && DotGet(DotRemove(members, name).value, name) == None
  {
    DotsFollowSegments(members, name, Null, false);
    RemoveNeedsValue(members, Segments(name));
    if DotRemove(members, name).Some? {
      var after := DotRemove(members, name).value;
      DotsFollowSegments(after, other, Null, false);
      DotsFollowSegments(after, name, Null, false);
      ReadAfterRemove(members, Segments(name), Segments(other));
      ReadAfterRemove(members, Segments(name), Segments(name));
    }
  }

  // ---- On the table itself ----

  /** The dotted set on the object table: a failed set leaves its pairs as they were. */
  method DotSetValue(table: Table<Value>, name: bytes, v: Value, owned: bool) returns (ok: bool)
    requires table.Valid()
    modifies table.Repr()
    ensures table.Valid()
    ensures var r := DotSet(old(table.Contents()), name, v, owned);
            ok == r.Some? && table.Contents() == if ok then r.value else old(table.Contents())
  {
    ghost var before, goal := table.Contents(), DotSet(table.Contents(), name, v, owned);
    var k := DotPos(name);
    if k < |name| {
      assert goal == DotSetInside(before, name[..k], name[k + 1..], v, owned);
      ok := SetInside(table, name[..k], name[k + 1..], v, owned);
    } else if owned {
      assert goal == None;
      ok := false;
    } else {
      assert goal == Some(Put(before, name, v));
      table.Set(name, v);
      ok := true;
    }
  }

  method SetInside(table: Table<Value>, head: bytes, rest: bytes, v: Value, owned: bool) returns (ok: bool)
    requires table.Valid()
    modifies table.Repr()
    ensures table.Valid()
    ensures var r := DotSetInside(old(table.Contents()), head, rest, v, owned);
            ok == r.Some? && table.Contents() == if ok then r.value else old(table.Contents())
  {
    ghost var before, goal := table.Contents(), DotSetInside(table.Contents(), head, rest, v, owned);
    var temp := table.GetValue(head);
    if temp.Some? {
      if !temp.value.Object? {
        return false;
      }
      var changed := DotSet(temp.value.members, rest, v, owned);
      assert goal == Wrap(before, head, changed);
      if changed.Some? {
        table.Set(head, Object(changed.value));
      }
      return changed.Some?;
    }
    var made := DotSet([], rest, v, owned);
    assert goal == Wrap(before, head, made);
    if made.None? {
      return false;
    }
    ok := table.Add(head, Object(made.value));
  }

  method DotRemoveValue(table: Table<Value>, name: bytes) returns (ok: bool)
    requires table.Valid()
    modifies table.Repr()
    ensures table.Valid()
    ensures ok == DotRemove(old(table.Contents()), name).Some?
    ensures table.Contents() == if ok then DotRemove(old(table.Contents()), name).value else old(table.Contents())
  {
    ghost var before, goal := table.Contents(), DotRemove(table.Contents(), name);
    var k := DotPos(name);
    if k == |name| {
      ok := table.Remove(name);
      return;
    }
    var temp := table.GetValue(name[..k]);
    if temp.None? || !temp.value.Object? {
      return false;
    }
    var removed := DotRemove(temp.value.members, name[k + 1..]);
    assert goal == Wrap(before, name[..k], removed);
    if removed.None? {
      return false;
    }
    table.Set(name[..k], Object(removed.value));
    return true;
  }
}
