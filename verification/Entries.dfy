/**
  The contents of a JSON object: its name/value pairs in item order. Every operation of the object table is a
  function on such a sequence, and `AsMap` says what the pairs mean as a finite map.
*/
module Entries {
  import opened CStrings

  datatype Entry<+V> = Entry(name: bytes, value: V)

  predicate Distinct<V>(s: seq<Entry<V>>) {
    forall i, j :: 0 <= i < j < |s| ==> s[i].name != s[j].name
  }

  predicate HasName<V>(s: seq<Entry<V>>, name: bytes) {
    exists i :: 0 <= i < |s| && s[i].name == name
  }

  /** The position of the first pair called `name`, or the number of pairs when there is none. */
  function IndexOf<V>(s: seq<Entry<V>>, name: bytes): (k: nat)
    ensures k <= |s| && (k < |s| <==> HasName(s, name))
    ensures k < |s| ==> s[k].name == name
    ensures forall i :: 0 <= i < k ==> s[i].name != name
  {
    if s == [] then 0
    else if s[0].name == name then 0
    else
      var k := IndexOf(s[1..], name);
      assert k < |s[1..]| ==> s[k + 1].name == name;
      assert forall i :: 0 < i < k + 1 ==> s[i] == s[1..][i - 1];
      assert forall i :: 0 < i < |s| ==> s[i] == s[1..][i - 1];
      k + 1
  }

  function Lookup<V>(s: seq<Entry<V>>, name: bytes): Option<V> {
    var k := IndexOf(s, name);
    if k < |s| then Some(s[k].value) else None
  }

  /** Overwrites in place, or appends. */
  function Put<V>(s: seq<Entry<V>>, name: bytes, value: V): seq<Entry<V>> {
    var k := IndexOf(s, name);
    if k < |s| then s[k := Entry(name, value)] else s + [Entry(name, value)]
  }

  /** The last element takes the place of element `k`. */
  function SwapRemove<T>(s: seq<T>, k: nat): seq<T>
    requires k < |s|
  {
    s[k := s[|s| - 1]][..|s| - 1]
  }

  function Delete<V>(s: seq<Entry<V>>, name: bytes): seq<Entry<V>> {
    var k := IndexOf(s, name);
    if k < |s| then SwapRemove(s, k) else s
  }

  function Names<V>(s: seq<Entry<V>>): set<bytes> {
    set i | 0 <= i < |s| :: s[i].name
  }

  /** The finite map the pairs stand for. */
  function AsMap<V>(s: seq<Entry<V>>): map<bytes, V> {
    map x | x in Names(s) :: s[IndexOf(s, x)].value
  }

  lemma NameIsAt<V>(s: seq<Entry<V>>, i: nat)
    requires Distinct(s) && i < |s|
    ensures IndexOf(s, s[i].name) == i
  {
  }

  lemma LookupIsMapLookup<V>(s: seq<Entry<V>>, name: bytes)
    ensures Lookup(s, name) == if name in AsMap(s) then Some(AsMap(s)[name]) else None
  {
    var k := IndexOf(s, name);
    if k < |s| {
      assert s[k].name in Names(s);
    }
  }

  /** Two pair sequences that answer every lookup alike stand for the same map. */
  lemma SameLookupsSameMap<V>(s: seq<Entry<V>>, m: map<bytes, V>)
    requires forall x :: Lookup(s, x) == if x in m then Some(m[x]) else None
    ensures AsMap(s) == m
  {
    forall x ensures x in AsMap(s) <==> x in m
             ensures x in m ==> AsMap(s)[x] == m[x] {
      LookupIsMapLookup(s, x);
      assert Lookup(s, x) == if x in m then Some(m[x]) else None;
    }
  }

  lemma LookupAfterPut<V>(s: seq<Entry<V>>, name: bytes, value: V, x: bytes)
    requires Distinct(s)
    ensures Distinct(Put(s, name, value))
    ensures Lookup(Put(s, name, value), x) == if x == name then Some(value) else Lookup(s, x)
  {
    var k, t := IndexOf(s, name), Put(s, name, value);
    assert t[k] == Entry(name, value);
    assert forall i :: 0 <= i < |s| && i != k ==> t[i] == s[i];
    NameIsAt(t, k);
    var j := IndexOf(s, x);
    if x != name && j < |s| {
      assert t[j] == s[j];
      NameIsAt(t, j);
    }
  }

  lemma LookupAfterDelete<V>(s: seq<Entry<V>>, name: bytes, x: bytes)
    requires Distinct(s)
    ensures Distinct(Delete(s, name))
    ensures Lookup(Delete(s, name), x) == if x == name then None else Lookup(s, x)
  {
    var k, t := IndexOf(s, name), Delete(s, name);
    if k < |s| {
      var n := |s| - 1;
      assert forall i :: 0 <= i < n ==> t[i] == if i == k then s[n] else s[i];
      assert Distinct(t);
      var j := IndexOf(s, x);
      if x != name && j < |s| {
        var j' := if j == n then k else j;
        assert t[j'] == s[j];
        NameIsAt(t, j');
      }
    }
  }

  /** A set keeps the order: a known name's pair stays where it is, a new one goes last. */
  lemma PutKeepsOrder<V>(a: seq<Entry<V>>, e: Entry<V>, b: seq<Entry<V>>, name: bytes, value: V)
    requires Distinct(a + [e] + b)
    ensures Put(a + [e] + b, e.name, value) == a + [Entry(e.name, value)] + b
    ensures !HasName(a, name) ==> Put(a, name, value) == a + [Entry(name, value)]
  {
    assert (a + [e] + b)[|a|] == e;
    NameIsAt(a + [e] + b, |a|);
  }

  /** A removal puts the last pair into the gap and keeps the order of all others. */
  lemma DeleteSwapsLast<V>(a: seq<Entry<V>>, e: Entry<V>, b: seq<Entry<V>>, last: Entry<V>)
    requires Distinct(a + [e] + b + [last])
    ensures Delete(a + [e] + b + [last], e.name) == a + [last] + b
    ensures Delete(a + [e] + b + [last], last.name) == a + [e] + b
  {
    var s := a + [e] + b + [last];
    assert IndexOf(s, e.name) == |a| by {
      assert s[|a|] == e;
      NameIsAt(s, |a|);
    }
    assert IndexOf(s, last.name) == |s| - 1 by {
      assert s[|s| - 1] == last;
      NameIsAt(s, |s| - 1);
    }
    assert SwapRemove(s, |a|) == a + [last] + b;
    assert SwapRemove(s, |s| - 1) == a + [e] + b;
  }

  lemma PutIsMapUpdate<V>(s: seq<Entry<V>>, name: bytes, value: V)
    requires Distinct(s)
    ensures Distinct(Put(s, name, value))
    ensures AsMap(Put(s, name, value)) == AsMap(s)[name := value]
  {
    forall x ensures Lookup(Put(s, name, value), x)
                     == if x in AsMap(s)[name := value] then Some(AsMap(s)[name := value][x]) else None {
      LookupAfterPut(s, name, value, x);
      LookupIsMapLookup(s, x);
    }
    SameLookupsSameMap(Put(s, name, value), AsMap(s)[name := value]);
    LookupAfterPut(s, name, value, name);
  }

  lemma DeleteIsMapRemoval<V>(s: seq<Entry<V>>, name: bytes)
    requires Distinct(s)
    ensures Distinct(Delete(s, name))
    ensures AsMap(Delete(s, name)) == AsMap(s) - {name}
  {
    forall x ensures Lookup(Delete(s, name), x)
                     == if x in AsMap(s) - {name} then Some((AsMap(s) - {name})[x]) else None {
      LookupAfterDelete(s, name, x);
      LookupIsMapLookup(s, x);
    }
    SameLookupsSameMap(Delete(s, name), AsMap(s) - {name});
    LookupAfterDelete(s, name, name);
  }

  lemma PrefixLacksName<V>(s: seq<Entry<V>>, i: nat)
    requires Distinct(s) && i < |s|
    ensures !HasName(s[..i], s[i].name)
  {
  }
}
