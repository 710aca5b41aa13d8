/**
  The open-addressing hash table behind every JSON object: `cells` is probed linearly and holds item indices; the
  items themselves are dense. Removal swaps the last item into the gap and shifts the probe chain back.
*/
module ObjectTable {
  import opened CStrings
  import opened Entries

  const INVALID := -1
  const STARTING_CAPACITY: nat := 16

  /** The 32-bit djb2 hash of a C string. */
  function Hash(key: bytes): nat {
    HashFrom(key, 5381)
  }

  function HashFrom(key: bytes, hash: nat): nat {
    if key == [] || key[0] == 0 then hash
    else HashFrom(key[1..], (hash * 33 + key[0]) % 0x1_0000_0000)
  }

  /** `5381 * 33^n + key[0] * 33^(n-1) + .. + key[n-1]`, by Horner's rule. */
  function Weighed(key: bytes): nat {
    if key == [] then 5381 else 33 * Weighed(key[..|key| - 1]) + key[|key| - 1]
  }

  /** The hash is that polynomial of the C string's characters, modulo 2^32. */
  lemma HashIsPolynomial(key: bytes, behind: bytes)
    requires 0 !in key && (behind == [] || behind[0] == 0)
    ensures Hash(key + behind) == Weighed(key) % 0x1_0000_0000
  {
    assert key[..0] == [] && Weighed(key[..0]) % 0x1_0000_0000 == 5381;
    HashGoesOn(key, behind, 0);
    assert key[0..] == key;
  }

  lemma {:induction false} HashGoesOn(key: bytes, behind: bytes, i: nat)
    requires 0 !in key && (behind == [] || behind[0] == 0) && i <= |key|
    ensures HashFrom(key[i..] + behind, Weighed(key[..i]) % 0x1_0000_0000) == Weighed(key) % 0x1_0000_0000
    decreases |key| - i
  {
    var t, w := key[i..] + behind, Weighed(key[..i]);
    if i == |key| {
      assert t == behind && key[..i] == key;
    } else {
      assert t[0] == key[i] && t[1..] == key[i + 1..] + behind;
      assert key[..i + 1][..i] == key[..i] && Weighed(key[..i + 1]) == 33 * w + key[i];
      ReducedOnce(w, key[i]);
      HashGoesOn(key, behind, i + 1);
    }
  }

  lemma ReducedOnce(w: nat, c: byte)
    ensures (w % 0x1_0000_0000 * 33 + c) % 0x1_0000_0000 == (33 * w + c) % 0x1_0000_0000
  {
    var q, r := w / 0x1_0000_0000, w % 0x1_0000_0000;
    var x := r * 33 + c;
    assert 33 * w + c == 0x1_0000_0000 * (33 * q + x / 0x1_0000_0000) + x % 0x1_0000_0000;
    DivisionIsUnique(33 * w + c, 0x1_0000_0000, 33 * q + x / 0x1_0000_0000, x % 0x1_0000_0000);
  }

  /** The method form of `Hash`, as the source loops. */
  method HashString(key: bytes) returns (hash: nat)
    ensures hash == Hash(key)
  {
    hash := 5381;
    var i := 0;
    while i < |key|
      invariant 0 <= i <= |key|
      invariant HashFrom(key[i..], hash) == Hash(key)
    {
      assert key[i..][1..] == key[i + 1..];
      if key[i] == 0 {
        break;
      }
      hash := (hash * 33 + key[i]) % 0x1_0000_0000;
      i := i + 1;
    }
  }

  /** The cell where the probe for `name` starts. */
  function Home(name: bytes, cap: nat): (k: nat)
    requires PowerOfTwo(cap)
    ensures k < cap && k == Hash(name) % cap
  {
    MaskIsModulo(Hash(name), cap);
    BitAnd(Hash(name), cap - 1)
  }

  // ---- Cyclic intervals of cells ----

  /** `x` lies in the cyclic interval from `a` (inclusive) to `b` (exclusive); empty when `a == b`. */
  predicate Between(a: int, x: int, b: int) {
    if a <= b then a <= x < b else x >= a || x < b
  }

  /** `x` lies in the cyclic interval from `a` (exclusive) to `b` (inclusive); empty when `a == b`. */
  predicate After(a: int, x: int, b: int) {
    if a <= b then a < x <= b else x > a || x <= b
  }

  // ---- What links cells and items ----

  /** `cells` and `ixs` are mutually inverse, leaving cell `hole` out of account. */
  ghost predicate Linked(cells: seq<int>, ixs: seq<int>, hole: int) {
    && (forall t :: 0 <= t < |ixs| ==> 0 <= ixs[t] < |cells| && ixs[t] != hole && cells[ixs[t]] == t)
    && (forall c :: 0 <= c < |cells| && c != hole && cells[c] != INVALID ==>
          0 <= cells[c] < |ixs| && ixs[cells[c]] == c)
  }

  /** If cell `y` lies on the probe chain of the item in cell `c`, it is occupied. */
  ghost predicate ChainCell(cells: seq<int>, homes: seq<int>, c: int, y: int)
    requires 0 <= c < |cells| && 0 <= y < |cells|
  {
    0 <= cells[c] < |homes| && Between(homes[cells[c]], y, c) ==> cells[y] != INVALID
  }

  /** No probe chain is broken: every cell from an item's home up to its own cell is occupied. */
  ghost predicate Chained(cells: seq<int>, homes: seq<int>) {
    forall c, y :: 0 <= c < |cells| && 0 <= y < |cells| ==> ChainCell(cells, homes, c, y)
  }

  /** As `Chained`, with `hole` counted as empty: chains avoid it at least for the items in cells (hole, j]. */
  ghost predicate ChainedBeside(cells: seq<int>, homes: seq<int>, hole: int, j: int)
    requires 0 <= hole < |cells|
  {
    && (forall c, y :: 0 <= c < |cells| && 0 <= y < |cells| && c != hole ==> ChainCell(cells, homes, c, y))
    && (forall c :: 0 <= c < |cells| && 0 <= cells[c] < |homes| && After(hole, c, j) ==>
          !Between(homes[cells[c]], hole, c))
  }

  /** Distinct numbers below `n` are at most `n` many. */
  lemma {:induction false} Pigeonhole(s: seq<int>, n: nat)
    requires forall i :: 0 <= i < |s| ==> 0 <= s[i] < n
    requires forall i, j :: 0 <= i < j < |s| ==> s[i] != s[j]
    ensures |s| <= n
  {
    if s != [] {
      assert 0 <= s[0] < n;
      if k :| 0 <= k < |s| && s[k] == n - 1 {
        Pigeonhole(s[..k] + s[k + 1..], n - 1);
      } else {
        Pigeonhole(s, n - 1);
      }
    }
  }

  /** With fewer items than cells, some cell is empty. */
  lemma EmptyCellExists(cells: seq<int>, ixs: seq<int>) returns (e: nat)
    requires Linked(cells, ixs, INVALID)
    requires |ixs| < |cells|
    ensures e < |cells| && cells[e] == INVALID
  {
    if forall c :: 0 <= c < |cells| ==> cells[c] != INVALID {
      Pigeonhole(cells, |ixs|);
      assert false;
    }
    e :| 0 <= e < |cells| && cells[e] == INVALID;
  }

  // ---- One step of the back-shift loop, on values ----

  /** The scanned item keeps its chain without the hole, so it stays. */
  lemma SkipKeepsChains(cells: seq<int>, homes: seq<int>, hole: int, j: int, j': int)
    requires 0 <= hole < |cells| && 0 <= j < |cells| && j' == (if j + 1 == |cells| then 0 else j + 1)
    requires ChainedBeside(cells, homes, hole, j)
    requires j' != hole && 0 <= cells[j'] < |homes| && !Between(homes[cells[j']], hole, j')
    ensures ChainedBeside(cells, homes, hole, j')
  {
  }

  /** The scanned item's chain runs through the hole: moving it there makes its old cell the hole. */
  lemma MoveKeepsChains(cells: seq<int>, ixs: seq<int>, homes: seq<int>, hole: int, j: int, j': int)
    requires 0 <= hole < |cells| && 0 <= j < |cells| && j' == (if j + 1 == |cells| then 0 else j + 1)
    requires |homes| == |ixs| && Linked(cells, ixs, hole)
    requires ChainedBeside(cells, homes, hole, j)
    requires j' != hole && cells[j'] != INVALID && Between(homes[cells[j']], hole, j')
    ensures Linked(cells[hole := cells[j']], ixs[cells[j'] := hole], j')
    ensures ChainedBeside(cells[hole := cells[j']], homes, j', j')
  {
    var moved := cells[hole := cells[j']];
    forall c, y | 0 <= c < |cells| && 0 <= y < |cells| && c != j' ensures ChainCell(moved, homes, c, y) {
      assert ChainCell(cells, homes, if c == hole then j' else c, y);
    }
  }

  /** Meeting an empty cell, no chain runs through the hole any more. */
  lemma StopKeepsChains(cells: seq<int>, ixs: seq<int>, homes: seq<int>, hole: int, j: int, j': int)
    requires 0 <= hole < |cells| && 0 <= j < |cells| && j' == (if j + 1 == |cells| then 0 else j + 1)
    requires |homes| == |ixs| && Linked(cells, ixs, hole)
    requires ChainedBeside(cells, homes, hole, j)
    requires j' != hole && cells[j'] == INVALID
    ensures Linked(cells[hole := INVALID], ixs, INVALID)
    ensures Chained(cells[hole := INVALID], homes)
  {
    var closed := cells[hole := INVALID];
    forall c, y | 0 <= c < |cells| && 0 <= y < |cells| ensures ChainCell(closed, homes, c, y) {
      if c != hole {
        assert ChainCell(cells, homes, c, y) && ChainCell(cells, homes, c, j');
      }
    }
  }

  /** Filling the empty cell that ends the probe of a new item. */
  lemma AppendKeepsChains(cells: seq<int>, ixs: seq<int>, homes: seq<int>, ix: int, home: int)
    requires |homes| == |ixs| && 0 <= home < |cells|
    requires Linked(cells, ixs, INVALID) && Chained(cells, homes)
    requires EndsProbe(cells, home, ix)
    ensures Linked(cells[ix := |ixs|], ixs + [ix], INVALID)
    ensures Chained(cells[ix := |ixs|], homes + [home])
  {
    var filled := cells[ix := |ixs|];
    forall c, y | 0 <= c < |cells| && 0 <= y < |cells| ensures ChainCell(filled, homes + [home], c, y) {
      assert c != ix ==> ChainCell(cells, homes, c, y);
    }
  }

  /** Cell `y` is among the first `i` cells probed from `home`. */
  ghost predicate Probed(home: int, i: int, y: int, cap: int) {
    if home + i <= cap then home <= y < home + i else y >= home || y < home + i - cap
  }

  /** Cell `ix` is the empty cell at which a probe from `home` stops. */
  ghost predicate EndsProbe(cells: seq<int>, home: int, ix: int) {
    && 0 <= ix < |cells| && cells[ix] == INVALID
    && forall y :: 0 <= y < |cells| && Between(home, y, ix) ==> cells[y] != INVALID
  }

  /** The first `i` probes from `home` all met items with other names. */
  ghost predicate Missed(cells: seq<int>, names: seq<bytes>, key: bytes, home: int, i: int) {
    forall y :: 0 <= y < |cells| && Probed(home, i, y, |cells|) ==>
                  0 <= cells[y] < |names| && names[cells[y]] != key
  }

  /** One more miss; an empty cell is met before the probe has gone all the way round. */
  lemma ProbeMissed(cells: seq<int>, names: seq<bytes>, key: bytes, home: int, i: int, ix: int, empty: int)
    requires 0 <= home < |cells| && 0 <= i < |cells|
    requires ix == if home + i < |cells| then home + i else home + i - |cells|
    requires Missed(cells, names, key, home, i) && 0 <= cells[ix] < |names| && names[cells[ix]] != key
    requires 0 <= empty < |cells| && cells[empty] == INVALID
    ensures i + 1 < |cells| && Missed(cells, names, key, home, i + 1)
  {
    assert forall y :: 0 <= y < |cells| && Probed(home, i + 1, y, |cells|) ==> y == ix || Probed(home, i, y, |cells|);
    assert !Probed(home, i + 1, empty, |cells|);
  }

  /** The next probe met an empty cell: the name is nowhere, and this cell continues its chain. */
  lemma ProbeIsComplete(cells: seq<int>, ixs: seq<int>, names: seq<bytes>, key: bytes, i: int, ix: int)
    requires PowerOfTwo(|cells|) && 0 <= i < |cells| && |ixs| == |names|
    requires ix == if Home(key, |cells|) + i < |cells| then Home(key, |cells|) + i else Home(key, |cells|) + i - |cells|
    requires Linked(cells, ixs, INVALID) && Chained(cells, HomesOf(names, |cells|))
    requires Missed(cells, names, key, Home(key, |cells|), i)
    requires cells[ix] == INVALID
    ensures key !in names
    ensures EndsProbe(cells, Home(key, |cells|), ix)
  {
    forall t | 0 <= t < |names| ensures names[t] != key {
      assert ChainCell(cells, HomesOf(names, |cells|), ixs[t], ix);
      assert names[t] == key ==> Probed(Home(key, |cells|), i, ixs[t], |cells|);
    }
    forall y | 0 <= y < |cells| && Between(Home(key, |cells|), y, ix) ensures cells[y] != INVALID {
      assert Probed(Home(key, |cells|), i, y, |cells|);
    }
  }

  function HomesOf(names: seq<bytes>, cap: nat): (h: seq<int>)
    requires names == [] || PowerOfTwo(cap)
  {
    seq(|names|, t requires 0 <= t < |names| => Home(names[t], cap))
  }

  /** What ties the five arrays together, each cut to the items in use. */
  ghost predicate Consistent(cells: seq<int>, hashes: seq<nat>, names: seq<bytes>, ixs: seq<int>) {
    && |hashes| == |names| == |ixs|
    && (names != [] ==> PowerOfTwo(|cells|))
    && (forall t :: 0 <= t < |names| ==> hashes[t] == Hash(names[t]))
    && Linked(cells, ixs, INVALID)
    && Chained(cells, HomesOf(names, |cells|))
  }

  /** As `Consistent`, while a removed item's cell `hole` is being closed and cells (hole, j] have been scanned. */
  ghost predicate ConsistentBeside(cells: seq<int>, hashes: seq<nat>, names: seq<bytes>, ixs: seq<int>, hole: int, j: int) {
    && |hashes| == |names| == |ixs|
    && PowerOfTwo(|cells|)
    && 0 <= hole < |cells| && 0 <= j < |cells|
    && (forall t :: 0 <= t < |names| ==> hashes[t] == Hash(names[t]))
    && Linked(cells, ixs, hole)
    && ChainedBeside(cells, HomesOf(names, |cells|), hole, j)
  }

  /** Swapping the last item into place `gone` leaves the cell of item `gone` to be closed. */
  lemma SwapKeepsChains(cells: seq<int>, hashes: seq<nat>, names: seq<bytes>, ixs: seq<int>, gone: nat)
    requires Consistent(cells, hashes, names, ixs) && gone < |ixs|
    ensures var last := |ixs| - 1;
            var cells' := if gone < last then cells[ixs[last] := gone] else cells;
            && ConsistentBeside(cells', SwapRemove(hashes, gone), SwapRemove(names, gone), SwapRemove(ixs, gone),
                                ixs[gone], ixs[gone])
            && cells'[ixs[gone]] != INVALID
            && forall c :: 0 <= c < |cells| && cells[c] == INVALID ==> cells'[c] == INVALID
  {
    var last := |ixs| - 1;
    var hole := ixs[gone];
    var cells' := if gone < last then cells[ixs[last] := gone] else cells;
    var homes, homes' := HomesOf(names, |cells|), HomesOf(SwapRemove(names, gone), |cells|);
    forall c, y | 0 <= c < |cells| && 0 <= y < |cells| && c != hole ensures ChainCell(cells', homes', c, y) {
      assert ChainCell(cells, homes, c, y);
    }
  }

  function Pairs<V>(names: seq<bytes>, values: seq<V>): seq<Entry<V>>
    requires |names| == |values|
  {
    seq(|names|, t requires 0 <= t < |names| => Entry(names[t], values[t]))
  }

  lemma SwapPairs<V>(names: seq<bytes>, values: seq<V>, k: nat)
    requires |names| == |values| && k < |names|
    ensures Pairs(SwapRemove(names, k), SwapRemove(values, k)) == SwapRemove(Pairs(names, values), k)
  {
  }

  class Table<V(0)> {
    var cells: array<int>
    var hashes: array<nat>
    var names: array<bytes>
    var values: array<V>
    var cellIxs: array<int>
    var count: nat
    var itemCapacity: nat
    var cellCapacity: nat

    ghost function Repr(): set<object>
      reads this
    {
      {this, cells, hashes, names, values, cellIxs}
    }

    ghost predicate Apart()
      reads this
    {
      && cells != cellIxs && cells as object != hashes && cells as object != names && cells as object != values
      && hashes as object != names && hashes as object != values && hashes as object != cellIxs
      && names as object != values && names as object != cellIxs
      && values as object != cellIxs
    }

    ghost predicate Shape()
      reads this
    {
      && (cellCapacity == 0 || (PowerOfTwo(cellCapacity) && cellCapacity >= STARTING_CAPACITY))
      && itemCapacity == cellCapacity * 7 / 10
      && cells.Length == cellCapacity
      && hashes.Length == names.Length == values.Length == cellIxs.Length == itemCapacity
      && count <= itemCapacity
      && Apart()
    }

    ghost predicate Valid()
      reads this, Repr()
    {
      && Shape()
      && Consistent(cells[..], hashes[..count], names[..count], cellIxs[..count])
      && Distinct(Contents())
    }

    /** The object's name/value pairs in item order. */
    ghost function Contents(): seq<Entry<V>>
      reads this, names, values
      requires count <= names.Length == values.Length
    {
      Pairs(names[..count], values[..count])
    }

    constructor (capacity: nat)
      requires capacity == 0 || (PowerOfTwo(capacity) && capacity >= STARTING_CAPACITY)
      ensures Valid() && fresh(Repr()) && Contents() == []
      ensures cellCapacity == capacity
    {
      count := 0;
      cellCapacity := capacity;
      itemCapacity := capacity * 7 / 10;
      cells := new int[capacity];
      names := new bytes[capacity * 7 / 10];
      values := new V[capacity * 7 / 10];
      cellIxs := new int[capacity * 7 / 10];
      hashes := new nat[capacity * 7 / 10];
      new;
      FreeCells();
    }

    method FreeCells()
      requires Shape()
      modifies cells
      ensures forall c :: 0 <= c < cellCapacity ==> cells[c] == INVALID
    {
      var i := 0;
      while i < cellCapacity
        invariant 0 <= i <= cellCapacity
        invariant forall c :: 0 <= c < i ==> cells[c] == INVALID
      {
        cells[i] := INVALID;
        i := i + 1;
      }
    }

    /** The linear probe: the cell that holds `key`, or the empty cell where it belongs. */
    method CellIx(key: bytes, hash: nat) returns (ix: int, found: bool)
      requires Valid() && hash == Hash(key)
      ensures found <==> HasName(Contents(), key)
      ensures found ==> 0 <= ix < cellCapacity && 0 <= cells[ix] < count && names[cells[ix]] == key
      ensures !found && cellCapacity == 0 ==> ix == INVALID
      ensures !found && cellCapacity > 0 ==> EndsProbe(cells[..], Home(key, cellCapacity), ix)
    {
      ix, found := INVALID, false;
      if cellCapacity == 0 {
        return;
      }
      ghost var home, ns := Home(key, cellCapacity), names[..count];
      ghost var empty := EmptyCellExists(cells[..], cellIxs[..count]);
      var start := BitAnd(hash, cellCapacity - 1);
      var i := 0;
      while i < cellCapacity
        invariant 0 <= i < cellCapacity
        invariant Missed(cells[..], ns, key, home, i)
      {
        ix := Wrap(start + i);
        var cell := cells[ix];
        if cell == INVALID {
          ProbeIsComplete(cells[..], cellIxs[..count], ns, key, i, ix);
          return ix, false;
        }
        if hash == hashes[cell] && names[cell] == key {
          assert Contents()[cell].name == key;
          return ix, true;
        }
        ProbeMissed(cells[..], ns, key, home, i, ix, empty);
        i := i + 1;
      }
      assert false;
    }

    /** Reduces a cell number below twice the capacity. */
    function Wrap(x: nat): (ix: nat)
      reads this
      requires PowerOfTwo(cellCapacity) && x < 2 * cellCapacity
      ensures ix == if x < cellCapacity then x else x - cellCapacity
    {
      MaskIsModulo(x, cellCapacity);
      DivisionIsUnique(x, cellCapacity, if x < cellCapacity then 0 else 1, if x < cellCapacity then x else x - cellCapacity);
      BitAnd(x, cellCapacity - 1)
    }

    /** Stores a new item behind the last one and links it to the empty cell `ix` that ended its probe. */
    method Append(name: bytes, value: V, hash: nat, ix: int)
      requires Valid() && count < itemCapacity && hash == Hash(name)
      requires !HasName(Contents(), name)
      requires EndsProbe(cells[..], Home(name, cellCapacity), ix)
      modifies this`count, names, cells, values, cellIxs, hashes
      ensures Valid() && Repr() == old(Repr())
      ensures Contents() == old(Contents()) + [Entry(name, value)]
    {
      ghost var cs, ixs, homes := cells[..], cellIxs[..count], HomesOf(names[..count], cellCapacity);
      ghost var before := Contents();
      names[count] := name;
      cells[ix] := count;
      values[count] := value;
      cellIxs[count] := ix;
      hashes[count] := hash;
      count := count + 1;
      AppendKeepsChains(cs, ixs, homes, ix, Home(name, cellCapacity));
      assert cells[..] == cs[ix := count - 1] && cellIxs[..count] == ixs + [ix];
      assert HomesOf(names[..count], cellCapacity) == homes + [Home(name, cellCapacity)];
      assert Contents() == before + [Entry(name, value)];
    }

    /** Rebuilds the table with twice the cells. Adding to the new table never grows it again. */
    method GrowAndRehash()
      requires Valid() && count >= itemCapacity
      modifies this
      ensures Valid() && fresh(Repr() - {this})
      ensures Contents() == old(Contents()) && count < itemCapacity
      ensures itemCapacity == if old(cellCapacity) == 0 then 11 else 2 * old(cellCapacity) * 7 / 10
      decreases 4
    {
      var newCapacity := if cellCapacity * 2 > STARTING_CAPACITY then cellCapacity * 2 else STARTING_CAPACITY;
      assert PowerOfTwo(newCapacity) && newCapacity * 7 / 10 > count;
      var grown := new Table<V>(newCapacity);
      assert |grown.Contents()| == 0;
      CopyItemsTo(grown);
      assert |grown.Contents()| == |Contents()|;
      Assign(grown);
    }

    /** The structure assignment `*this = *other`. */
    method Assign(other: Table<V>)
      requires other.Valid() && this !in other.Repr()
      modifies this
      ensures Valid() && Contents() == other.Contents() && Repr() == other.Repr() - {other} + {this}
      ensures count == other.count && itemCapacity == other.itemCapacity
    {
      cells, hashes, names, values, cellIxs := other.cells, other.hashes, other.names, other.values, other.cellIxs;
      count, itemCapacity, cellCapacity := other.count, other.itemCapacity, other.cellCapacity;
    }

    /** The copying loop of the rebuild: `target` has room for every item, so no addition makes it grow. */
    method CopyItemsTo(target: Table<V>)
      requires Valid() && target.Valid() && Repr() !! target.Repr()
      requires target.count == 0 && count < target.itemCapacity
      modifies target.Repr()
      ensures target.Valid() && target.Repr() == old(target.Repr())
      ensures target.Contents() == Contents() && target.itemCapacity == old(target.itemCapacity)
      decreases 3
    {
      ghost var before, repr := Contents(), target.Repr();
      var i := 0;
      while i < count
        invariant 0 <= i <= count
        invariant target.Valid() && target.Repr() == repr && target.itemCapacity == old(target.itemCapacity)
        invariant target.count == i && target.Contents() == before[..i]
        modifies repr
      {
        assert before[i] == Entry(names[i], values[i]);
        PrefixLacksName(before, i);
        var _ := target.Add(names[i], values[i]);
        assert before[..i] + [before[i]] == before[..i + 1];
        assert |target.Contents()| == i + 1;
        i := i + 1;
      }
      assert before[..count] == before;
    }

    /** Grows a full table; `ix` is where the probe for the new name ends, before and after. */
    method MakeRoom(name: bytes, hash: nat, ix: int) returns (ix': int)
      requires Valid() && hash == Hash(name) && !HasName(Contents(), name)
      requires cellCapacity > 0 ==> EndsProbe(cells[..], Home(name, cellCapacity), ix)
      modifies this
      ensures Valid() && Contents() == old(Contents()) && count < itemCapacity
      ensures (forall o :: o in Repr() ==> o in old(Repr()) || fresh(o))
      ensures old(count < itemCapacity) ==> unchanged(this)
      ensures EndsProbe(cells[..], Home(name, cellCapacity), ix')
      decreases if count < itemCapacity then 0 else 5
    {
      ix' := ix;
      if count >= itemCapacity {
        GrowAndRehash();
        var found;
        ix', found := CellIx(name, hash);
      }
    }

    /** Adds a name whose probe ended at `ix`, growing the table first when it is full. */
    method Insert(name: bytes, value: V, hash: nat, ix: int)
      requires Valid() && hash == Hash(name) && !HasName(Contents(), name)
      requires cellCapacity > 0 ==> EndsProbe(cells[..], Home(name, cellCapacity), ix)
      modifies Repr()
      ensures Valid() && (forall o :: o in Repr() ==> o in old(Repr()) || fresh(o))
      ensures Contents() == old(Contents()) + [Entry(name, value)]
      ensures old(count < itemCapacity) ==> itemCapacity == old(itemCapacity) && Repr() == old(Repr())
      decreases if count < itemCapacity then 1 else 6
    {
      var free := MakeRoom(name, hash, ix);
      Append(name, value, hash, free);
    }

    /** Adds a new name; fails on a name that is already there. */
    method Add(name: bytes, value: V) returns (ok: bool)
      requires Valid()
      modifies Repr()
      ensures Valid() && (forall o :: o in Repr() ==> o in old(Repr()) || fresh(o))
      ensures ok == !HasName(old(Contents()), name)
      ensures Contents() == if ok then old(Contents()) + [Entry(name, value)] else old(Contents())
      ensures old(count < itemCapacity) ==> itemCapacity == old(itemCapacity) && Repr() == old(Repr())
      decreases if count < itemCapacity then 2 else 7
    {
      var hash := HashString(name);
      var ix, found := CellIx(name, hash);
      if found {
        return false;
      }
      Insert(name, value, hash, ix);
      return true;
    }

    /** Sets a name to a value: replaces the value in place, or adds the name. */
    method Set(name: bytes, value: V)
      requires Valid()
      modifies Repr()
      ensures Valid() && (forall o :: o in Repr() ==> o in old(Repr()) || fresh(o))
      ensures Contents() == Put(old(Contents()), name, value)
    {
      var hash := HashString(name);
      var ix, found := CellIx(name, hash);
      if found {
        NameIsAt(Contents(), cells[ix]);
        ReplaceValue(cells[ix], value);
        return;
      }
      Insert(name, value, hash, ix);
    }

    method ReplaceValue(itemIx: nat, value: V)
      requires Valid() && itemIx < count
      modifies values
      ensures Valid() && Repr() == old(Repr())
      ensures Contents() == old(Contents())[itemIx := Entry(names[itemIx], value)]
    {
      ghost var before := Contents();
      values[itemIx] := value;
      assert Consistent(cells[..], hashes[..count], names[..count], cellIxs[..count]);
      forall t | 0 <= t < count ensures Contents()[t].name == before[t].name {}
      assert Contents() == before[itemIx := Entry(names[itemIx], value)];
    }

    method GetValue(name: bytes) returns (r: Option<V>)
      requires Valid()
      ensures r == Lookup(Contents(), name)
    {
      var hash := HashString(name);
      var ix, found := CellIx(name, hash);
      if !found {
        return None;
      }
      NameIsAt(Contents(), cells[ix]);
      return Some(values[cells[ix]]);
    }

    /** Removes a name. The last item takes its place, and its cell is closed by shifting the probe chain back. */
    method Remove(name: bytes) returns (ok: bool)
      requires Valid()
      modifies this`count, cells, hashes, names, values, cellIxs
      ensures Valid()
      ensures ok == HasName(old(Contents()), name)
      ensures Contents() == Delete(old(Contents()), name)
    {
      var hash := HashString(name);
      var cell, found := CellIx(name, hash);
      if !found {
        return false;
      }
      ghost var before := Contents();
      ghost var empty := EmptyCellExists(cells[..], cellIxs[..count]);
      NameIsAt(before, cells[cell]);
      LookupAfterDelete(before, name, name);
      DropItem(cells[cell]);
      ShiftBack(cell, empty);
      return true;
    }

    /** The last item takes the place of item `gone`; the cell of item `gone` is left to be closed. */
    method DropItem(gone: nat)
      requires Valid() && gone < count
      modifies this`count, cells, hashes, names, values, cellIxs
      ensures Shape() && count == old(count) - 1 && Contents() == SwapRemove(old(Contents()), gone)
      ensures var hole := old(cellIxs[gone]);
              && ConsistentBeside(cells[..], hashes[..count], names[..count], cellIxs[..count], hole, hole)
              && cells[hole] != INVALID
      ensures forall c :: 0 <= c < cellCapacity && old(cells[c]) == INVALID ==> cells[c] == INVALID
    {
      ghost var hole, cs, hs, ns, xs := cellIxs[gone], cells[..], hashes[..count], names[..count], cellIxs[..count];
      assert forall c :: 0 <= c < cellCapacity ==> cs[c] == cells[c];
      SwapPairs(ns, values[..count], gone);
      LastIsLinked();
      MoveLastTo(gone);
      ghost var closing := ConsistentBeside(cells[..], hashes[..count], names[..count], cellIxs[..count], hole, hole);
      ghost var now := cells[..];
      assert closing && now[hole] != INVALID && (forall c :: 0 <= c < cellCapacity && cs[c] == INVALID ==> now[c] == INVALID) by {
        SwapKeepsChains(cs, hs, ns, xs, gone);
      }
    }

    lemma LastIsLinked()
      requires Valid() && count > 0
      ensures 0 <= cellIxs[count - 1] < cellCapacity && cells[cellIxs[count - 1]] == count - 1
    {
      assert cellIxs[..count][count - 1] == cellIxs[count - 1];
    }

    method MoveLastTo(itemIx: nat)
      requires Shape() && itemIx < count && 0 <= cellIxs[count - 1] < cellCapacity
      modifies this`count, cells, hashes, names, values, cellIxs
      ensures Shape() && count == old(count) - 1
      ensures names[..count] == SwapRemove(old(names[..count]), itemIx)
      ensures values[..count] == SwapRemove(old(values[..count]), itemIx)
      ensures hashes[..count] == SwapRemove(old(hashes[..count]), itemIx)
      ensures cellIxs[..count] == SwapRemove(old(cellIxs[..count]), itemIx)
      ensures cells[..] == if itemIx < count then old(cells[..][cellIxs[count - 1] := itemIx]) else old(cells[..])
    {
      var last := count - 1;
      if itemIx < last {
        names[itemIx] := names[last];
        values[itemIx] := values[last];
        cellIxs[itemIx] := cellIxs[last];
        hashes[itemIx] := hashes[last];
        cells[cellIxs[itemIx]] := itemIx;
      }
      count := count - 1;
    }

    /** A removed item's cell `hole` is being closed and cells (hole, j] have been scanned. */
    ghost predicate Closing(hole: int, j: int)
      reads this, Repr()
    {
      Shape() && ConsistentBeside(cells[..], hashes[..count], names[..count], cellIxs[..count], hole, j)
    }

    /** Closes the cell of a removed item: every item whose chain runs through the hole moves into it. */
    method ShiftBack(cell: int, ghost empty: nat)
      requires Closing(cell, cell)
      requires cells[cell] != INVALID && empty < cellCapacity && cells[empty] == INVALID
      modifies cells, cellIxs
      ensures Shape() && Consistent(cells[..], hashes[..count], names[..count], cellIxs[..count])
    {
      var i, j, x := cell, cell, 0;
      ghost var j0 := j;
      while x < cellCapacity - 1
        invariant 0 <= x < cellCapacity && Closing(i, j)
        invariant j == if cell + x < cellCapacity then cell + x else cell + x - cellCapacity
        invariant i == cell || After(cell, i, j)
        invariant cells[empty] == INVALID && empty != i && empty != cell && !After(cell, empty, j)
      {
        j0 := j;
        j := Wrap(j + 1);
        if cells[j] == INVALID {
          break;
        }
        i := ScanCell(i, j0, j);
        x := x + 1;
      }
      CloseHole(i, j0, j);
    }

    /** Scans the occupied cell `j` and moves its item into the hole if its chain needs it there. */
    method ScanCell(hole: int, ghost j0: int, j: int) returns (hole': int)
      requires Closing(hole, j0) && j == (if j0 + 1 == cellCapacity then 0 else j0 + 1)
      requires j != hole && cells[j] != INVALID
      modifies cells, cellIxs
      ensures Closing(hole', j) && hole' in {hole, j}
      ensures forall c :: 0 <= c < cellCapacity && c != hole ==> cells[c] == old(cells[c])
    {
      ghost var cs, ixs, homes := cells[..], cellIxs[..count], HomesOf(names[..count], cellCapacity);
      var k := BitAnd(hashes[cells[j]], cellCapacity - 1);
      if (j > hole && (k <= hole || k > j)) || (j < hole && (k <= hole && k > j)) {
        MoveKeepsChains(cs, ixs, homes, hole, j0, j);
        cellIxs[cells[j]] := hole;
        cells[hole] := cells[j];
        assert cells[..] == cs[hole := cs[j]] && cellIxs[..count] == ixs[cs[j] := hole];
        hole' := j;
      } else {
        SkipKeepsChains(cs, homes, hole, j0, j);
        hole' := hole;
      }
    }

    /** The scan met an empty cell: no chain runs through the hole. */
    method CloseHole(hole: int, ghost j0: int, ghost j: int)
      requires Closing(hole, j0) && j == (if j0 + 1 == cellCapacity then 0 else j0 + 1)
      requires j != hole && cells[j] == INVALID
      modifies cells
      ensures Shape() && Consistent(cells[..], hashes[..count], names[..count], cellIxs[..count])
    {
      StopKeepsChains(cells[..], cellIxs[..count], HomesOf(names[..count], cellCapacity), hole, j0, j);
      ghost var cs := cells[..];
      cells[hole] := INVALID;
      assert cells[..] == cs[hole := INVALID];
    }

    /** Empties the object; its capacity stays. */
    method Clear()
      requires Valid()
      modifies this`count, cells
      ensures Valid() && Contents() == [] && itemCapacity == old(itemCapacity)
    {
      count := 0;
      FreeCells();
    }

    /** The pairs in item order, as the accessors by index return them one by one. */
    method Items() returns (s: seq<Entry<V>>)
      requires Valid()
      ensures s == Contents()
    {
      s := [];
      for i := 0 to count
        invariant s == Contents()[..i]
      {
        s := s + [Entry(names[i], values[i])];
      }
    }
  }

  // ---- Whole runs ----

  datatype Op<V> = Set(name: bytes, value: V) | Add(name: bytes, value: V) | Remove(name: bytes) | Clear

  /** What one operation does to the pairs. */
  function Step<V>(s: seq<Entry<V>>, op: Op<V>): seq<Entry<V>> {
    match op
    case Set(name, value) => Put(s, name, value)
    case Add(name, value) => if HasName(s, name) then s else s + [Entry(name, value)]
    case Remove(name) => Delete(s, name)
    case Clear => []
  }

  function Run<V>(ops: seq<Op<V>>): seq<Entry<V>> {
    if ops == [] then [] else Step(Run(ops[..|ops| - 1]), ops[|ops| - 1])
  }

  /** The same operations on a plain finite map. */
  ghost function MapRun<V>(ops: seq<Op<V>>): map<bytes, V> {
    if ops == [] then map[]
    else
      var m := MapRun(ops[..|ops| - 1]);
      match ops[|ops| - 1]
      case Set(name, value) => m[name := value]
      case Add(name, value) => if name in m then m else m[name := value]
      case Remove(name) => m - {name}
      case Clear => map[]
  }

  /** After any run, the pairs are distinct and stand for exactly what a plain finite map would hold. */
  lemma {:induction false} RunRefinesMap<V>(ops: seq<Op<V>>)
    ensures Distinct(Run(ops)) && AsMap(Run(ops)) == MapRun(ops)
  {
    if ops != [] {
      var front, op := ops[..|ops| - 1], ops[|ops| - 1];
      RunRefinesMap(front);
      var s := Run(front);
      match op
      case Set(name, value) => PutIsMapUpdate(s, name, value);
      case Add(name, value) =>
        LookupIsMapLookup(s, name);
        PutIsMapUpdate(s, name, value);
      case Remove(name) => DeleteIsMapRemoval(s, name);
      case Clear =>
    }
  }

  /** Every operation of the table does to its pairs what `Step` says: so any run of them ends in `Run`. */
  method Apply<V(0)>(table: Table<V>, op: Op<V>)
    requires table.Valid()
    modifies table.Repr()
    ensures table.Valid() && (forall o :: o in table.Repr() ==> o in old(table.Repr()) || fresh(o))
    ensures table.Contents() == Step(old(table.Contents()), op)
  {
    match op
    case Set(name, value) => table.Set(name, value);
    case Add(name, value) => var _ := table.Add(name, value);
    case Remove(name) => var _ := table.Remove(name);
    case Clear => table.Clear();
  }

  /** A whole run on the arrays of one table: it ends with the pairs of `Run`. */
  method Replay<V(0)>(ops: seq<Op<V>>) returns (table: Table<V>)
    ensures table.Valid() && fresh(table.Repr())
    ensures table.Contents() == Run(ops) && AsMap(table.Contents()) == MapRun(ops)
  {
    table := new Table<V>(0);
    for i := 0 to |ops|
      invariant table.Valid() && fresh(table.Repr())
      invariant table.Contents() == Run(ops[..i])
    {
      assert ops[..i + 1][..i] == ops[..i];
      Apply(table, ops[i]);
    }
    assert ops[..|ops|] == ops;
    RunRefinesMap(ops);
  }

  /** After any run, a lookup answers as the plain finite map would. */
  lemma LookupAfterRun<V>(ops: seq<Op<V>>, name: bytes)
    ensures Lookup(Run(ops), name) == if name in MapRun(ops) then Some(MapRun(ops)[name]) else None
  {
    RunRefinesMap(ops);
    LookupIsMapLookup(Run(ops), name);
  }
}
