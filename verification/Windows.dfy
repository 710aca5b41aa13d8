/** Median of a sample window in 32-bit arithmetic. */
module Windows {

  /** Reduction to `int32_t`, as two's complement addition and subtraction do it. */
  function Int32(x: int): int {
    if -0x8000_0000 <= x < 0x8000_0000 then x else (x + 0x8000_0000) % 0x1_0000_0000 - 0x8000_0000
  }

  type int32 = x: int | -0x8000_0000 <= x < 0x8000_0000

  const WINDOW: nat := 10

  // ---- Insertion sort ----

  function Last(s: seq<int>): int
    requires s != []
  {
    s[|s| - 1]
  }

  function ButLast(s: seq<int>): seq<int>
    requires s != []
  {
    s[..|s| - 1]
  }

  /** `key` behind the last element that is not larger. */
  function Inserted(s: seq<int>, key: int): seq<int> {
    if s == [] || Last(s) <= key then s + [key] else Inserted(ButLast(s), key) + [Last(s)]
  }

  function Sorted(s: seq<int>): seq<int> {
    if s == [] then [] else Inserted(Sorted(ButLast(s)), Last(s))
  }

  predicate Ascending(s: seq<int>) {
    forall i, j :: 0 <= i <= j < |s| ==> s[i] <= s[j]
  }

  lemma {:induction false} InsertedAdds(s: seq<int>, key: int)
    ensures multiset(Inserted(s, key)) == multiset(s) + multiset{key}
  {
    if s != [] && Last(s) > key {
      InsertedAdds(ButLast(s), key);
      assert s == ButLast(s) + [Last(s)];
    }
  }

  lemma {:induction false} InsertedKeepsOrder(s: seq<int>, key: int)
    requires Ascending(s)
    ensures Ascending(Inserted(s, key))
  {
    if s != [] && Last(s) > key {
      var r := Inserted(ButLast(s), key);
      InsertedKeepsOrder(ButLast(s), key);
      InsertedAdds(ButLast(s), key);
      forall i | 0 <= i < |r| ensures r[i] <= Last(s) {
        assert r[i] in multiset(r);
        assert r[i] == key || r[i] in ButLast(s);
      }
    }
  }

  lemma {:induction false} SortedIsPermutation(s: seq<int>)
    ensures Ascending(Sorted(s)) && multiset(Sorted(s)) == multiset(s) && |Sorted(s)| == |s|
  {
    if s != [] {
      SortedIsPermutation(ButLast(s));
      InsertedKeepsOrder(Sorted(ButLast(s)), Last(s));
      InsertedAdds(Sorted(ButLast(s)), Last(s));
      assert s == ButLast(s) + [Last(s)];
      assert |multiset(Sorted(s))| == |multiset(s)|;
    }
  }

  lemma InsertedSplits(s: seq<int>, key: int, j: nat)
    requires j <= |s| && forall i :: j <= i < |s| ==> s[i] > key
    ensures Inserted(s, key) == Inserted(s[..j], key) + s[j..]
    decreases |s|
  {
    if j < |s| {
      InsertedSplits(ButLast(s), key, j);
      assert ButLast(s)[..j] == s[..j] && ButLast(s)[j..] + [Last(s)] == s[j..];
    } else {
      assert s[..j] == s;
    }
  }

  /** The truncating division of C. */
  function Half(x: int): int {
    if x >= 0 then x / 2 else -(-x / 2)
  }

  /** A sum as 32 bits hold it. */
  function SumIn32(a: int32, b: int32): int {
    if a + b >= 0x8000_0000 then a + b - 0x1_0000_0000 else if a + b < -0x8000_0000 then a + b + 0x1_0000_0000 else a + b
  }

  /** `half` is half of `x`, rounded towards zero. */
  predicate IsHalf(half: int, x: int) {
    if x >= 0 then 0 <= x - 2 * half <= 1 else 0 <= 2 * half - x <= 1
  }

  lemma MiddleIsHalved(a: int32, b: int32)
    ensures IsHalf(Half(Int32(a + b)), SumIn32(a, b))
  {
    assert Int32(a + b) == SumIn32(a, b);
  }

  /** An odd number of samples: the one in the middle. An even number: the middle pair's sum, halved towards zero. */
  lemma MedianIs(s: seq<int32>)
    requires s != []
    ensures |Sorted(s)| == |s| && forall i :: 0 <= i < |s| ==> -0x8000_0000 <= Sorted(s)[i] < 0x8000_0000
    ensures if |s| % 2 == 1 then Median(s) == Sorted(s)[(|s| - 1) / 2]
            else IsHalf(Median(s), SumIn32(Sorted(s)[|s| / 2 - 1], Sorted(s)[|s| / 2]))
  {
    SortedStaysIn32(s);
    if |s| % 2 == 0 {
      var a, b := Sorted(s)[|s| / 2 - 1], Sorted(s)[|s| / 2];
      MiddleIsHalved(a, b);
    }
  }

  function Median(s: seq<int>): int {
    var sorted := Sorted(s);
    var n := |s|;
    SortedIsPermutation(s);
    if n == 0 then 0 else if n % 2 == 0 then Half(Int32(sorted[n / 2 - 1] + sorted[n / 2])) else sorted[n / 2]
  }

  /** Sorts a copy in place and reads its middle. */
  method MedianI32(values: array<int>, n: nat) returns (median: int)
    requires n <= values.Length
    ensures median == Median(values[..if n > WINDOW then WINDOW else n])
  {
    if n == 0 {
      return 0;
    }
    var count := if n > WINDOW then WINDOW else n;
    var sorted := new int[WINDOW];
    for i := 0 to count
      invariant sorted[..i] == values[..i]
    {
      sorted[i] := values[i];
    }
    SortInPlace(sorted, count);
    SortedIsPermutation(values[..count]);
    median := if count % 2 == 0 then Half(Int32(sorted[count / 2 - 1] + sorted[count / 2])) else sorted[count / 2];
  }

  method SortInPlace(a: array<int>, count: nat)
    requires 1 <= count <= a.Length
    modifies a
    ensures a[..count] == Sorted(old(a[..count]))
  {
    ghost var window := a[..count];
    SortedStarts(window);
    for i := 1 to count
      invariant a[..i] == Sorted(window[..i])
      invariant a[i..] == old(a[i..])
    {
      SortedGrows(window, i);
      assert a[i] == a[i..][0];
      InsertInPlace(a, i);
      assert a[i + 1..] == old(a[i..])[1..];
    }
    assert window[..count] == window;
  }

  lemma SortedStarts(window: seq<int>)
    requires window != []
    ensures Sorted(window[..1]) == window[..1]
  {
    assert ButLast(window[..1]) == [] && Sorted([]) == [];
  }

  lemma SortedGrows(window: seq<int>, i: nat)
    requires i < |window|
    ensures Sorted(window[..i + 1]) == Inserted(Sorted(window[..i]), window[i])
  {
    assert ButLast(window[..i + 1]) == window[..i] && Last(window[..i + 1]) == window[i];
  }

  /** One turn of the sort: shifts the larger ones up and drops the key into the gap. */
  method InsertInPlace(a: array<int>, i: nat)
    requires 1 <= i < a.Length
    modifies a
    ensures a[..i + 1] == Inserted(old(a[..i]), old(a[i]))
    ensures a[i + 1..] == old(a[i + 1..])
  {
    var key := a[i];
    var j := i - 1;
    while j >= 0 && a[j] > key
      invariant -1 <= j < i
      invariant forall k :: 0 <= k <= j ==> a[k] == old(a[k])
      invariant forall k :: j + 1 < k <= i ==> a[k] == old(a[k - 1]) && a[k] > key
      invariant forall k :: i < k < a.Length ==> a[k] == old(a[k])
    {
      a[j + 1] := a[j];
      j := j - 1;
    }
    a[j + 1] := key;
    InsertedIs(old(a[..i]), key, j + 1, a[..i + 1]);
  }

  lemma InsertedIs(s: seq<int>, key: int, j: nat, r: seq<int>)
    requires j <= |s| && |r| == |s| + 1 && r[j] == key && (j > 0 ==> s[j - 1] <= key)
    requires forall k :: 0 <= k < j ==> r[k] == s[k]
    requires forall k :: j < k < |r| ==> r[k] == s[k - 1] && r[k] > key
    ensures r == Inserted(s, key)
  {
    forall k | j <= k < |s| ensures s[k] > key {
      assert r[k + 1] == s[k];
    }
    InsertedSplits(s, key, j);
    assert r == s[..j] + [key] + s[j..];
  }

  // ---- What the median is good for ----

  function CountWithin(s: seq<int>, lo: int, hi: int): nat {
    if s == [] then 0 else CountWithin(ButLast(s), lo, hi) + if lo <= Last(s) <= hi then 1 else 0
  }

  lemma {:induction false} CountInserted(s: seq<int>, key: int, lo: int, hi: int)
    ensures CountWithin(Inserted(s, key), lo, hi) == CountWithin(s + [key], lo, hi)
  {
    assert ButLast(s + [key]) == s;
    if s != [] && Last(s) > key {
      CountInserted(ButLast(s), key, lo, hi);
      assert ButLast(ButLast(s) + [key]) == ButLast(s);
      assert ButLast(Inserted(ButLast(s), key) + [Last(s)]) == Inserted(ButLast(s), key);
    }
  }

  lemma {:induction false} CountSorted(s: seq<int>, lo: int, hi: int)
    ensures CountWithin(Sorted(s), lo, hi) == CountWithin(s, lo, hi)
  {
    if s != [] {
      CountSorted(ButLast(s), lo, hi);
      CountInserted(Sorted(ButLast(s)), Last(s), lo, hi);
      assert ButLast(Sorted(ButLast(s)) + [Last(s)]) == Sorted(ButLast(s));
    }
  }

  /** A count is at most the number of elements outside any stretch known to miss the range. */
  lemma {:induction false} CountOutside(s: seq<int>, from: nat, to: nat, lo: int, hi: int)
    requires from <= to <= |s| && forall i :: from <= i < to ==> !(lo <= s[i] <= hi)
    ensures CountWithin(s, lo, hi) <= |s| - (to - from)
    decreases |s|
  {
    if s != [] {
      CountOutside(ButLast(s), if from < |s| then from else |s| - 1, if to < |s| then to else |s| - 1, lo, hi);
    }
  }

  lemma {:induction false} CountInside(s: seq<int>, from: nat, to: nat, lo: int, hi: int)
    requires from <= to <= |s| && forall i :: from <= i < to ==> lo <= s[i] <= hi
    ensures CountWithin(s, lo, hi) >= to - from
    decreases |s|
  {
    if s != [] {
      CountInside(ButLast(s), if from < |s| then from else |s| - 1, if to < |s| then to else |s| - 1, lo, hi);
    }
  }

  /** The two middle samples can be added in 32 bits. */
  predicate MiddleFits(window: seq<int>)
    requires |window| == WINDOW
  {
    SortedIsPermutation(window);
    -0x8000_0000 <= Sorted(window)[4] + Sorted(window)[5] < 0x8000_0000
  }

  predicate Robust(window: seq<int>, lo: int, hi: int) {
    CountWithin(window, lo, hi) >= 6 ==> lo <= Median(window) <= hi
  }

  lemma SixAreAMajority(window: seq<int>, lo: int, hi: int)
    requires |window| == WINDOW && MiddleFits(window)
    ensures Robust(window, lo, hi)
  {
    if CountWithin(window, lo, hi) >= 6 {
      var s := Sorted(window);
      SortedIsPermutation(window);
      CountSorted(window, lo, hi);
      if s[4] < lo {
        CountOutside(s, 0, 5, lo, hi);
      }
      if s[5] > hi {
        CountOutside(s, 5, 10, lo, hi);
      }
    }
  }

  /** Every range that holds six of the ten samples holds the median, exactly when the middle sum does not overflow. */
  lemma MedianIsRobustIffFits(window: seq<int>)
    requires |window| == 10 && forall i :: 0 <= i < 10 ==> -0x8000_0000 <= window[i] < 0x8000_0000
    ensures (forall lo, hi :: Robust(window, lo, hi)) <==> MiddleFits(window)
  {
    if MiddleFits(window) {
      forall lo, hi ensures Robust(window, lo, hi) {
        SixAreAMajority(window, lo, hi);
      }
    } else {
      var lo, hi := WrappedMedianEscapes(window);
    }
  }

  lemma SortedStaysIn32(window: seq<int>)
    requires forall i :: 0 <= i < |window| ==> -0x8000_0000 <= window[i] < 0x8000_0000
    ensures |Sorted(window)| == |window| && forall i :: 0 <= i < |window| ==> -0x8000_0000 <= Sorted(window)[i] < 0x8000_0000
  {
    var s := Sorted(window);
    SortedIsPermutation(window);
    forall i | 0 <= i < |s| ensures -0x8000_0000 <= s[i] < 0x8000_0000 {
      assert s[i] in multiset(s) && s[i] in multiset(window);
    }
  }

  /** When the middle sum wraps, its half has the wrong sign. */
  lemma WrappedMedianEscapes(window: seq<int>) returns (lo: int, hi: int)
    requires |window| == WINDOW && forall i :: 0 <= i < WINDOW ==> -0x8000_0000 <= window[i] < 0x8000_0000
    requires !MiddleFits(window)
    ensures !Robust(window, lo, hi)
  {
    var s := Sorted(window);
    SortedIsPermutation(window);
    var a, b := s[4], s[5];
    assert Median(window) == Half(Int32(a + b));
    if a >= 0 {
      lo, hi := a, s[9];
      CountInside(s, 4, 10, lo, hi);
    } else {
      lo, hi := s[0], b;
      CountInside(s, 0, 6, lo, hi);
    }
    CountSorted(window, lo, hi);
    assert !(lo <= Half(Int32(a + b)) <= hi) by {
      SortedStaysIn32(window);
      HalfWraps(a, b);
    }
  }

  lemma HalfWraps(a: int, b: int)
    requires -0x8000_0000 <= a <= b < 0x8000_0000 && !(-0x8000_0000 <= a + b < 0x8000_0000)
    ensures a >= 0 ==> Half(Int32(a + b)) < a
    ensures a < 0 ==> Half(Int32(a + b)) > b
  {
    assert Int32(a + b) == if a >= 0 then a + b - 0x1_0000_0000 else a + b + 0x1_0000_0000;
  }

  /** 16-bit samples, which is what the devices deliver, always fit. */
  lemma SmallSamplesFit(window: seq<int>)
    requires |window| == WINDOW && forall i :: 0 <= i < WINDOW ==> -0x8000 <= window[i] <= 0xFFFF
    ensures MiddleFits(window)
  {
    var s := Sorted(window);
    SortedIsPermutation(window);
    assert s[4] in multiset(s) && s[4] in multiset(window) && s[5] in multiset(s) && s[5] in multiset(window);
  }
}
