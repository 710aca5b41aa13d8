/** Change-gated reporting of device metrics, one sample window per metric in a table of fixed size. */
module Telemetry {
  import opened Windows

  const CAPACITY: nat := 48
  const INTERVAL: nat := 60000

  type Tick = x: nat | x < 0x1_0000_0000

  datatype Kind = Analog | State

  datatype Key = Key(service: nat, addr: nat, metric: nat)

  datatype Sample = Sample(key: Key, kind: Kind, threshold: int32, value: int32, now: Tick)

  datatype Cache = Cache(used: bool, key: Key, kind: Kind, threshold: int, samples: seq<int>, count: nat, index: nat,
                         lastValid: bool, lastValue: int, lastTick: Tick)

  const EMPTY: Cache := Cache(false, Key(0, 0, 0), Analog, 0, [0, 0, 0, 0, 0, 0, 0, 0, 0, 0], 0, 0, false, 0, 0)

  predicate Usable(c: Cache) {
    |c.samples| == WINDOW && c.index < WINDOW && c.count < WINDOW
  }

  function NewCache(s: Sample): Cache {
    EMPTY.(used := true, key := s.key, kind := s.kind, threshold := s.threshold)
  }

  /** Far enough from the value reported last; the difference is taken in 32 bits. */
  predicate Changed(kind: Kind, threshold: int, last: int, value: int) {
    match kind
    case State => value != last
    case Analog => Distance(last, value) >= threshold
  }

  function Distance(last: int, value: int): int {
    var diff := Int32(value - last);
    if diff < 0 then Int32(-diff) else diff
  }

  /** Without overflow the distance is the distance. */
  lemma DistanceIsDistance(last: int, value: int)
    requires -0x8000_0000 < value - last < 0x8000_0000
    ensures Distance(last, value) == Gap(last, value)
  {
  }

  /** How far two values are apart. */
  function Gap(last: int, value: int): int {
    if value < last then last - value else value - last
  }

  /** A state has changed when it is another one, an analog value when it is the threshold away, up or down; gaps of 2^31 and
      more wrap around. */
  lemma ChangedIff(threshold: int32, last: int32, value: int32)
    ensures Changed(State, threshold, last, value) <==> value != last
    ensures var gap := Gap(last, value);
            Changed(Analog, threshold, last, value)
            <==> threshold <= (if gap < 0x8000_0000 then gap else if gap == 0x8000_0000 then -0x8000_0000 else 0x1_0000_0000 - gap)
  {
  }

  /** What counts as changed really differs, by the threshold at least: an overflow only hides larger differences. */
  lemma ChangedDiffers(kind: Kind, threshold: int32, last: int32, value: int32)
    ensures Changed(kind, threshold, last, value) ==>
            if kind == State then value != last else Gap(last, value) >= threshold
  {
    ChangedIff(threshold, last, value);
  }

  /** Ticks wrap around; a last tick of zero stands for no report yet. */
  predicate Spaced(last: Tick, now: Tick) {
    last == 0 || (now - last) % 0x1_0000_0000 >= INTERVAL
  }

  // ---- One metric, step by step ----

  function WindowValue(c: Cache): int
    requires |c.samples| == WINDOW && c.index < WINDOW && c.count <= WINDOW
  {
    if c.count == 0 then 0
    else if c.kind == State then c.samples[if c.index == 0 then WINDOW - 1 else c.index - 1]
    else Median(c.samples[..c.count])
  }

  function Stored(c: Cache, value: int): (r: Cache)
    requires Usable(c)
    ensures |r.samples| == WINDOW && r.index < WINDOW
  {
    c.(samples := c.samples[c.index := value], index := (c.index + 1) % WINDOW, count := c.count + 1)
  }

  /** The cache after one sample, and whether the metric reports. */
  function Tracked(c: Cache, value: int, now: Tick): (r: (Cache, bool))
    requires Usable(c)
    ensures Usable(r.0) && r.0.used == c.used && r.0.key == c.key
  {
    var full := Stored(c, value);
    if full.count < WINDOW then (full, false)
    else
      var w := WindowValue(full);
      var next := full.(count := 0, index := 0);
      if (next.lastValid && !Changed(next.kind, next.threshold, next.lastValue, w)) || !Spaced(next.lastTick, now) then (next, false)
      else (next.(lastValue := w, lastValid := true, lastTick := now), true)
  }

  // ---- One metric, by its whole history ----

  datatype Report = Report(value: int, now: Tick)

  function Values(h: seq<Sample>): seq<int> {
    seq(|h|, i requires 0 <= i < |h| => h[i].value)
  }

  /** What the window that ends with the history stands for: its median, or its last state. */
  function WindowOf(h: seq<Sample>): int
    requires |h| >= WINDOW
  {
    if h[0].kind == State then h[|h| - 1].value else Median(Values(h[|h| - WINDOW..]))
  }

  predicate Due(h: seq<Sample>, before: seq<Report>)
    requires |h| >= WINDOW
  {
    before == [] ||
    var last := before[|before| - 1];
    Changed(h[0].kind, h[0].threshold, last.value, WindowOf(h)) && Spaced(last.now, h[|h| - 1].now)
  }

  predicate Fires(h: seq<Sample>) {
    |h| >= WINDOW && |h| % WINDOW == 0 && Due(h, Reports(h[..|h| - 1]))
  }

  /** Every report of a metric with this history, in order. */
  function Reports(h: seq<Sample>): seq<Report>
    decreases |h|, 1
  {
    if h == [] then [] else
      var before := Reports(h[..|h| - 1]);
      if |h| % WINDOW == 0 && Due(h, before) then before + [Report(WindowOf(h), h[|h| - 1].now)] else before
  }

  function CacheAfter(h: seq<Sample>): (c: Cache)
    requires h != []
    ensures Usable(c) && c.used && c.key == h[0].key
  {
    var last := h[|h| - 1];
    Tracked(if |h| == 1 then NewCache(last) else CacheAfter(h[..|h| - 1]), last.value, last.now).0
  }

  /** The ring holds the samples of the open window. */
  predicate HoldsWindow(c: Cache, h: seq<Sample>) {
    && Usable(c)
    && c.count == c.index == |h| % WINDOW
    && c.samples[..c.index] == Values(h[|h| - c.index..])
  }

  /** The cache remembers just what the history says: the open window and the last report. */
  ghost predicate Remembers(c: Cache, h: seq<Sample>, first: Sample) {
    && HoldsWindow(c, h)
    && c.kind == first.kind && c.threshold == first.threshold
    && (c.lastValid <==> Reports(h) != [])
    && if c.lastValid then Report(c.lastValue, c.lastTick) == Reports(h)[|Reports(h)| - 1] else c.lastTick == 0
  }

  lemma NewRemembersNothing(s: Sample)
    ensures Remembers(NewCache(s), [], s)
  {
  }

  /** A window that does not fill goes on. */
  lemma WindowGoesOn(c: Cache, h: seq<Sample>, s: Sample)
    requires HoldsWindow(c, h) && c.index + 1 < WINDOW
    ensures HoldsWindow(Stored(c, s.value), h + [s])
  {
    RingGrows(c.samples, c.index, h, s);
    assert |h + [s]| % WINDOW == c.index + 1 by { NextInWindow(|h|, c.index); }
    assert |h + [s]| - (c.index + 1) == |h| - c.index;
  }

  /** A window that fills has the value the history gives it. */
  lemma WindowFills(c: Cache, h: seq<Sample>, s: Sample)
    requires HoldsWindow(c, h) && c.index + 1 == WINDOW && c.kind == (h + [s])[0].kind
    ensures |h + [s]| % WINDOW == 0 && |h + [s]| >= WINDOW && WindowValue(Stored(c, s.value)) == WindowOf(h + [s])
  {
    NextInWindow(|h|, c.index);
    var samples := c.samples[c.index := s.value];
    assert samples == Values((h + [s])[|h| - c.index..]) by {
      RingGrows(c.samples, c.index, h, s);
      assert samples[..WINDOW] == samples;
    }
    FullWindowValue(Stored(c, s.value), h + [s]);
  }

  lemma NextInWindow(n: nat, index: nat)
    requires n % WINDOW == index
    ensures index <= n
    ensures if index + 1 == WINDOW then (n + 1) % WINDOW == 0 && (index + 1) % WINDOW == 0 && n + 1 >= WINDOW
            else (n + 1) % WINDOW == index + 1 == (index + 1) % WINDOW
  {
  }

  lemma FullWindowValue(full: Cache, g: seq<Sample>)
    requires |g| >= WINDOW && |full.samples| == full.count == WINDOW && full.index == 0 && full.kind == g[0].kind
    requires full.samples == Values(g[|g| - WINDOW..])
    ensures WindowValue(full) == WindowOf(g)
  {
    assert full.samples[..WINDOW] == full.samples;
    assert full.samples[WINDOW - 1] == Values(g[|g| - WINDOW..])[WINDOW - 1] == g[|g| - 1].value;
  }

  lemma RingGrows(samples: seq<int>, index: nat, h: seq<Sample>, s: Sample)
    requires index < |samples| && index <= |h| && samples[..index] == Values(h[|h| - index..])
    ensures samples[index := s.value][..index + 1] == Values((h + [s])[|h| - index..])
  {
    assert (h + [s])[|h| - index..] == h[|h| - index..] + [s];
  }

  lemma StepRemembers(c: Cache, h: seq<Sample>, s: Sample, first: Sample)
    requires Remembers(c, h, first) && first == (h + [s])[0]
    ensures Remembers(Tracked(c, s.value, s.now).0, h + [s], first)
    ensures Tracked(c, s.value, s.now).1 <==> Fires(h + [s])
  {
    var g := h + [s];
    assert g[..|g| - 1] == h;
    if c.index + 1 < WINDOW {
      WindowGoesOn(c, h, s);
    } else {
      WindowFills(c, h, s);
      assert Values(g[|g|..]) == [];
      FilledRemembers(c, h, s, first);
    }
  }

  lemma FilledRemembers(c: Cache, h: seq<Sample>, s: Sample, first: Sample)
    requires Remembers(c, h, first) && c.index + 1 == WINDOW
    requires var g := h + [s];
             first == g[0] && g[..|g| - 1] == h && Values(g[|g|..]) == []
             && |g| % WINDOW == 0 && |g| >= WINDOW && WindowValue(Stored(c, s.value)) == WindowOf(g)
    ensures Remembers(Tracked(c, s.value, s.now).0, h + [s], first)
    ensures Tracked(c, s.value, s.now).1 <==> Fires(h + [s])
  {
  }

  lemma {:induction false} CacheRemembers(h: seq<Sample>)
    requires h != []
    ensures Remembers(CacheAfter(h), h, h[0])
  {
    var last, before := h[|h| - 1], h[..|h| - 1];
    assert h == before + [last];
    if |h| == 1 {
      NewRemembersNothing(last);
      StepRemembers(NewCache(last), [], last, last);
    } else {
      CacheRemembers(before);
      StepRemembers(CacheAfter(before), before, last, h[0]);
    }
  }

  /** Every report stands at the end of a tenth sample and gives that window's value. */
  lemma {:induction false} ReportsEndWindows(h: seq<Sample>, i: nat) returns (n: nat)
    requires i < |Reports(h)|
    ensures WINDOW <= n <= |h| && n % WINDOW == 0
    ensures Reports(h)[i] == Report(WindowOf(h[..n]), h[n - 1].now)
    ensures |Reports(h[..n])| == i + 1
  {
    var before := h[..|h| - 1];
    if i < |Reports(before)| {
      n := ReportsEndWindows(before, i);
      assert before[..n] == h[..n];
    } else {
      n := |h|;
      assert h[..n] == h;
    }
  }

  lemma WindowIsInt32(h: seq<Sample>)
    requires |h| >= WINDOW
    ensures -0x8000_0000 <= WindowOf(h) < 0x8000_0000
  {
    var window := Values(h[|h| - WINDOW..]);
    SortedIsPermutation(window);
  }

  lemma ReportIsInt32(h: seq<Sample>, i: nat)
    requires i < |Reports(h)|
    ensures -0x8000_0000 <= Reports(h)[i].value < 0x8000_0000
  {
    var n := ReportsEndWindows(h, i);
    WindowIsInt32(h[..n]);
  }

  lemma {:induction false} ConsecutiveChange(h: seq<Sample>, i: nat)
    requires i + 1 < |Reports(h)|
    ensures var a, b := Reports(h)[i], Reports(h)[i + 1];
            Changed(h[0].kind, h[0].threshold, a.value, b.value) && Spaced(a.now, b.now)
  {
    var before := h[..|h| - 1];
    if i + 1 < |Reports(before)| {
      ConsecutiveChange(before, i);
    }
  }

  /** Any two consecutive reports differ by the threshold at least, and lie far enough apart. */
  lemma ConsecutiveReports(h: seq<Sample>, i: nat)
    requires i + 1 < |Reports(h)|
    ensures var a, b := Reports(h)[i], Reports(h)[i + 1];
            && (if h[0].kind == State then a.value != b.value else Gap(a.value, b.value) >= h[0].threshold)
            && (a.now == 0 || (b.now - a.now) % 0x1_0000_0000 >= 60000)
  {
    ConsecutiveChange(h, i);
    ReportIsInt32(h, i);
    ReportIsInt32(h, i + 1);
    ChangedDiffers(h[0].kind, h[0].threshold, Reports(h)[i].value, Reports(h)[i + 1].value);
  }

  /** Between windows nothing is reported; a window is reported if nothing was before, or if its value has changed enough
      since the last report and that report's tick is zero or a minute back. */
  lemma ReportedIffDue(h: seq<Sample>)
    requires h != []
    ensures var before := Reports(h[..|h| - 1]);
            Reports(h) == if |h| % 10 == 0 && (before == [] || DueAfter(h, before[|before| - 1], h[|h| - 1].now))
                          then before + [Report(WindowOf(h), h[|h| - 1].now)] else before
    ensures |h| % 10 == 0 ==>
      WindowOf(h) == if h[0].kind == State then h[|h| - 1].value else Median(Values(h[|h| - 10..]))
  {
    var shorter := h[..|h| - 1];
    if |h| % 10 != 0 {
      NoReport(h, shorter);
    } else {
      WindowIsReported(h, Reports(shorter));
    }
  }

  lemma WindowIsReported(h: seq<Sample>, before: seq<Report>)
    requires h != [] && |h| % 10 == 0 && before == Reports(h[..|h| - 1])
    ensures Reports(h) == if before == [] || DueAfter(h, before[|before| - 1], h[|h| - 1].now)
                          then before + [Report(WindowOf(h), h[|h| - 1].now)] else before
  {
    if before != [] {
      ReportIsInt32(h[..|h| - 1], |before| - 1);
      assert DueAfter(h, before[|before| - 1], h[|h| - 1].now) <==> Due(h, before) by { DueIsDueAfter(h, before); }
    }
  }

  lemma DueIsDueAfter(h: seq<Sample>, before: seq<Report>)
    requires |h| >= 10 && before != [] && -0x8000_0000 <= before[|before| - 1].value < 0x8000_0000
    ensures Due(h, before) <==> DueAfter(h, before[|before| - 1], h[|h| - 1].now)
  {
    WindowIsInt32(h);
    var last, w := before[|before| - 1].value, WindowOf(h);
    ChangedIff(h[0].threshold, last, w);
  }

  predicate DueAfter(h: seq<Sample>, last: Report, now: Tick)
    requires |h| >= 10
  {
    var gap := Gap(last.value, WindowOf(h));
    && (if h[0].kind == State then WindowOf(h) != last.value
        else h[0].threshold <= (if gap < 0x8000_0000 then gap else if gap == 0x8000_0000 then -0x8000_0000 else 0x1_0000_0000 - gap))
    && (last.now == 0 || (now - last.now) % 0x1_0000_0000 >= 60000)
  }

  /** In every run, a tracked metric whose new window is a minute behind its last report, and whose value is the threshold
      away from the one reported, is reported. */
  lemma DueIsReported(run: seq<Sample>, s: Sample)
    requires s.key in RunAll(run + [s])
    requires var h := HistoryOf(run + [s], s.key);
             |h| >= 10 && |h| % 10 == 0 && IsDue(h, Reports(HistoryOf(run, s.key)), s.now)
    ensures After(RunAll(run), s).1
    ensures var h := HistoryOf(run + [s], s.key);
            Reports(h) == Reports(HistoryOf(run, s.key)) + [Report(WindowOf(h), s.now)]
  {
    var h, g := HistoryOf(run + [s], s.key), HistoryOf(run, s.key);
    assert h == g + [s] by { assert (run + [s])[..|run|] == run; }
    ReportsFollowHistory(run, s);
    DueWindowIsReported(g, s, h);
  }

  lemma DueWindowIsReported(g: seq<Sample>, s: Sample, h: seq<Sample>)
    requires h == g + [s] && |h| >= 10 && |h| % 10 == 0 && IsDue(h, Reports(g), s.now)
    ensures Fires(h) && Reports(h) == Reports(g) + [Report(WindowOf(h), s.now)]
  {
    assert h[..|h| - 1] == g;
    WindowIsReported(h, Reports(g));
    if Reports(g) != [] {
      DueIsFar(h, Reports(g), s.now);
    }
    ReportedFires(h);
  }

  lemma DueIsFar(h: seq<Sample>, before: seq<Report>, now: Tick)
    requires |h| >= 10 && before != [] && IsDue(h, before, now)
    ensures DueAfter(h, before[|before| - 1], now)
  {
  }

  predicate IsDue(h: seq<Sample>, before: seq<Report>, now: Tick)
    requires |h| >= 10
  {
    before == [] ||
    var last := before[|before| - 1];
    && (last.now == 0 || (now - last.now) % 0x1_0000_0000 >= 60000)
    && if h[0].kind == State then WindowOf(h) != last.value
       else Gap(last.value, WindowOf(h)) < 0x8000_0000 && h[0].threshold <= Gap(last.value, WindowOf(h))
  }

  lemma ReportedFires(h: seq<Sample>)
    requires |h| >= 10 && |Reports(h)| > |Reports(h[..|h| - 1])|
    ensures Fires(h)
  {
  }

  // ---- The tick that stands for none ----

  predicate ReportsAt(h: seq<Sample>, i: nat, first: Tick, second: Tick) {
    i + 1 < |Reports(h)| && Reports(h)[i].now == first && Reports(h)[i + 1].now == second
  }

  /** Ten equal samples at one tick. */
  function Steady(value: int32, now: Tick): seq<Sample> {
    seq(WINDOW, _ => Sample(Key(0, 1, 0), State, 1, value, now))
  }

  /** Inside a window nothing is reported. */
  lemma {:induction false} NothingInside(h: seq<Sample>, n: nat)
    requires n % WINDOW == 0 && n <= |h| < n + WINDOW
    ensures Reports(h) == Reports(h[..n])
  {
    if n < |h| {
      var shorter := h[..|h| - 1];
      assert shorter[..n] == h[..n];
      NothingInside(shorter, n);
      assert |h| % WINDOW != 0 by { NoWindowBetween(|h|, n); }
      NoReport(h, shorter);
    } else {
      assert h[..n] == h;
    }
  }

  lemma NoReport(h: seq<Sample>, shorter: seq<Sample>)
    requires h != [] && |h| % WINDOW != 0 && shorter == h[..|h| - 1]
    ensures Reports(h) == Reports(shorter)
  {
  }

  lemma NoWindowBetween(m: nat, n: nat)
    requires n % WINDOW == 0 && n < m < n + WINDOW
    ensures m % WINDOW != 0
  {
  }

  lemma SteadyEnds(h: seq<Sample>, value: int32, now: Tick, g: seq<Sample>)
    requires |h| % WINDOW == 0 && (h != [] ==> h[0].kind == State) && g == h + Steady(value, now)
    ensures |g| >= WINDOW && |g| % WINDOW == 0 && g[0].kind == State && WindowOf(g) == value && g[|g| - 1].now == now
  {
    assert g[|g| - 1] == Steady(value, now)[WINDOW - 1];
  }

  lemma OneMoreReport(g: seq<Sample>)
    requires |g| >= WINDOW && |g| % WINDOW == 0 && Due(g, Reports(g[..|g| - 1]))
    ensures Reports(g) == Reports(g[..|g| - 1]) + [Report(WindowOf(g), g[|g| - 1].now)]
  {
  }

  /** A whole window of another state behind a history that is due. */
  lemma SteadyReports(h: seq<Sample>, value: int32, now: Tick)
    requires |h| % WINDOW == 0 && (h != [] ==> h[0].kind == State)
    requires Reports(h) == [] || (Reports(h)[|Reports(h)| - 1].value != value && Spaced(Reports(h)[|Reports(h)| - 1].now, now))
    ensures Reports(h + Steady(value, now)) == Reports(h) + [Report(value, now)]
  {
    var g := h + Steady(value, now);
    var before := g[..|g| - 1];
    assert Reports(before) == Reports(h) by {
      NothingInside(before, |h|);
      assert before[..|h|] == h;
    }
    SteadyEnds(h, value, now, g);
    OneMoreReport(g);
  }

  /** Consecutive reports can be closer than the interval exactly when the earlier one is at tick 0. */
  lemma CloseReportsIff(first: Tick, second: Tick)
    requires (second - first) % 0x1_0000_0000 < 60000
    ensures (exists h, i :: ReportsAt(h, i, first, second)) <==> first == 0
  {
    if h, i :| ReportsAt(h, i, first, second) {
      ConsecutiveReports(h, i);
    }
    if first == 0 {
      var h := Steady(0, 0);
      SteadyReports([], 0, 0);
      assert [] + h == h;
      SteadyReports(h, 1, second);
      assert ReportsAt(h + Steady(1, second), 0, first, second);
    }
  }

  /** A reported analog value lies in every range that holds six of its window's ten samples, if the middle sum fits. */
  lemma ReportIsRobust(h: seq<Sample>, i: nat, lo: int, hi: int) returns (n: nat)
    requires i < |Reports(h)| && h[0].kind == Analog
    ensures WINDOW <= n <= |h| && n % WINDOW == 0 && Reports(h)[i].now == h[n - 1].now
    ensures var window := Values(h[n - WINDOW..n]);
            MiddleFits(window) && CountWithin(window, lo, hi) >= 6 ==> lo <= Reports(h)[i].value <= hi
  {
    n := ReportsEndWindows(h, i);
    var window := Values(h[n - WINDOW..n]);
    assert h[..n][n - WINDOW..] == h[n - WINDOW..n];
    if MiddleFits(window) {
      SixAreAMajority(window, lo, hi);
    }
  }

  // ---- All metrics together ----

  type Metrics = m: map<Key, Cache> | forall k :: k in m ==> Usable(m[k]) && m[k].used && m[k].key == k

  /** A new key is admitted while there is room. */
  function Admitted(m: Metrics, s: Sample): Metrics {
    if s.key !in m && |m| < CAPACITY then m[s.key := NewCache(s)] else m
  }

  function After(m: Metrics, s: Sample): (Metrics, bool) {
    var a := Admitted(m, s);
    if s.key.addr == 0 || s.key !in a then (m, false)
    else
      var t := Tracked(a[s.key], s.value, s.now);
      (a[s.key := t.0], t.1)
  }

  function RunAll(run: seq<Sample>): Metrics {
    if run == [] then map[] else After(RunAll(run[..|run| - 1]), run[|run| - 1]).0
  }

  function HistoryOf(run: seq<Sample>, k: Key): seq<Sample> {
    if run == [] then [] else
      var before, s := HistoryOf(run[..|run| - 1], k), run[|run| - 1];
      if s.key == k then before + [s] else before
  }

  lemma {:induction false} HistoryIsOwn(run: seq<Sample>, k: Key)
    ensures forall i :: 0 <= i < |HistoryOf(run, k)| ==> HistoryOf(run, k)[i].key == k
  {
    if run != [] {
      HistoryIsOwn(run[..|run| - 1], k);
    }
  }

  lemma {:induction false} AtMostCapacity(run: seq<Sample>)
    ensures |RunAll(run)| <= 48
  {
    if run != [] {
      AtMostCapacity(run[..|run| - 1]);
      var m, s := RunAll(run[..|run| - 1]), run[|run| - 1];
      if s.key !in m && |m| < CAPACITY {
        assert Admitted(m, s).Keys == m.Keys + {s.key};
      }
      if s.key.addr != 0 && s.key in Admitted(m, s) {
        assert After(m, s).0.Keys == Admitted(m, s).Keys;
      }
    }
  }

  lemma OthersStay(m: Metrics, s: Sample, k: Key)
    requires k != s.key
    ensures k in After(m, s).0 <==> k in m
    ensures k in m ==> After(m, s).0[k] == m[k]
    ensures |m| == CAPACITY ==> |After(m, s).0| == CAPACITY
  {
    if |m| == CAPACITY && s.key in m && s.key.addr != 0 {
      assert After(m, s).0.Keys == m.Keys;
    }
  }

  /** Metrics do not disturb each other: each tracked one is where its own history alone would have brought it. */
  lemma {:induction false} MetricsAreIndependent(run: seq<Sample>, k: Key)
    ensures var h := HistoryOf(run, k);
            if k in RunAll(run) then k.addr != 0 && h != [] && RunAll(run)[k] == CacheAfter(h)
            else k.addr == 0 || h == [] || |RunAll(run)| == 48
  {
    if run != [] {
      var before, s := run[..|run| - 1], run[|run| - 1];
      MetricsAreIndependent(before, k);
      HistoryIsOwn(before, k);
      AtMostCapacity(before);
      var g := HistoryOf(before, k);
      if s.key == k {
        assert (g + [s])[..|g|] == g;
        if k in RunAll(before) {
          assert CacheAfter(g + [s]) == Tracked(CacheAfter(g), s.value, s.now).0;
        } else if k.addr != 0 && |RunAll(before)| < CAPACITY {
          assert g == [] && g + [s] == [s];
          assert CacheAfter([s]) == Tracked(NewCache(s), s.value, s.now).0;
        }
      } else {
        OthersStay(RunAll(before), s, k);
      }
    }
  }

  /** In every run a sample makes its metric report exactly when the metric is tracked and its own history calls for it. */
  lemma ReportsFollowHistory(run: seq<Sample>, s: Sample)
    ensures After(RunAll(run), s).1 <==> s.key in RunAll(run + [s]) && Fires(HistoryOf(run + [s], s.key))
  {
    var k, m, g := s.key, RunAll(run), HistoryOf(run, s.key);
    assert (run + [s])[..|run|] == run;
    assert HistoryOf(run + [s], k) == g + [s];
    assert RunAll(run + [s]) == After(m, s).0;
    MetricsAreIndependent(run, k);
    AtMostCapacity(run);
    if k in m {
      KnownMetricFires(m, g, s);
    } else if k.addr != 0 && |m| < CAPACITY {
      NewMetricFires(m, s);
    }
  }

  lemma KnownMetricFires(m: Metrics, g: seq<Sample>, s: Sample)
    requires s.key in m && s.key.addr != 0 && g != [] && m[s.key] == CacheAfter(g)
    ensures s.key in After(m, s).0 && (After(m, s).1 <==> Fires(g + [s]))
  {
    assert Tracked(CacheAfter(g), s.value, s.now).1 <==> Fires(g + [s]) by {
      CacheRemembers(g);
      StepRemembers(CacheAfter(g), g, s, g[0]);
    }
  }

  lemma NewMetricFires(m: Metrics, s: Sample)
    requires s.key !in m && s.key.addr != 0 && |m| < CAPACITY
    ensures s.key in After(m, s).0 && (After(m, s).1 <==> Fires([] + [s]))
  {
    assert Tracked(NewCache(s), s.value, s.now).1 <==> Fires([] + [s]) by {
      NewRemembersNothing(s);
      StepRemembers(NewCache(s), [], s, s);
    }
  }

  // ---- The table ----

  predicate UniqueKeys(cells: seq<Cache>) {
    forall i, j :: 0 <= i < j < |cells| && cells[i].used && cells[j].used ==> cells[i].key != cells[j].key
  }

  predicate IsCell(cells: seq<Cache>, i: int, k: Key) {
    0 <= i < |cells| && cells[i].used && cells[i].key == k
  }

  function View(cells: seq<Cache>): map<Key, Cache> {
    if cells == [] then map[] else
      var last, rest := cells[|cells| - 1], View(cells[..|cells| - 1]);
      if last.used then rest[last.key := last] else rest
  }

  lemma {:induction false} ViewKeys(cells: seq<Cache>, k: Key)
    ensures k in View(cells) <==> exists i :: IsCell(cells, i, k)
  {
    if cells != [] {
      var n := |cells| - 1;
      ViewKeys(cells[..n], k);
      if i :| IsCell(cells[..n], i, k) {
        assert IsCell(cells, i, k);
      }
      if IsCell(cells, n, k) {
      } else if i :| IsCell(cells, i, k) {
        assert IsCell(cells[..n], i, k);
      }
    }
  }

  lemma {:induction false} ViewLookup(cells: seq<Cache>, i: nat)
    requires UniqueKeys(cells) && i < |cells| && cells[i].used
    ensures cells[i].key in View(cells) && View(cells)[cells[i].key] == cells[i]
  {
    if i < |cells| - 1 {
      ViewLookup(cells[..|cells| - 1], i);
    }
  }

  lemma {:induction false} ViewSize(cells: seq<Cache>)
    requires UniqueKeys(cells)
    ensures |View(cells)| <= |cells|
    ensures |View(cells)| == |cells| <==> forall i :: 0 <= i < |cells| ==> cells[i].used
  {
    if cells != [] {
      var n := |cells| - 1;
      ViewSize(cells[..n]);
      ViewKeys(cells[..n], cells[n].key);
      if cells[n].used {
        assert View(cells).Keys == View(cells[..n]).Keys + {cells[n].key};
      }
      assert (forall i :: 0 <= i < n ==> cells[i].used) <==> forall i :: 0 <= i < n ==> cells[..n][i].used;
    }
  }

  /** Writing one cell is one map update. */
  lemma ViewSet(cells: seq<Cache>, i: nat, c: Cache)
    requires UniqueKeys(cells) && i < |cells| && c.used
    requires if cells[i].used then cells[i].key == c.key else forall j :: !IsCell(cells, j, c.key)
    ensures UniqueKeys(cells[i := c]) && View(cells[i := c]) == View(cells)[c.key := c]
  {
    var next := cells[i := c];
    forall j, l | 0 <= j < l < |next| && next[j].used && next[l].used ensures next[j].key != next[l].key {
      assert IsCell(cells, j, next[j].key) || j == i;
      assert IsCell(cells, l, next[l].key) || l == i;
    }
    forall k ensures k in View(next) <==> k in View(cells)[c.key := c] {
      ViewKeys(next, k);
      ViewKeys(cells, k);
      if j :| IsCell(next, j, k) {
        assert j == i || IsCell(cells, j, k);
      }
      if j :| IsCell(cells, j, k) {
        assert IsCell(next, j, k);
      }
      assert IsCell(next, i, c.key);
    }
    forall k | k in View(next) ensures View(next)[k] == View(cells)[c.key := c][k] {
      ViewKeys(next, k);
      var j :| IsCell(next, j, k);
      ViewLookup(next, j);
      if j != i {
        ViewLookup(cells, j);
      }
    }
  }

  class Reporter {
    const caches: array<Cache>
    /** Every sample taken since the last reset. */
    ghost var run: seq<Sample>

    ghost predicate Stores(m: Metrics)
      reads caches
    {
      && caches.Length == CAPACITY
      && (forall i :: 0 <= i < CAPACITY ==> Usable(caches[i]))
      && UniqueKeys(caches[..])
      && View(caches[..]) == m
    }

    ghost predicate Valid()
      reads this, caches
    {
      Stores(RunAll(run))
    }

    constructor ()
      ensures Valid() && run == [] && fresh(caches)
    {
      caches := new Cache[CAPACITY](_ => EMPTY);
      run := [];
      new;
      NothingUsed(caches[..]);
    }

    method Reset()
      requires Valid()
      modifies this, caches
      ensures Valid() && run == []
    {
      for i := 0 to CAPACITY
        invariant forall j :: 0 <= j < i ==> caches[j] == EMPTY
      {
        caches[i] := EMPTY;
      }
      run := [];
      NothingUsed(caches[..]);
    }

    /** The metric's cell; a new metric takes the first free one; -1 when there is none. */
    method FindMetricCache(s: Sample, ghost m: Metrics) returns (ix: int)
      requires Stores(m)
      modifies caches
      ensures Stores(Admitted(m, s))
      ensures if ix < 0 then s.key !in Admitted(m, s) else IsCell(caches[..], ix, s.key)
    {
      ghost var cells := caches[..];
      var free := -1;
      ix := 0;
      while ix < CAPACITY
        invariant 0 <= ix <= CAPACITY && caches[..] == cells
        invariant forall i :: 0 <= i < ix ==> !IsCell(cells, i, s.key)
        invariant if free < 0 then forall i :: 0 <= i < ix ==> cells[i].used else free < ix && !cells[free].used
      {
        if caches[ix].used && caches[ix].key == s.key {
          assert IsCell(cells, ix, s.key);
          ViewKeys(cells, s.key);
          return;
        }
        if !caches[ix].used && free < 0 {
          free := ix;
        }
        ix := ix + 1;
      }
      ViewKeys(cells, s.key);
      ViewSize(cells);
      if free < 0 {
        return -1;
      }
      ViewSet(cells, free, NewCache(s));
      caches[free] := NewCache(s);
      assert caches[..] == cells[free := NewCache(s)];
      ix := free;
    }

    /** One sample: the metric's cache moves on, no other one does, and the device is marked if the metric reports. */
    method TrackMetric(s: Sample, report: bool) returns (report': bool)
      requires Valid()
      modifies this`run, caches
      ensures Valid() && run == old(run) + [s]
      ensures report' == (report || After(RunAll(old(run)), s).1)
    {
      run := run + [s];
      assert run[..|run| - 1] == old(run);
      if s.key.addr == 0 {
        return report;
      }
      var ix := FindMetricCache(s, RunAll(old(run)));
      if ix < 0 {
        return report;
      }
      ghost var cells, m := caches[..], Admitted(RunAll(old(run)), s);
      assert s.key in m && m[s.key] == cells[ix] by { ViewLookup(cells, ix); }
      var cache, fires := TrackCache(caches[ix], s.value, s.now);
      report' := report || fires;
      caches[ix] := cache;
      assert UniqueKeys(caches[..]) && View(caches[..]) == m[s.key := cache] by {
        ViewSet(cells, ix, cache);
        assert caches[..] == cells[ix := cache];
      }
    }
  }

  /** Stores the sample; a full window is judged and opened anew. */
  method TrackCache(c: Cache, value: int32, now: Tick) returns (cache: Cache, fires: bool)
    requires Usable(c)
    ensures (cache, fires) == Tracked(c, value, now)
  {
    cache, fires := c, false;
    cache := cache.(samples := cache.samples[cache.index := value], index := (cache.index + 1) % WINDOW);
    if cache.count < WINDOW {
      cache := cache.(count := cache.count + 1);
    }
    if cache.count < WINDOW {
      return;
    }
    var windowValue := ResolveWindowValue(cache);
    cache := cache.(count := 0, index := 0);
    if cache.lastValid && !Changed(cache.kind, cache.threshold, cache.lastValue, windowValue) {
      return;
    }
    if cache.lastTick != 0 && (now - cache.lastTick) % 0x1_0000_0000 < INTERVAL {
      return;
    }
    cache := cache.(lastValue := windowValue, lastValid := true, lastTick := now);
    fires := true;
  }

  method ResolveWindowValue(c: Cache) returns (value: int)
    requires |c.samples| == WINDOW && c.index < WINDOW && c.count <= WINDOW
    ensures value == WindowValue(c)
  {
    if c.count == 0 {
      return 0;
    }
    if c.kind == State {
      return c.samples[if c.index == 0 then WINDOW - 1 else c.index - 1];
    }
    var samples := new int[WINDOW](i requires 0 <= i < WINDOW => c.samples[i]);
    assert samples[..] == c.samples && samples[..c.count] == c.samples[..c.count];
    value := MedianI32(samples, c.count);
  }

  lemma {:induction false} NothingUsed(cells: seq<Cache>)
    requires forall i :: 0 <= i < |cells| ==> !cells[i].used
    ensures View(cells) == map[]
  {
    if cells != [] {
      NothingUsed(cells[..|cells| - 1]);
    }
  }
}
