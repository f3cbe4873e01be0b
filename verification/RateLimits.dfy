/**
  Fixed-window rate limiting: the database limiter, whose windows are aligned, and the in-memory
  limiter, whose windows start with the first request; and the bound both give on any sliding interval.
 */
module RateLimits {
  import opened Arithmetic

  function Max(a: int, b: int): int { if a >= b then a else b }

  datatype Decision = Decision(allowed: bool, remaining: int, resetAt: int)

  function Decide(count: int, limit: int, resetAt: int): Decision {
    Decision(count <= limit, Max(limit - count, 0), resetAt)
  }

  // ----- The limiters

  /** One row per key and window start. */
  type Rows = map<(string, int), nat>

  function WindowStart(now: int, windowSeconds: nat): int
    requires windowSeconds > 0
  {
    now / (windowSeconds * 1000) * (windowSeconds * 1000)
  }

  function AlignedCheck(rows: Rows, key: string, limit: int, windowSeconds: nat, now: int): (Rows, Decision)
    requires windowSeconds > 0
  {
    var start := WindowStart(now, windowSeconds);
    var count := if (key, start) in rows then rows[(key, start)] + 1 else 1;
    (rows[(key, start) := count], Decide(count, limit, start + windowSeconds * 1000))
  }

  class DatabaseRateLimit {
    var rows: Rows

    constructor ()
      ensures rows == map[]
    {
      rows := map[];
    }

    method Check(key: string, limit: int, windowSeconds: nat, now: int) returns (d: Decision)
      requires windowSeconds > 0
      modifies this
      ensures (rows, d) == AlignedCheck(old(rows), key, limit, windowSeconds, now)
    {
      var start := now / (windowSeconds * 1000) * (windowSeconds * 1000);
      var expiresAt := start + windowSeconds * 1000;
      var count: nat;
      if (key, start) in rows {
        count := rows[(key, start)] + 1;
        rows := rows[(key, start) := count];
      } else {
        count := 1;
        rows := rows[(key, start) := count];
      }
      return Decision(count <= limit, Max(limit - count, 0), expiresAt);
    }
  }

  datatype Counter = Counter(count: nat, resetAt: int)

  type Counters = map<string, Counter>

  function AnchoredCheck(
    counters: Counters, key: string, limit: int, windowSeconds: nat, now: int): (Counters, Decision)
  {
    var open :=
      if key !in counters || counters[key].resetAt <= now then Counter(0, now + windowSeconds * 1000)
      else counters[key];
    var counter := open.(count := open.count + 1);
    (counters[key := counter], Decide(counter.count, limit, counter.resetAt))
  }

  class InMemoryRateLimit {
    var counters: Counters

    constructor ()
      ensures counters == map[]
    {
      counters := map[];
    }

    method Check(key: string, limit: int, windowSeconds: nat, now: int) returns (d: Decision)
      modifies this
      ensures (counters, d) == AnchoredCheck(old(counters), key, limit, windowSeconds, now)
    {
      var counter := Counter(0, now + windowSeconds * 1000);
      if key in counters && counters[key].resetAt > now { counter := counters[key]; }
      counter := counter.(count := counter.count + 1);
      counters := counters[key := counter];
      return Decision(counter.count <= limit, Max(0, limit - counter.count), counter.resetAt);
    }
  }

  // ----- Traces of decisions

  datatype Call = Call(key: string, now: int)

  datatype Entry = Entry(call: Call, decision: Decision)

  predicate InWindow(e: Entry, key: string, resetAt: int) {
    e.call.key == key && e.decision.resetAt == resetAt
  }

  function CallsInWindow(trace: seq<Entry>, key: string, resetAt: int): nat {
    if trace == [] then 0
    else CallsInWindow(trace[..|trace| - 1], key, resetAt) + if InWindow(trace[|trace| - 1], key, resetAt) then 1 else 0
  }

  function AllowedInWindow(trace: seq<Entry>, key: string, resetAt: int): nat {
    if trace == [] then 0
    else AllowedInWindow(trace[..|trace| - 1], key, resetAt)
         + if InWindow(trace[|trace| - 1], key, resetAt) && trace[|trace| - 1].decision.allowed then 1 else 0
  }

  /** Allowed calls of a key in the half-open interval from `a` to `b`. */
  function AllowedBetween(trace: seq<Entry>, key: string, a: int, b: int): nat {
    if trace == [] then 0
    else
      var last := trace[|trace| - 1];
      AllowedBetween(trace[..|trace| - 1], key, a, b)
      + if Counted(last, key, a, b) && last.decision.allowed then 1 else 0
  }

  predicate Counted(e: Entry, key: string, a: int, b: int) {
    e.call.key == key && a <= e.call.now < b
  }

  /**
    What both limiters guarantee of the windows they report: a call lies in its window, windows of one
    key are at least a window apart, a call is allowed exactly while its window has room,
    and is told how many more will be.
   */
  ghost predicate FixedWindows(trace: seq<Entry>, limit: int, width: int) {
    trace == []
    || (FixedWindows(trace[..|trace| - 1], limit, width)
         && Fits(trace[..|trace| - 1], trace[|trace| - 1], limit, width))
  }

  /** The entry `e` may follow `trace`. */
  ghost predicate Fits(trace: seq<Entry>, e: Entry, limit: int, width: int) {
    && e.call.now < e.decision.resetAt <= e.call.now + width
    && (forall f | f in trace && f.call.key == e.call.key :: Apart(f.decision.resetAt, e.decision.resetAt, width))
    && (e.decision.allowed <==> CallsInWindow(trace, e.call.key, e.decision.resetAt) < limit)
    && e.decision.remaining == Max(limit - CallsInWindow(trace, e.call.key, e.decision.resetAt) - 1, 0)
  }

  predicate Apart(r: int, s: int, width: int) {
    r == s || r + width <= s || s + width <= r
  }

  lemma {:induction false} EntriesApart(trace: seq<Entry>, limit: int, width: int)
    requires FixedWindows(trace, limit, width)
    ensures forall e | e in trace :: e.call.now < e.decision.resetAt <= e.call.now + width
    ensures forall e, f | e in trace && f in trace && e.call.key == f.call.key ::
              Apart(e.decision.resetAt, f.decision.resetAt, width)
  {
    if trace != [] {
      EntriesApart(trace[..|trace| - 1], limit, width);
      assert forall e :: e in trace <==> e in trace[..|trace| - 1] || e == trace[|trace| - 1];
    }
  }

  /** Exactly min(calls, limit) calls are allowed in each window. */
  lemma {:induction false} AllowedIsMinimum(trace: seq<Entry>, limit: int, width: int, key: string, resetAt: int)
    requires FixedWindows(trace, limit, width)
    ensures AllowedInWindow(trace, key, resetAt)
         == if CallsInWindow(trace, key, resetAt) <= limit then CallsInWindow(trace, key, resetAt) else Max(limit, 0)
  {
    if trace != [] {
      AllowedIsMinimum(trace[..|trace| - 1], limit, width, key, resetAt);
    }
  }

  lemma {:induction false} TwoWindowsCover(trace: seq<Entry>, key: string, a: int, b: int, r: int, s: int)
    requires forall e | e in trace && Counted(e, key, a, b) :: e.decision.resetAt == r || e.decision.resetAt == s
    ensures AllowedBetween(trace, key, a, b) <= AllowedInWindow(trace, key, r) + AllowedInWindow(trace, key, s)
  {
    if trace != [] {
      var front, last := trace[..|trace| - 1], trace[|trace| - 1];
      assert last in trace && forall e | e in front :: e in trace;
      TwoWindowsCover(front, key, a, b, r, s);
    }
  }

  /** Any half-open interval one window long admits at most twice the limit. */
  lemma SlidingBound(trace: seq<Entry>, limit: int, width: int, key: string, a: int)
    requires FixedWindows(trace, limit, width)
    ensures AllowedBetween(trace, key, a, a + width) <= 2 * Max(limit, 0)
  {
    hide FixedWindows;
    EntriesApart(trace, limit, width);
    var r, s := 0, 0;
    if e :| e in trace && Counted(e, key, a, a + width) {
      r, s := e.decision.resetAt, e.decision.resetAt;
      if f :| f in trace && Counted(f, key, a, a + width) && f.decision.resetAt != r {
        s := f.decision.resetAt;
      }
    }
    TwoWindowsCover(trace, key, a, a + width, r, s);
    AllowedIsMinimum(trace, limit, width, key, r);
    AllowedIsMinimum(trace, limit, width, key, s);
  }

  /** A call of the window that the interval does not count leaves room for one less. */
  lemma {:induction false} UncountedSavesOne(trace: seq<Entry>, key: string, a: int, b: int, r: int, s: int, f: Entry)
    requires forall e | e in trace && Counted(e, key, a, b) :: e.decision.resetAt == r || e.decision.resetAt == s
    requires f in trace && InWindow(f, key, r) && f.decision.allowed && !Counted(f, key, a, b)
    ensures AllowedBetween(trace, key, a, b) + 1 <= AllowedInWindow(trace, key, r) + AllowedInWindow(trace, key, s)
  {
    var front, last := trace[..|trace| - 1], trace[|trace| - 1];
    assert last in trace && forall e | e in front :: e in trace;
    if f == last { TwoWindowsCover(front, key, a, b, r, s); } else { UncountedSavesOne(front, key, a, b, r, s, f); }
  }

  /** The window that ends at `resetAt` was opened by an allowed call one window length before. */
  ghost predicate Opened(trace: seq<Entry>, key: string, resetAt: int, width: int) {
    exists f | f in trace :: InWindow(f, key, resetAt) && f.call.now == resetAt - width && f.decision.allowed
  }

  /** Where each window is opened by its own first call, an interval one window long admits one call less. */
  lemma OpenedSlidingBound(trace: seq<Entry>, limit: int, width: int, key: string, a: int)
    requires FixedWindows(trace, limit, width) && limit >= 1
    requires forall e | e in trace :: Opened(trace, e.call.key, e.decision.resetAt, width)
    ensures AllowedBetween(trace, key, a, a + width) <= 2 * limit - 1
  {
    hide FixedWindows, Opened;
    EntriesApart(trace, limit, width);
    var b := a + width;
    if e, f :|
      e in trace && f in trace && Counted(e, key, a, b) && Counted(f, key, a, b)
      && e.decision.resetAt < f.decision.resetAt {
      var r, s := e.decision.resetAt, f.decision.resetAt;
      var opener := Opener(trace, key, r, width) by { assert Opened(trace, e.call.key, r, width); }
      UncountedSavesOne(trace, key, a, b, r, s, opener);
      AllowedIsMinimum(trace, limit, width, key, r);
      AllowedIsMinimum(trace, limit, width, key, s);
    } else {
      var r := if e :| e in trace && Counted(e, key, a, b) then e.decision.resetAt else 0;
      OneWindowCovers(trace, key, a, b, r);
      AllowedIsMinimum(trace, limit, width, key, r);
    }
  }

  lemma Opener(trace: seq<Entry>, key: string, resetAt: int, width: int) returns (f: Entry)
    requires Opened(trace, key, resetAt, width)
    ensures f in trace && InWindow(f, key, resetAt) && f.call.now == resetAt - width && f.decision.allowed
  {
    f :| f in trace && InWindow(f, key, resetAt) && f.call.now == resetAt - width && f.decision.allowed;
  }

  lemma {:induction false} OneWindowCovers(trace: seq<Entry>, key: string, a: int, b: int, r: int)
    requires forall e | e in trace && Counted(e, key, a, b) :: e.decision.resetAt == r
    ensures AllowedBetween(trace, key, a, b) <= AllowedInWindow(trace, key, r)
  {
    if trace != [] {
      var front, last := trace[..|trace| - 1], trace[|trace| - 1];
      assert last in trace && forall e | e in front :: e in trace;
      OneWindowCovers(front, key, a, b, r);
    }
  }

  // ----- Runs of the limiters

  function AlignedRun(calls: seq<Call>, limit: int, windowSeconds: nat): (Rows, seq<Entry>)
    requires windowSeconds > 0
  {
    if calls == [] then (map[], [])
    else
      var last := calls[|calls| - 1];
      var (rows, trace) := AlignedRun(calls[..|calls| - 1], limit, windowSeconds);
      var (rows', decision) := AlignedCheck(rows, last.key, limit, windowSeconds, last.now);
      (rows', trace + [Entry(last, decision)])
  }

  function AnchoredRun(calls: seq<Call>, limit: int, windowSeconds: nat): (Counters, seq<Entry>) {
    if calls == [] then (map[], [])
    else
      var last := calls[|calls| - 1];
      var (counters, trace) := AnchoredRun(calls[..|calls| - 1], limit, windowSeconds);
      var (counters', decision) := AnchoredCheck(counters, last.key, limit, windowSeconds, last.now);
      (counters', trace + [Entry(last, decision)])
  }

  predicate NonDecreasing(calls: seq<Call>) {
    forall i, j | 0 <= i < j < |calls| :: calls[i].now <= calls[j].now
  }

  lemma ExtendFixedWindows(trace: seq<Entry>, e: Entry, limit: int, width: int)
    requires FixedWindows(trace, limit, width) && Fits(trace, e, limit, width)
    ensures FixedWindows(trace + [e], limit, width)
  {
    hide Fits;
    assert (trace + [e])[..|trace|] == trace;
  }

  lemma OneMoreCall(trace: seq<Entry>, e: Entry, key: string, resetAt: int)
    ensures CallsInWindow(trace + [e], key, resetAt)
        == CallsInWindow(trace, key, resetAt) + if InWindow(e, key, resetAt) then 1 else 0
  {
    assert (trace + [e])[..|trace|] == trace;
  }

  predicate WindowEnd(r: int, width: int) { width > 0 && r % width == 0 }

  lemma AlignedEndsApart(r: int, s: int, width: int)
    requires WindowEnd(r, width) && WindowEnd(s, width)
    ensures Apart(r, s, width)
  {
    var p, q := r / width, s / width;
    assert r == width * p && s == width * q;
    if p < q { assert width * q == width * p + width * (q - p); MulAtLeast(width, q - p); }
    if q < p { assert width * p == width * q + width * (p - q); MulAtLeast(width, p - q); }
  }

  lemma WindowContains(now: int, windowSeconds: nat)
    requires windowSeconds > 0
    ensures var width := windowSeconds * 1000;
            var end := WindowStart(now, windowSeconds) + width;
            now < end <= now + width && WindowEnd(end, width)
  {
    var width := windowSeconds * 1000;
    var q := now / width;
    assert now == width * q + now % width;
    assert q * width == width * q;
    assert q * width + width == width * (q + 1);
    DivModUnique(width * (q + 1), width, q + 1, 0);
  }

  /** The rows count the calls of each window. */
  ghost predicate RowsKept(rows: Rows, trace: seq<Entry>, width: int) {
    && (forall e | e in trace :: WindowEnd(e.decision.resetAt, width))
    && (forall key, start ::
         CallsInWindow(trace, key, start + width) == if (key, start) in rows then rows[(key, start)] else 0)
  }

  lemma RowsStep(rows: Rows, trace: seq<Entry>, call: Call, limit: int, windowSeconds: nat)
    requires windowSeconds > 0 && RowsKept(rows, trace, windowSeconds * 1000)
    ensures var (rows', decision) := AlignedCheck(rows, call.key, limit, windowSeconds, call.now);
            && Fits(trace, Entry(call, decision), limit, windowSeconds * 1000)
            && RowsKept(rows', trace + [Entry(call, decision)], windowSeconds * 1000)
  {
    hide WindowStart, WindowEnd, Apart, InWindow;
    var width := windowSeconds * 1000;
    var (rows', decision) := AlignedCheck(rows, call.key, limit, windowSeconds, call.now);
    var e := Entry(call, decision);
    WindowContains(call.now, windowSeconds);
    forall f | f in trace ensures Apart(f.decision.resetAt, decision.resetAt, width) {
      AlignedEndsApart(f.decision.resetAt, decision.resetAt, width);
    }
    forall key, start
      ensures CallsInWindow(trace + [e], key, start + width) == if (key, start) in rows' then rows'[(key, start)] else 0
    {
      OneMoreCall(trace, e, key, start + width);
      SameWindow(e, key, start, width, windowSeconds);
    }
  }

  lemma NoEntries(limit: int, width: int)
    ensures FixedWindows([], limit, width)
  {
  }

  /** The aligned limiter keeps fixed windows whatever the order of the times. */
  lemma {:induction false} AlignedRunIsFixedWindows(calls: seq<Call>, limit: int, windowSeconds: nat)
    requires windowSeconds > 0
    ensures var (rows, trace) := AlignedRun(calls, limit, windowSeconds);
            && |trace| == |calls| && (forall i | 0 <= i < |calls| :: trace[i].call == calls[i])
            && FixedWindows(trace, limit, windowSeconds * 1000)
            && RowsKept(rows, trace, windowSeconds * 1000)
  {
    hide FixedWindows, AlignedCheck, Fits, WindowStart, WindowEnd;
    if calls == [] {
      NoEntries(limit, windowSeconds * 1000);
      assert RowsKept(map[], [], windowSeconds * 1000);
    } else {
      hide RowsKept;
      var front, last := calls[..|calls| - 1], calls[|calls| - 1];
      AlignedRunIsFixedWindows(front, limit, windowSeconds);
      var (rows, trace) := AlignedRun(front, limit, windowSeconds);
      RowsStep(rows, trace, last, limit, windowSeconds);
      var e := Entry(last, AlignedCheck(rows, last.key, limit, windowSeconds, last.now).1);
      ExtendFixedWindows(trace, e, limit, windowSeconds * 1000);
    }
  }

  lemma SameWindow(e: Entry, key: string, start: int, width: int, windowSeconds: nat)
    requires windowSeconds > 0 && width == windowSeconds * 1000
    requires e.decision.resetAt == WindowStart(e.call.now, windowSeconds) + width
    ensures InWindow(e, key, start + width) <==> (key, start) == (e.call.key, WindowStart(e.call.now, windowSeconds))
  {
  }

  /** The counter of a key counts the calls of its latest window, which ends last. */
  ghost predicate CountersKept(counters: Counters, trace: seq<Entry>, width: int) {
    && (forall e | e in trace ::
          && e.call.key in counters
          && (e.decision.resetAt == counters[e.call.key].resetAt
              || e.decision.resetAt + width <= counters[e.call.key].resetAt))
    && (forall key | key in counters ::
          && counters[key].count == CallsInWindow(trace, key, counters[key].resetAt)
          && trace != []
          && counters[key].resetAt <= trace[|trace| - 1].call.now + width)
  }

  lemma {:induction false} LaterWindowIsEmpty(trace: seq<Entry>, key: string, resetAt: int)
    requires forall e | e in trace && e.call.key == key :: e.decision.resetAt < resetAt
    ensures CallsInWindow(trace, key, resetAt) == 0
  {
    if trace != [] {
      assert trace[|trace| - 1] in trace;
      LaterWindowIsEmpty(trace[..|trace| - 1], key, resetAt);
    }
  }

  lemma CountersStep(counters: Counters, trace: seq<Entry>, call: Call, limit: int, windowSeconds: nat)
    requires windowSeconds > 0 && CountersKept(counters, trace, windowSeconds * 1000)
    requires trace != [] ==> trace[|trace| - 1].call.now <= call.now
    ensures var (counters', decision) := AnchoredCheck(counters, call.key, limit, windowSeconds, call.now);
            && Fits(trace, Entry(call, decision), limit, windowSeconds * 1000)
            && CountersKept(counters', trace + [Entry(call, decision)], windowSeconds * 1000)
  {
    hide CallsInWindow;
    var width := windowSeconds * 1000;
    var (counters', decision) := AnchoredCheck(counters, call.key, limit, windowSeconds, call.now);
    var e := Entry(call, decision);
    if call.key !in counters || counters[call.key].resetAt <= call.now {
      LaterWindowIsEmpty(trace, call.key, decision.resetAt);
    }
    forall key | key in counters'
      ensures counters'[key].count == CallsInWindow(trace + [e], key, counters'[key].resetAt)
    {
      OneMoreCall(trace, e, key, counters'[key].resetAt);
    }
  }

  /** The anchored limiter keeps fixed windows when times never decrease. */
  lemma {:induction false} AnchoredRunIsFixedWindows(calls: seq<Call>, limit: int, windowSeconds: nat)
    requires windowSeconds > 0 && NonDecreasing(calls)
    ensures var (counters, trace) := AnchoredRun(calls, limit, windowSeconds);
            && |trace| == |calls| && (forall i | 0 <= i < |calls| :: trace[i].call == calls[i])
            && FixedWindows(trace, limit, windowSeconds * 1000)
            && CountersKept(counters, trace, windowSeconds * 1000)
  {
    if calls != [] {
      hide FixedWindows, CountersKept, AnchoredCheck, Fits;
      var front, last := calls[..|calls| - 1], calls[|calls| - 1];
      AnchoredRunIsFixedWindows(front, limit, windowSeconds);
      var (counters, trace) := AnchoredRun(front, limit, windowSeconds);
      if trace != [] { assert trace[|trace| - 1].call == calls[|calls| - 2]; }
      CountersStep(counters, trace, last, limit, windowSeconds);
      var e := Entry(last, AnchoredCheck(counters, last.key, limit, windowSeconds, last.now).1);
      ExtendFixedWindows(trace, e, limit, windowSeconds * 1000);
    } else {
      assert CountersKept(map[], [], windowSeconds * 1000);
    }
  }

  /** Every window of the anchored limiter was opened by its own first call. */
  lemma {:induction false} AnchoredWindowsOpened(calls: seq<Call>, limit: int, windowSeconds: nat)
    requires windowSeconds > 0 && limit >= 1
    ensures var (counters, trace) := AnchoredRun(calls, limit, windowSeconds);
            && (forall e | e in trace :: Opened(trace, e.call.key, e.decision.resetAt, windowSeconds * 1000))
            && (forall key | key in counters :: Opened(trace, key, counters[key].resetAt, windowSeconds * 1000))
  {
    if calls != [] {
      var width := windowSeconds * 1000;
      var front, last := calls[..|calls| - 1], calls[|calls| - 1];
      AnchoredWindowsOpened(front, limit, windowSeconds);
      var (counters, trace) := AnchoredRun(front, limit, windowSeconds);
      var (counters', decision) := AnchoredCheck(counters, last.key, limit, windowSeconds, last.now);
      var e := Entry(last, decision);
      assert AnchoredRun(calls, limit, windowSeconds) == (counters', trace + [e]);
      hide Opened, AnchoredRun;
      forall key, resetAt: int | Opened(trace, key, resetAt, width) ensures Opened(trace + [e], key, resetAt, width) {
        StaysOpened(trace, e, key, resetAt, width);
      }
      if last.key !in counters || counters[last.key].resetAt <= last.now { OpensItself(trace, e, width); }
    }
  }

  lemma StaysOpened(trace: seq<Entry>, e: Entry, key: string, resetAt: int, width: int)
    requires Opened(trace, key, resetAt, width)
    ensures Opened(trace + [e], key, resetAt, width)
  {
    var f := Opener(trace, key, resetAt, width);
    assert f in trace + [e];
  }

  lemma OpensItself(trace: seq<Entry>, e: Entry, width: int)
    requires e.decision.allowed && e.call.now == e.decision.resetAt - width
    ensures Opened(trace + [e], e.call.key, e.decision.resetAt, width)
  {
    assert e in trace + [e];
  }

  /**
    Over any calls whose times never decrease, an interval of one window length admits of one key at most
    twice the limit with the aligned limiter and one call less with the anchored one, and every reported
    reset is in the future.
   */
  lemma LimitersBoundSlidingWindow(calls: seq<Call>, limit: int, windowSeconds: nat, key: string, a: int)
    requires windowSeconds > 0 && NonDecreasing(calls)
    ensures var width := windowSeconds * 1000;
            var aligned := AlignedRun(calls, limit, windowSeconds).1;
            var anchored := AnchoredRun(calls, limit, windowSeconds).1;
            && AllowedBetween(aligned, key, a, a + width) <= 2 * Max(limit, 0)
            && AllowedBetween(anchored, key, a, a + width) <= Max(2 * limit - 1, 0)
            && (forall e | e in aligned :: e.call.now < e.decision.resetAt)
            && (forall e | e in anchored :: e.call.now < e.decision.resetAt)
  {
    hide FixedWindows, RowsKept, CountersKept, AlignedRun, AnchoredRun, AllowedBetween, Opened;
    EntriesApart(AlignedRun(calls, limit, windowSeconds).1, limit, windowSeconds * 1000) by {
      AlignedRunIsFixedWindows(calls, limit, windowSeconds);
    }
    EntriesApart(AnchoredRun(calls, limit, windowSeconds).1, limit, windowSeconds * 1000) by {
      AnchoredRunIsFixedWindows(calls, limit, windowSeconds);
    }
    AlignedRunIsFixedWindows(calls, limit, windowSeconds);
    AnchoredRunIsFixedWindows(calls, limit, windowSeconds);
    SlidingBound(AlignedRun(calls, limit, windowSeconds).1, limit, windowSeconds * 1000, key, a);
    if limit >= 1 {
      AnchoredWindowsOpened(calls, limit, windowSeconds);
      OpenedSlidingBound(AnchoredRun(calls, limit, windowSeconds).1, limit, windowSeconds * 1000, key, a);
    } else {
      SlidingBound(AnchoredRun(calls, limit, windowSeconds).1, limit, windowSeconds * 1000, key, a);
    }
  }

  // ----- The bounds are reached

  /** Calls of a key that a limiter allows in the interval one window long from `a` on. */
  function AlignedAllows(calls: seq<Call>, limit: int, windowSeconds: nat, key: string, a: int): nat
    requires windowSeconds > 0
  {
    AllowedBetween(AlignedRun(calls, limit, windowSeconds).1, key, a, a + windowSeconds * 1000)
  }

  function AnchoredAllows(calls: seq<Call>, limit: int, windowSeconds: nat, key: string, a: int): nat {
    AllowedBetween(AnchoredRun(calls, limit, windowSeconds).1, key, a, a + windowSeconds * 1000)
  }

  function Repeat(call: Call, n: nat): seq<Call> { seq(n, i => call) }

  lemma RepeatOneMore(calls: seq<Call>, call: Call, n: nat)
    requires n > 0
    ensures calls + Repeat(call, n) == (calls + Repeat(call, n - 1)) + [call]
  {
  }

  lemma AlignedOneMore(calls: seq<Call>, call: Call, limit: int, windowSeconds: nat)
    requires windowSeconds > 0
    ensures var (rows, trace) := AlignedRun(calls, limit, windowSeconds);
            var (rows', decision) := AlignedCheck(rows, call.key, limit, windowSeconds, call.now);
            AlignedRun(calls + [call], limit, windowSeconds) == (rows', trace + [Entry(call, decision)])
  {
    hide AlignedCheck;
    assert (calls + [call])[..|calls|] == calls;
  }

  lemma AnchoredOneMore(calls: seq<Call>, call: Call, limit: int, windowSeconds: nat)
    ensures var (counters, trace) := AnchoredRun(calls, limit, windowSeconds);
            var (counters', decision) := AnchoredCheck(counters, call.key, limit, windowSeconds, call.now);
            AnchoredRun(calls + [call], limit, windowSeconds) == (counters', trace + [Entry(call, decision)])
  {
    hide AnchoredCheck;
    assert (calls + [call])[..|calls|] == calls;
  }

  lemma AllowedOneMore(trace: seq<Entry>, e: Entry, key: string, a: int, b: int)
    ensures AllowedBetween(trace + [e], key, a, b)
         == AllowedBetween(trace, key, a, b) + if Counted(e, key, a, b) && e.decision.allowed then 1 else 0
  {
    assert (trace + [e])[..|trace|] == trace;
  }

  function CallsIn(rows: Rows, window: (string, int)): nat { if window in rows then rows[window] else 0 }

  lemma RoomForOne(rows: Rows, call: Call, limit: int, windowSeconds: nat)
    requires windowSeconds > 0 && CallsIn(rows, (call.key, WindowStart(call.now, windowSeconds))) < limit
    ensures var window := (call.key, WindowStart(call.now, windowSeconds));
            var (rows', decision) := AlignedCheck(rows, call.key, limit, windowSeconds, call.now);
            decision.allowed && rows' == rows[window := CallsIn(rows, window) + 1]
  {
    hide WindowStart;
  }

  /** A burst within the limit, in a window without calls, is allowed as a whole. */
  lemma {:induction false} AlignedBurst(
    calls: seq<Call>, call: Call, n: nat, limit: int, windowSeconds: nat, a: int, b: int)
    requires windowSeconds > 0 && n <= limit && a <= call.now < b
    requires (call.key, WindowStart(call.now, windowSeconds)) !in AlignedRun(calls, limit, windowSeconds).0
    ensures var window := (call.key, WindowStart(call.now, windowSeconds));
            var (rows, trace) := AlignedRun(calls, limit, windowSeconds);
            var (rows', trace') := AlignedRun(calls + Repeat(call, n), limit, windowSeconds);
            && rows' == (if n == 0 then rows else rows[window := n])
            && AllowedBetween(trace', call.key, a, b) == AllowedBetween(trace, call.key, a, b) + n
    decreases n
  {
    hide WindowStart, AlignedRun, AllowedBetween, AlignedCheck;
    if n == 0 {
      assert calls + Repeat(call, 0) == calls;
    } else {
      AlignedBurst(calls, call, n - 1, limit, windowSeconds, a, b);
      RepeatOneMore(calls, call, n);
      AlignedOneMore(calls + Repeat(call, n - 1), call, limit, windowSeconds);
      var (rows, trace) := AlignedRun(calls + Repeat(call, n - 1), limit, windowSeconds);
      RoomForOne(rows, call, limit, windowSeconds);
      AllowedOneMore(trace, Entry(call, AlignedCheck(rows, call.key, limit, windowSeconds, call.now).1), call.key, a,
        b);
    }
  }

  /**
    Twice the limit is reached by the aligned limiter: a burst just before a window ends and one when the next
    begins.
   */
  lemma AlignedBoundReached(limit: nat, windowSeconds: nat, key: string)
    requires windowSeconds > 0
    ensures exists calls, a :: AlignedAllows(calls, limit, windowSeconds, key, a) == 2 * limit && NonDecreasing(calls)
  {
    var width := windowSeconds * 1000;
    var calls := TwoBursts(key, limit, width);
    TwoBurstsOrdered(key, limit, width);
    TwoBurstsAllowed(key, limit, windowSeconds);
    hide AlignedAllows, NonDecreasing, TwoBursts;
    assert AlignedAllows(calls, limit, windowSeconds, key, width - 1) == 2 * limit && NonDecreasing(calls);
  }

  /** As many calls as the limit just before the window ends, and as many when the next begins. */
  function TwoBursts(key: string, limit: nat, width: int): seq<Call> {
    Repeat(Call(key, width - 1), limit) + Repeat(Call(key, width), limit)
  }

  lemma TwoBurstsOrdered(key: string, limit: nat, width: int)
    ensures NonDecreasing(TwoBursts(key, limit, width))
  {
  }

  lemma TwoBurstsAllowed(key: string, limit: nat, windowSeconds: nat)
    requires windowSeconds > 0
    ensures var width := windowSeconds * 1000;
            AlignedAllows(TwoBursts(key, limit, width), limit, windowSeconds, key, width - 1) == 2 * limit
  {
    var width := windowSeconds * 1000;
    var early, late, first := Call(key, width - 1), Call(key, width), Repeat(Call(key, width - 1), limit);
    SecondWindow(windowSeconds);
    assert [] + first == first && AlignedRun([], limit, windowSeconds) == (map[], []);
    assert AllowedBetween([], key, width - 1, width - 1 + width) == 0;
    hide WindowStart, AlignedRun, AllowedBetween, Repeat;
    AlignedBurst([], early, limit, limit, windowSeconds, width - 1, width - 1 + width);
    AlignedBurst(first, late, limit, limit, windowSeconds, width - 1, width - 1 + width);
  }

  lemma SecondWindow(windowSeconds: nat)
    requires windowSeconds > 0
    ensures var width := windowSeconds * 1000;
            WindowStart(width - 1, windowSeconds) == 0 && WindowStart(width, windowSeconds) == width
  {
    var width := windowSeconds * 1000;
    DivModUnique(width - 1, width, 0, width - 1);
    DivModUnique(width, width, 1, 0);
  }

  /** What a counter holds when a call arrives: nothing, once its window has ended. */
  function Standing(counters: Counters, key: string, now: int): nat {
    if key in counters && counters[key].resetAt > now then counters[key].count else 0
  }

  /** The counter of the window that a call at its time counts in, with `n` calls more. */
  function CounterAfter(counters: Counters, call: Call, n: nat, windowSeconds: nat): Counter {
    var open := call.key in counters && counters[call.key].resetAt > call.now;
    var resetAt := if open then counters[call.key].resetAt else call.now + windowSeconds * 1000;
    Counter(Standing(counters, call.key, call.now) + n, resetAt)
  }

  /** Later calls at the same time count in the same window. */
  lemma SameCounter(counters: Counters, after: Counters, call: Call, n: nat, windowSeconds: nat)
    requires windowSeconds > 0 && call.key in after && after[call.key] == CounterAfter(counters, call, n, windowSeconds)
    ensures Standing(after, call.key, call.now) == Standing(counters, call.key, call.now) + n
    ensures CounterAfter(after, call, 1, windowSeconds) == CounterAfter(counters, call, n + 1, windowSeconds)
  {
  }

  lemma CounterRoomForOne(counters: Counters, call: Call, limit: int, windowSeconds: nat)
    requires windowSeconds > 0 && Standing(counters, call.key, call.now) < limit
    ensures var (counters', decision) := AnchoredCheck(counters, call.key, limit, windowSeconds, call.now);
            decision.allowed && call.key in counters'
              && counters'[call.key] == CounterAfter(counters, call, 1, windowSeconds)
  {
  }

  /** A burst that the counter has room for is allowed as a whole. */
  lemma {:induction false} AnchoredBurst(
    calls: seq<Call>, call: Call, n: nat, limit: int, windowSeconds: nat, a: int, b: int)
    requires windowSeconds > 0 && Standing(AnchoredRun(calls, limit, windowSeconds).0, call.key, call.now) + n <= limit
    ensures var (counters, trace) := AnchoredRun(calls, limit, windowSeconds);
            var (counters', trace') := AnchoredRun(calls + Repeat(call, n), limit, windowSeconds);
            && (if n == 0 then counters' == counters
                else call.key in counters' && counters'[call.key] == CounterAfter(counters, call, n, windowSeconds))
            && AllowedBetween(trace', call.key, a, b)
               == AllowedBetween(trace, call.key, a, b) + if a <= call.now < b then n else 0
    decreases n
  {
    if n == 0 {
      assert calls + Repeat(call, 0) == calls;
    } else {
      hide AnchoredRun, AllowedBetween, AnchoredCheck;
      AnchoredBurst(calls, call, n - 1, limit, windowSeconds, a, b);
      RepeatOneMore(calls, call, n);
      AnchoredOneMore(calls + Repeat(call, n - 1), call, limit, windowSeconds);
      var (counters, trace) := AnchoredRun(calls + Repeat(call, n - 1), limit, windowSeconds);
      if n > 1 { SameCounter(AnchoredRun(calls, limit, windowSeconds).0, counters, call, n - 1, windowSeconds); }
      hide Standing, CounterAfter;
      CounterRoomForOne(counters, call, limit, windowSeconds);
      AllowedOneMore(trace, Entry(call, AnchoredCheck(counters, call.key, limit, windowSeconds, call.now).1), call.key,
        a, b);
    }
  }

  function EarlyCalls(key: string, limit: nat, width: int): seq<Call>
    requires limit >= 1
  {
    Repeat(Call(key, 0), 1) + Repeat(Call(key, width - 1), limit - 1)
  }

  function LateCalls(key: string, limit: nat, width: int): seq<Call>
    requires limit >= 1
  {
    EarlyCalls(key, limit, width) + Repeat(Call(key, width), limit)
  }

  lemma NothingRun(limit: int, windowSeconds: nat, key: string, a: int, b: int)
    ensures AnchoredRun([], limit, windowSeconds) == (map[], []) && AllowedBetween([], key, a, b) == 0
  {
  }

  lemma OpeningCallAllowed(limit: nat, windowSeconds: nat, key: string)
    requires windowSeconds > 0 && limit >= 1
    ensures var width := windowSeconds * 1000;
            var (counters, trace) := AnchoredRun(Repeat(Call(key, 0), 1), limit, windowSeconds);
            && key in counters && counters[key] == Counter(1, width)
            && AllowedBetween(trace, key, width - 1, width - 1 + width) == 0
  {
    hide AnchoredRun, AllowedBetween, Repeat;
    var opening, width := Call(key, 0), windowSeconds * 1000;
    assert [] + Repeat(opening, 1) == Repeat(opening, 1);
    NothingRun(limit, windowSeconds, key, width - 1, width - 1 + width);
    AnchoredBurst([], opening, 1, limit, windowSeconds, width - 1, width - 1 + width);
  }

  /** The call that opens the window comes early, the others at its end. */
  lemma EarlyCallsAllowed(limit: nat, windowSeconds: nat, key: string)
    requires windowSeconds > 0 && limit >= 1
    ensures var width := windowSeconds * 1000;
            var (counters, trace) := AnchoredRun(EarlyCalls(key, limit, width), limit, windowSeconds);
            && key in counters && counters[key].resetAt == width
            && AllowedBetween(trace, key, width - 1, width - 1 + width) == limit - 1
  {
    var width := windowSeconds * 1000;
    hide AnchoredRun, AllowedBetween, Repeat;
    OpeningCallAllowed(limit, windowSeconds, key);
    var start := width - 1;
    AnchoredBurst(Repeat(Call(key, 0), 1), Call(key, start), limit - 1, limit, windowSeconds, start, start + width);
  }

  lemma LateCallsAllowed(limit: nat, windowSeconds: nat, key: string)
    requires windowSeconds > 0 && limit >= 1
    ensures AnchoredAllows(LateCalls(key, limit, windowSeconds * 1000), limit, windowSeconds, key,
        windowSeconds * 1000 - 1) == 2 * limit - 1
  {
    var width := windowSeconds * 1000;
    hide AnchoredRun, AllowedBetween, Repeat, EarlyCalls;
    EarlyCallsAllowed(limit, windowSeconds, key);
    var start := width - 1;
    AnchoredBurst(EarlyCalls(key, limit, width), Call(key, width), limit, limit, windowSeconds, start, start + width);
  }

  /** One call less is reached by the anchored limiter. */
  lemma AnchoredBoundReached(limit: nat, windowSeconds: nat, key: string)
    requires windowSeconds > 0 && limit >= 1
    ensures exists calls, a ::
        AnchoredAllows(calls, limit, windowSeconds, key, a) == 2 * limit - 1 && NonDecreasing(calls)
  {
    hide AnchoredAllows;
    LateCallsAllowed(limit, windowSeconds, key);
    assert NonDecreasing(LateCalls(key, limit, windowSeconds * 1000));
  }
}
