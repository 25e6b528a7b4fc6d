/** Profiler.h: fixed-size ring buffers of frame times. GraphFrameHistory keeps the last 200
    frame times for the graph; each FrameTimer keeps its last N samples and averages them; the
    Profiler pushes one sample into each once per frame. Floating-point times are modelled as
    reals, so rounding is not modelled. Each buffer carries a ghost `history` of every value
    added, which the array is shown to hold the tail of. */
module Profiling {

  /** A zero-initialised array of `n` values. */
  function Zeros(n: nat): seq<real> {
    seq(n, _ => 0.0)
  }

  /** The slot after slot `i` of a ring of `n` slots. */
  function Next(i: nat, n: nat): (r: nat)
    requires i < n
    ensures r < n
  {
    if i + 1 < n then i + 1 else 0
  }

  /** The slot the next value goes to after `written` values were written one after another
      into a ring of `n` slots, starting at slot 0. */
  function Cursor(written: nat, n: nat): (r: nat)
    requires n > 0
    ensures r < n
  {
    if written == 0 then 0 else Next(Cursor(written - 1, n), n)
  }

  /** The contents of that ring after the values of `h`: each went to the slot the cursor was
      at. */
  function Ring(h: seq<real>, n: nat): (r: seq<real>)
    requires n > 0
    ensures |r| == n
  {
    if h == [] then Zeros(n) else Ring(h[..|h| - 1], n)[Cursor(|h| - 1, n) := h[|h| - 1]]
  }

  /** The last `n` values written, oldest first (all of them while fewer were written). */
  function Window(h: seq<real>, n: nat): seq<real> {
    if |h| <= n then h else h[|h| - n..]
  }

  /** std::accumulate over the values with 0.0. */
  function Sum(s: seq<real>): real {
    if s == [] then 0.0 else Sum(s[..|s| - 1]) + s[|s| - 1]
  }

  /** The arithmetic mean, 0 for no values. */
  function Mean(s: seq<real>): real {
    if s == [] then 0.0 else Sum(s) / (|s| as real)
  }

  lemma {:induction false} SumConcat(a: seq<real>, b: seq<real>)
    ensures Sum(a + b) == Sum(a) + Sum(b)
  {
    if b == [] {
      assert a + b == a;
    } else {
      assert (a + b)[..|a + b| - 1] == a + b[..|b| - 1];
      SumConcat(a, b[..|b| - 1]);
    }
  }

  /** A non-zero multiple of `n` is at least `n` away from zero. */
  lemma MulAway(x: int, n: int)
    requires n > 0
    ensures x >= 1 ==> x * n >= n
    ensures x <= -1 ==> x * n <= -n
  {
    if x >= 1 {
      assert x * n == (x - 1) * n + n;
    } else if x <= -1 {
      assert x * n == (x + 1) * n - n;
    }
  }

  /** Euclidean division has one quotient and one remainder. */
  lemma DivModUnique(m: int, n: int, q: int, k: int)
    requires n > 0 && 0 <= k < n && m == q * n + k
    ensures m / n == q && m % n == k
  {
    var q', k' := m / n, m % n;
    assert (q - q') * n == k' - k;
    MulAway(q - q', n);
  }

  /** `(i + 1) % n` is the next slot. */
  lemma NextMod(i: nat, n: nat)
    requires i < n
    ensures (i + 1) % n == Next(i, n)
  {
    if i + 1 < n {
      DivModUnique(i + 1, n, 0, i + 1);
    } else {
      DivModUnique(i + 1, n, 1, 0);
    }
  }

  /** The `(i + 1) % n` of AddSample: the next slot. */
  method Advance(i: nat, n: nat) returns (r: nat)
    requires i < n
    ensures r == Next(i, n)
  {
    r := (i + 1) % n;
    NextMod(i, n);
  }

  /** The cursor is the number of values written, modulo `n`. */
  lemma {:induction false} CursorMod(written: nat, n: nat)
    requires n > 0
    ensures Cursor(written, n) == written % n
  {
    if written == 0 {
      DivModUnique(0, n, 0, 0);
    } else {
      var q, k := (written - 1) / n, (written - 1) % n;
      CursorMod(written - 1, n);
      NextMod(k, n);
      if k + 1 < n {
        DivModUnique(written, n, q, k + 1);
      } else {
        DivModUnique(written, n, q + 1, 0);
      }
    }
  }

  /** Two positions less than `n` apart go to different slots. */
  lemma CursorDistinct(a: nat, b: nat, n: nat)
    requires 0 < n && b < a && a - b < n
    ensures Cursor(a, n) != Cursor(b, n)
  {
    CursorMod(a, n);
    CursorMod(b, n);
    var qa, qb := a / n, b / n;
    if a % n == b % n {
      assert a - b == (qa - qb) * n;
      MulAway(qa - qb, n);
    }
  }

  /** Position `q * n + k` goes to slot `k`. */
  lemma CursorOf(q: nat, k: nat, n: nat)
    requires k < n
    ensures Cursor(q * n + k, n) == k
  {
    CursorMod(q * n + k, n);
    DivModUnique(q * n + k, n, q, k);
  }

  /** Every one of the last `n` values written is still in the slot it went to. */
  lemma {:induction false} RingAt(h: seq<real>, n: nat, m: nat)
    requires n > 0 && m < |h| && |h| - n <= m
    ensures Ring(h, n)[Cursor(m, n)] == h[m]
  {
    var last := |h| - 1;
    if m < last {
      RingAt(h[..last], n, m);
      CursorDistinct(last, m, n);
    }
  }

  /** While at most `n` values were written, slots 0.. hold them in order. */
  lemma RingPrefix(h: seq<real>, n: nat)
    requires 0 < n && |h| <= n
    ensures Ring(h, n)[..|h|] == h
  {
    forall k | 0 <= k < |h|
      ensures Ring(h, n)[k] == h[k]
    {
      RingAt(h, n, k);
      CursorOf(0, k, n);
    }
  }

  /** When the ring is full and the next slot to write is `i`, slot `k < i` holds the value
      at position `written - i + k`, ... */
  lemma PositionBefore(written: nat, n: nat, i: nat, k: nat)
    requires 0 < n <= written && i == Cursor(written, n) && k < i
    ensures Cursor(written - i + k, n) == k
  {
    var q := written / n;
    assert written - i + k == q * n + k by {
      CursorMod(written, n);
    }
    CursorOf(q, k, n);
  }

  /** ... and slot `k >= i` the value at position `written - n - i + k`. */
  lemma PositionFrom(written: nat, n: nat, i: nat, k: nat)
    requires 0 < n <= written && i == Cursor(written, n) && i <= k < n
    ensures Cursor(written - n - i + k, n) == k
  {
    var q := written / n;
    assert written - n - i + k == (q - 1) * n + k by {
      CursorMod(written, n);
      assert (q - 1) * n == q * n - n;
    }
    CursorOf(q - 1, k, n);
  }

  /** The slot of one of the last `n` values holds it. */
  lemma SlotHolds(h: seq<real>, n: nat, k: nat, m: nat)
    requires 0 < n && |h| - n <= m < |h| && Cursor(m, n) == k
    ensures Ring(h, n)[k] == h[m]
  {
    RingAt(h, n, m);
  }

  /** When the ring is full, the slots before the next one to write hold the newest values, ... */
  lemma RotatedBefore(h: seq<real>, n: nat, i: nat, k: nat)
    requires 0 < n <= |h| && i == Cursor(|h|, n) && k < i
    ensures Ring(h, n)[k] == Window(h, n)[n - i + k]
  {
    var m := |h| - i + k;
    assert Window(h, n)[n - i + k] == h[m];
    PositionBefore(|h|, n, i, k);
    SlotHolds(h, n, k, m);
  }

  /** ... and the slots from it on the oldest. */
  lemma RotatedFrom(h: seq<real>, n: nat, i: nat, k: nat)
    requires 0 < n <= |h| && i == Cursor(|h|, n) && i <= k < n
    ensures Ring(h, n)[k] == Window(h, n)[k - i]
  {
    var m := |h| - n - i + k;
    assert Window(h, n)[k - i] == h[m];
    PositionFrom(|h|, n, i, k);
    SlotHolds(h, n, k, m);
  }

  /** Once `n` values were written, the ring is the last `n` values rotated to start at the
      next slot to write. */
  lemma RingRotated(h: seq<real>, n: nat, i: nat)
    requires 0 < n <= |h| && i == Cursor(|h|, n)
    ensures Ring(h, n) == Window(h, n)[n - i..] + Window(h, n)[..n - i]
  {
    RingFront(h, n, i);
    RingBack(h, n, i);
    RotationOf(Ring(h, n), Window(h, n), i, n);
  }

  lemma RingFront(h: seq<real>, n: nat, i: nat)
    requires 0 < n <= |h| && i == Cursor(|h|, n)
    ensures forall k :: 0 <= k < i ==> Ring(h, n)[k] == Window(h, n)[n - i + k]
  {
    forall k | 0 <= k < i
      ensures Ring(h, n)[k] == Window(h, n)[n - i + k]
    {
      RotatedBefore(h, n, i, k);
    }
  }

  lemma RingBack(h: seq<real>, n: nat, i: nat)
    requires 0 < n <= |h| && i == Cursor(|h|, n)
    ensures forall k :: i <= k < n ==> Ring(h, n)[k] == Window(h, n)[k - i]
  {
    forall k | i <= k < n
      ensures Ring(h, n)[k] == Window(h, n)[k - i]
    {
      RotatedFrom(h, n, i, k);
    }
  }

  /** A sequence whose first `i` elements are the last `i` of `w` and whose others are the rest
      of `w` is `w` rotated. */
  lemma RotationOf(r: seq<real>, w: seq<real>, i: nat, n: nat)
    requires |r| == n && |w| == n && i <= n
    requires forall k :: 0 <= k < i ==> r[k] == w[n - i + k]
    requires forall k :: i <= k < n ==> r[k] == w[k - i]
    ensures r == w[n - i..] + w[..n - i]
  {
    var rotated := w[n - i..] + w[..n - i];
    forall k | 0 <= k < n
      ensures r[k] == rotated[k]
    {
      if k < i {
        assert rotated[k] == w[n - i..][k];
      } else {
        assert rotated[k] == w[..n - i][k - i];
      }
    }
  }

  /** Rotating back a sequence rotated by `j` gives the original. */
  lemma SwapHalves(a: seq<real>, w: seq<real>, j: nat)
    requires j <= |w| && a == w[j..] + w[..j]
    ensures a[|w| - j..] + a[..|w| - j] == w
  {
    assert a[|w| - j..] == w[..j];
    assert a[..|w| - j] == w[j..];
  }

  /** The values a full or partly filled ring sums to are those of the window. */
  lemma RingSum(h: seq<real>, n: nat)
    requires n > 0
    ensures Sum(Ring(h, n)[..|Window(h, n)|]) == Sum(Window(h, n))
  {
    if |h| <= n {
      RingPrefix(h, n);
    } else {
      var i := Cursor(|h|, n);
      RingRotated(h, n, i);
      assert |Window(h, n)| == n;
      assert Ring(h, n)[..n] == Ring(h, n);
      SumRotated(Ring(h, n), Window(h, n), n - i);
    }
  }

  /** Rotating a sequence does not change its sum. */
  lemma SumRotated(a: seq<real>, w: seq<real>, j: nat)
    requires j <= |w| && a == w[j..] + w[..j]
    ensures Sum(a) == Sum(w)
  {
    SumConcat(w[j..], w[..j]);
    SumConcat(w[..j], w[j..]);
    assert w[..j] + w[j..] == w;
  }

  /** GraphFrameHistory: the last 200 frame times for the graph. */
  class GraphFrameHistory {
    static const GraphFrameHistoryCount: nat := 200

    const values: array<real>
    var index: int
    ghost var history: seq<real>

    ghost predicate Valid()
      reads this, values
    {
      && values.Length == GraphFrameHistoryCount
      && index == Cursor(|history|, values.Length)
      && values[..] == Ring(history, values.Length)
    }

    constructor()
      ensures Valid() && fresh(values) && history == []
    {
      values := new real[GraphFrameHistoryCount](_ => 0.0);
      index := 0;
      history := [];
    }

    /** GraphFrameHistory::Add: the time goes in the slot at `index`, which then moves to the
        next slot, wrapping after the last. */
    method Add(frameTimeMs: real)
      requires Valid()
      modifies this, values
      ensures Valid()
      ensures values[..] == old(values[..])[old(index) := frameTimeMs]
      ensures index == (old(index) + 1) % GraphFrameHistoryCount && 0 <= index < GraphFrameHistoryCount
      ensures history == old(history) + [frameTimeMs]
    {
      values[index] := frameTimeMs;
      index := (index + 1) % GraphFrameHistoryCount;
      history := history + [frameTimeMs];
      assert history[..|history| - 1] == old(history);
      NextMod(old(index), GraphFrameHistoryCount);
    }
  }

  /** FrameTimer<N>: the last N samples of one timer; the sample to add next is `lastFrame`. */
  class FrameTimer {
    const N: nat
    const samples: array<real>
    var index: nat
    var count: nat
    var lastFrame: real
    ghost var history: seq<real>

    ghost predicate Valid()
      reads this, samples
    {
      && N > 0
      && samples.Length == N
      && index == Cursor(|history|, N)
      && count == |Window(history, N)|
      && samples[..] == Ring(history, N)
    }

    /** std::array modulo N needs N > 0. */
    constructor(n: nat)
      requires n > 0
      ensures Valid() && fresh(samples) && N == n && history == [] && lastFrame == 0.0
    {
      N := n;
      samples := new real[n](_ => 0.0);
      index, count, lastFrame := 0, 0, 0.0;
      history := [];
    }

    /** While the timer is not full, the next slot is the one after the samples taken. */
    lemma NotFullIndex()
      requires Valid() && count < N
      ensures index == count && samples[..count] == history
    {
      RingPrefix(history, N);
      CursorOf(0, |history|, N);
    }

    /** Once the timer is full, reading from the next slot to write round to it gives the last
        N samples, oldest first. */
    lemma FullOrder()
      requires Valid() && count == N
      ensures samples[index..] + samples[..index] == Window(history, N)
    {
      RingRotated(history, N, index);
      SwapHalves(samples[..], Window(history, N), N - index);
      assert samples[index..] == samples[..][index..];
      assert samples[..index] == samples[..][..index];
    }

    /** FrameTimer::AddSample: `lastFrame` goes in the slot at `index`, which moves on
        modulo N; `count` grows until it reaches N. */
    method AddSample()
      requires Valid()
      modifies this, samples
      ensures Valid() && lastFrame == old(lastFrame)
      ensures samples[..] == old(samples[..])[old(index) := old(lastFrame)]
      ensures index == Next(old(index), N)
      ensures count == if old(count) < N then old(count) + 1 else N
      ensures history == old(history) + [old(lastFrame)]
    {
      samples[index] := lastFrame;
      index := Advance(index, N);
      if count < N {
        count := count + 1;
      }
      history := history + [lastFrame];
      assert history[..|history| - 1] == old(history);
    }

    /** FrameTimer::GetAverage: 0 before any sample; otherwise the mean of `samples[0..count)`,
        which is the mean of the last min(count of samples taken, N) samples. */
    method GetAverage() returns (r: real)
      requires Valid()
      ensures r == Mean(Window(history, N))
    {
      if count == 0 {
        return 0.0;
      }
      var sum := 0.0;
      for i := 0 to count
        invariant sum == Sum(samples[..i])
      {
        assert samples[..i + 1][..i] == samples[..i];
        sum := sum + samples[i];
      }
      RingSum(history, N);
      r := sum / (count as real);
    }
  }

  /** The timers of Profiler, in declaration order. */
  const TimerNames: seq<string> := [
    "frame", "ui", "ui_profiling", "ui_component", "ui_viewport", "ui_hierarchy",
    "ui_hierarchy_buildList", "ui_hierarchy_render", "ui_logging", "ui_logging_copyBuffer",
    "ui_logging_render", "system", "system_render", "system_render_batching",
    "system_render_draw", "system_transform", "system_visibility"]

  /** The default N of FrameTimer. */
  const TimerSamples: nat := 120

  /** Profiler: the graph history and the timers, `timers[i]` being the one named
      `TimerNames[i]` (so `timers[0]` is `frame`). */
  class Profiler {
    const graph: GraphFrameHistory
    const timers: seq<FrameTimer>

    /** The timers and their arrays are distinct objects, apart from the graph's. */
    ghost predicate Valid()
      reads this, graph, graph.values, set i | 0 <= i < |timers| :: timers[i]
      reads set i | 0 <= i < |timers| :: timers[i].samples
    {
      && |timers| == |TimerNames|
      && graph.Valid()
      && (forall i :: 0 <= i < |timers| ==> timers[i].Valid() && timers[i].samples != graph.values)
      && (forall i, j :: 0 <= i < |timers| && 0 <= j < |timers| && i != j ==> timers[i] != timers[j] && timers[i].samples != timers[j].samples)
    }

    /** Every timer keeps FrameTimer's default of 120 samples. */
    constructor()
      ensures Valid() && fresh(graph) && graph.history == []
      ensures forall i :: 0 <= i < |timers| ==> fresh(timers[i]) && timers[i].N == TimerSamples && timers[i].history == []
      ensures forall i :: 0 <= i < |timers| ==> timers[i].lastFrame == 0.0
    {
      var g := new GraphFrameHistory();
      var ts: seq<FrameTimer> := [];
      while |ts| < |TimerNames|
        invariant |ts| <= |TimerNames| && g.Valid() && fresh(g) && g.history == []
        invariant forall i :: 0 <= i < |ts| ==> ts[i].Valid() && fresh(ts[i]) && ts[i].N == TimerSamples && ts[i].history == []
        invariant forall i :: 0 <= i < |ts| ==> ts[i].lastFrame == 0.0
        invariant forall i :: 0 <= i < |ts| ==> ts[i].samples != g.values
        invariant forall i, j :: 0 <= i < |ts| && 0 <= j < |ts| && i != j ==> ts[i] != ts[j] && ts[i].samples != ts[j].samples
      {
        var t := new FrameTimer(TimerSamples);
        ts := ts + [t];
      }
      graph, timers := g, ts;
    }

    /** The timer objects and their sample arrays. */
    ghost function TimerRepr(): set<object> {
      (set i | 0 <= i < |timers| :: timers[i]) + (set i | 0 <= i < |timers| :: timers[i].samples)
    }

    /** Profiler::UpdateAverages: the frame timer's last time goes into the graph history once,
        then every timer takes exactly one sample of its own last time, in declaration order. */
    method UpdateAverages()
      requires Valid()
      modifies graph, graph.values, TimerRepr()
      ensures Valid()
      ensures graph.history == old(graph.history) + [old(timers[0].lastFrame)]
      ensures forall i :: 0 <= i < |timers| ==> timers[i].history == old(timers[i].history) + [old(timers[i].lastFrame)]
      ensures forall i :: 0 <= i < |timers| ==> timers[i].lastFrame == old(timers[i].lastFrame)
    {
      graph.Add(timers[0].lastFrame);
      forall j | 0 <= j < |timers|
        ensures unchanged(timers[j], timers[j].samples)
      {
        assert timers[j].samples != graph.values;
      }
      SampleAll();
    }

    /** The AddSample calls of UpdateAverages, one per timer in declaration order. */
    method SampleAll()
      requires Valid()
      modifies TimerRepr()
      ensures Valid() && unchanged(graph, graph.values)
      ensures forall i :: 0 <= i < |timers| ==> timers[i].history == old(timers[i].history) + [old(timers[i].lastFrame)]
      ensures forall i :: 0 <= i < |timers| ==> timers[i].lastFrame == old(timers[i].lastFrame)
    {
      for i := 0 to |timers|
        invariant Valid() && unchanged(graph, graph.values)
        invariant forall j :: 0 <= j < i ==> timers[j].history == old(timers[j].history) + [old(timers[j].lastFrame)]
        invariant forall j :: 0 <= j < i ==> timers[j].lastFrame == old(timers[j].lastFrame)
        invariant forall j :: i <= j < |timers| ==> timers[j].history == old(timers[j].history) && timers[j].lastFrame == old(timers[j].lastFrame)
      {
        TakeSample(i);
      }
    }

    /** One AddSample call of UpdateAverages: only timer `i` changes. */
    method TakeSample(i: nat)
      requires Valid() && i < |timers|
      modifies timers[i], timers[i].samples
      ensures Valid()
      ensures timers[i].history == old(timers[i].history) + [old(timers[i].lastFrame)]
      ensures timers[i].lastFrame == old(timers[i].lastFrame)
      ensures forall j :: 0 <= j < |timers| && j != i ==> timers[j].history == old(timers[j].history) && timers[j].lastFrame == old(timers[j].lastFrame)
    {
      var t := timers[i];
      t.AddSample();
      assert forall j :: 0 <= j < |timers| ==> timers[j].Valid() by {
        forall j | 0 <= j < |timers| && j != i
          ensures timers[j].Valid() && unchanged(timers[j], timers[j].samples)
        {
          assert timers[j] != t && timers[j].samples != t.samples;
        }
      }
      assert graph.Valid() by {
        assert unchanged(graph, graph.values);
      }
    }
  }
}
