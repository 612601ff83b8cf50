/**
 Pairing the harness's input and flush marks into latency samples, and the
 cadence of those samples.
 */
module Evidence {
  import opened Wire

  datatype Kind = Input | Flush | Unknown
  datatype Mark = Mark(sequence: nat, kind: Kind, tick: i64, valid: bool)
  datatype Interval = Interval(start: i64, end: i64)
  datatype Sample = Sample(sequence: nat, injected: i64, flushed: i64, latency: i64)

  // ----- 64-bit differences

  const SPAN: int := 0x1_0000_0000_0000_0000
  const HALF: int := 0x8000_0000_0000_0000

  /** Two's complement, 64 bits wide. */
  function Wrap(x: int): i64 {
    var r := x % SPAN;
    if r < HALF then r else r - SPAN
  }

  lemma WrapExact(x: int)
    ensures Wrap(x) == x <==> -HALF <= x < HALF
    ensures 0 <= x < SPAN ==> (0 <= Wrap(x) <==> x < HALF)
  {
  }

  lemma WrapAdds(a: int, b: int)
    ensures Wrap(Wrap(a) + Wrap(b)) == Wrap(a + b)
  {
    hide Wrap;
    var p := WrapParts(a);
    var q := WrapParts(b);
    WrapShift(Wrap(a) + Wrap(b), p + q);
  }

  lemma WrapParts(x: int) returns (q: int)
    ensures x == Wrap(x) + q * SPAN
  {
    q := if x % SPAN < HALF then x / SPAN else x / SPAN + 1;
  }

  lemma WrapShift(x: int, q: int)
    ensures Wrap(x + q * SPAN) == Wrap(x)
  {
    var r, n := x % SPAN, x / SPAN;
    assert x + q * SPAN == r + (n + q) * SPAN;
  }

  // ----- What a well-formed trace is

  /** The marks of one sequence number, in order. */
  function Project(marks: seq<Mark>, s: nat): seq<Mark> {
    if marks == [] then []
    else
      var last := marks[|marks| - 1];
      var before := Project(marks[..|marks| - 1], s);
      if last.sequence == s then before + [last] else before
  }

  /** Inputs and flushes alternate, each flush no earlier than its input, and none is left open. */
  predicate WellPaired(p: seq<Mark>) {
    p == [] ||
    (|p| >= 2 && p[0].kind == Input && p[1].kind == Flush && p[0].tick <= p[1].tick && WellPaired(p[2..]))
  }

  predicate AllReadable(marks: seq<Mark>) {
    forall i :: 0 <= i < |marks| ==> marks[i].valid && marks[i].kind != Unknown
  }

  ghost predicate WellFormed(marks: seq<Mark>) {
    AllReadable(marks) && forall s: nat :: WellPaired(Project(marks, s))
  }

  // ----- The pairs of a trace

  /** The tick of the last mark of `s`; zero when there is none. */
  function LastTick(marks: seq<Mark>, s: nat): i64 {
    if marks == [] then 0
    else if marks[|marks| - 1].sequence == s then marks[|marks| - 1].tick
    else LastTick(marks[..|marks| - 1], s)
  }

  /** One sample per flush, in flush order, paired with the mark just before it in its sequence. */
  function Samples(marks: seq<Mark>): seq<Sample> {
    if marks == [] then []
    else
      var m := marks[|marks| - 1];
      var before := marks[..|marks| - 1];
      if m.kind == Flush then Samples(before) + [SampleOf(m, LastTick(before, m.sequence))] else Samples(before)
  }

  function SampleOf(flush: Mark, start: i64): Sample {
    Sample(flush.sequence, start, flush.tick, Wrap(flush.tick - start))
  }

  /** The samples injected at or after the start and flushed before the end. */
  function Within(es: seq<Sample>, interval: Interval): seq<Sample> {
    if es == [] then []
    else
      var e := es[|es| - 1];
      Within(es[..|es| - 1], interval) + (if e.injected >= interval.start && e.flushed < interval.end then [e] else [])
  }

  function Latencies(es: seq<Sample>): seq<i64> {
    seq(|es|, i requires 0 <= i < |es| => es[i].latency)
  }

  /** The samples of one sequence number. */
  function OfSequence(es: seq<Sample>, s: nat): seq<Sample> {
    if es == [] then []
    else
      var e := es[|es| - 1];
      OfSequence(es[..|es| - 1], s) + (if e.sequence == s then [e] else [])
  }

  /** The marks of one sequence number taken two by two. */
  function TwoByTwo(p: seq<Mark>): seq<Sample> {
    if |p| < 2 then [] else [SampleOf(p[1], p[0].tick)] + TwoByTwo(p[2..])
  }

  // ----- Reading a projection left to right

  /** `None` after an error; otherwise the tick of the open input, if one is open. */
  function Track(p: seq<Mark>): Option<Option<i64>> {
    if p == [] then Some(None) else TrackOne(Track(p[..|p| - 1]), p[|p| - 1])
  }

  function TrackOne(state: Option<Option<i64>>, m: Mark): Option<Option<i64>> {
    if state.None? then None
    else if m.kind == Input then (if state.value.Some? then None else Some(Some(m.tick)))
    else if m.kind == Flush then
      (if state.value.Some? && state.value.value <= m.tick then Some(None) else None)
    else None
  }

  lemma TrackSnoc(p: seq<Mark>, m: Mark)
    ensures Track(p + [m]) == TrackOne(Track(p), m)
  {
    assert (p + [m])[..|p|] == p;
  }

  lemma {:induction false} TrackDead(p: seq<Mark>, q: seq<Mark>)
    requires Track(p).None?
    ensures Track(p + q).None?
    decreases |q|
  {
    if q == [] {
      assert p + q == p;
    } else {
      TrackDead(p, q[..|q| - 1]);
      assert p + q == (p + q[..|q| - 1]) + [q[|q| - 1]];
      TrackSnoc(p + q[..|q| - 1], q[|q| - 1]);
    }
  }

  /** A projection reads through to a closed end exactly when it is well paired. */
  lemma {:induction false} TrackIsWellPaired(p: seq<Mark>)
    ensures Track(p) == Some(None) <==> WellPaired(p)
    decreases |p|
  {
    if |p| == 0 {
    } else if |p| == 1 {
      assert p == [] + [p[0]];
      TrackSnoc([], p[0]);
    } else {
      TrackIsWellPaired(p[2..]);
      TrackTwo(p);
    }
  }

  lemma TrackTwo(p: seq<Mark>)
    requires |p| >= 2
    ensures if p[0].kind == Input && p[1].kind == Flush && p[0].tick <= p[1].tick
            then Track(p) == Track(p[2..])
            else Track(p) != Some(None)
  {
    var a, b := [p[0]], [p[0], p[1]];
    assert a == [] + [p[0]] && b == a + [p[1]];
    TrackSnoc([], p[0]);
    TrackSnoc(a, p[1]);
    assert p == b + p[2..];
    if Track(b) == Some(None) {
      TrackFromClosed(b, p[2..]);
    } else {
      assert Track(b).None?;
      TrackDead(b, p[2..]);
    }
  }

  lemma {:induction false} TrackFromClosed(p: seq<Mark>, q: seq<Mark>)
    requires Track(p) == Some(None)
    ensures Track(p + q) == Track(q)
    decreases |q|
  {
    if q == [] {
      assert p + q == p;
    } else {
      TrackFromClosed(p, q[..|q| - 1]);
      assert p + q == (p + q[..|q| - 1]) + [q[|q| - 1]];
      TrackSnoc(p + q[..|q| - 1], q[|q| - 1]);
    }
  }

  lemma {:induction false} ProjectAppend(a: seq<Mark>, b: seq<Mark>, s: nat)
    ensures Project(a + b, s) == Project(a, s) + Project(b, s)
    decreases |b|
  {
    if b == [] {
      assert a + b == a;
    } else {
      var n := |b| - 1;
      ProjectAppend(a, b[..n], s);
      assert (a + b)[..|a + b| - 1] == a + b[..n];
      if b[n].sequence == s {
        assert Project(a, s) + (Project(b[..n], s) + [b[n]]) == (Project(a, s) + Project(b[..n], s)) + [b[n]];
      }
    }
  }

  predicate PairAt(p: seq<Mark>, i: nat)
    requires 2 * i + 1 < |p|
  {
    p[2 * i].kind == Input && p[2 * i + 1].kind == Flush && p[2 * i].tick <= p[2 * i + 1].tick
  }

  /** Well paired means: an even number of marks, inputs at even places, each followed by a flush no earlier. */
  lemma {:induction false} WellPairedExactly(p: seq<Mark>)
    ensures WellPaired(p) <==> |p| % 2 == 0 && forall i :: 0 <= i < |p| / 2 ==> PairAt(p, i)
    decreases |p|
  {
    if |p| >= 2 {
      var q := p[2..];
      WellPairedExactly(q);
      forall i | 0 <= i < |q| / 2 ensures PairAt(q, i) <==> PairAt(p, i + 1) {
        assert q[2 * i] == p[2 * (i + 1)] && q[2 * i + 1] == p[2 * (i + 1) + 1];
      }
      assert PairAt(p, 0) <==> p[0].kind == Input && p[1].kind == Flush && p[0].tick <= p[1].tick;
      hide PairAt;
      if WellPaired(p) {
        forall i | 0 <= i < |p| / 2 ensures PairAt(p, i) {
          assert i > 0 ==> PairAt(q, i - 1);
        }
      }
    }
  }

  /** A mark that breaks its sequence breaks the whole trace. */
  lemma BrokenMark(marks: seq<Mark>, i: nat)
    requires i < |marks|
    requires TrackOne(Track(Project(marks[..i], marks[i].sequence)), marks[i]).None?
    ensures !WellFormed(marks)
  {
    var s := marks[i].sequence;
    var p := Project(marks[..i], s);
    TrackSnoc(p, marks[i]);
    OneMoreMark(marks, i);
    ProjectAppend(marks[..i + 1], marks[i + 1..], s);
    assert marks == marks[..i + 1] + marks[i + 1..];
    TrackDead(Project(marks[..i + 1], s), Project(marks[i + 1..], s));
    TrackIsWellPaired(Project(marks, s));
  }

  lemma OneMoreMark(marks: seq<Mark>, i: nat)
    requires i < |marks|
    ensures forall s: nat :: Project(marks[..i + 1], s)
              == if marks[i].sequence == s then Project(marks[..i], s) + [marks[i]] else Project(marks[..i], s)
  {
    assert marks[..i + 1][..i] == marks[..i] && marks[..i + 1][i] == marks[i];
  }

  lemma OneMoreTick(marks: seq<Mark>, i: nat, s: nat)
    requires i < |marks|
    ensures LastTick(marks[..i + 1], s) == if marks[i].sequence == s then marks[i].tick else LastTick(marks[..i], s)
  {
    assert marks[..i + 1][..i] == marks[..i] && marks[..i + 1][i] == marks[i];
  }

  /** Where each sequence stands after the first `i` marks. */
  ghost predicate Tracks(starts: map<nat, i64>, marks: seq<Mark>) {
    forall s: nat :: Track(Project(marks, s)) == Some(if s in starts then Some(starts[s]) else None)
  }

  ghost predicate TicksMatch(starts: map<nat, i64>, marks: seq<Mark>) {
    forall s: nat :: s in starts ==> starts[s] == LastTick(marks, s)
  }

  lemma TracksOneMore(starts: map<nat, i64>, marks: seq<Mark>, i: nat)
    requires i < |marks| && Tracks(starts, marks[..i]) && TicksMatch(starts, marks[..i])
    requires marks[i].kind != Unknown
    ensures var m := marks[i];
            if m.kind == Input && m.sequence !in starts then
              Tracks(starts[m.sequence := m.tick], marks[..i + 1])
                  && TicksMatch(starts[m.sequence := m.tick], marks[..i + 1])
            else if m.kind == Flush && m.sequence in starts && starts[m.sequence] <= m.tick then
              Tracks(starts - {m.sequence}, marks[..i + 1]) && TicksMatch(starts - {m.sequence}, marks[..i + 1])
            else !WellFormed(marks)
  {
    var m := marks[i];
    OneMoreMark(marks, i);
    forall s: nat ensures LastTick(marks[..i + 1], s) == if m.sequence == s then m.tick else LastTick(marks[..i], s) {
      OneMoreTick(marks, i, s);
    }
    TrackSnoc(Project(marks[..i], m.sequence), m);
    assert Track(Project(marks[..i], m.sequence))
        == Some(if m.sequence in starts then Some(starts[m.sequence]) else None);
    if TrackOne(Track(Project(marks[..i], m.sequence)), m).None? {
      BrokenMark(marks, i);
    }
  }

  // ----- The samples are the pairs of each sequence

  lemma TwoByTwoFirst(a: Mark, b: Mark, q: seq<Mark>)
    ensures TwoByTwo([a, b] + q) == [SampleOf(b, a.tick)] + TwoByTwo(q)
  {
    assert ([a, b] + q)[2..] == q;
  }

  lemma {:induction false} TwoByTwoSnoc(p: seq<Mark>, m: Mark)
    ensures |p| % 2 == 0 ==> TwoByTwo(p + [m]) == TwoByTwo(p)
    ensures |p| % 2 == 1 ==> TwoByTwo(p + [m]) == TwoByTwo(p) + [SampleOf(m, p[|p| - 1].tick)]
    decreases |p|
  {
    if |p| < 2 {
      TwoByTwoShort(p, m);
    } else {
      hide TwoByTwo;
      var q := p[2..];
      TwoByTwoSnoc(q, m);
      TwoByTwoFirst(p[0], p[1], q);
      TwoByTwoFirst(p[0], p[1], q + [m]);
      assert p == [p[0], p[1]] + q;
      assert p + [m] == [p[0], p[1]] + (q + [m]);
      assert |p| == |q| + 2;
    }
  }

  lemma TwoByTwoShort(p: seq<Mark>, m: Mark)
    requires |p| < 2
    ensures |p| == 0 ==> TwoByTwo(p + [m]) == TwoByTwo(p)
    ensures |p| == 1 ==> TwoByTwo(p + [m]) == TwoByTwo(p) + [SampleOf(m, p[0].tick)]
  {
    if |p| == 1 {
      TwoByTwoFirst(p[0], m, []);
      assert p + [m] == [p[0], m] + [];
    }
  }

  /** An input is open exactly after an odd number of marks. */
  lemma {:induction false} OpenAfterOdd(p: seq<Mark>)
    requires Track(p).Some?
    ensures Track(p).value.Some? <==> |p| % 2 == 1
  {
    if p != [] {
      OpenAfterOdd(p[..|p| - 1]);
    }
  }

  lemma {:induction false} LastTickIsProjected(marks: seq<Mark>, s: nat)
    ensures Project(marks, s) != [] ==> LastTick(marks, s) == Project(marks, s)[|Project(marks, s)| - 1].tick
  {
    if marks != [] {
      LastTickIsProjected(marks[..|marks| - 1], s);
    }
  }

  lemma OfSequenceSnoc(es: seq<Sample>, e: Sample, s: nat)
    ensures OfSequence(es + [e], s) == OfSequence(es, s) + if e.sequence == s then [e] else []
  {
    assert (es + [e])[..|es|] == es;
  }

  /**
   Of every trace, well formed or cut off, each sequence number's samples are
   its own marks taken two by two: nothing is paired across sequences, dropped
   or counted twice.
   */
  lemma {:induction false} SamplesArePairs(marks: seq<Mark>, s: nat)
    requires Track(Project(marks, s)).Some?
    ensures OfSequence(Samples(marks), s) == TwoByTwo(Project(marks, s))
  {
    if marks != [] {
      var n := |marks| - 1;
      var m, before := marks[n], marks[..n];
      var p := Project(before, s);
      if m.sequence == s {
        TrackSnoc(p, m);
        TwoByTwoSnoc(p, m);
        OpenAfterOdd(p);
        LastTickIsProjected(before, s);
      }
      SamplesArePairs(before, s);
      if m.kind == Flush {
        OfSequenceSnoc(Samples(before), SampleOf(m, LastTick(before, m.sequence)), s);
      }
    }
  }

  predicate InOrder(a: Sample, b: Sample) {
    a.injected < b.injected || (a.injected == b.injected && a.sequence <= b.sequence)
  }

  predicate SortedSamples(es: seq<Sample>) {
    forall i, j :: 0 <= i < j < |es| ==> InOrder(es[i], es[j])
  }

  method SortSamples(es: seq<Sample>) returns (r: seq<Sample>)
    ensures SortedSamples(r) && multiset(r) == multiset(es)
  {
    r := [];
    for i := 0 to |es|
      invariant SortedSamples(r) && multiset(r) == multiset(es[..i])
    {
      var p := 0;
      while p < |r| && InOrder(r[p], es[i])
        invariant 0 <= p <= |r| && forall j :: 0 <= j < p ==> InOrder(r[j], es[i])
      {
        p := p + 1;
      }
      assert es[..i + 1] == es[..i] + [es[i]];
      assert r == r[..p] + r[p..];
      r := r[..p] + [es[i]] + r[p..];
    }
    assert es[..|es|] == es;
  }

  /** How often a sample is in the interval: as often as it was taken, or not at all. */
  lemma {:induction false} WithinExactly(es: seq<Sample>, interval: Interval, e: Sample)
    ensures multiset(Within(es, interval))[e]
            == if interval.start <= e.injected && e.flushed < interval.end then multiset(es)[e] else 0
  {
    if es != [] {
      var n := |es| - 1;
      WithinExactly(es[..n], interval, e);
      assert es == es[..n] + [es[n]];
    }
  }

  /** The samples injected at or after the start and flushed before the end, each as often as it was taken. */
  ghost predicate ExactlyThoseWithin(rs: seq<Sample>, es: seq<Sample>, interval: Interval) {
    forall e: Sample ::
      multiset(rs)[e] == if interval.start <= e.injected && e.flushed < interval.end then multiset(es)[e] else 0
  }

  lemma WithinIsExact(rs: seq<Sample>, es: seq<Sample>, interval: Interval)
    requires multiset(rs) == multiset(Within(es, interval))
    ensures ExactlyThoseWithin(rs, es, interval)
  {
    forall e: Sample
      ensures multiset(rs)[e] == if interval.start <= e.injected && e.flushed < interval.end then multiset(es)[e] else 0
    {
      WithinExactly(es, interval, e);
    }
  }

  /**
   Succeeds exactly on a non-negative interval and a well-formed trace; the
   result is the in-interval pairs, sorted by injection tick.
   */
  method MeasuredEventSamples(marks: seq<Mark>, interval: Interval) returns (res: Option<seq<Sample>>)
    ensures res.Some? <==> interval.start <= interval.end && WellFormed(marks)
    ensures res.Some? ==> SortedSamples(res.value)
    ensures res.Some? ==> ExactlyThoseWithin(res.value, Samples(marks), interval)
  {
    hide WellFormed, Tracks, TicksMatch, Track, Project, ExactlyThoseWithin;
    if interval.end < interval.start {
      return None;
    }
    var starts: map<nat, i64> := map[];
    var events: seq<Sample> := [];
    NothingOpen(marks);
    for i := 0 to |marks|
      invariant AllReadable(marks[..i])
      invariant Tracks(starts, marks[..i]) && TicksMatch(starts, marks[..i])
      invariant events == Within(Samples(marks[..i]), interval)
    {
      var m := marks[i];
      assert marks[..i + 1][..i] == marks[..i] && marks[..i + 1][i] == m;
      if !m.valid || m.kind == Unknown {
        Unreadable(marks, i);
        return None;
      }
      TracksOneMore(starts, marks, i);
      if m.kind == Input {
        if m.sequence in starts {
          return None;
        }
        starts := starts[m.sequence := m.tick];
      } else {
        if m.sequence !in starts {
          return None;
        }
        var start := starts[m.sequence];
        StartIsLastTick(starts, marks[..i], m.sequence);
        if m.tick < start {
          return None;
        }
        starts := starts - {m.sequence};
        assert (Samples(marks[..i]) + [SampleOf(m, start)])[..|Samples(marks[..i])|] == Samples(marks[..i]);
        if start >= interval.start && m.tick < interval.end {
          events := events + [SampleOf(m, start)];
        }
      }
    }
    assert marks[..|marks|] == marks;
    if starts != map[] {
      LeftOpen(starts, marks);
      return None;
    }
    AllClosed(marks);
    var sorted := SortSamples(events);
    WithinIsExact(sorted, Samples(marks), interval);
    return Some(sorted);
  }

  lemma NothingOpen(marks: seq<Mark>)
    ensures Tracks(map[], marks[..0]) && TicksMatch(map[], marks[..0])
  {
    assert marks[..0] == [];
  }

  lemma Unreadable(marks: seq<Mark>, i: nat)
    requires i < |marks| && (!marks[i].valid || marks[i].kind == Unknown)
    ensures !WellFormed(marks)
  {
  }

  lemma StartIsLastTick(starts: map<nat, i64>, marks: seq<Mark>, s: nat)
    requires TicksMatch(starts, marks) && s in starts
    ensures starts[s] == LastTick(marks, s)
  {
  }

  lemma LeftOpen(starts: map<nat, i64>, marks: seq<Mark>)
    requires Tracks(starts, marks) && starts != map[]
    ensures !WellFormed(marks)
  {
    var s :| s in starts;
    TrackIsWellPaired(Project(marks, s));
    assert Track(Project(marks, s)) == Some(Some(starts[s]));
  }

  lemma AllClosed(marks: seq<Mark>)
    requires AllReadable(marks) && Tracks(map[], marks)
    ensures WellFormed(marks)
  {
    forall s: nat ensures WellPaired(Project(marks, s)) {
      TrackIsWellPaired(Project(marks, s));
    }
  }

  /** Succeeds exactly on a well-formed trace with at least one flush, with every pair's latency in flush order. */
  method PairedSamples(marks: seq<Mark>) returns (res: Option<seq<i64>>)
    ensures res.Some? <==> WellFormed(marks) && Samples(marks) != []
    ensures res.Some? ==> res.value == Latencies(Samples(marks))
  {
    hide WellFormed, Tracks, TicksMatch, Track, Project;
    var starts: map<nat, i64> := map[];
    var out: seq<i64> := [];
    NothingOpen(marks);
    for i := 0 to |marks|
      invariant AllReadable(marks[..i])
      invariant Tracks(starts, marks[..i]) && TicksMatch(starts, marks[..i])
      invariant out == Latencies(Samples(marks[..i]))
    {
      var m := marks[i];
      assert marks[..i + 1][..i] == marks[..i] && marks[..i + 1][i] == m;
      if !m.valid || m.kind == Unknown {
        Unreadable(marks, i);
        return None;
      }
      TracksOneMore(starts, marks, i);
      if m.kind == Input {
        if m.sequence in starts {
          return None;
        }
        starts := starts[m.sequence := m.tick];
      } else {
        if m.sequence !in starts {
          return None;
        }
        var start := starts[m.sequence];
        StartIsLastTick(starts, marks[..i], m.sequence);
        if m.tick < start {
          return None;
        }
        out := out + [Wrap(m.tick - start)];
        starts := starts - {m.sequence};
      }
    }
    assert marks[..|marks|] == marks;
    if starts != map[] {
      LeftOpen(starts, marks);
      return None;
    }
    AllClosed(marks);
    if out == [] {
      return None;
    }
    return Some(out);
  }

  // ----- Cadence

  function Sum(xs: seq<int>): int {
    if xs == [] then 0 else Sum(xs[..|xs| - 1]) + xs[|xs| - 1]
  }

  /** Gaps modulo 2^64; exact and non-negative for sorted samples that span less than 2^63. */
  method EventCadenceSamples(events: seq<Sample>) returns (gaps: seq<i64>, maxGap: i64)
    ensures |gaps| == if |events| < 2 then 0 else |events| - 1
    ensures forall i :: 0 <= i < |gaps| ==>
              gaps[i] <= maxGap && gaps[i] == Wrap(events[i + 1].injected - events[i].injected)
    ensures maxGap >= 0 && (maxGap == 0 || maxGap in gaps)
    ensures |events| > 0 ==> Wrap(Sum(gaps)) == Wrap(events[|events| - 1].injected - events[0].injected)
    ensures SortedSamples(events) ==>
              forall i :: 0 <= i < |gaps| ==> (0 <= gaps[i] <==> events[i + 1].injected - events[i].injected < HALF)
    ensures SortedSamples(events) && |events| > 0 && events[|events| - 1].injected - events[0].injected < HALF ==>
              Sum(gaps) == events[|events| - 1].injected - events[0].injected && forall i :: 0 <= i < |gaps| ==>
                  0 <= gaps[i]
  {
    hide Wrap;
    if |events| < 2 {
      return [], 0;
    }
    gaps, maxGap := [], 0;
    WrapExact(0);
    for i := 1 to |events|
      invariant |gaps| == i - 1 && maxGap >= 0
      invariant forall j :: 0 <= j < |gaps| ==>
                  gaps[j] <= maxGap && gaps[j] == Wrap(events[j + 1].injected - events[j].injected)
      invariant maxGap == 0 || maxGap in gaps
    {
      var gap := Wrap(events[i].injected - events[i - 1].injected);
      gaps := gaps + [gap];
      if gap > maxGap {
        maxGap := gap;
      }
    }
    GapsAddUp(events, gaps);
    SortedGaps(events, gaps);
  }

  ghost predicate AreGaps(events: seq<Sample>, gaps: seq<i64>) {
    |gaps| + 1 == |events| && forall i :: 0 <= i < |gaps| ==>
        gaps[i] == Wrap(events[i + 1].injected - events[i].injected)
  }

  lemma {:induction false} GapsAddUp(events: seq<Sample>, gaps: seq<i64>)
    requires AreGaps(events, gaps)
    ensures Wrap(Sum(gaps)) == Wrap(events[|gaps|].injected - events[0].injected)
    decreases |gaps|
  {
    hide Wrap;
    if gaps == [] {
    } else {
      var n := |gaps| - 1;
      GapsAddUp(events[..n + 1], gaps[..n]);
      WrapAdds(Sum(gaps[..n]), gaps[n]);
      WrapAdds(events[n].injected - events[0].injected, events[n + 1].injected - events[n].injected);
      WrapExact(gaps[n]);
    }
  }

  lemma SortedGaps(events: seq<Sample>, gaps: seq<i64>)
    requires AreGaps(events, gaps)
    ensures SortedSamples(events) ==>
              forall i :: 0 <= i < |gaps| ==> (0 <= gaps[i] <==> events[i + 1].injected - events[i].injected < HALF)
    ensures SortedSamples(events) && events[|gaps|].injected - events[0].injected < HALF ==>
              Sum(gaps) == events[|gaps|].injected - events[0].injected && forall i :: 0 <= i < |gaps| ==> 0 <= gaps[i]
  {
    hide Wrap, Sum;
    if SortedSamples(events) {
      forall i | 0 <= i < |gaps| ensures 0 <= gaps[i] <==> events[i + 1].injected - events[i].injected < HALF {
        assert InOrder(events[i], events[i + 1]);
        WrapExact(events[i + 1].injected - events[i].injected);
      }
      if events[|gaps|].injected - events[0].injected < HALF {
        ExactGaps(events, gaps);
      }
    }
  }

  lemma {:induction false} ExactGaps(events: seq<Sample>, gaps: seq<i64>)
    requires AreGaps(events, gaps) && SortedSamples(events) && events[|gaps|].injected - events[0].injected < HALF
    ensures Sum(gaps) == events[|gaps|].injected - events[0].injected && forall i :: 0 <= i < |gaps| ==> 0 <= gaps[i]
    decreases |gaps|
  {
    hide Wrap;
    if gaps == [] {
    } else {
      var n := |gaps| - 1;
      assert InOrder(events[n], events[n + 1]) && (n > 0 ==> InOrder(events[0], events[n]));
      WrapExact(events[n + 1].injected - events[n].injected);
      ExactGaps(events[..n + 1], gaps[..n]);
      assert forall i :: 0 <= i < n ==> gaps[..n][i] == gaps[i];
    }
  }

  /**
   Of a well-formed trace, a sample's latency is its true length, or not negative, exactly when
   that is below 2^63.
   */
  lemma LatencyExactly(marks: seq<Mark>, i: nat)
    requires WellFormed(marks) && i < |Samples(marks)|
    ensures var e := Samples(marks)[i];
            && 0 <= e.flushed - e.injected
            && (e.latency == e.flushed - e.injected <==> e.flushed - e.injected < HALF)
            && (0 <= e.latency <==> e.flushed - e.injected < HALF)
  {
    hide Wrap, Samples, Project;
    forall s: nat ensures Track(Project(marks, s)).Some? {
      TrackIsWellPaired(Project(marks, s));
    }
    SamplesInOrder(marks, i);
    WrapExact(Samples(marks)[i].flushed - Samples(marks)[i].injected);
  }

  lemma {:induction false} SamplesInOrder(marks: seq<Mark>, i: nat)
    requires (forall s: nat :: Track(Project(marks, s)).Some?) && i < |Samples(marks)|
    ensures var e := Samples(marks)[i];
            e.injected <= e.flushed && e.latency == Wrap(e.flushed - e.injected)
  {
    hide Wrap;
    var n := |marks| - 1;
    var m, before := marks[n], marks[..n];
    var p := Project(before, m.sequence);
    forall s: nat ensures Track(Project(before, s)).Some? {
      TrackSnoc(Project(before, s), m);
      assert Track(Project(marks, s)).Some?;
    }
    if i < |Samples(before)| {
      SamplesInOrder(before, i);
    } else {
      TrackSnoc(p, m);
      assert Track(Project(marks, m.sequence)).Some?;
      OpenIsLast(p);
      LastTickIsProjected(before, m.sequence);
    }
  }

  lemma OpenIsLast(p: seq<Mark>)
    requires Track(p).Some? && Track(p).value.Some?
    ensures p != [] && p[|p| - 1].tick == Track(p).value.value
  {
  }

  /** A well-formed trace whose one latency wraps to -1. */
  lemma LongWaitWraps() returns (marks: seq<Mark>)
    ensures WellFormed(marks) && Samples(marks) == [Sample(0, -HALF, HALF - 1, -1)]
  {
    var input, flush := Mark(0, Input, -HALF, true), Mark(0, Flush, HALF - 1, true);
    marks := [input, flush];
    assert marks[..1] == [input] && [input][..0] == [];
    assert Samples([input]) == [] && LastTick([input], 0) == -HALF;
    forall s: nat ensures WellPaired(Project(marks, s)) {
      assert Project([input], s) == if s == 0 then [input] else [];
      assert Project(marks, s) == if s == 0 then marks else [];
      assert marks[2..] == [];
    }
  }
}
