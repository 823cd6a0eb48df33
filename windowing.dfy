/** The swell-event windowing scan, stated once as a left fold over the samples, and
    what it guarantees. Both the realtime and the historic scan are this fold; they
    differ only in the predicate that marks a sample as qualifying and in the order
    in which they store an event's two endpoints (module Scans). */
module Windowing {

  /** A sample as the scan sees it: its timestamp in seconds and whether it meets the
      height predicate. */
  datatype Reading = Reading(time: int, ok: bool)

  /** A recorded event: the first and the last timestamp the accumulator held when the
      event was recorded. */
  datatype Event = Event(start: int, end: int)

  /** The scan's state: the accumulator `swell_event` and the events recorded so far. */
  datatype ScanState = ScanState(acc: seq<int>, events: seq<Event>)

  /** Positions of an event's first and last sample in the scanned sequence. */
  datatype Span = Span(lo: int, hi: int)

  function Abs(x: int): nat { if x < 0 then -x else x }

  /** `abs(swell_event[0] - swell_event[-1]).total_seconds() >= window*3600`. */
  predicate LongEnough(acc: seq<int>, window: int)
    requires |acc| > 0
  {
    Abs(acc[0] - acc[|acc| - 1]) >= window * 3600
  }

  /** One iteration of the loop body. */
  function Step(st: ScanState, r: Reading, window: int): ScanState
  {
    if r.ok then
      var acc := st.acc + [r.time];
      if LongEnough(acc, window) then ScanState([], st.events + [Event(acc[0], acc[|acc| - 1])])
      else ScanState(acc, st.events)
    else ScanState([], st.events)
  }

  /** The state after the loop has run over all of `rs`, starting from empty lists. */
  function Scan(rs: seq<Reading>, window: int): ScanState
    decreases |rs|
  {
    if rs == [] then ScanState([], [])
    else Step(Scan(rs[..|rs| - 1], window), rs[|rs| - 1], window)
  }

  function Times(rs: seq<Reading>): (ts: seq<int>)
    ensures |ts| == |rs|
    ensures forall i :: 0 <= i < |rs| ==> ts[i] == rs[i].time
  {
    seq(|rs|, i requires 0 <= i < |rs| => rs[i].time)
  }

  /** The spans after the sample at position `n` is scanned from state `before`: an event
      recorded there covers the accumulated run and that sample. */
  function StepSpans(before: ScanState, sp: seq<Span>, r: Reading, n: int, window: int): seq<Span>
  {
    if r.ok && LongEnough(before.acc + [r.time], window) then sp + [Span(n - |before.acc|, n)]
    else sp
  }

  /** Where each recorded event's samples sit in `rs`; follows `Scan` step by step. */
  function Spans(rs: seq<Reading>, window: int): seq<Span>
    decreases |rs|
  {
    if rs == [] then []
    else
      var n := |rs| - 1;
      StepSpans(Scan(rs[..n], window), Spans(rs[..n], window), rs[n], n, window)
  }

  lemma ScanSnoc(rs: seq<Reading>, r: Reading, window: int)
    ensures Scan(rs + [r], window) == Step(Scan(rs, window), r, window)
    ensures Spans(rs + [r], window) == StepSpans(Scan(rs, window), Spans(rs, window), r, |rs|, window)
  {
    assert (rs + [r])[..|rs|] == rs;
  }

  /** The step rule and the trigger rule. A failing sample empties the accumulator and
      records nothing. A qualifying sample is appended; if the accumulator's first and
      last timestamps are then at least `window` hours apart, exactly one event with
      those endpoints is recorded and the accumulator is emptied, and otherwise nothing
      is recorded. */
  lemma StepRule(rs: seq<Reading>, r: Reading, window: int)
    ensures var before, after := Scan(rs, window), Scan(rs + [r], window);
      var grown := before.acc + [r.time];
      && (!r.ok ==> after == ScanState([], before.events))
      && (r.ok && !LongEnough(grown, window) ==> after == ScanState(grown, before.events))
      && (r.ok && LongEnough(grown, window) ==>
            after == ScanState([], before.events + [Event(grown[0], r.time)]))
      && (|after.events| == |before.events| + 1 <==> r.ok && LongEnough(grown, window))
      && (|after.events| != |before.events| + 1 ==> after.events == before.events)
  {
    ScanSnoc(rs, r, window);
  }

  /** What the accumulator holds after the first `i` samples of `rs`: the timestamps of
      the trailing run of qualifying samples not yet recorded, a run still shorter than the
      window. */
  ghost predicate Pending(rs: seq<Reading>, i: int, acc: seq<int>, window: int)
  {
    && |acc| <= i <= |rs|
    && (forall k :: 0 <= k < |acc| ==> acc[k] == rs[i - |acc| + k].time)
    && (forall k :: i - |acc| <= k < i ==> rs[k].ok)
    && (|acc| > 0 ==> !LongEnough(acc, window))
  }

  /** `sp` places each of `events` on a block of consecutive qualifying samples of `rs`
      lying before position `bound`: the event's endpoints are the timestamps of the
      block's first and last sample, they are at least `window` hours apart, and the
      blocks come in order without sharing a sample. */
  ghost predicate Placed(rs: seq<Reading>, events: seq<Event>, sp: seq<Span>, bound: int, window: int)
  {
    && bound <= |rs|
    && |sp| == |events|
    && (forall k :: 0 <= k < |sp| ==>
          && 0 <= sp[k].lo <= sp[k].hi < bound
          && events[k] == Event(rs[sp[k].lo].time, rs[sp[k].hi].time)
          && Abs(events[k].start - events[k].end) >= window * 3600
          && RunOk(rs, sp[k]))
    && (forall k :: 0 < k < |sp| ==> sp[k - 1].hi < sp[k].lo)
  }

  /** The pending run after the first `i` samples starts where the scan last restarted:
      at the beginning, right after a failing sample, or right after the last sample of
      the last recorded event. With `Pending`, the accumulator is exactly the run of
      samples since the last reset. */
  ghost predicate RunStart(rs: seq<Reading>, i: int, acc: seq<int>, sp: seq<Span>)
  {
    var m := i - |acc|;
    && |acc| <= i
    && (m == 0 || (m <= |rs| && (!rs[m - 1].ok || (|sp| > 0 && sp[|sp| - 1].hi == m - 1))))
  }

  /** Every sample of the block `s` qualifies. */
  ghost predicate RunOk(rs: seq<Reading>, s: Span)
  {
    forall j :: s.lo <= j <= s.hi && 0 <= j < |rs| ==> rs[j].ok
  }

  /** Scanning one more sample of `rs`. */
  lemma ScanPrefix(rs: seq<Reading>, i: int, window: int)
    requires 0 < i <= |rs|
    ensures Scan(rs[..i], window) == Step(Scan(rs[..i - 1], window), rs[i - 1], window)
    ensures Spans(rs[..i], window) ==
            StepSpans(Scan(rs[..i - 1], window), Spans(rs[..i - 1], window), rs[i - 1], i - 1, window)
  {
    assert rs[..i][..i - 1] == rs[..i - 1];
  }

  lemma PendingStep(rs: seq<Reading>, i: int, before: ScanState, window: int)
    requires 0 <= i < |rs| && Pending(rs, i, before.acc, window)
    ensures Pending(rs, i + 1, Step(before, rs[i], window).acc, window)
  {
    var grown := before.acc + [rs[i].time];
    if rs[i].ok && !LongEnough(grown, window) {
      assert forall k :: 0 <= k < |grown| ==> grown[k] == rs[i + 1 - |grown| + k].time;
    }
  }

  /** One step of the scan keeps the events placed. */
  lemma PlacedStep(rs: seq<Reading>, i: int, before: ScanState, sp: seq<Span>, window: int)
    requires 0 <= i < |rs|
    requires Pending(rs, i, before.acc, window)
    requires Placed(rs, before.events, sp, i - |before.acc|, window)
    ensures var after := Step(before, rs[i], window);
      Placed(rs, after.events, StepSpans(before, sp, rs[i], i, window), i + 1 - |after.acc|, window)
  {
    if rs[i].ok && LongEnough(before.acc + [rs[i].time], window) {
      PlacedRecord(rs, i, before, sp, window);
    }
  }

  /** A recorded event covers the accumulated run and the sample that completed it. */
  lemma PlacedRecord(rs: seq<Reading>, i: int, before: ScanState, sp: seq<Span>, window: int)
    requires 0 <= i < |rs|
    requires Pending(rs, i, before.acc, window)
    requires Placed(rs, before.events, sp, i - |before.acc|, window)
    requires rs[i].ok && LongEnough(before.acc + [rs[i].time], window)
    ensures var after := Step(before, rs[i], window);
      Placed(rs, after.events, StepSpans(before, sp, rs[i], i, window), i + 1 - |after.acc|, window)
  {
    var m := |before.acc|;
    var grown := before.acc + [rs[i].time];
    assert grown[|grown| - 1] == rs[i].time;
    assert grown[0] == rs[i - m].time;
    assert RunOk(rs, Span(i - m, i));
    assert Step(before, rs[i], window) == ScanState([], before.events + [Event(grown[0], rs[i].time)]);
    PlacedAppend(rs, before.events, sp, i - m, Event(grown[0], rs[i].time), Span(i - m, i), i + 1, window);
  }

  lemma PlacedAppend(rs: seq<Reading>, events: seq<Event>, sp: seq<Span>, bound: int,
                     e: Event, s: Span, bound': int, window: int)
    requires Placed(rs, events, sp, bound, window)
    requires 0 <= bound <= s.lo <= s.hi < bound' <= |rs|
    requires e == Event(rs[s.lo].time, rs[s.hi].time) && Abs(e.start - e.end) >= window * 3600
    requires RunOk(rs, s)
    ensures Placed(rs, events + [e], sp + [s], bound', window)
  {
    var events', sp' := events + [e], sp + [s];
    assert forall k :: 0 <= k < |sp| ==> sp'[k] == sp[k] && events'[k] == events[k];
    assert sp'[|sp|] == s && events'[|sp|] == e;
  }

  /** The invariants of the loop after its first `i` iterations. */
  lemma {:induction false} ScanInvariant(rs: seq<Reading>, i: int, window: int)
    requires 0 <= i <= |rs|
    ensures Pending(rs, i, Scan(rs[..i], window).acc, window)
    ensures Placed(rs, Scan(rs[..i], window).events, Spans(rs[..i], window), i - |Scan(rs[..i], window).acc|, window)
    decreases i
  {
    if i == 0 {
      assert rs[..0] == [];
    } else {
      ScanInvariant(rs, i - 1, window);
      ScanPrefix(rs, i, window);
      PendingStep(rs, i - 1, Scan(rs[..i - 1], window), window);
      PlacedStep(rs, i - 1, Scan(rs[..i - 1], window), Spans(rs[..i - 1], window), window);
    }
  }

  lemma RunStartStep(rs: seq<Reading>, i: int, window: int)
    requires 0 <= i < |rs|
    requires RunStart(rs, i, Scan(rs[..i], window).acc, Spans(rs[..i], window))
    ensures RunStart(rs, i + 1, Scan(rs[..i + 1], window).acc, Spans(rs[..i + 1], window))
  {
    var before, sp := Scan(rs[..i], window), Spans(rs[..i], window);
    ScanPrefix(rs, i + 1, window);
    var acc, sp' := Scan(rs[..i + 1], window).acc, Spans(rs[..i + 1], window);
    var grown := before.acc + [rs[i].time];
    if !rs[i].ok {
      assert acc == [];
    } else if LongEnough(grown, window) {
      assert acc == [] && sp' == sp + [Span(i - |before.acc|, i)];
    } else {
      assert acc == grown && sp' == sp;
    }
  }

  /** Where the pending run starts, after the first `i` iterations. */
  lemma {:induction false} RunStartInvariant(rs: seq<Reading>, i: int, window: int)
    requires 0 <= i <= |rs|
    ensures RunStart(rs, i, Scan(rs[..i], window).acc, Spans(rs[..i], window))
    decreases i
  {
    if i == 0 {
      assert rs[..0] == [];
    } else {
      RunStartInvariant(rs, i - 1, window);
      RunStartStep(rs, i - 1, window);
    }
  }

  /** The accumulator invariant: after the whole scan the accumulator holds the timestamps
      of the samples since the scan last restarted (at the beginning, after a failing
      sample, or after the last recorded event), all of them qualifying, and that run is
      still shorter than the window; the last recorded event ends before that run begins.
      `AccumulatorUnique` shows that these facts leave only one possible accumulator. */
  lemma AccumulatorShape(rs: seq<Reading>, window: int)
    ensures Pending(rs, |rs|, Scan(rs, window).acc, window)
    ensures RunStart(rs, |rs|, Scan(rs, window).acc, Spans(rs, window))
    ensures AfterLastEvent(rs, Scan(rs, window).acc, Spans(rs, window))
  {
    TakeAll(rs);
    ScanInvariant(rs, |rs|, window);
    RunStartInvariant(rs, |rs|, window);
  }

  /** The last recorded event's block ends before the pending run of `acc` begins. */
  ghost predicate AfterLastEvent(rs: seq<Reading>, acc: seq<int>, sp: seq<Span>)
  {
    |sp| > 0 ==> sp[|sp| - 1].hi < |rs| - |acc|
  }

  /** Any accumulator with the shape `AccumulatorShape` states is the scan's own. */
  lemma AccumulatorUnique(rs: seq<Reading>, window: int, acc: seq<int>)
    requires Pending(rs, |rs|, acc, window)
    requires RunStart(rs, |rs|, acc, Spans(rs, window))
    requires AfterLastEvent(rs, acc, Spans(rs, window))
    ensures acc == Scan(rs, window).acc
  {
    var scanned := Scan(rs, window).acc;
    AccumulatorShape(rs, window);
    RunStartUnique(rs, window, acc, scanned);
    RunStartUnique(rs, window, scanned, acc);
    assert |acc| == |scanned|;
    assert forall k :: 0 <= k < |acc| ==> acc[k] == scanned[k];
  }

  /** Two runs of this shape cannot start at different places: the later start would
      fall inside the earlier run, whose samples all qualify and lie after the last
      event. */
  lemma RunStartUnique(rs: seq<Reading>, window: int, a: seq<int>, b: seq<int>)
    requires Pending(rs, |rs|, a, window) && AfterLastEvent(rs, a, Spans(rs, window))
    requires RunStart(rs, |rs|, b, Spans(rs, window))
    ensures |b| >= |a|
  {
  }

  lemma TakeAll<T>(s: seq<T>)
    ensures s[..|s|] == s
  {
  }

  /** Every recorded event covers a block of consecutive qualifying samples, given by its
      span; its endpoints are the timestamps of the block's first and last sample, at
      least `window` hours apart; the blocks come in input order, do not share samples,
      and all lie before the samples still in the accumulator. */
  lemma EventSpans(rs: seq<Reading>, window: int)
    ensures Placed(rs, Scan(rs, window).events, Spans(rs, window), |rs| - |Scan(rs, window).acc|, window)
  {
    TakeAll(rs);
    ScanInvariant(rs, |rs|, window);
  }

  /** Every recorded endpoint is the timestamp of an input sample. */
  lemma EndpointsAreSampleTimes(rs: seq<Reading>, window: int)
    ensures var events := Scan(rs, window).events;
      forall k :: 0 <= k < |events| ==> events[k].start in Times(rs) && events[k].end in Times(rs)
  {
    EventSpans(rs, window);
    var events, sp := Scan(rs, window).events, Spans(rs, window);
    forall k | 0 <= k < |events|
      ensures events[k].start in Times(rs) && events[k].end in Times(rs)
    {
      assert Times(rs)[sp[k].lo] == events[k].start;
      assert Times(rs)[sp[k].hi] == events[k].end;
    }
  }

  ghost predicate StrictlyIncreasing(rs: seq<Reading>)
  {
    forall i, j :: 0 <= i < j < |rs| ==> rs[i].time < rs[j].time
  }

  /** With strictly increasing timestamps each event starts no later than it ends, and
      each event ends strictly before the next one starts: events are recorded in input
      order and never overlap. */
  lemma OrderedEvents(rs: seq<Reading>, window: int)
    requires StrictlyIncreasing(rs)
    ensures var events := Scan(rs, window).events;
      && (forall k :: 0 <= k < |events| ==> events[k].start <= events[k].end)
      && (forall k :: 0 < k < |events| ==> events[k - 1].end < events[k].start)
  {
    EventSpans(rs, window);
  }

  ghost predicate StrictlyDecreasing(rs: seq<Reading>)
  {
    forall i, j :: 0 <= i < j < |rs| ==> rs[i].time > rs[j].time
  }

  /** The mirror image for newest-first data: each event starts no earlier than it ends,
      and each event ends strictly after the next one starts. */
  lemma OrderedEventsDecreasing(rs: seq<Reading>, window: int)
    requires StrictlyDecreasing(rs)
    ensures var events := Scan(rs, window).events;
      && (forall k :: 0 <= k < |events| ==> events[k].start >= events[k].end)
      && (forall k :: 0 < k < |events| ==> events[k - 1].end > events[k].start)
  {
    EventSpans(rs, window);
  }

  /** With a positive window an event needs at least two samples, so a scan over `n`
      samples records at most `n / 2` events (no monotonicity of timestamps needed). */
  lemma {:induction false} EventBound(rs: seq<Reading>, window: int)
    requires window > 0
    ensures 2 * |Scan(rs, window).events| + |Scan(rs, window).acc| <= |rs|
    ensures |Scan(rs, window).events| <= |rs| / 2
    decreases |rs|
  {
    if rs != [] {
      var n := |rs| - 1;
      EventBound(rs[..n], window);
      ScanSnoc(rs[..n], rs[n], window);
      assert rs[..n] + [rs[n]] == rs;
    }
  }

  /** No qualifying sample, no event. */
  lemma {:induction false} NothingQualifies(rs: seq<Reading>, window: int)
    requires forall k :: 0 <= k < |rs| ==> !rs[k].ok
    ensures Scan(rs, window) == ScanState([], [])
    decreases |rs|
  {
    if rs != [] {
      NothingQualifies(rs[..|rs| - 1], window);
    }
  }

  /** One event per qualifying sample, with equal endpoints. */
  function SingleSampleEvents(rs: seq<Reading>): seq<Event>
    decreases |rs|
  {
    if rs == [] then []
    else
      var last := rs[|rs| - 1];
      SingleSampleEvents(rs[..|rs| - 1]) + (if last.ok then [Event(last.time, last.time)] else [])
  }

  /** With a window of zero hours (or less) every qualifying sample is an event on its
      own, with equal endpoints, and the accumulator is always empty afterwards. */
  lemma {:induction false} ZeroWindow(rs: seq<Reading>, window: int)
    requires window <= 0
    ensures Scan(rs, window) == ScanState([], SingleSampleEvents(rs))
    decreases |rs|
  {
    if rs != [] {
      ZeroWindow(rs[..|rs| - 1], window);
    }
  }

  /** Six hourly samples of which the first four qualify, with a three-hour window: one
      event, from the first to the fourth sample, and no second one for the fourth sample. */
  lemma HourlyExample()
    ensures Scan([Reading(0, true), Reading(3600, true), Reading(7200, true),
                  Reading(10800, true), Reading(14400, false), Reading(18000, false)], 3).events
            == [Event(0, 10800)]
  {
    var rs := [Reading(0, true), Reading(3600, true), Reading(7200, true),
               Reading(10800, true), Reading(14400, false), Reading(18000, false)];
    // One sample per iteration, so that each step of the fold is checked on its own.
    var k := 0;
    while k < 6
      invariant 0 <= k <= 6
      invariant k == 0 ==> Scan(rs[..k], 3) == ScanState([], [])
      invariant k == 1 ==> Scan(rs[..k], 3) == ScanState([0], [])
      invariant k == 2 ==> Scan(rs[..k], 3) == ScanState([0, 3600], [])
      invariant k == 3 ==> Scan(rs[..k], 3) == ScanState([0, 3600, 7200], [])
      invariant k >= 4 ==> Scan(rs[..k], 3) == ScanState([], [Event(0, 10800)])
    {
      ScanSnoc(rs[..k], rs[k], 3);
      assert rs[..k] + [rs[k]] == rs[..k + 1];
      k := k + 1;
    }
    assert rs[..6] == rs;
  }
}
