/** The event detector `detect_event_windows`: one pass over a probability
    series with a two-state machine (idle / in an event). An event starts at
    a sample reaching the enter threshold, collects every following sample,
    and closes at the first later sample below the exit threshold; it is
    reported only if its running maximum reached the peak threshold. An event
    still open when the series ends is closed at the last index. */
module Detection {
  import opened Stats

  /** One reported event: inclusive sample indices and statistics over the
      samples from `start` to `end`. */
  datatype Event = Event(start: int, end: int, maxProb: real, meanProb: real, auc: real)

  datatype Thresholds = Thresholds(enter: real, exit: real, peak: real)

  /** The default thresholds of `detect_event_windows`. */
  const DefaultThresholds := Thresholds(0.15, 0.15, 0.5)

  /** The detector's state between samples: idle, or inside an event that
      began at `start`, with its running maximum and the samples seen so far. */
  datatype Phase = Idle | InEvent(start: int, maxVal: real, vals: seq<real>)

  datatype ScanState = ScanState(phase: Phase, events: seq<Event>)

  /** The record reported for an event with the given samples: a
      one-sample event has that sample as its mean and no area, and the mean
      never exceeds a maximum that bounds every sample. */
  function Summarise(start: int, end: int, maxVal: real, vals: seq<real>): (e: Event)
    requires |vals| >= 1
    ensures e.start == start && e.end == end && e.maxProb == maxVal
    ensures |vals| == 1 ==> e.meanProb == vals[0] && e.auc == 0.0
    ensures (forall j :: 0 <= j < |vals| ==> vals[j] <= maxVal) ==> e.meanProb <= maxVal
  {
    assert |vals| == 1 ==> Sum(vals) == vals[0] by {
      if |vals| == 1 {
        assert vals[..0] == [];
      }
    }
    assert (forall j :: 0 <= j < |vals| ==> vals[j] <= maxVal) ==> Mean(vals) <= maxVal by {
      if forall j :: 0 <= j < |vals| ==> vals[j] <= maxVal {
        MeanAtMost(vals, maxVal);
      }
    }
    Event(start, end, maxVal, Mean(vals), Trapz(vals))
  }

  /** One iteration of the scan, for sample `v` at index `i`. Events are
      only ever appended, at most one per sample, and only by a sample below
      the exit threshold that ends an event and leaves the scan idle. */
  function Step(st: ScanState, i: int, v: real, t: Thresholds): (r: ScanState)
    ensures st.events <= r.events && |r.events| <= |st.events| + 1
    ensures r.events != st.events ==> st.phase.InEvent? && v < t.exit && r.phase.Idle? && r.events[|st.events|].end == i
  {
    match st.phase
    case Idle =>
      if v >= t.enter then ScanState(InEvent(i, v, [v]), st.events) else st
    case InEvent(s, m, vals) =>
      var m' := Max(m, v);
      var vals' := vals + [v];
      if v < t.exit then
        ScanState(Idle, if m' >= t.peak then st.events + [Summarise(s, i, m', vals')] else st.events)
      else
        ScanState(InEvent(s, m', vals'), st.events)
  }

  /** The state after the first `n` samples. While in an event, the buffer
      holds exactly the samples from the entry index onwards. */
  function Scan(series: seq<real>, t: Thresholds, n: nat): (st: ScanState)
    requires n <= |series|
    ensures st.phase.InEvent? ==> 0 <= st.phase.start < n && st.phase.vals == series[st.phase.start..n]
  {
    if n == 0 then ScanState(Idle, []) else Step(Scan(series, t, n - 1), n - 1, series[n - 1], t)
  }

  /** End-of-series handling: an open event whose maximum reached the peak
      threshold is reported with `lastIndex` as its end. */
  function Finish(st: ScanState, lastIndex: int, t: Thresholds): (events: seq<Event>)
    requires st.phase.InEvent? ==> |st.phase.vals| >= 1
    ensures st.events <= events && |events| <= |st.events| + 1
    ensures events != st.events ==>
              st.phase.InEvent? && st.phase.maxVal >= t.peak
              && events[|st.events|] == Summarise(st.phase.start, lastIndex, st.phase.maxVal, st.phase.vals)
    ensures st.phase.InEvent? && st.phase.maxVal >= t.peak ==>
              events == st.events + [Summarise(st.phase.start, lastIndex, st.phase.maxVal, st.phase.vals)]
  {
    match st.phase
    case Idle => st.events
    case InEvent(s, m, vals) =>
      if m >= t.peak then st.events + [Summarise(s, lastIndex, m, vals)] else st.events
  }

  /** Specification of the detector: scan every sample, then finish. */
  function Detect(series: seq<real>, t: Thresholds): (events: seq<Event>)
    ensures |series| == 0 ==> events == []
  {
    Finish(Scan(series, t, |series|), |series| - 1, t)
  }

  /** The detector as the source runs it: a loop over the samples updating
      `inEvent`, `start`, `maxVal` and the running buffer in place, appending
      to the event list, and a finalisation step after the loop. */
  method DetectWindows(series: seq<real>, enterThr: real, exitThr: real, peakThr: real)
    returns (events: seq<Event>)
    ensures events == Detect(series, Thresholds(enterThr, exitThr, peakThr))
  {
    ghost var t := Thresholds(enterThr, exitThr, peakThr);
    var inEvent := false;
    events := [];
    var start := 0;
    var maxVal := 0.0;
    var runningVals: seq<real> := [];
    for i := 0 to |series|
      invariant events == Scan(series, t, i).events
      invariant Scan(series, t, i).phase == if inEvent then InEvent(start, maxVal, runningVals) else Idle
    {
      var v := series[i];
      if !inEvent && v >= enterThr {
        start := i;
        maxVal := v;
        runningVals := [v];
        inEvent := true;
      } else if inEvent {
        runningVals := runningVals + [v];
        maxVal := Max(maxVal, v);
        if v < exitThr {
          var end := i;
          if maxVal >= peakThr {
            events := events + [Event(start, end, maxVal, Mean(runningVals), Trapz(runningVals))];
          }
          inEvent := false;
        }
      }
    }
    if inEvent && maxVal >= peakThr {
      events := events + [Event(start, |series| - 1, maxVal, Mean(runningVals), Trapz(runningVals))];
    }
  }

  // ---------------------------------------------------------------------------
  // Properties of the specification

  /** What every reported event satisfies: it lies inside the series, its first
      sample reached the enter threshold, the samples strictly inside it stayed
      at or above the exit threshold, and its statistics are those of the
      samples from `start` to `end` inclusive, with a maximum at or above the
      peak threshold. */
  ghost predicate EventFacts(series: seq<real>, t: Thresholds, e: Event)
  {
    && 0 <= e.start <= e.end < |series|
    && series[e.start] >= t.enter
    && (forall j :: e.start < j < e.end ==> series[j] >= t.exit)
    && e.maxProb == SeqMax(series[e.start..e.end + 1])
    && e.maxProb >= t.peak
    && e.meanProb == Mean(series[e.start..e.end + 1])
    && e.auc == Trapz(series[e.start..e.end + 1])
  }

  /** The event was closed by a sample below the exit threshold; the entry
      sample is never exit-tested, so such an event spans two samples or more. */
  ghost predicate ClosedByExit(series: seq<real>, t: Thresholds, e: Event)
  {
    0 <= e.start < e.end < |series| && series[e.end] < t.exit
  }

  /** The event was still open at the end of the series. */
  ghost predicate Finalised(series: seq<real>, t: Thresholds, e: Event)
  {
    0 <= e.start <= e.end == |series| - 1 && forall j :: e.start < j <= e.end ==> series[j] >= t.exit
  }

  /** Each event ends strictly before any later event starts. */
  ghost predicate Disjoint(events: seq<Event>)
  {
    forall k, l :: 0 <= k < l < |events| ==> events[k].end < events[l].start
  }

  ghost predicate Covered(events: seq<Event>, i: int)
  {
    exists k :: 0 <= k < |events| && events[k].start <= i <= events[k].end
  }

  /** A sample that reaches both the enter and the peak threshold. */
  ghost predicate Confident(t: Thresholds, v: real)
  {
    v >= t.enter && v >= t.peak
  }

  /** Every event reported so far is well formed, was closed by the exit
      threshold, and ended before sample `n`. */
  ghost predicate ReportedBefore(series: seq<real>, t: Thresholds, n: nat, events: seq<Event>)
  {
    forall k :: 0 <= k < |events| ==>
      EventFacts(series, t, events[k]) && ClosedByExit(series, t, events[k]) && events[k].end < n
  }

  /** An open event started at a sample reaching the enter threshold, has
      not met an exit sample since, buffers exactly its samples, tracks their
      maximum, and starts after every reported event ends. */
  ghost predicate OpenEvent(series: seq<real>, t: Thresholds, n: nat, st: ScanState)
    requires n <= |series|
  {
    st.phase.InEvent? ==>
      && 0 <= st.phase.start < n
      && series[st.phase.start] >= t.enter
      && st.phase.vals == series[st.phase.start..n]
      && st.phase.maxVal == SeqMax(series[st.phase.start..n])
      && (forall j :: st.phase.start < j < n ==> series[j] >= t.exit)
      && (forall k :: 0 <= k < |st.events| ==> st.events[k].end < st.phase.start)
  }

  /** Each confident sample among the first `n` is inside a reported event or
      inside the open event, whose running maximum is then at least as large. */
  ghost predicate ConfidentCovered(series: seq<real>, t: Thresholds, n: nat, st: ScanState)
    requires n <= |series|
  {
    forall i :: 0 <= i < n && Confident(t, series[i]) ==>
      Covered(st.events, i) || (st.phase.InEvent? && st.phase.start <= i && st.phase.maxVal >= series[i])
  }

  /** What holds after scanning the first `n` samples. */
  ghost predicate ScanInv(series: seq<real>, t: Thresholds, n: nat, st: ScanState)
    requires n <= |series|
  {
    ReportedBefore(series, t, n, st.events) && Disjoint(st.events)
    && OpenEvent(series, t, n, st) && ConfidentCovered(series, t, n, st)
  }

  /** Appending an event that starts after every earlier event ends keeps the
      list disjoint, keeps covered indices covered, and covers the new
      event's own indices. */
  lemma AppendEvent(events: seq<Event>, e: Event)
    requires Disjoint(events)
    requires forall k :: 0 <= k < |events| ==> events[k].end < e.start
    ensures Disjoint(events + [e])
    ensures forall i :: Covered(events, i) ==> Covered(events + [e], i)
    ensures forall i :: e.start <= i <= e.end ==> Covered(events + [e], i)
  {
    forall i | Covered(events, i)
      ensures Covered(events + [e], i)
    {
      var k :| 0 <= k < |events| && events[k].start <= i <= events[k].end;
      assert (events + [e])[k] == events[k];
    }
    forall i | e.start <= i <= e.end
      ensures Covered(events + [e], i)
    {
      assert (events + [e])[|events|] == e;
    }
  }

  /** One step of the scan from an idle state. */
  lemma StepFromIdle(series: seq<real>, t: Thresholds, n: nat, events: seq<Event>)
    requires n < |series|
    requires ScanInv(series, t, n, ScanState(Idle, events))
    ensures Step(ScanState(Idle, events), n, series[n], t)
            == if series[n] >= t.enter then ScanState(InEvent(n, series[n], series[n..n + 1]), events)
               else ScanState(Idle, events)
    ensures ScanInv(series, t, n + 1, Step(ScanState(Idle, events), n, series[n], t))
  {
    var st' := Step(ScanState(Idle, events), n, series[n], t);
    assert st'.events == events;
    assert ReportedBefore(series, t, n + 1, events);
    if series[n] >= t.enter {
      assert st'.phase == InEvent(n, series[n], [series[n]]);
      assert series[n..n + 1] == [series[n]];
      assert OpenEvent(series, t, n + 1, st');
    } else {
      assert st'.phase.Idle?;
    }
    assert ConfidentCovered(series, t, n + 1, st');
  }

  /** Appending sample `n` to the buffer of an event started at `s` gives
      the samples from `s` to `n`, whose maximum is the updated running
      maximum. */
  lemma ExtendBuffer(series: seq<real>, s: int, n: nat, m: real)
    requires 0 <= s < n < |series| && m == SeqMax(series[s..n])
    ensures series[s..n] + [series[n]] == series[s..n + 1]
    ensures Max(m, series[n]) == SeqMax(series[s..n + 1])
  {
    var vals' := series[s..n + 1];
    assert vals'[..|vals'| - 1] == series[s..n];
  }

  /** The open event keeps its facts when it takes in sample `n`. */
  lemma StayOpen(series: seq<real>, t: Thresholds, n: nat, s: int, m: real, events: seq<Event>)
    requires 0 <= s < n < |series|
    requires series[n] >= t.exit
    requires OpenEvent(series, t, n, ScanState(InEvent(s, m, series[s..n]), events))
    ensures OpenEvent(series, t, n + 1, ScanState(InEvent(s, SeqMax(series[s..n + 1]), series[s..n + 1]), events))
  {
    assert forall j :: s < j < n + 1 ==> series[j] >= t.exit;
  }

  /** Confident samples stay covered when the open event takes in sample
      `n`: its maximum only grows and reaches sample `n` itself. */
  lemma StayCovered(series: seq<real>, t: Thresholds, n: nat, s: int, m: real, events: seq<Event>)
    requires 0 <= s < n < |series|
    requires m == SeqMax(series[s..n])
    requires ConfidentCovered(series, t, n, ScanState(InEvent(s, m, series[s..n]), events))
    ensures ConfidentCovered(series, t, n + 1, ScanState(InEvent(s, SeqMax(series[s..n + 1]), series[s..n + 1]), events))
  {
    ExtendBuffer(series, s, n, m);
  }

  /** The invariant carries over to the state that has taken sample `n`
      into the open event's buffer. */
  lemma StayInv(series: seq<real>, t: Thresholds, n: nat, s: int, m: real, events: seq<Event>)
    requires 0 <= s < n < |series|
    requires series[n] >= t.exit
    requires ScanInv(series, t, n, ScanState(InEvent(s, m, series[s..n]), events))
    ensures ScanInv(series, t, n + 1, ScanState(InEvent(s, SeqMax(series[s..n + 1]), series[s..n + 1]), events))
  {
    var st := ScanState(InEvent(s, m, series[s..n]), events);
    assert OpenEvent(series, t, n, st);
    assert ReportedBefore(series, t, n + 1, events);
    StayOpen(series, t, n, s, m, events);
    StayCovered(series, t, n, s, m, events);
  }

  /** One step of the scan inside an event that does not close it: the
      sample joins the buffer and the running maximum is the buffer's. */
  lemma StepStay(series: seq<real>, t: Thresholds, n: nat, s: int, m: real, events: seq<Event>)
    requires 0 <= s < n < |series|
    requires series[n] >= t.exit
    requires ScanInv(series, t, n, ScanState(InEvent(s, m, series[s..n]), events))
    ensures Step(ScanState(InEvent(s, m, series[s..n]), events), n, series[n], t)
            == ScanState(InEvent(s, SeqMax(series[s..n + 1]), series[s..n + 1]), events)
    ensures ScanInv(series, t, n + 1, Step(ScanState(InEvent(s, m, series[s..n]), events), n, series[n], t))
  {
    assert OpenEvent(series, t, n, ScanState(InEvent(s, m, series[s..n]), events));
    ExtendBuffer(series, s, n, m);
    StayInv(series, t, n, s, m, events);
  }

  /** Reporting the event `e` that closes at sample `n` keeps the reported
      list well formed and disjoint. */
  lemma ReportEvent(series: seq<real>, t: Thresholds, n: nat, events: seq<Event>, e: Event)
    requires ReportedBefore(series, t, n, events) && Disjoint(events)
    requires EventFacts(series, t, e) && ClosedByExit(series, t, e) && e.end == n
    requires forall k :: 0 <= k < |events| ==> events[k].end < e.start
    ensures ReportedBefore(series, t, n + 1, events + [e]) && Disjoint(events + [e])
    ensures forall i :: Covered(events, i) ==> Covered(events + [e], i)
    ensures forall i :: e.start <= i <= e.end ==> Covered(events + [e], i)
  {
    AppendEvent(events, e);
  }

  /** The event closed at sample `n` after starting at `s` satisfies
      `EventFacts` and `ClosedByExit`. */
  lemma ClosedEventFacts(series: seq<real>, t: Thresholds, n: nat, s: int)
    requires 0 <= s < n < |series|
    requires series[s] >= t.enter
    requires forall j :: s < j < n ==> series[j] >= t.exit
    requires series[n] < t.exit && SeqMax(series[s..n + 1]) >= t.peak
    ensures EventFacts(series, t, Summarise(s, n, SeqMax(series[s..n + 1]), series[s..n + 1]))
    ensures ClosedByExit(series, t, Summarise(s, n, SeqMax(series[s..n + 1]), series[s..n + 1]))
  {
    var e := Summarise(s, n, SeqMax(series[s..n + 1]), series[s..n + 1]);
    assert series[e.start..e.end + 1] == series[s..n + 1];
  }

  /** Confident samples stay covered when the open event started at `s` is
      reported as `e`, which spans samples `s` to `n`. */
  lemma CloseCovered(series: seq<real>, t: Thresholds, n: nat, s: int, m: real, events: seq<Event>, e: Event)
    requires 0 <= s < n < |series|
    requires ConfidentCovered(series, t, n, ScanState(InEvent(s, m, series[s..n]), events))
    requires e.start == s && e.end == n
    requires forall i :: Covered(events, i) ==> Covered(events + [e], i)
    requires forall i :: e.start <= i <= e.end ==> Covered(events + [e], i)
    ensures ConfidentCovered(series, t, n + 1, ScanState(Idle, events + [e]))
  {
  }

  /** One step of the scan that closes an event whose maximum reached the
      peak threshold: the event is reported. */
  lemma StepCloseReport(series: seq<real>, t: Thresholds, n: nat, s: int, m: real, events: seq<Event>)
    requires 0 <= s < n < |series|
    requires series[n] < t.exit && Max(m, series[n]) >= t.peak
    requires ScanInv(series, t, n, ScanState(InEvent(s, m, series[s..n]), events))
    ensures Step(ScanState(InEvent(s, m, series[s..n]), events), n, series[n], t)
            == ScanState(Idle, events + [Summarise(s, n, SeqMax(series[s..n + 1]), series[s..n + 1])])
    ensures ScanInv(series, t, n + 1, Step(ScanState(InEvent(s, m, series[s..n]), events), n, series[n], t))
  {
    var st := ScanState(InEvent(s, m, series[s..n]), events);
    var vals' := series[s..n + 1];
    assert OpenEvent(series, t, n, st);
    ExtendBuffer(series, s, n, m);
    var e := Summarise(s, n, SeqMax(vals'), vals');
    assert Step(st, n, series[n], t) == ScanState(Idle, events + [e]);
    ClosedEventFacts(series, t, n, s);
    ReportEvent(series, t, n, events, e);
    CloseCovered(series, t, n, s, m, events, e);
  }

  /** One step of the scan that closes an event whose maximum stayed below
      the peak threshold: nothing is reported and the scan returns to idle. */
  lemma StepCloseDiscard(series: seq<real>, t: Thresholds, n: nat, s: int, m: real, events: seq<Event>)
    requires 0 <= s < n < |series|
    requires series[n] < t.exit && Max(m, series[n]) < t.peak
    requires ScanInv(series, t, n, ScanState(InEvent(s, m, series[s..n]), events))
    ensures Step(ScanState(InEvent(s, m, series[s..n]), events), n, series[n], t) == ScanState(Idle, events)
    ensures ScanInv(series, t, n + 1, Step(ScanState(InEvent(s, m, series[s..n]), events), n, series[n], t))
  {
    var st := ScanState(InEvent(s, m, series[s..n]), events);
    var st' := Step(st, n, series[n], t);
    assert st' == ScanState(Idle, events);
    assert ReportedBefore(series, t, n + 1, events);
    assert m < t.peak && series[n] < t.peak;
    assert ConfidentCovered(series, t, n + 1, st');
  }

  /** The scan invariant holds after every prefix. */
  lemma {:induction false} ScanInvariant(series: seq<real>, t: Thresholds, n: nat)
    requires n <= |series|
    ensures ScanInv(series, t, n, Scan(series, t, n))
  {
    if n > 0 {
      var m := n - 1;
      ScanInvariant(series, t, m);
      var st := Scan(series, t, m);
      assert Scan(series, t, n) == Step(st, m, series[m], t);
      match st.phase
      case Idle =>
        StepFromIdle(series, t, m, st.events);
      case InEvent(s, mx, vals) =>
        if series[m] >= t.exit {
          StepStay(series, t, m, s, mx, st.events);
        } else if Max(mx, series[m]) >= t.peak {
          StepCloseReport(series, t, m, s, mx, st.events);
        } else {
          StepCloseDiscard(series, t, m, s, mx, st.events);
        }
    }
  }

  /** Every confident sample lies inside a reported event. */
  ghost predicate AllConfidentCovered(series: seq<real>, t: Thresholds, events: seq<Event>)
  {
    forall i :: 0 <= i < |series| && Confident(t, series[i]) ==> Covered(events, i)
  }

  /** How each reported event ended: by the exit threshold, or (the last one
      only) by the end of the series. */
  ghost predicate HowEventsEnd(series: seq<real>, t: Thresholds, events: seq<Event>)
  {
    forall k :: 0 <= k < |events| ==>
      ClosedByExit(series, t, events[k]) || (k == |events| - 1 && Finalised(series, t, events[k]))
  }

  /** Everything the detector promises about its output, in one predicate. */
  ghost predicate DetectInv(series: seq<real>, t: Thresholds, events: seq<Event>)
  {
    && (forall k :: 0 <= k < |events| ==> EventFacts(series, t, events[k]))
    && HowEventsEnd(series, t, events)
    && Disjoint(events)
    && AllConfidentCovered(series, t, events)
  }

  /** Events all closed by the exit threshold, with every confident sample
      covered, satisfy `DetectInv`. */
  lemma FinishWithoutFinal(series: seq<real>, t: Thresholds, events: seq<Event>)
    requires ReportedBefore(series, t, |series|, events) && Disjoint(events)
    requires AllConfidentCovered(series, t, events)
    ensures DetectInv(series, t, events)
  {
    assert HowEventsEnd(series, t, events);
  }

  /** Appending a finalised event after events all closed by the exit
      threshold satisfies `DetectInv` once every confident sample is covered
      by an earlier event or lies in the final one. */
  lemma FinishWithFinal(series: seq<real>, t: Thresholds, events: seq<Event>, e: Event)
    requires ReportedBefore(series, t, |series|, events) && Disjoint(events)
    requires EventFacts(series, t, e) && Finalised(series, t, e)
    requires forall k :: 0 <= k < |events| ==> events[k].end < e.start
    requires forall i :: 0 <= i < |series| && Confident(t, series[i]) ==> Covered(events, i) || e.start <= i
    ensures DetectInv(series, t, events + [e])
  {
    var all := events + [e];
    AppendEvent(events, e);
    assert forall k :: 0 <= k < |events| ==> all[k] == events[k];
    assert all[|events|] == e;
    assert forall k :: 0 <= k < |all| ==> EventFacts(series, t, all[k]);
    assert HowEventsEnd(series, t, all);
    assert AllConfidentCovered(series, t, all);
  }

  /** The event still open at the end of the series, started at `s`,
      satisfies `EventFacts` and `Finalised`. */
  lemma FinalEventFacts(series: seq<real>, t: Thresholds, s: int, m: real)
    requires 0 <= s < |series|
    requires series[s] >= t.enter
    requires m == SeqMax(series[s..])
    requires forall j :: s < j < |series| ==> series[j] >= t.exit
    requires m >= t.peak
    ensures EventFacts(series, t, Summarise(s, |series| - 1, m, series[s..]))
    ensures Finalised(series, t, Summarise(s, |series| - 1, m, series[s..]))
  {
    assert series[s..|series| - 1 + 1] == series[s..];
  }

  /** Finishing a scan of the whole series whose invariant holds yields an
      output satisfying `DetectInv`. */
  lemma FinishHolds(series: seq<real>, t: Thresholds, st: ScanState)
    requires ScanInv(series, t, |series|, st)
    ensures DetectInv(series, t, Finish(st, |series| - 1, t))
  {
    var n := |series|;
    assert ReportedBefore(series, t, n, st.events) && Disjoint(st.events);
    match st.phase
    case Idle =>
      assert ConfidentCovered(series, t, n, st);
      FinishWithoutFinal(series, t, st.events);
    case InEvent(s, m, vals) =>
      assert OpenEvent(series, t, n, st);
      assert ConfidentCovered(series, t, n, st);
      if m >= t.peak {
        assert series[s..n] == series[s..];
        var e := Summarise(s, n - 1, m, series[s..]);
        assert Finish(st, n - 1, t) == st.events + [e];
        FinalEventFacts(series, t, s, m);
        FinishWithFinal(series, t, st.events, e);
      } else {
        assert AllConfidentCovered(series, t, st.events);
        FinishWithoutFinal(series, t, st.events);
      }
  }

  /** The output of the detector satisfies `DetectInv`. */
  lemma DetectHolds(series: seq<real>, t: Thresholds)
    ensures DetectInv(series, t, Detect(series, t))
  {
    ScanInvariant(series, t, |series|);
    FinishHolds(series, t, Scan(series, t, |series|));
  }

  /** Every event lies inside the series with `start <= end`; an event closed
      by the exit threshold has `start < end` and ends on a sample below that
      threshold; otherwise it is the last event and ends at the last index. */
  lemma DetectEventBounds(series: seq<real>, t: Thresholds)
    ensures forall e :: e in Detect(series, t) ==> 0 <= e.start <= e.end <= |series| - 1
    ensures forall k :: 0 <= k < |Detect(series, t)| - 1 ==>
              Detect(series, t)[k].start < Detect(series, t)[k].end && series[Detect(series, t)[k].end] < t.exit
    ensures forall k :: 0 <= k < |Detect(series, t)| ==>
              (Detect(series, t)[k].start < Detect(series, t)[k].end && series[Detect(series, t)[k].end] < t.exit)
              || Detect(series, t)[k].end == |series| - 1
  {
    DetectHolds(series, t);
  }

  /** The thresholds at an event's boundaries: the first sample reached the
      enter threshold, every sample strictly inside stayed at or above the exit
      threshold, and a finalised event's samples after the first all did. */
  lemma DetectBoundaryThresholds(series: seq<real>, t: Thresholds)
    ensures forall e :: e in Detect(series, t) ==>
              0 <= e.start <= e.end < |series|
              && series[e.start] >= t.enter
              && (forall j :: e.start < j < e.end ==> series[j] >= t.exit)
              && (ClosedByExit(series, t, e) || Finalised(series, t, e))
    ensures forall e :: e in Detect(series, t) ==>
              0 <= e.start < |series| && Scan(series, t, e.start).phase.Idle?
              && (e.start == 0 || series[e.start - 1] < t.enter || series[e.start - 1] < t.exit)
  {
    DetectHolds(series, t);
    DetectEntryAfterIdle(series, t);
  }

  /** Events come out in order and never overlap: each ends strictly before
      the next one starts. */
  lemma DetectOrdered(series: seq<real>, t: Thresholds)
    ensures forall k, l :: 0 <= k < l < |Detect(series, t)| ==> Detect(series, t)[k].end < Detect(series, t)[l].start
  {
    DetectHolds(series, t);
  }

  /** An event's maximum is the largest sample from `start` to `end` and it
      reached the peak threshold. */
  lemma DetectPeakGate(series: seq<real>, t: Thresholds)
    ensures forall e :: e in Detect(series, t) ==>
              0 <= e.start <= e.end < |series|
              && e.maxProb == SeqMax(series[e.start..e.end + 1])
              && e.maxProb >= t.peak
  {
    DetectHolds(series, t);
  }

  /** An event's mean and area are those of its samples from `start` to `end`;
      the mean never exceeds the maximum. */
  lemma DetectStatistics(series: seq<real>, t: Thresholds)
    ensures forall e :: e in Detect(series, t) ==>
              0 <= e.start <= e.end < |series|
              && e.meanProb == Mean(series[e.start..e.end + 1])
              && e.auc == Trapz(series[e.start..e.end + 1])
              && e.meanProb <= e.maxProb
  {
    DetectHolds(series, t);
    forall e | e in Detect(series, t)
      ensures e.meanProb <= e.maxProb
    {
      var s := series[e.start..e.end + 1];
      MeanAtMost(s, SeqMax(s));
    }
  }

  /** The detector is idle just before sample `s`: after the first `s`
      samples no event is open, so a sample at `s` reaching the enter
      threshold starts a new event there. */
  ghost predicate IdleBefore(series: seq<real>, t: Thresholds, s: int)
  {
    0 <= s < |series| && Scan(series, t, s).phase.Idle?
  }

  /** After the first `n` samples: an idle detector has just seen a sample
      below the enter or the exit threshold, and the open event and every
      reported event started at a sample before which the detector was
      idle. */
  lemma {:induction false} ScanEntries(series: seq<real>, t: Thresholds, n: nat)
    requires n <= |series|
    ensures Scan(series, t, n).phase.Idle? && n > 0 ==> series[n - 1] < t.enter || series[n - 1] < t.exit
    ensures Scan(series, t, n).phase.InEvent? ==> IdleBefore(series, t, Scan(series, t, n).phase.start)
    ensures forall k :: 0 <= k < |Scan(series, t, n).events| ==> IdleBefore(series, t, Scan(series, t, n).events[k].start)
  {
    if n > 0 {
      var m := n - 1;
      ScanEntries(series, t, m);
      var st := Scan(series, t, m);
      var st' := Scan(series, t, n);
      assert st' == Step(st, m, series[m], t);
      match st.phase
      case Idle =>
        assert st'.events == st.events;
      case InEvent(s, mx, vals) =>
        if series[m] < t.exit {
          assert st'.phase.Idle?;
          forall k | 0 <= k < |st'.events|
            ensures IdleBefore(series, t, st'.events[k].start)
          {
            if k == |st.events| {
              assert st'.events[k].start == s;
            } else {
              assert st'.events[k] == st.events[k];
            }
          }
        } else {
          assert st'.events == st.events;
        }
    }
  }

  /** Every event starts exactly where the detector entered it: it was idle
      just before `start`, so `start` is never a later sample of an
      excursion already under way. Consequently `start` is the first sample
      or follows one below the enter or the exit threshold. */
  lemma DetectEntryAfterIdle(series: seq<real>, t: Thresholds)
    ensures forall e :: e in Detect(series, t) ==> IdleBefore(series, t, e.start)
    ensures forall e :: e in Detect(series, t) ==>
              0 <= e.start < |series| && (e.start == 0 || series[e.start - 1] < t.enter || series[e.start - 1] < t.exit)
  {
    var st := Scan(series, t, |series|);
    ScanEntries(series, t, |series|);
    var events := Detect(series, t);
    forall e | e in events
      ensures IdleBefore(series, t, e.start)
      ensures e.start == 0 || series[e.start - 1] < t.enter || series[e.start - 1] < t.exit
    {
      var k :| 0 <= k < |events| && events[k] == e;
      if k < |st.events| {
        assert events[k] == st.events[k];
      }
      ScanEntries(series, t, e.start);
    }
  }

  /** Every sample reaching both the enter and the peak threshold lies inside
      some reported event. */
  lemma DetectCoversConfident(series: seq<real>, t: Thresholds, i: int)
    requires 0 <= i < |series| && series[i] >= t.enter && series[i] >= t.peak
    ensures exists e :: e in Detect(series, t) && e.start <= i <= e.end
  {
    DetectHolds(series, t);
    var events := Detect(series, t);
    var k :| 0 <= k < |events| && events[k].start <= i <= events[k].end;
    assert events[k] in events;
  }

  /** An event's maximum is one of its samples, so some sample inside it
      reached the peak threshold. */
  lemma EventReachesPeak(series: seq<real>, t: Thresholds, e: Event)
    requires EventFacts(series, t, e)
    ensures exists j :: e.start <= j <= e.end && series[j] >= t.peak
  {
    var s := series[e.start..e.end + 1];
    var k :| 0 <= k < |s| && s[k] == e.maxProb;
    assert series[e.start + k] == s[k];
  }

  /** If anything is reported, some sample reached the peak threshold. */
  lemma DetectReachesPeak(series: seq<real>, t: Thresholds)
    ensures Detect(series, t) != [] ==> exists j :: 0 <= j < |series| && series[j] >= t.peak
  {
    DetectHolds(series, t);
    var events := Detect(series, t);
    if events != [] {
      EventReachesPeak(series, t, events[0]);
    }
  }

  /** The peak gate: when no sample reaches the peak threshold, nothing is
      reported, whatever excursions cross the enter and exit thresholds. */
  lemma DetectEmptyBelowPeak(series: seq<real>, t: Thresholds)
    requires forall j :: 0 <= j < |series| ==> series[j] < t.peak
    ensures Detect(series, t) == []
  {
    DetectReachesPeak(series, t);
  }
}

module DetectionScenarios {
  import opened Stats
  import opened Detection

  /** Under the default thresholds, one excursion peaking at 0.6: reported from index 1 to the exit sample
      at index 3, with mean 0.3 and area 0.75 over [0.2, 0.6, 0.1]. */
  lemma SingleExcursion()
    ensures Detect([0.0, 0.2, 0.6, 0.1, 0.0], DefaultThresholds) == [Event(1, 3, 0.6, 0.3, 0.75)]
  {
    var series := [0.0, 0.2, 0.6, 0.1, 0.0];
    var t := DefaultThresholds;
    assert Scan(series, t, 1) == ScanState(Idle, []);
    assert Scan(series, t, 2) == ScanState(InEvent(1, 0.2, [0.2]), []);
    assert [0.2] + [0.6] == [0.2, 0.6];
    assert Scan(series, t, 3) == ScanState(InEvent(1, 0.6, [0.2, 0.6]), []);
    var vals := [0.2, 0.6, 0.1];
    assert [0.2, 0.6] + [0.1] == vals;
    assert vals[..2] == [0.2, 0.6] && vals[..2][..1] == [0.2] && vals[..2][..1][..0] == [];
    assert Mean(vals) == 0.3;
    assert Trapz(vals) == 0.75;
    assert Scan(series, t, 4) == ScanState(Idle, [Event(1, 3, 0.6, 0.3, 0.75)]);
    assert Scan(series, t, 5) == ScanState(Idle, [Event(1, 3, 0.6, 0.3, 0.75)]);
  }

  /** Under the default thresholds, an excursion that is already above the
      enter threshold at the first sample is reported from index 0, not from
      a later sample inside it. */
  lemma ExcursionFromFirstSample()
    ensures Detect([0.2, 0.3, 0.6, 0.1], DefaultThresholds) == [Event(0, 3, 0.6, 0.3, 1.05)]
  {
    var series := [0.2, 0.3, 0.6, 0.1];
    var t := DefaultThresholds;
    assert Scan(series, t, 1) == ScanState(InEvent(0, 0.2, [0.2]), []);
    assert [0.2] + [0.3] == [0.2, 0.3];
    assert Scan(series, t, 2) == ScanState(InEvent(0, 0.3, [0.2, 0.3]), []);
    assert [0.2, 0.3] + [0.6] == [0.2, 0.3, 0.6];
    assert Scan(series, t, 3) == ScanState(InEvent(0, 0.6, [0.2, 0.3, 0.6]), []);
    var vals := [0.2, 0.3, 0.6, 0.1];
    assert [0.2, 0.3, 0.6] + [0.1] == vals;
    assert vals[..3] == [0.2, 0.3, 0.6] && vals[..3][..2] == [0.2, 0.3];
    assert vals[..3][..2][..1] == [0.2] && vals[..3][..2][..1][..0] == [];
    assert Sum(vals) == 1.2;
    assert Mean(vals) == 0.3;
    assert Trapz(vals) == 1.05;
    assert Scan(series, t, 4) == ScanState(Idle, [Event(0, 3, 0.6, 0.3, 1.05)]);
  }

  /** With a hysteresis band (enter 0.5, exit 0.1), a dip to 0.3 below the
      enter threshold does not end the excursion that entered at index 0, so
      the event is reported from 0 and not from the later rise at index 2. */
  lemma HysteresisKeepsEntry()
    ensures Detect([0.52, 0.3, 0.6, 0.05], Thresholds(0.5, 0.1, 0.55)) == [Event(0, 3, 0.6, 0.3675, 1.185)]
  {
    var series := [0.52, 0.3, 0.6, 0.05];
    var t := Thresholds(0.5, 0.1, 0.55);
    assert Scan(series, t, 1) == ScanState(InEvent(0, 0.52, [0.52]), []);
    assert [0.52] + [0.3] == [0.52, 0.3];
    assert Scan(series, t, 2) == ScanState(InEvent(0, 0.52, [0.52, 0.3]), []);
    assert [0.52, 0.3] + [0.6] == [0.52, 0.3, 0.6];
    assert Scan(series, t, 3) == ScanState(InEvent(0, 0.6, [0.52, 0.3, 0.6]), []);
    var vals := [0.52, 0.3, 0.6, 0.05];
    assert [0.52, 0.3, 0.6] + [0.05] == vals;
    assert vals[..3] == [0.52, 0.3, 0.6] && vals[..3][..2] == [0.52, 0.3];
    assert vals[..3][..2][..1] == [0.52] && vals[..3][..2][..1][..0] == [];
    assert Sum(vals) == 1.47;
    assert Mean(vals) == 0.3675;
    assert Trapz(vals) == 1.185;
    assert Scan(series, t, 4) == ScanState(Idle, [Event(0, 3, 0.6, 0.3675, 1.185)]);
  }

  /** Under the default thresholds, the series ends inside an excursion whose
      maximum 0.3 misses the peak threshold 0.5: nothing is reported. */
  lemma OpenExcursionBelowPeak()
    ensures Detect([0.2, 0.3, 0.2], DefaultThresholds) == []
  {
    var series := [0.2, 0.3, 0.2];
    var t := DefaultThresholds;
    assert Scan(series, t, 1) == ScanState(InEvent(0, 0.2, [0.2]), []);
    assert [0.2] + [0.3] == [0.2, 0.3];
    assert [0.2, 0.3] + [0.2] == [0.2, 0.3, 0.2];
    assert Scan(series, t, 2) == ScanState(InEvent(0, 0.3, [0.2, 0.3]), []);
    assert Scan(series, t, 3) == ScanState(InEvent(0, 0.3, [0.2, 0.3, 0.2]), []);
  }

  /** The same series with a peak threshold of 0.25: the open excursion is
      finalised at the last index. */
  lemma OpenExcursionFinalised()
    ensures Detect([0.2, 0.3, 0.2], Thresholds(0.15, 0.15, 0.25)) == [Event(0, 2, 0.3, 0.7 / 3.0, 0.5)]
  {
    var series := [0.2, 0.3, 0.2];
    var t := Thresholds(0.15, 0.15, 0.25);
    assert Scan(series, t, 1) == ScanState(InEvent(0, 0.2, [0.2]), []);
    assert [0.2] + [0.3] == [0.2, 0.3];
    var vals := [0.2, 0.3, 0.2];
    assert [0.2, 0.3] + [0.2] == vals;
    assert vals[..2] == [0.2, 0.3] && vals[..2][..1] == [0.2] && vals[..2][..1][..0] == [];
    assert Sum(vals) == 0.7;
    assert Mean(vals) == 0.7 / 3.0;
    assert Trapz(vals) == 0.5;
    assert Scan(series, t, 2) == ScanState(InEvent(0, 0.3, [0.2, 0.3]), []);
    assert Scan(series, t, 3) == ScanState(InEvent(0, 0.3, [0.2, 0.3, 0.2]), []);
  }
}
