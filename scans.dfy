/** The two scanning loops of the script, `realtime` and `historic`, each proved to run
    the windowing fold of module Windowing over its own predicate and to store the
    endpoints in its own order. */
module Scans {
  import opened Samples
  import opened Windowing

  /** Realtime predicate: `SwH >= swell_height and WWH <= wind_wave_height`. */
  function SwellReadings(rows: seq<SpecRow>, swellHeight: real, windWaveHeight: real): seq<Reading>
  {
    seq(|rows|, i requires 0 <= i < |rows| =>
      Reading(rows[i].time, rows[i].swh >= swellHeight && rows[i].wwh <= windWaveHeight))
  }

  /** Historic predicate: `WVHT >= wave_height`. */
  function WaveReadings(rows: seq<MeteoRow>, waveHeight: real): seq<Reading>
  {
    seq(|rows|, i requires 0 <= i < |rows| => Reading(rows[i].time, rows[i].wvht >= waveHeight))
  }

  function Starts(events: seq<Event>): (ts: seq<int>)
    ensures |ts| == |events|
    ensures forall k :: 0 <= k < |events| ==> ts[k] == events[k].start
  {
    seq(|events|, k requires 0 <= k < |events| => events[k].start)
  }

  function Ends(events: seq<Event>): (ts: seq<int>)
    ensures |ts| == |events|
    ensures forall k :: 0 <= k < |events| ==> ts[k] == events[k].end
  {
    seq(|events|, k requires 0 <= k < |events| => events[k].end)
  }

  lemma StartsEndsSnoc(events: seq<Event>, e: Event)
    ensures Starts(events + [e]) == Starts(events) + [e.start]
    ensures Ends(events + [e]) == Ends(events) + [e.end]
  {
  }

  /** The scan inside `realtime`: `first_date` receives the accumulator's LAST timestamp
      and `last_date` its FIRST one. */
  method ScanRealtime(rows: seq<SpecRow>, swellHeight: real, window: int, windWaveHeight: real)
    returns (firstDate: seq<int>, lastDate: seq<int>)
    ensures |firstDate| == |lastDate|
    ensures var events := Scan(SwellReadings(rows, swellHeight, windWaveHeight), window).events;
      firstDate == Ends(events) && lastDate == Starts(events)
  {
    ghost var rs := SwellReadings(rows, swellHeight, windWaveHeight);
    var swellEvent: seq<int> := [];
    firstDate, lastDate := [], [];
    var i := 0;
    while i < |rows|
      invariant 0 <= i <= |rows|
      invariant swellEvent == Scan(rs[..i], window).acc
      invariant firstDate == Ends(Scan(rs[..i], window).events)
      invariant lastDate == Starts(Scan(rs[..i], window).events)
    {
      ScanPrefix(rs, i + 1, window);
      ghost var events := Scan(rs[..i], window).events;
      if rows[i].swh >= swellHeight && rows[i].wwh <= windWaveHeight {
        swellEvent := swellEvent + [rows[i].time];
        if Abs(swellEvent[0] - swellEvent[|swellEvent| - 1]) >= window * 3600 {
          StartsEndsSnoc(events, Event(swellEvent[0], swellEvent[|swellEvent| - 1]));
          firstDate := firstDate + [swellEvent[|swellEvent| - 1]];
          lastDate := lastDate + [swellEvent[0]];
          swellEvent := [];
        }
      } else {
        swellEvent := [];
      }
      i := i + 1;
    }
    TakeAll(rs);
  }

  /** The scan inside `historic`: `first_date` receives the accumulator's FIRST timestamp
      and `last_date` its LAST one. */
  method ScanHistoric(rows: seq<MeteoRow>, waveHeight: real, window: int)
    returns (firstDate: seq<int>, lastDate: seq<int>)
    ensures |firstDate| == |lastDate|
    ensures var events := Scan(WaveReadings(rows, waveHeight), window).events;
      firstDate == Starts(events) && lastDate == Ends(events)
  {
    ghost var rs := WaveReadings(rows, waveHeight);
    var swellEvent: seq<int> := [];
    firstDate, lastDate := [], [];
    var i := 0;
    while i < |rows|
      invariant 0 <= i <= |rows|
      invariant swellEvent == Scan(rs[..i], window).acc
      invariant firstDate == Starts(Scan(rs[..i], window).events)
      invariant lastDate == Ends(Scan(rs[..i], window).events)
    {
      ScanPrefix(rs, i + 1, window);
      ghost var events := Scan(rs[..i], window).events;
      if rows[i].wvht >= waveHeight {
        swellEvent := swellEvent + [rows[i].time];
        if Abs(swellEvent[0] - swellEvent[|swellEvent| - 1]) >= window * 3600 {
          StartsEndsSnoc(events, Event(swellEvent[0], swellEvent[|swellEvent| - 1]));
          firstDate := firstDate + [swellEvent[0]];
          lastDate := lastDate + [swellEvent[|swellEvent| - 1]];
          swellEvent := [];
        }
      } else {
        swellEvent := [];
      }
      i := i + 1;
    }
    TakeAll(rs);
  }
}
