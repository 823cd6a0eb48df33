/** The two entry points, `realtime` and `historic`, composed from the modelled pieces:
    the station's coordinates, the sentinel filter, the windowing scan and the per-event
    catalogue loop. The station page, the buoy rows and the catalogue query are inputs. */
module Pipeline {
  import opened Outcomes
  import opened Samples
  import opened Windowing
  import opened Scans
  import opened Catalog
  import opened Coordinates

  /** The events `realtime` finds among the measured spectral rows. */
  function RealtimeEvents(rows: seq<SpecRow>, swellHeight: real, window: int, windWaveHeight: real): seq<Event>
  {
    Scan(SwellReadings(KeepMeasured(rows, SwellHeight), swellHeight, windWaveHeight), window).events
  }

  /** The events `historic` finds among the measured meteorological rows. */
  function HistoricEvents(rows: seq<MeteoRow>, waveHeight: real, window: int): seq<Event>
  {
    Scan(WaveReadings(KeepMeasured(rows, WaveHeight), waveHeight), window).events
  }

  /** What `realtime` ends in. Without coordinates the polygon is built from `None` and
      raises `TypeError`; otherwise the events are queried with `first_date` holding each
      event's last timestamp and `last_date` its first. */
  function RealtimeRun(status: int, page: string, rows: seq<SpecRow>, swellHeight: real, window: int,
                       windWaveHeight: real, query: (int, int) -> seq<Product>, autoDownload: string): Outcome<Collected>
  {
    var events := RealtimeEvents(rows, swellHeight, window, windWaveHeight);
    match Resolve(status, page)
    case Raised(e) => Raised(e)
    case Returned(position) =>
      if position.None? then Raised(TypeError)
      else Collect(Ends(events), Starts(events), query, autoDownload, RealtimeMode)
  }

  /** What `historic` ends in; `first_date` holds each event's first timestamp. */
  function HistoricRun(status: int, page: string, rows: seq<MeteoRow>, waveHeight: real, window: int,
                       query: (int, int) -> seq<Product>, autoDownload: string): Outcome<Collected>
  {
    var events := HistoricEvents(rows, waveHeight, window);
    match Resolve(status, page)
    case Raised(e) => Raised(e)
    case Returned(position) =>
      if position.None? then Raised(TypeError)
      else Collect(Starts(events), Ends(events), query, autoDownload, HistoricMode)
  }

  /** `realtime` over the coordinate function as written, where a failed fetch raises
      inside `get_lat_lon_from_ndbcnoaa`. */
  function RealtimeRunAsWritten(status: int, page: string, rows: seq<SpecRow>, swellHeight: real, window: int,
                                windWaveHeight: real, query: (int, int) -> seq<Product>, autoDownload: string): Outcome<Collected>
  {
    var events := RealtimeEvents(rows, swellHeight, window, windWaveHeight);
    match ResolveAsWritten(status, page)
    case Raised(e) => Raised(e)
    case Returned(position) =>
      if position.None? then Raised(TypeError)
      else Collect(Ends(events), Starts(events), query, autoDownload, RealtimeMode)
  }

  /** `historic` over the coordinate function as written. */
  function HistoricRunAsWritten(status: int, page: string, rows: seq<MeteoRow>, waveHeight: real, window: int,
                                query: (int, int) -> seq<Product>, autoDownload: string): Outcome<Collected>
  {
    var events := HistoricEvents(rows, waveHeight, window);
    match ResolveAsWritten(status, page)
    case Raised(e) => Raised(e)
    case Returned(position) =>
      if position.None? then Raised(TypeError)
      else Collect(Starts(events), Ends(events), query, autoDownload, HistoricMode)
  }

  /** The status finding changes where the `TypeError` is raised, not what the caller
      sees: with the written coordinate function both entry points end exactly as with
      the corrected one. */
  lemma AsWrittenSameOutcome(status: int, page: string, rows: seq<SpecRow>, swellHeight: real, window: int,
                             windWaveHeight: real, query: (int, int) -> seq<Product>, autoDownload: string,
                             meteo: seq<MeteoRow>, waveHeight: real)
    ensures RealtimeRunAsWritten(status, page, rows, swellHeight, window, windWaveHeight, query, autoDownload)
            == RealtimeRun(status, page, rows, swellHeight, window, windWaveHeight, query, autoDownload)
    ensures HistoricRunAsWritten(status, page, meteo, waveHeight, window, query, autoDownload)
            == HistoricRun(status, page, meteo, waveHeight, window, query, autoDownload)
  {
    ResolveAgrees(status, page);
  }

  method Realtime(status: int, page: string, rows: seq<SpecRow>, swellHeight: real, window: int,
                  windWaveHeight: real, query: (int, int) -> seq<Product>, autoDownload: string)
    returns (r: Outcome<Collected>)
    ensures r == RealtimeRun(status, page, rows, swellHeight, window, windWaveHeight, query, autoDownload)
  {
    var position := Resolve(status, page);
    if position.value.None? {
      return Raised(TypeError);
    }
    var spec := KeepMeasured(rows, SwellHeight);
    var firstDate, lastDate := ScanRealtime(spec, swellHeight, window, windWaveHeight);
    r := CollectTitles(firstDate, lastDate, query, autoDownload, RealtimeMode);
  }

  method Historic(status: int, page: string, rows: seq<MeteoRow>, waveHeight: real, window: int,
                  query: (int, int) -> seq<Product>, autoDownload: string)
    returns (r: Outcome<Collected>)
    ensures r == HistoricRun(status, page, rows, waveHeight, window, query, autoDownload)
  {
    var position := Resolve(status, page);
    if position.value.None? {
      return Raised(TypeError);
    }
    var data := KeepMeasured(rows, WaveHeight);
    var firstDate, lastDate := ScanHistoric(data, waveHeight, window);
    r := CollectTitles(firstDate, lastDate, query, autoDownload, HistoricMode);
  }

  /** A `TypeError` comes exactly from a station whose coordinates could not be read; the
      loop over events raises only `KeyError`. */
  lemma TypeErrorIffNoStation(status: int, page: string, rows: seq<SpecRow>, swellHeight: real, window: int,
                              windWaveHeight: real, query: (int, int) -> seq<Product>, autoDownload: string,
                              meteo: seq<MeteoRow>, waveHeight: real)
    ensures RealtimeRun(status, page, rows, swellHeight, window, windWaveHeight, query, autoDownload) == Raised(TypeError)
            <==> LatLonMissing(status, page)
    ensures HistoricRun(status, page, meteo, waveHeight, window, query, autoDownload) == Raised(TypeError)
            <==> LatLonMissing(status, page)
  {
    var ev := RealtimeEvents(rows, swellHeight, window, windWaveHeight);
    var hv := HistoricEvents(meteo, waveHeight, window);
    KeyErrorOnly(Ends(ev), Starts(ev), query, autoDownload, RealtimeMode);
    KeyErrorOnly(Starts(hv), Ends(hv), query, autoDownload, HistoricMode);
    ResolveAgrees(status, page);
  }

  /** The page gives no coordinates: the fetch failed or the pattern is nowhere in it. */
  ghost predicate LatLonMissing(status: int, page: string)
  {
    status != 200 || forall q: nat, g :: !IsMatchAt(page, q, g)
  }

  /** No measured sample meets the thresholds: no event is found, so nothing is queried,
      collected or downloaded. */
  lemma CalmSea(status: int, page: string, rows: seq<SpecRow>, swellHeight: real, window: int,
                windWaveHeight: real, query: (int, int) -> seq<Product>, autoDownload: string)
    requires !LatLonMissing(status, page)
    requires forall k :: 0 <= k < |rows| && rows[k].swh != MISSING ==>
               rows[k].swh < swellHeight || rows[k].wwh > windWaveHeight
    ensures RealtimeEvents(rows, swellHeight, window, windWaveHeight) == []
    ensures RealtimeRun(status, page, rows, swellHeight, window, windWaveHeight, query, autoDownload)
            == Returned(Collected([], []))
  {
    ResolveAgrees(status, page);
    var kept := KeepMeasured(rows, SwellHeight);
    var rs := SwellReadings(kept, swellHeight, windWaveHeight);
    forall k | 0 <= k < |rs| ensures !rs[k].ok {
      var j :| 0 <= j < |rows| && rows[j] == kept[k];
    }
    NothingQualifies(rs, window);
    assert EventOutcomes([], [], query, autoDownload, RealtimeMode) == [];
  }

  /** With auto-download off and well-keyed query results, `realtime` returns the last
      product's title of every event whose query found something, in event order. */
  lemma RealtimeTitles(status: int, page: string, rows: seq<SpecRow>, swellHeight: real, window: int,
                       windWaveHeight: real, query: (int, int) -> seq<Product>, autoDownload: string)
    requires !LatLonMissing(status, page) && autoDownload != "on"
    requires var events := RealtimeEvents(rows, swellHeight, window, windWaveHeight);
      forall k :: 0 <= k < |events| ==> WellKeyed(query(Ends(events)[k], Starts(events)[k]))
    ensures var events := RealtimeEvents(rows, swellHeight, window, windWaveHeight);
      RealtimeRun(status, page, rows, swellHeight, window, windWaveHeight, query, autoDownload)
      == Returned(Collected(LastTitles(Ends(events), Starts(events), query), []))
  {
    ResolveAgrees(status, page);
    var events := RealtimeEvents(rows, swellHeight, window, windWaveHeight);
    OneTitlePerEvent(Ends(events), Starts(events), query, autoDownload, RealtimeMode);
  }

  /** With auto-download on, `historic` hands every non-empty query result to
      `download_all`, in event order, and returns no title. */
  lemma HistoricDownloads(status: int, page: string, rows: seq<MeteoRow>, waveHeight: real, window: int,
                          query: (int, int) -> seq<Product>)
    requires !LatLonMissing(status, page)
    ensures var events := HistoricEvents(rows, waveHeight, window);
      HistoricRun(status, page, rows, waveHeight, window, query, "on")
      == Returned(Collected([], FoundProducts(Starts(events), Ends(events), query)))
  {
    ResolveAgrees(status, page);
    var events := HistoricEvents(rows, waveHeight, window);
    HistoricDownloadsAll(Starts(events), Ends(events), query);
  }
}
