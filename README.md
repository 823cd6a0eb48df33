# Swell events and Sentinel-1 availability, modelled in Dafny

`get_available_data.py` tells you when a NDBC buoy saw a sea state worth imaging, and
whether a Sentinel-1 product covers that time. The two entry points, `realtime` and
`historic`, do the same four things:

1. They read the station's coordinates off its NDBC page. A regular expression finds
   them, and the hemisphere letters decide the signs.
2. They drop the buoy rows that carry the "no measurement" marker `99.00`.
3. They scan the remaining rows for swell events. An event is a run of qualifying samples
   whose first and last timestamps are at least `window` hours apart.
4. They query the Copernicus catalogue once per event. From each non-empty result they
   recover the product keys out of the printed `odict_keys([...])`, then either collect
   one title or pass the result to `download_all`.

The model has eight modules, one per concern:

- `Outcomes`: `Option`, and `Outcome` for "returned or raised `TypeError`/`KeyError`".
- `PyStr`: Python's slicing with clamped and negative bounds, one-character `split`, and
  `join`, with their round trips.
- `Samples`: the buoy rows and the marker filter.
- `Windowing`: the scan, defined once as a left fold (`Scan`) over readings.
  - A reading is a timestamp plus whether the sample meets the height predicate.
  - The module also holds everything proved about the fold: the step and trigger rules,
    the invariants of the accumulator and of the recorded events, and the window edge
    cases.
- `Scans`: the two imperative scanning loops.
  - Each loop is proved to compute the fold over its own predicate.
  - Realtime stores an event's last timestamp in `first_date` and its first timestamp in
    `last_date`. Historic stores them the other way round.
- `Catalog`: the key cleaning as a loop over a sequence, its round trip against the
  printed form of the keys, the title pick, and the per-event loop.
  - The loop variable `i` of the cleaning loop shadows the event index. So the looked-up
    key is always the last one.
  - The per-event loop is specified by a fold of per-event outcomes. The first exception
    stops the fold.
- `Coordinates`: the pattern `(\d+\.\d+) ([N|S]) (\d+\.\d+) ([W|E])`.
  - It is modelled twice: as a declarative match predicate, and as a deterministic scanner
    proved to find the leftmost match.
  - The sign rule compares the captured letter case-sensitively with `'S'` and `'W'`.
  - The status branch is modelled as written and as evidently intended.
- `Pipeline`: `realtime` and `historic` composed from the pieces above. Their inputs are
  the station page, the buoy rows and the catalogue query.

Timestamps are integer seconds. Heights are `real`; only comparisons are used. `window`
is an integer number of hours. The catalogue query is a function from the two dates
handed to it to an ordered sequence of `(key, title)` products.

The code and the plain reading of the script disagree in three places. The model follows
the code in each:

- In `realtime` the title is printed with `products[product_keys[i]]` even when
  auto-download is on. So a missing key raises `KeyError` there after the download. In
  `historic` the print is inside the `else` branch.
- An HTTP status other than 200 does not give `(None, None)`: line 248 adds an integer
  to a string, which raises `TypeError` (see Findings).
- The character classes `[N|S]` and `[W|E]` also admit `|`. Because the search ignores
  case, `[N|S]` also admits lowercase letters and the long s (U+017F), while the sign
  test accepts only the capital letters.

## Model

| member | source | states |
|---|---|---|
| Samples.KeepMeasured | get_available_data.py:71 | every kept row is an input row whose value is not 99.00; every input row whose value is not 99.00 is kept; never more rows than the input |
| Samples.KeepMeasuredConcat | get_available_data.py:71 | the filter distributes over concatenation, so kept rows stay in input order |
| Samples.KeepMeasuredOne | get_available_data.py:167 | a single row is kept exactly when its value is not 99.00 |
| Samples.KeepMeasuredIdempotent | get_available_data.py:167 | filtering already filtered rows changes nothing |
| Windowing.LongEnough | get_available_data.py:81 | definition of the trigger test `abs(swell_event[0] - swell_event[-1]) >= window*3600` on a non-empty accumulator, also used at line 174; pinned down by StepRule and by EventSpans, which gives every event endpoints at least `window` hours apart |
| Windowing.Step | get_available_data.py:79-87 | definition of one iteration of the loop body; pinned down by StepRule, and by ScanRealtime and ScanHistoric, which prove both loops compute it |
| Windowing.Scan | get_available_data.py:78-87 | definition of the scan as a left fold of Step; pinned down by StepRule, AccumulatorShape, EventSpans, EventBound, NothingQualifies and ZeroWindow |
| Windowing.StepRule | get_available_data.py:78-87 | a failing sample empties the accumulator; a qualifying one is appended; right after the append, an event with the accumulator's first and last timestamps is recorded exactly when they are at least window·3600 s apart, and the accumulator is then empty; otherwise no event is added |
| Windowing.ScanSnoc | get_available_data.py:78-87 | scanning one more sample is one more loop iteration, for both the state and the event positions |
| Windowing.ScanInvariant | get_available_data.py:78-87 | after any prefix of the samples, the accumulator and the events recorded so far satisfy the two invariants below |
| Windowing.RunStartInvariant | get_available_data.py:78-87 | after any prefix, the pending run starts at the beginning, right after a failing sample, or right after the last sample of the last recorded event |
| Windowing.AccumulatorShape | get_available_data.py:78-87 | the accumulator holds, in order, the timestamps of the samples since the scan last restarted (at the beginning, after a failing sample, or after the last recorded event); all of them qualify, they do not span the window, and the last recorded event ends before the first of them |
| Windowing.AccumulatorUnique | get_available_data.py:78-87 | these facts pin the accumulator down: any timestamp list that meets all of them is the scan's accumulator, for any order of timestamps |
| Windowing.EventSpans | get_available_data.py:78-87 | each event covers a block of consecutive qualifying samples; its endpoints are the block's first and last timestamps and are at least the window apart; blocks are in input order, disjoint, and lie before the pending run |
| Windowing.EndpointsAreSampleTimes | get_available_data.py:80-83 | every recorded endpoint is the timestamp of an input sample |
| Windowing.OrderedEvents | get_available_data.py:171-180 | with strictly increasing timestamps, each event starts no later than it ends, and ends strictly before the next one starts |
| Windowing.OrderedEventsDecreasing | get_available_data.py:78-87 | with strictly decreasing (newest-first) times, each event starts no earlier than it ends, and ends strictly after the next one starts |
| Windowing.EventBound | get_available_data.py:174 | with a positive window every event uses at least two samples: twice the number of events plus the pending samples is at most n, so there are at most n/2 events |
| Windowing.NothingQualifies | get_available_data.py:79 | when no sample qualifies, no event is recorded and the accumulator stays empty |
| Windowing.ZeroWindow | get_available_data.py:81 | with a window of zero (or negative) hours, each qualifying sample becomes its own event with equal endpoints, in order |
| Windowing.HourlyExample | get_available_data.py:78-87 | four qualifying hourly samples and a 3-hour window give exactly one event, from the first to the fourth sample |
| Scans.SwellReadings | get_available_data.py:79 | definition of the realtime predicate `SwH >= swell_height and WWH <= wind_wave_height` per row; pinned down through ScanRealtime and CalmSea |
| Scans.WaveReadings | get_available_data.py:172 | definition of the historic predicate `WVHT >= wave_height` per row; pinned down through ScanHistoric |
| Scans.ScanRealtime | get_available_data.py:78-87 | the realtime loop yields equal-length lists: `first_date` holds each event's last timestamp in scan order and `last_date` its first, for the fold over `SwH >= swell_height and WWH <= wind_wave_height` |
| Scans.ScanHistoric | get_available_data.py:171-180 | the historic loop yields equal-length lists: `first_date` holds each event's first timestamp in scan order and `last_date` its last, for the fold over `WVHT >= wave_height` |
| Scans.StartsEndsSnoc | get_available_data.py:82-83 | recording one more event appends its endpoints to both lists |
| PyStr.Clamp | get_available_data.py:105 | definition of where a Python slice bound lands; pinned down by SliceFromEnd and ExtractRendered |
| PyStr.Slice | get_available_data.py:105 | definition of `s[lo:hi]` over clamped bounds; pinned down by SliceFromEnd and ExtractRendered |
| PyStr.SliceFromEnd | get_available_data.py:105 | `s[lo:-k]` is the characters from `lo` up to `k` before the end, when there is room |
| PyStr.Split | get_available_data.py:106 | `split` on one character returns at least one piece, and no piece contains the separator |
| PyStr.SplitCount | get_available_data.py:106 | splitting yields one more piece than there are separators |
| PyStr.JoinSplit | get_available_data.py:106 | joining the pieces of a split gives back the string |
| PyStr.SplitPrefix | get_available_data.py:106 | a separator-free prefix is glued onto the first piece of what follows it |
| PyStr.Join | get_available_data.py:106 | definition of `sep.join(parts)`, used to state the split round trips; pinned down by JoinSplit and SplitJoin |
| PyStr.SplitJoin | get_available_data.py:106 | splitting the join of non-empty-list, separator-free pieces gives back the pieces |
| Catalog.KeysOf | get_available_data.py:104 | definition of `products.keys()` in dictionary order; pinned down through ExtractRendered and TitlePick |
| Catalog.Repr | get_available_data.py:104 | definition of `repr` of a key as the key in single quotes; pinned down by StripFirst, StripLater and ExtractRendered |
| Catalog.ReprItems | get_available_data.py:104 | definition of the printed list items, separated by `, `; pinned down by ItemsAreJoinedPieces and ExtractRendered |
| Catalog.RenderKeys | get_available_data.py:104 | definition of `str(products.keys())` as `odict_keys([`, the items, `])`; pinned down by ExtractRendered |
| Catalog.StripQuotes | get_available_data.py:108-111 | definition of the trim, `[1:-1]` for piece 0 and `[2:-1]` after; pinned down by PieceStrips and ExtractRendered |
| Catalog.RawPieces | get_available_data.py:105-106 | slicing and splitting the printed keys gives at least one piece |
| Catalog.CleanedKeys | get_available_data.py:107-111 | one cleaned key per raw piece |
| Catalog.CleanKeys | get_available_data.py:104-111 | the loop rewrites piece 0 with `[1:-1]` and every later piece with `[2:-1]`, in place, and leaves at least one key |
| Catalog.KeyCount | get_available_data.py:104-111 | the number of extracted keys is the number of commas in the sliced text plus one |
| Catalog.ItemPieces | get_available_data.py:106 | one piece per key |
| Catalog.ItemsAreJoinedPieces | get_available_data.py:106 | the printed items are the quoted keys joined by commas, each key after the first keeping the blank that followed its comma |
| Catalog.ExtractRendered | get_available_data.py:104-113 | round trip: for a non-empty list of comma-free keys, cleaning `str(products.keys())` recovers exactly the keys, in order |
| Catalog.PieceStrips | get_available_data.py:107-111 | trimming piece `i` of the printed items gives back key `i` |
| Catalog.Lookup | get_available_data.py:118 | `products[key]` yields a title exactly when some product has that key, and the title it yields belongs to such a product |
| Catalog.LookupDistinct | get_available_data.py:118 | with distinct keys, looking up a product's key yields that product's title |
| Catalog.PickTitle | get_available_data.py:104-118 | the looked-up title is the one for the key at the final value of the shadowed `i` |
| Catalog.PickedKey | get_available_data.py:118 | definition of `product_keys[i]` with `i` left at the last position by the cleaning loop; pinned down by TitlePick, which proves it is the last product's key |
| Catalog.PickedTitle | get_available_data.py:118 | definition of `products[product_keys[i]]['title']`, `None` for a `KeyError`; pinned down by PickTitle and TitlePick |
| Catalog.TitlePick | get_available_data.py:107-118 | for a non-empty result with distinct, comma-free keys, the looked-up title is the last product's |
| Catalog.Handle | get_available_data.py:99-120 | definition of one event's outcome: nothing for an empty result; with auto-download on, a download, then in `realtime` the lookup of line 120, which may raise `KeyError`; otherwise the lookup and one title; pinned down by HandleOff, HandleOnRealtime, KeyErrorOnly and CollectTitles |
| Catalog.Then | get_available_data.py:88-120 | definition of running one event after the earlier ones: an earlier exception wins, otherwise titles and downloads add up; pinned down by RaisedStays and FoldKeyErrorOnly |
| Catalog.Fold | get_available_data.py:88-120 | definition of the events' outcomes run in order; pinned down by FoldSnoc, RaisedStays and FoldKeyErrorOnly |
| Catalog.Collect | get_available_data.py:88-120 | definition of the per-event loop as the fold of Handle over the events; pinned down by CollectTitles, KeyErrorOnly, OneTitlePerEvent, HistoricDownloadsAll and RealtimeDownloadsAll |
| Catalog.FoldSnoc | get_available_data.py:88-120 | running one more event is one more step of the loop |
| Catalog.RaisedStays | get_available_data.py:88-120 | once an event raises, the loop's outcome is that exception |
| Catalog.FoldKeyErrorOnly | get_available_data.py:88-120 | when no single event raises anything but `KeyError`, neither does the loop |
| Catalog.CollectSnoc | get_available_data.py:182-212 | the loop over n+1 events is the loop over n events followed by the last one |
| Catalog.KeyErrorOnly | get_available_data.py:115-120 | the per-event loop can raise only `KeyError`, from a title lookup |
| Catalog.HandleOff | get_available_data.py:99-118 | with auto-download off and a well-keyed result, an event adds its last product's title, or nothing for an empty result, and raises nothing |
| Catalog.HandleOnRealtime | get_available_data.py:115-120 | in `realtime` with auto-download on, a well-keyed result is handed to `download_all` and raises nothing |
| Catalog.CollectTitles | get_available_data.py:88-120 | the imperative per-event loop, in both modes, returns what the fold of per-event outcomes returns, stopping at the first `KeyError` |
| Catalog.OneTitlePerEvent | get_available_data.py:88-120 | with auto-download off and well-keyed results, nothing raises and exactly one title is collected per event with a non-empty result (its last product's), in event order |
| Catalog.LastTitlesSnoc | get_available_data.py:118 | one more event adds its last product's title, if it has products |
| Catalog.HistoricDownloadsAll | get_available_data.py:208-209 | in `historic` with auto-download on, nothing raises, every non-empty result is downloaded in event order, and no title is collected |
| Catalog.RealtimeDownloadsAll | get_available_data.py:115-120 | in `realtime` with auto-download on and well-keyed results, nothing raises and every non-empty result is downloaded in event order |
| Coordinates.DigitRun | get_available_data.py:221 | definition of greedy `\d+`: the length of the digit run starting at a position, never past the end; pinned down by DigitRunSpec and DigitRunExact |
| Coordinates.IsDecimal | get_available_data.py:221 | definition of what `\d+\.\d+` matches: at least one digit, one dot, at least one digit, nothing else; pinned down by DecimalEndSound, DecimalEndExact and DecimalWitness |
| Coordinates.DigitRunSpec | get_available_data.py:221 | the greedy `\d+` scanner consumes only digits and stops at a non-digit or at the end |
| Coordinates.DigitRunExact | get_available_data.py:221 | a digit run followed by a non-digit is exactly what the scanner consumes |
| Coordinates.DecimalEnd | get_available_data.py:221 | when the scanner finds `\d+\.\d+`, it ends after its start and within the text |
| Coordinates.DecimalEndSound | get_available_data.py:221 | what the scanner accepts as `\d+\.\d+` is a decimal, and is followed by a non-digit or the end |
| Coordinates.DecimalEndExact | get_available_data.py:221 | a decimal followed by a non-digit or the end is found exactly |
| Coordinates.SliceConcat | get_available_data.py:221 | a piece of text that spells a concatenation spells each part in turn |
| Coordinates.LayoutSplit | get_available_data.py:221 | the text matched with given groups is the four groups separated by single blanks |
| Coordinates.MatchAt | get_available_data.py:221 | definition of the greedy scanner trying the pattern at one position; pinned down by MatchAtSound and MatchAtComplete, which prove it equal to IsMatchAt |
| Coordinates.LatDirection | get_available_data.py:221 | definition of `[N|S]` under IGNORECASE (line 229): N, S in either case, the bar and the long s; pinned down by SouthWestExample, LowercaseExample and BarExample, and its use by SignIsCaseSensitive |
| Coordinates.LonDirection | get_available_data.py:221 | definition of `[W|E]` under IGNORECASE (line 229): W, E in either case and the bar; pinned down by SouthWestExample, LowercaseExample and BarExample |
| Coordinates.IsMatchAt | get_available_data.py:221 | definition of what the pattern matches: a decimal, a blank, a latitude letter, a blank, a decimal, a blank, a longitude letter; the reference against which MatchAtSound, MatchAtComplete and LeftmostMatch prove the scanner and the search |
| Coordinates.MatchAtSound | get_available_data.py:221 | whatever the scanner matches at a position is a match of the pattern there |
| Coordinates.MatchAtPositions | get_available_data.py:221 | given where the two decimals end and the blanks and direction letters around them, the scanner returns exactly the four groups those positions delimit |
| Coordinates.MatchAtComplete | get_available_data.py:221 | every match of the pattern at a position is the one the scanner finds there (the match is unique, by greediness) |
| Coordinates.NoMatchAt | get_available_data.py:221 | when the scanner finds nothing at a position, the pattern matches nothing there |
| Coordinates.SearchFrom | get_available_data.py:229 | definition of trying every position from `p` on; pinned down by SearchFromLeftmost |
| Coordinates.Search | get_available_data.py:229 | definition of `re.search` from position 0; pinned down by LeftmostMatch |
| Coordinates.SearchFromLeftmost | get_available_data.py:229 | searching from a position finds the first position from there on where the pattern matches, or nothing when it matches nowhere from there |
| Coordinates.LeftmostMatch | get_available_data.py:229 | `re.search` finds the leftmost match with its groups, and finds nothing exactly when the pattern matches nowhere |
| Coordinates.LatLon | get_available_data.py:229-245 | definition of `(lat, lon)` from the search, `None` when nothing is found; pinned down by LatLonOfMatch, LatLonNone and SignIsCaseSensitive |
| Coordinates.LatLonOfMatch | get_available_data.py:231-242 | the coordinates come from the leftmost match: groups 1 and 3 are the magnitudes; the latitude is negated exactly when group 2 is `'S'`, the longitude exactly when group 4 is `'W'` |
| Coordinates.LatLonNone | get_available_data.py:243-245 | `(None, None)` exactly when the pattern occurs nowhere in the page |
| Coordinates.SignIsCaseSensitive | get_available_data.py:237-240 | negation happens exactly for the capital letters, although the search also accepts lowercase letters, `|` and the long s |
| Coordinates.DecimalWitness | get_available_data.py:221 | a digit string with a single inner dot is a decimal |
| Coordinates.SouthWestExample | get_available_data.py:229-242 | `"at 1.5 S 2.5 W"` gives a negated latitude 1.5 and a negated longitude 2.5 |
| Coordinates.LowercaseExample | get_available_data.py:229-240 | `"1.5 s 2.5 w"` matches but negates neither coordinate |
| Coordinates.BarExample | get_available_data.py:221 | `"1.5 | 2.5 |"` matches and negates neither coordinate |
| Coordinates.ResolveAsWritten | get_available_data.py:226-249 | as written, the function raises `TypeError` exactly when the status is not 200 |
| Coordinates.NotFoundRaises | get_available_data.py:248 | a 404 raises `TypeError` even for a page that holds coordinates |
| Coordinates.Resolve | get_available_data.py:226-249 | as intended, the function never raises, and gives `(None, None)` for any status other than 200 |
| Coordinates.ResolveAgrees | get_available_data.py:226-249 | the intended function agrees with the written one wherever that one returns; it gives coordinates exactly for status 200 and a page holding the pattern; and it gives `(None, None)` exactly when the written one raises or gives `(None, None)` |
| Pipeline.RealtimeEvents | get_available_data.py:71-87 | definition of `realtime`'s events: the 99.00 filter on SwH, then the scan under `SwH >= swell_height and WWH <= wind_wave_height`; pinned down by KeepMeasured, EventSpans, ScanRealtime and CalmSea |
| Pipeline.HistoricEvents | get_available_data.py:167-180 | definition of `historic`'s events: the 99.00 filter on WVHT, then the scan under `WVHT >= wave_height`; pinned down by KeepMeasured, EventSpans, ScanHistoric and HistoricDownloads |
| Pipeline.RealtimeRun | get_available_data.py:62-122 | definition of the outcome of `realtime`; pinned down by TypeErrorIffNoStation, CalmSea, RealtimeTitles and AsWrittenSameOutcome |
| Pipeline.HistoricRun | get_available_data.py:159-214 | definition of the outcome of `historic`; pinned down by TypeErrorIffNoStation, HistoricDownloads and AsWrittenSameOutcome |
| Pipeline.RealtimeRunAsWritten | get_available_data.py:62-66 | definition of `realtime` over the coordinate function as written; pinned down by AsWrittenSameOutcome |
| Pipeline.HistoricRunAsWritten | get_available_data.py:159-162 | definition of `historic` over the coordinate function as written; pinned down by AsWrittenSameOutcome |
| Pipeline.AsWrittenSameOutcome | get_available_data.py:247-249 | with the written coordinate function, whose non-200 branch raises `TypeError`, both entry points end exactly as with the corrected one |
| Pipeline.Realtime | get_available_data.py:62-122 | `realtime` resolves the coordinates, filters, scans and runs the per-event loop, with the outcome `RealtimeRun` describes |
| Pipeline.Historic | get_available_data.py:159-214 | `historic` does the same with the historic predicate and endpoint order, with the outcome `HistoricRun` describes |
| Pipeline.TypeErrorIffNoStation | get_available_data.py:63-66 | both entry points raise `TypeError` exactly when the station page gives no coordinates (the polygon is then built from `None`) |
| Pipeline.CalmSea | get_available_data.py:71-87 | when no measured row meets the thresholds, `realtime` finds no event, so it queries nothing, and it returns no titles and no downloads |
| Pipeline.RealtimeTitles | get_available_data.py:88-122 | with auto-download off and well-keyed results for the queried events, `realtime` returns the last product's title of every event that found products, in event order |
| Pipeline.HistoricDownloads | get_available_data.py:182-214 | with auto-download on, `historic` downloads every non-empty query result in event order and returns no titles |

## Left out

- The HTTP fetch of the station page (lines 223-224) is not modelled. The status code and
  the page text are inputs.
- The buoy data client (lines 69-70 and 165-166) is not modelled. Its frames are inputs:
  sequences of rows with a timestamp and the heights, in the order the client returns
  them. Rows are read by position, even after filtering.
- The catalogue service is not modelled: building the API (lines 67 and 163), `query`
  (lines 92-98 and 186-192) and `download_all` (lines 116 and 209).
  - `query` is a function from the two dates to an ordered list of products.
  - A download is recorded as the product list handed over. When a later `KeyError` ends
    the call, the outcome keeps only the exception, not the downloads already made.
- The polygon, the WKT footprint and the `dx` offsets (lines 64-68 and 160-164) are
  floating-point geometry and library calls. They are not modelled. Only their one
  consequence is kept: missing coordinates raise `TypeError` when the polygon is built.
- `float(...)` on the captured coordinates (lines 232 and 234) is not modelled. A
  coordinate is kept as its decimal text plus whether it is negated. That pair also
  stands for the values the conversion can give that are not ordinary numbers: `-0.0`
  for a page holding `0.0 S`, and an infinity when the magnitude is about 1.8·10^308 or more
  (for example a 310-digit integer part without leading zeros).
- `print` output is not modelled, apart from the title lookups of lines 120 and 211,
  which can raise `KeyError` and are part of the model.
- `any_realtime` (lines 251 onwards) only calls `realtime` repeatedly and prints a summary.
  It is not modelled.
- `Coordinates.IsDigit`: `\d` is modelled as the ASCII digits only. Python's `\d` on a
  `str` also accepts all other Unicode decimal digits.
- `Catalog.Repr`: key printing is modelled as `'key'`. This is `repr` only for
  printable keys without quotes or backslashes. `repr` also escapes characters such as
  `\n`, `\t` and `\x00`. Sentinel product keys are UUIDs, which have that form.
- `Catalog.WellKeyed`: it asks only for distinct, comma-free keys, so it admits keys that
  `repr` would escape. For such a key the script's trim does not give the key back, and
  the lookup at line 118, 120 or 211 raises `KeyError`. TitlePick, HandleOff,
  HandleOnRealtime, OneTitlePerEvent, RealtimeDownloadsAll and `Pipeline.RealtimeTitles`
  promise no exception only for the keys `Catalog.Repr` models.
- `Catalog.ExtractRendered`: the round trip is stated for non-empty, comma-free key lists.
  On an empty result the script never reaches the cleaning code (line 99). A key holding
  a comma would break the script's own split.
- `Windowing.OrderedEvents`: the non-overlap is stated for strictly increasing timestamps.
  `OrderedEventsDecreasing` states it for strictly decreasing ones. The buoy data client
  is not part of this model, so which order its rows come in is not settled here.
  `EventSpans` states the position facts for any order.
- NaN heights are not modelled. `!= 99.00` keeps a NaN row, and every comparison with NaN
  is false, so such a row fails the predicate and resets the accumulator. A caller can
  encode it only as a row below the threshold.
- The default arguments (`window = 24`, `wind_wave_height = 99`, `auto_download = 'off'`)
  are not modelled; every argument is explicit. With the default `wind_wave_height` of 99,
  a row whose WWH is the 99.00 marker still passes `WWH <= 99`, because only SwH is
  filtered.
- Timestamps are pandas datetimes in the script. Here they are integer seconds, so
  `abs(a - b).total_seconds()` is integer arithmetic. `window` is an integer number of
  hours, so `window*3600` is exact. A fractional window is not modelled.

## Findings

| source | as written | input that shows it | evidently intended | confidence | as-written member | corrected member |
|---|---|---|---|---|---|---|
| get_available_data.py:248 | `'...' + response.status_code` adds an `int` to a `str`, so any status other than 200 raises `TypeError` instead of printing the message and returning `(None, None)` | status 404 with any page, e.g. `"12.5 S 3.25 W"` | print the message and return `(None, None)`, like a page without coordinates | high; not executed | Coordinates.ResolveAsWritten, Coordinates.NotFoundRaises | Coordinates.Resolve, Coordinates.ResolveAgrees |

The entry points use the corrected function. `ResolveAgrees` relates the two functions,
and `Pipeline.AsWrittenSameOutcome` shows that `realtime` and `historic` end the same
either way: a missing position makes the polygon built from `None` raise `TypeError`,
at line 66 in `realtime` and at line 162 in `historic`.
