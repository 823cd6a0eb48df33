/** The measurement rows the buoy data client hands back, and the removal of rows
    that carry the provider's "no measurement" marker. */
module Samples {

  /** A realtime spectral row: its timestamp (seconds), swell height `SwH` and wind-wave height `WWH`. */
  datatype SpecRow = SpecRow(time: int, swh: real, wwh: real)

  /** A historic standard-meteorological row: its timestamp (seconds) and significant wave height `WVHT`. */
  datatype MeteoRow = MeteoRow(time: int, wvht: real)

  /** The value the provider writes where it has no measurement. */
  const MISSING: real := 99.0

  function SwellHeight(row: SpecRow): real { row.swh }

  function WaveHeight(row: MeteoRow): real { row.wvht }

  /** `frame[frame.column != 99.00]`: the rows whose `value` is not the marker, in their order. */
  function KeepMeasured<T(==)>(rows: seq<T>, value: T -> real): (kept: seq<T>)
    ensures |kept| <= |rows|
    ensures forall i :: 0 <= i < |kept| ==> kept[i] in rows && value(kept[i]) != MISSING
    ensures forall j :: 0 <= j < |rows| && value(rows[j]) != MISSING ==> rows[j] in kept
    decreases |rows|
  {
    if rows == [] then []
    else
      var rest := KeepMeasured(rows[..|rows| - 1], value);
      var last := rows[|rows| - 1];
      assert rows == rows[..|rows| - 1] + [last];
      if value(last) != MISSING then rest + [last] else rest
  }

  /** The filter works row by row: filtering a concatenation concatenates the filtered
      parts, so the kept rows keep their relative order. */
  lemma {:induction false} KeepMeasuredConcat<T>(a: seq<T>, b: seq<T>, value: T -> real)
    ensures KeepMeasured(a + b, value) == KeepMeasured(a, value) + KeepMeasured(b, value)
    decreases |b|
  {
    if b == [] {
      assert a + b == a;
    } else {
      var b' := b[..|b| - 1];
      KeepMeasuredConcat(a, b', value);
      assert (a + b)[..|a + b| - 1] == a + b';
      assert (a + b)[|a + b| - 1] == b[|b| - 1];
    }
  }

  /** A single row is kept exactly when its value is not the marker. */
  lemma KeepMeasuredOne<T>(x: T, value: T -> real)
    ensures KeepMeasured([x], value) == if value(x) != MISSING then [x] else []
  {
    assert [x][..0] == [];
  }

  /** Filtering twice is filtering once. */
  lemma {:induction false} KeepMeasuredIdempotent<T>(rows: seq<T>, value: T -> real)
    ensures KeepMeasured(KeepMeasured(rows, value), value) == KeepMeasured(rows, value)
    decreases |rows|
  {
    if rows != [] {
      var init := rows[..|rows| - 1];
      var last := rows[|rows| - 1];
      var rest := KeepMeasured(init, value);
      KeepMeasuredIdempotent(init, value);
      if value(last) != MISSING {
        KeepMeasuredConcat(rest, [last], value);
        KeepMeasuredOne(last, value);
      }
    }
  }
}
