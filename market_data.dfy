/**
 * Alignment of a market-data series (price or volume) to the timestamp of
 * a reward event: the lookup `getDayData`.
 *
 * A series is a list of `[timestamp_ms, value]` points. The query time is a
 * block timestamp in whole seconds. The source compares
 * `timestamp_ms / 1000 > time`; over exact numbers this is
 * `timestamp_ms > time * 1000`, which is how the model compares.
 */
module MarketData {
  import opened Js

  datatype Point = Point(ms: int, value: real)

  /** The point lies strictly after the query time. */
  predicate Later(p: Point, time: int)
  {
    p.ms > time * 1000
  }

  /** Index i holds the first point, in list order, that is later than the query. */
  predicate IsFirstLater(series: seq<Point>, time: int, i: int)
  {
    && 0 <= i < |series|
    && Later(series[i], time)
    && forall j :: 0 <= j < i ==> !Later(series[j], time)
  }

  /**
   * The value of the first point later than the query, or `undefined` when
   * the scan runs off the end of the list.
   */
  function Scan(series: seq<Point>, time: int): (r: Option<real>)
    ensures r.None? <==> forall i :: 0 <= i < |series| ==> !Later(series[i], time)
    ensures forall i :: IsFirstLater(series, time, i) ==> r == Some(series[i].value)
  {
    if series == [] then None
    else if Later(series[0], time) then Some(series[0].value)
    else
      var rest := Scan(series[1..], time);
      assert forall i :: IsFirstLater(series, time, i) ==> IsFirstLater(series[1..], time, i - 1);
      rest
  }

  /**
   * What `getDayData(time, list)` returns: 0 when the first point is already
   * later than the query, otherwise the value of the first later point, and
   * `undefined` (None) when there is none. On an empty list reading
   * `list[0][0]` throws.
   */
  function DayValue(series: seq<Point>, time: int): (r: Result<Option<real>>)
    ensures series == [] <==> r == Err(TypeError)
    ensures series != [] && Later(series[0], time) ==> r == Ok(Some(0.0))
    ensures series != [] && !Later(series[0], time) ==>
              (r == Ok(None) <==> forall i :: 0 <= i < |series| ==> !Later(series[i], time))
    ensures forall i :: 0 < i && IsFirstLater(series, time, i) ==> r == Ok(Some(series[i].value))
  {
    if series == [] then Err(TypeError)
    else if Later(series[0], time) then Ok(Some(0.0))
    else Ok(Scan(series, time))
  }

  /**
   * The loop of `getDayData`: the guard on the first point, then a scan that
   * returns at the first point later than the query and falls off the end
   * otherwise. (The source also records each skipped time in `prev`, which
   * is never read.)
   */
  method GetDayData(time: int, series: seq<Point>) returns (r: Result<Option<real>>)
    ensures r == DayValue(series, time)
  {
    if series == [] {
      return Err(TypeError);
    }
    if Later(series[0], time) {
      return Ok(Some(0.0));
    }
    for k := 0 to |series|
      invariant forall j :: 0 <= j < k ==> !Later(series[j], time)
    {
      if Later(series[k], time) {
        assert IsFirstLater(series, time, k);
        return Ok(Some(series[k].value));
      }
    }
    return Ok(None);
  }

  /**
   * A point whose time equals the query is skipped, and the answer is the
   * value AFTER the query time, not the last value at or before it: for the
   * series [(1000 ms, 10), (2000 ms, 20)] the lookup gives 0 at second 0,
   * 20 at second 1 and `undefined` at second 2.
   */
  lemma DayValueExamples()
    ensures var s := [Point(1000, 10.0), Point(2000, 20.0)];
      && DayValue(s, 0) == Ok(Some(0.0))
      && DayValue(s, 1) == Ok(Some(20.0))
      && DayValue(s, 2) == Ok(None)
  {
    var s := [Point(1000, 10.0), Point(2000, 20.0)];
    assert IsFirstLater(s, 1, 1);
  }
}
