/** The rendering part of `get_weather`: the current-conditions line taken
    from the first forecast point and the table of the first ten points.
    Printing is replaced by returning the lines' fields; the conversion of a
    timestamp to local time is a parameter, `localize`. */
module Forecast {
  import opened Wrappers
  import opened Text
  import Symbols
  import opened Formatting

  /** One entry of the forecast's `timeseries`: its timestamp, the instant
      air temperature and wind speed, and the symbol code of the
      `next_1_hours` summary (absent when any level of it is missing). */
  datatype Point = Point(time: string, temperature: Value, windSpeed: Value, symbolCode: Option<string>)

  /** The fields of one printed line: local time, coloured temperature,
      wind speed and description. */
  datatype Line = Line(time: string, temperature: string, wind: string, description: string)

  /** The first point gives the header time and the current conditions. */
  datatype Report = Report(current: Line, table: seq<Line>)

  datatype Error = NoWeatherData

  /** At most this many points make up the table. */
  const TableRows: nat := 10

  /** Width the temperature is right-justified to. */
  const TemperatureWidth: int := 6

  const WindUnit: string := " m/s"

  /** `ts['time'].replace('Z', '+00:00')`, the form handed to the parser. */
  function UtcOffsetForm(time: string): (r: string)
    ensures 'Z' !in r
  {
    ReplaceChar(time, 'Z', "+00:00")
  }

  /** A timestamp ending in the UTC designator gets the explicit offset. */
  lemma UtcDesignatorReplaced(stamp: string)
    requires 'Z' !in stamp
    ensures UtcOffsetForm(stamp + "Z") == stamp + "+00:00"
  {
    ReplaceCharConcat(stamp, "Z", 'Z', "+00:00");
    assert ReplaceChar("Z", 'Z', "+00:00") == "+00:00" + ReplaceChar([], 'Z', "+00:00");
  }

  /** `translate_symbol(raw) if raw else 'No data'`. */
  function Describe(code: Option<string>): string {
    if code == None || code == Some("") then Symbols.NoData else Symbols.TranslateSymbol(code)
  }

  /** The guard in front of the translator changes nothing: the translator
      itself reads an absent or empty code as "No data". */
  lemma DescribeIsTranslate(code: Option<string>)
    ensures Describe(code) == Symbols.TranslateSymbol(code)
    ensures code == None || code == Some("") ==> Describe(code) == "No data"
  {
  }

  /** The line printed for one point. */
  function RenderLine(p: Point, localize: string -> string, temperatureUnit: string): Line {
    Line(localize(UtcOffsetForm(p.time)),
         ColorTemp(p.temperature, temperatureUnit, TemperatureWidth),
         Fmt(p.windSpeed, WindUnit),
         Describe(p.symbolCode))
  }

  /** The lines of `points`, one per point, in the same order. */
  function RenderLines(points: seq<Point>, localize: string -> string, temperatureUnit: string): (lines: seq<Line>)
    ensures |lines| == |points|
  {
    if points == [] then []
    else RenderLines(points[..|points| - 1], localize, temperatureUnit)
         + [RenderLine(points[|points| - 1], localize, temperatureUnit)]
  }

  /** Line `i` of `RenderLines` is the line of point `i`. */
  lemma {:induction false} RenderLinesAt(points: seq<Point>, localize: string -> string, temperatureUnit: string, i: nat)
    requires i < |points|
    ensures RenderLines(points, localize, temperatureUnit)[i] == RenderLine(points[i], localize, temperatureUnit)
  {
    if i < |points| - 1 {
      RenderLinesAt(points[..|points| - 1], localize, temperatureUnit, i);
    }
  }

  /** Every line of `RenderLines` is the line of its point. */
  lemma RenderLinesEach(points: seq<Point>, localize: string -> string, temperatureUnit: string)
    ensures forall i :: 0 <= i < |points| ==>
              RenderLines(points, localize, temperatureUnit)[i] == RenderLine(points[i], localize, temperatureUnit)
  {
    forall i | 0 <= i < |points|
      ensures RenderLines(points, localize, temperatureUnit)[i] == RenderLine(points[i], localize, temperatureUnit)
    {
      RenderLinesAt(points, localize, temperatureUnit, i);
    }
  }

  /** Rendering one more point appends its line. */
  lemma RenderLinesSnoc(points: seq<Point>, i: nat, localize: string -> string, temperatureUnit: string)
    requires i < |points|
    ensures RenderLines(points[..i + 1], localize, temperatureUnit)
            == RenderLines(points[..i], localize, temperatureUnit) + [RenderLine(points[i], localize, temperatureUnit)]
  {
    assert points[..i + 1][..i] == points[..i];
  }

  /** How many points the table shows: `min(10, len(timeseries))`. */
  function TableSize(points: seq<Point>): (n: nat)
    ensures n <= |points| && n <= TableRows
    ensures n == |points| || n == TableRows
  {
    if |points| < TableRows then |points| else TableRows
  }

  /** The `for i in range(n)` loop of the forecast table: the lines of the
      first `TableSize(points)` points, in order. */
  method RenderTable(points: seq<Point>, localize: string -> string, temperatureUnit: string)
    returns (rows: seq<Line>)
    ensures |rows| == TableSize(points)
    ensures rows == RenderLines(points[..TableSize(points)], localize, temperatureUnit)
  {
    var n := TableSize(points);
    rows := [];
    for i := 0 to n
      invariant rows == RenderLines(points[..i], localize, temperatureUnit)
    {
      RenderLinesSnoc(points, i, localize, temperatureUnit);
      rows := rows + [RenderLine(points[i], localize, temperatureUnit)];
    }
  }

  /** What `get_weather` shows once the forecast is in: nothing but the
      "No weather data available." error for an empty series, otherwise the
      current conditions of the first point and the table. */
  method RenderForecast(points: seq<Point>, localize: string -> string, temperatureUnit: string)
    returns (r: Result<Report, Error>)
    ensures points == [] <==> r == Failure(NoWeatherData)
    ensures r.Success? ==> r.value.current == RenderLine(points[0], localize, temperatureUnit)
    ensures r.Success? ==> r.value.table == RenderLines(points[..TableSize(points)], localize, temperatureUnit)
  {
    if points == [] {
      return Failure(NoWeatherData);
    }
    var current := RenderLine(points[0], localize, temperatureUnit);
    var table := RenderTable(points, localize, temperatureUnit);
    r := Success(Report(current, table));
  }

  /** The table has `min(10, len(points))` lines, line `i` showing point
      `i`; the current-conditions line shows the same as the first line. */
  lemma TableShowsFirstPoints(points: seq<Point>, localize: string -> string, temperatureUnit: string)
    requires points != []
    ensures var table := RenderLines(points[..TableSize(points)], localize, temperatureUnit);
            |table| == TableSize(points) && table[0] == RenderLine(points[0], localize, temperatureUnit)
            && forall i :: 0 <= i < |table| ==> table[i] == RenderLine(points[i], localize, temperatureUnit)
  {
    var n := TableSize(points);
    RenderLinesEach(points[..n], localize, temperatureUnit);
  }
}
