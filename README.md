# Weather console tool: symbol translation and forecast formatting

A model of the formatting core of a small console weather tool (`main.py`).
The tool looks up a city's coordinates, fetches a MET Norway
"locationforecast" time series and prints two things: the current conditions
taken from the first point, and a table of the first ten points. This
project models the pure logic between the fetched data and the printed text:

- `Symbols`: `translate_symbol`. An absent or empty code reads "No data".
  Otherwise the code is looked up case-sensitively in a fixed 21-entry table.
  Failing that, an ordered list of substring rules is tried on the
  lower-cased code, and the first rule that applies wins. When no rule
  applies, the code itself is returned. The table is a `map`. The rules are
  the source's `if` chain (`Heuristic`), proved equal to an independent
  rule-list definition (`Rules`, `FirstMatch`).
- `Formatting`: `fmt` and `color_temp`.
  - A measurement is a `Value`: `Num(tenths)`, `NoValue` or `Other(text)`.
    Numbers are whole tenths, so no floating point is involved.
  - Number text is proved to have exactly one digit after its decimal point.
    It reads back to the value it was written from (`ParseTenths`).
  - `color_temp` right-justifies the `fmt` text (`PadLeft`, Python's `rjust`).
    A number is then wrapped in an ANSI SGR colour: 34 below zero, 31 above,
    33 at zero. `Visible` removes escape sequences, giving a terminal's view
    of the text.
- `Forecast`: rendering of the current-conditions line and the table.
  - An empty time series is the "No weather data available." error.
  - The table loop is a method proved to produce the lines of the first
    `min(10, n)` points, in input order.
  - A missing or empty `next_1_hours` symbol gives "No data".
  - The conversion of a timestamp to local time is a function parameter,
    `localize`. It receives the timestamp after `'Z'` is replaced by
    `'+00:00'`, as in the source.
- `Text`: the Python string operations used above (`lower`, substring `in`,
  `rjust`, `replace`, decimal digits). `Wrappers`: `Option` and `Result`.

## Notes on the source

- The current-conditions line and the table both call `color_temp` with its
  default width of 6 (main.py:133, 155). Only the outer f-string padding
  differs between them (`:>10` on the current line, `:>6` in the table).
  That padding is not modelled.
- A temperature and its negation differ in the colour code, and also in the
  minus sign of the number text (`OppositeSigns`).
- `color_temp` pads on the left: it right-justifies with `rjust`
  (main.py:108).

## Model

| member | source | states |
|---|---|---|
| `Symbols.Heuristic` | main.py:53-67 | the `if` chain on the lower-cased code; its contract is carried by `HeuristicIsRuleList` (equal to the ordered rule list), `ThunderBeatsRain`, `SleetAndSnowBeatRain` and `HeavyRainIsRain` |
| `Symbols.TranslateSymbol` | main.py:22-69 | an absent or empty code gives "No data"; a non-empty code never gives the empty string |
| `Symbols.AbsentIsNoData` | main.py:23-24 | `None` and `""` both translate to "No data" |
| `Symbols.TableCodesTranslateExactly` | main.py:26-51 | every code of the table translates to exactly its table entry |
| `Symbols.TableExamples` | main.py:40-47 | "unknown" gives "No data" and "heavyrainandthunder" gives "Heavy rain with thunder" |
| `Symbols.HeuristicIsRuleList` | main.py:53-67 | the `if` chain equals the first match in the ordered rule list clearsky, sleet, snow, rain+thunder, rain, cloud, fog |
| `Symbols.FirstMatchIsEarliest` | main.py:54-67 | first match wins: when rule k applies and no earlier rule does, rule k's description is chosen |
| `Symbols.FirstMatchNone` | main.py:54-69 | the rule list yields nothing exactly when no rule applies |
| `Symbols.RulesDecideOutsideTable` | main.py:50-69 | outside the table, the heuristic on the lower-cased code decides, with the code itself as the fallback |
| `Symbols.OutsideTableUsesRules` | main.py:50-69 | a non-empty code outside the table gets the first applicable rule's description, or itself when no rule applies |
| `Symbols.UnmatchedCodeIsKept` | main.py:69 | a non-empty code outside the table to which no rule applies is returned unchanged |
| `Symbols.ThunderBeatsRain` | main.py:54-63 | a non-table code containing "rain" and "thunder" and no earlier rule's word gives "Rain with thunder", not "Rain" |
| `Symbols.SleetAndSnowBeatRain` | main.py:54-63 | for a non-table code without "clearsky", "sleet" gives "Sleet", and "snow" without "sleet" gives "Snow", whatever rain words it has |
| `Symbols.CaseVariantUsesRules` | main.py:50-63 | a non-table code whose lower-case form is "heavyrain" gives "Rain" (heuristic), not "Heavy rain" (table) |
| `Symbols.HeavyRainIsRain` | main.py:54-63 | the lower-case form "heavyrain" passes the clear-sky, sleet, snow and thunder tests and stops at the rain rule |
| `Symbols.ResultIsKnownOrCode` | main.py:26-69 | every result is a table entry, a rule's description or the code itself |
| `Text.LowerChar` | main.py:53 | upper-case ASCII letters become lower-case, all other characters stay |
| `Text.ToLower` | main.py:53 | lower-casing keeps the length and maps each character |
| `Text.ToLowerIdempotent` | main.py:53 | lower-cased text is lower-case, and lower-casing it again changes nothing |
| `Text.Contains` | main.py:54-66 | Python's substring `in`; its contract is carried by `ContainsIsOccurrence` (holds exactly when the word occurs at some index) and `NotContainsFirstChar` |
| `Text.MatchesFromIsSlice` | main.py:54 | the character-by-character comparison agrees with slice equality |
| `Text.ContainsFromIsOccurrence` | main.py:54 | searching from an index finds exactly the occurrences at that index or later |
| `Text.ContainsIsOccurrence` | main.py:54-66 | the substring test holds exactly when the word occurs at some index |
| `Text.NotContainsFirstChar` | main.py:54-66 | a word whose first letter is absent from the code is not contained in it |
| `Text.PadLeft` | main.py:108 | `rjust`: the result has length max(width, len), ends with the text and is spaces before it |
| `Text.ReplaceChar` | main.py:118 | after `replace`, no 'Z' is left; text without 'Z' is unchanged |
| `Text.ReplaceCharConcat` | main.py:143 | replacement works piecewise over a concatenation |
| `Text.Decimal` | main.py:95 | the whole part is a non-empty digit string without leading zeros |
| `Text.DecimalRoundTrip` | main.py:95 | reading the digit string back gives the number |
| `Formatting.FormatTenths` | main.py:95 | `f"{val:.1f}"` on tenths; its contract is carried by `FormatTenthsShape`, `FormatTenthsRoundTrip`, `FormatTenthsNegated` and `ZeroFormatsAsZero` |
| `Formatting.FormatTenthsShape` | main.py:95 | number text has exactly one digit after its only decimal point |
| `Formatting.FormatTenthsRoundTrip` | main.py:95 | number text reads back to the value it was written from |
| `Formatting.FormatTenthsNegated` | main.py:95 | a negative number is written as its magnitude with a leading minus sign |
| `Formatting.ZeroFormatsAsZero` | main.py:95 | zero is written as "0.0" |
| `Formatting.Fmt` | main.py:93-98 | absent gives "No data" with no unit; a number gives its one-decimal text then the unit; any other value gives its text then the unit |
| `Formatting.FmtAbsent` | main.py:96-97 | `fmt(None, unit)` is "No data" whatever the unit |
| `Formatting.FmtNumber` | main.py:94-95 | a number's text ends with the unit and has exactly one digit after its only decimal point, and the part before the unit reads back as the value |
| `Formatting.SignColor` | main.py:109-114 | colour 34 below zero, 31 above zero, 33 at zero |
| `Formatting.ColoredShowsText` | main.py:115 | the colour sequence and the reset are invisible: wrapped text shows as the text |
| `Formatting.ColorTemp` | main.py:101-115 | `color_temp`; its contract is carried by `ColorTempWidth` (visible text is the right-justified `fmt` text), `ColoredIffNumber`, `NoColorWithoutNumber`, `OppositeSigns` and `ZeroIsNeutral` |
| `Formatting.ColorTempWidth` | main.py:101-115 | the visible output is the right-justified `fmt` text, at least `width` long and at least as long as the `fmt` text |
| `Formatting.NoColorWithoutNumber` | main.py:107-108 | an absent value never carries an escape code, and other non-numbers only when their own text does |
| `Formatting.ColoredIffNumber` | main.py:103-115 | the output starts with an escape sequence exactly when the value is a number; otherwise it is the right-justified text |
| `Formatting.OppositeSigns` | main.py:109-115 | t and -t are coloured 31 and 34 around the same padded text, apart from the minus sign |
| `Formatting.ZeroIsNeutral` | main.py:113-115 | zero is shown as "0.0" and the unit, coloured 33 |
| `Forecast.UtcOffsetForm` | main.py:143 | the timestamp with every 'Z' replaced by '+00:00'; no 'Z' is left (its own ensures), and `UtcDesignatorReplaced` gives the trailing-'Z' case |
| `Forecast.UtcDesignatorReplaced` | main.py:143 | a timestamp ending in 'Z' reaches the parser with '+00:00' instead |
| `Forecast.Describe` | main.py:152-153 | `translate_symbol(raw) if raw else 'No data'`; its contract is carried by `DescribeIsTranslate` |
| `Forecast.DescribeIsTranslate` | main.py:152-153 | the description is "No data" for a missing or empty symbol and is otherwise the translation; the guard agrees with the translator |
| `Forecast.TableSize` | main.py:140 | the table size is min(10, number of points) |
| `Forecast.RenderLine` | main.py:141-155 | the time, temperature, wind and description of one point; `RenderLinesAt` and `TableShowsFirstPoints` say which point each printed line shows |
| `Forecast.RenderLines` | main.py:141-155 | one line per point |
| `Forecast.RenderLinesAt` | main.py:141-155 | line i is the line of point i (input order, no sorting) |
| `Forecast.RenderLinesEach` | main.py:141-155 | every line is the line of its own point |
| `Forecast.RenderTable` | main.py:140-155 | the loop yields min(10, n) lines, which are the lines of the first points in order |
| `Forecast.RenderForecast` | main.py:88-155 | an empty series is the no-data error and nothing else is; otherwise the current line is point 0's and the table is the first min(10, n) points' lines |
| `Forecast.TableShowsFirstPoints` | main.py:124-155 | table line i shows point i, and the first table line equals the current-conditions line |

## Left out

- `geocode_city` and the forecast request (main.py:5-19, 78-90) are left out. They are HTTP calls and JSON decoding. The model starts from decoded points.
- The status-code and not-found messages are left out for the same reason.
- `menu` (main.py:159-169) is left out. It is the interactive `input()` loop and its "exit" sentinel, which is console I/O.
- Timestamp localisation (`datetime.fromisoformat`, `astimezone`, `strftime`) is the parameter `localize`. It depends on the host's time zone. A malformed timestamp, which raises in the source, is outside the model.
- `Formatting.FormatTenths`: values are whole tenths, so the rounding of `f"{val:.1f}"` on binary floats is not modelled.
- `Formatting.ColorTemp`: the sign test in the source uses the raw float. So -0.04 prints as "-0.0" in blue. Tenths cannot express this.
- A JSON boolean counts as a number in Python. The model assumes the decoder maps it to `Num`.
- `Text.ToLower` lower-cases ASCII letters only. Python's `str.lower` also folds other Unicode letters, in a few cases into more than one character.
- Printing is left out. This covers the banner and separator lines, the outer f-string padding (`:>10`, `:>6`, `:19`, which counts escape bytes), and the default unit string, which is an opaque parameter.
- The `try`/`except` around `isinstance` (main.py:103-106) is left out. It cannot raise.
- A missing `time` or `data` key raises `KeyError` in the source. Points always carry both here.
