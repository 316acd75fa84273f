# floodScraper: the gauge-table pipeline, in Dafny

floodScraper reads the water-level page of a river gauge of the Czech hydrometeorological
service and draws the level as a chart. This project models what `fetchData` in `script.js`
does once the page has been parsed, and what `updateChart` computes from its result:

- **Table locator** (`Locator`). The first table, in document order, with a date header
  ("datum" or "čas"), a level header ("stav") and more than five rows. If no table has all
  three, the first table with at least five rows whose row 1 has two `td` or more, the first
  of them holding `DD.MM.YYYY`. Otherwise no table, and the result is empty.
- **Row loop** (`Readings`). Row 0 is skipped when it holds a `th`. Each later row gives at
  most one reading. It needs three `td`, a first cell that passes the date test, a non-empty
  height, a height that parses and a date that is not NaN.
- **Numbers** (`Numbers`). The height clean-up keeps digits, points and commas, then turns the
  first comma into a point. `parseFloat` is read as an exact decimal. `parseInt` reads an
  optional sign and a leading run of decimal digits, or of hexadecimal digits after `0x`.
- **`parseDate`** (`Dates`). It tries the primary pattern `D.M.YYYY H:M` first. Failing that,
  it reads the five positional tokens of `split(/[\s.:/]+/)`. Failing that, it gives the
  `new Date(0)` sentinel.
- **Sort** (`Sorting`). The readings are sorted newest first, and the sort is stable. Its
  outcome is defined as a functional insertion sort. It runs as an in-place insertion sort
  on an array.
- **Chart values** (`Chart`). Labels, values and the y-axis range `min - 5` to `max + 5`.
  Empty data gives no chart update.

`Pages` holds the parsed page as data: tables of rows of `th`/`td` cells. `Text` models
`trim`, `toLowerCase` and `includes`. `Patterns` models the regular-expression date tests.
`Fetch` puts the pipeline together. `Scenarios` states what the model gives for concrete rows
and tables.

Some consequences of the code that the model makes explicit:

- The locator has two strategies: by the header texts, then by the shape of row 1.
- The fallback inspects row 1 only. Rows 2 to 5 play no part in it.
- A row is read only when it has three `td` cells or more.
- The axis runs from `min - 5` to `max + 5`, with no rounding.
- A date with no primary match and fewer than five tokens becomes the epoch sentinel, which
  passes the validity test. So a date-only cell such as "01.02.2024" yields a reading at time 0
  (`Scenarios.DateOnlyRowExample`).
- A table of one header row and one data row is too short for both strategies, so it gives
  no reading (`Scenarios.HeaderAndOneRowGivesNothing`).

The row test of script.js:93 is the union of `\d{2}\.\d{2}\.\d{4}` and `\d{1,2}\.\d{1,2}\.\d{4}`.
It is equivalent to the second pattern alone, and also to `\d\.\d{1,2}\.\d{4}`.

Time values follow section 21.4.1 of ECMA-262 (MakeDay, MakeTime, TimeClip), counted in
minutes, with the arguments taken as exact integers (see "## Left out"). Local time is taken to
be UTC.

## Model

| member | source | states |
|---|---|---|
| Text.TrimSpec | script.js:89-90 | `Text.Trim`, as `trim`: the trimmed cell is the text between its leading and trailing white space, which are all white space, and it neither starts nor ends with white space |
| Text.TrimIdempotent | script.js:131 | trimming the already trimmed cell again in `parseDate` changes nothing |
| Text.LowerIsLower | script.js:30 | `Text.Lower`, as `toLowerCase`: the lower-cased header has no upper-case character left, and text without one is unchanged; the mapping itself is `Text.LowerCharMapping` and `Text.LowerCzech` |
| Text.LowerCharMapping | script.js:30 | `A` to `Z` become `a` to `z`; small letters, digits and white space stay as they are |
| Text.LowerCzech | script.js:30 | the fifteen Czech capitals with diacritics, such as `Č` and `Ř`, become their small letters, which stay as they are |
| Text.LowerAppend | script.js:30 | lower-casing works piece by piece: the lower-cased join is the join of the lower-cased pieces |
| Pages.TdTexts | script.js:87 | the `td` texts of a row are exactly the texts of its `td` cells, no more than there are cells; their order is fixed by `Pages.TdTextsOne` and `Pages.TdTextsAppend` |
| Pages.TdTextsOne | script.js:87 | one cell gives its text when it is a `td` and nothing when it is a `th` |
| Pages.TdTextsAppend | script.js:87 | the `td` texts of two runs of cells are those of the first followed by those of the second |
| Pages.TdTextsByCell | script.js:87-90 | in document order: the text of cell k comes after those of the cells before it and before those of the cells after it, so `cells[0]` and `cells[1]` are the first two `td` |
| Pages.HeaderTexts | script.js:25 | a table's `th` texts are exactly those of the `th` cells of any of its rows |
| Pages.CellsAreTdOrTh | script.js:80-87 | a row's `td` and `th` selections together account for all of its cells |
| Patterns.DateFilterIsLoosePattern | script.js:93 | `Patterns.PassesDateFilter`, the two-pattern test: a cell passes the two-pattern test iff `\d{1,2}\.\d{1,2}\.\d{4}` occurs in it |
| Patterns.LoosePatternIsShortDay | script.js:93 | that test holds iff `digit . 1-2 digits . 4 digits` occurs |
| Patterns.PaddedDatePassesFilter | script.js:58-93 | every first cell the fallback locator accepts also passes the row filter |
| Patterns.PrimaryMatchPassesFilter | script.js:134-135 | text on which `parseDate`'s primary pattern matches always passes the row filter |
| Patterns.FilterNeedsEightCharacters | script.js:93 | a cell that passes the filter has at least eight characters, so it is never empty |
| Locator.FirstQualifying | script.js:24-44 | the table found qualifies, none before it qualifies, and nothing is found iff no table qualifies |
| Locator.Locate | script.js:20-70 | a located table qualifies for one of the two strategies, and no table is located iff no table qualifies for either |
| Locator.LocateChoice | script.js:20-70 | the header strategy's first table wins; only when no table has the headers is the fallback's first table taken; no table iff no table satisfies either strategy |
| Locator.LocatedTableHasFiveRows | script.js:40-50 | a located table has at least five rows |
| Locator.ScanHeaders | script.js:29-37 | the date flag is raised iff some header contains "datum" or "čas" lower-cased, the level flag iff one contains "stav" |
| Locator.CheckHeaders | script.js:27-40 | the per-table test holds iff both flags are raised and the table has more than five rows |
| Locator.FindByHeaders | script.js:23-44 | the loop with `break` returns the first table qualifying for the header strategy |
| Locator.FindByShape | script.js:48-65 | the loop with `continue` and `break` returns the first table qualifying for the fallback |
| Locator.LocateTable | script.js:20-65 | `dataTable` after both loops is the table `Locate` specifies |
| Numbers.DigitRun | script.js:140-144 | the longest all-digit prefix: all digits, and the next character is not one |
| Numbers.ParseInt | script.js:140-144 | a number is read only when the text, after leading white space, starts with a digit or a sign and a digit; such text gives NaN only as `0x` with no hexadecimal digit after it |
| Numbers.ParseIntSigned | script.js:140-144 | a `+` before the digits keeps the value, a `-` negates it, and NaN stays NaN |
| Numbers.ParseIntHex | script.js:140-144 | `0x` or `0X` and a run of hexadecimal digits read as that run in base 16 |
| Numbers.ParseIntDigitPrefix | script.js:140-144 | `parseInt` of a digit string followed by a non-digit is the digits' decimal value |
| Numbers.ParseIntDigits | script.js:140-144 | `parseInt` of an all-digit string is its decimal value |
| Numbers.ParseIntNaN | script.js:152-158 | text starting, after white space, with neither sign nor digit is NaN |
| Numbers.KeepNumeric | script.js:101 | the result has only digits, points and commas; `Numbers.KeepNumericAppend` keeps them in order |
| Numbers.KeepNumericAppend | script.js:101 | the clean-up works piece by piece, so the kept characters stay in their order |
| Numbers.KeepNumericCounts | script.js:101 | every digit, point and comma is kept as often as it occurs |
| Numbers.ReplaceFirstComma | script.js:101 | same length, and only the first comma becomes a point |
| Numbers.CleanHeight | script.js:101 | the cleaned text has only digits, points and commas |
| Numbers.DecimalNumber | script.js:103 | the value of `ip.fp` lies between the integer part and the next integer |
| Numbers.ParseCleanedFloat | script.js:103 | a number is read iff the text starts with a digit or with a point and a digit, and it is not negative; its value is given by `Numbers.ParseDecimal`, `Numbers.ParseCleanedFloatPrefix`, `Numbers.ParseCleanedInteger` and `Numbers.ParseCleanedFraction` |
| Numbers.HeightWithoutDigitIsNaN | script.js:101-105 | a height without a digit, such as "—", is NaN |
| Numbers.HeightWithLeadingDigitParses | script.js:101-103 | a height whose first kept character is a digit gives a number |
| Numbers.ReplaceCommaAfterDigits | script.js:101 | in `ip,fp` with all-digit `ip`, the comma becomes a point |
| Numbers.ParseDecimal | script.js:103 | `parseFloat` of `ip.fp` is the exact decimal value |
| Numbers.ParseCleanedFloatPrefix | script.js:103 | `ip.fp` followed by text that does not continue the number, such as "1.5.3", reads as `ip.fp` |
| Numbers.ParseCleanedInteger | script.js:103 | digits followed by neither a digit nor a point, such as "12,", read as that whole number |
| Numbers.ParseCleanedFraction | script.js:103 | a point and digits with no integer part, such as ".5", read as the fraction they write, whatever non-digit follows |
| Numbers.CommaDecimalHeight | script.js:101-103 | a comma-decimal height with a unit suffix cleans to `ip.fp` and reads as that exact value |
| Numbers.IntegerHeight | script.js:101-103 | a whole-number height with a unit, such as "134 cm", cleans to its digits and reads as that number |
| Numbers.HeightExample | script.js:101-103 | "123,4 cm" cleans to "123.4" and reads as 123.4 |
| Dates.GroupBefore | script.js:134 | what is found is one or two digits followed by the separator |
| Dates.GroupBeforeFinds | script.js:134 | a group of one or two digits before the separator is always the one found |
| Dates.MatchAt | script.js:134-135 | a match found at a position lies within the text |
| Dates.PatternCaptures | script.js:134-138 | a match of the regular expression spans twelve characters at least, and its groups are digit strings of the pattern's lengths |
| Dates.MatchAtIffPattern | script.js:134-135 | `MatchAt` finds a match exactly where the regular expression has one |
| Dates.MatchAtSound | script.js:134-135 | each match found is a match of the regular expression |
| Dates.MatchAtComplete | script.js:134-135 | each match of the regular expression at a position is found there, with the same day, month, white space and hours and minutes at least as long |
| Dates.FirstMatchFrom | script.js:135 | `match` gives the leftmost position with a match, and no match when there is none |
| Dates.FirstCaptures | script.js:134-138 | `match` gives groups exactly when the pattern matches at some position, and they have the pattern's shapes |
| Dates.ShortTextHasNoMatch | script.js:134-135 | text shorter than twelve characters has no match |
| Dates.Split | script.js:149 | the tokens contain no separator, the inner ones are non-empty, and there is at least one |
| Dates.SplitRun | script.js:149 | a token, a whole run of separators and text not starting with a separator split into that token followed by the text's tokens, so a run is one delimiter |
| Dates.SplitFirstToken | script.js:149 | a token, one separator and text not starting with a separator split into that token followed by the text's tokens |
| Dates.SplitLosesOnlySeparators | script.js:149 | joining the tokens gives the text without its separators |
| Dates.SplitTokenBound | script.js:149-150 | there are at most one more tokens than separator characters |
| Dates.PrimaryDateOfCaptures | script.js:138-145 | captured groups give a valid date of their decimal values, with month index the month minus one |
| Dates.ParseDatePrimary | script.js:134-146 | with a primary match, the date is (year, month - 1, day, hour, minute) of the first match, and it is valid |
| Dates.ParseDate | script.js:128-167 | a primary match gives a valid date; an invalid date comes only from the positional fallback on text with five tokens or more |
| Dates.InvalidOnlyFromFallback | script.js:149-159 | a NaN date can come only from the positional fallback with five tokens or more |
| Dates.FallbackPositional | script.js:149-158 | without a primary match and with five numeric tokens, the date is (token 2, token 1 - 1, token 0, token 3, token 4) |
| Dates.FallbackTokenNaN | script.js:152-158 | a positional token that is not a number makes the date NaN |
| Dates.FallbackEpoch | script.js:161-162 | no match and fewer than five tokens give the epoch sentinel, which is valid |
| Dates.EpochIsMidnightNewYear1970 | script.js:162 | the sentinel has time value 0, that of 1 January 1970, 00:00 |
| Dates.NewYear2024 | script.js:139-145 | the time value of 1 January 2024 is 19723 days after the epoch |
| Dates.SmallFieldsAreValid | script.js:139-145 | `Dates.IsValid` of `Dates.ConstructedMinutes`: fields of at most four year digits and two digits elsewhere make a valid date |
| Dates.CalendarOrder | script.js:139-145 | for dates inside the calendar the time value is smaller iff the date is earlier by year, month, day, hour and minute, and equal iff the dates are equal, so newest first by time value is newest first by date |
| Readings.RowReading | script.js:86-115 | a reading from a row has a valid date and a non-negative height |
| Readings.CellsReading | script.js:93-109 | a reading from two cell texts has a valid date and a non-negative height |
| Readings.RowReadingAccepts | script.js:86-109 | a row gives a reading iff it has three `td`, its date passes the filter, its height parses and its date is not NaN; the reading holds that date and height |
| Readings.CellsReadingAccepts | script.js:93-109 | two cell texts give a reading iff the date passes the filter, the height parses and the date is not NaN, and the reading holds them |
| Readings.CellsAccepted | script.js:97-106 | cells past the filter with a parsable height and a valid date give exactly that reading |
| Readings.RowWithoutHeightDigitDropped | script.js:101-108 | a row whose height has no digit is dropped |
| Readings.ShortRowDropped | script.js:88 | a row with fewer than three `td` is dropped |
| Readings.Collect | script.js:86-115 | the loop pushes at most one reading per examined row |
| Readings.CollectAppend | script.js:86-115 | the readings of two runs of rows are those of the first followed by those of the second |
| Readings.CollectMembers | script.js:86-115 | a reading is collected iff some examined row gives it |
| Readings.SuffixMembers | script.js:86-115 | the readings from row `startIndex` on are exactly those its rows give |
| Readings.StartIndexSkipsHeaderRow | script.js:79-84 | `Readings.StartIndex`: the loop starts at row 1 iff row 0 holds a `th` |
| Readings.HeaderRowSkip | script.js:79-86 | row 0 is examined iff it has no `th`, and every later row exactly once, in order |
| Readings.FirstDataRow | script.js:79-84 | `startIndex` is 1 when row 0 holds a `th`, else 0 |
| Readings.PushReadings | script.js:86-115 | the loop's `result` is the readings of rows `startIndex..` in row order |
| Readings.ReadRows | script.js:75-115 | the row loop returns the readings of the examined rows |
| Readings.TableReadings | script.js:75-115 | a table gives no more readings than examined rows, and each has a valid date and a non-negative height |
| Readings.RowReadingsValid | script.js:86-109 | every reading collected from rows has a valid date and a non-negative height |
| Sorting.SortSpecSorted | script.js:118 | `Sorting.SortSpec`, the outcome of the sort: the sorted readings are newest first |
| Sorting.SortSpecPermutes | script.js:118 | the sort loses and duplicates no reading |
| Sorting.SortSpecStable | script.js:118 | readings with the same time value keep their order |
| Sorting.StableSortIsUnique | script.js:118 | every stable newest-first ordering of the readings is this one |
| Sorting.SortSpecSortedUnchanged | script.js:118 | readings already newest first are left as they are |
| Sorting.SortSpecIdempotent | script.js:118 | sorting the sorted readings again changes nothing |
| Sorting.SortNewestFirst | script.js:118 | the in-place sort leaves the array holding the specified stable sort of its old contents |
| Sorting.InsertNext | script.js:118 | one insertion step inserts the next reading into the sorted prefix and leaves the rest |
| Sorting.ShiftOlder | script.js:118 | the readings older than the inserted one move one place right, leaving a gap where it belongs |
| Fetch.FetchReadings | script.js:20-121 | `fetchData` on a parsed page returns the sorted accepted readings |
| Fetch.Accepted | script.js:20-115 | the readings before the sort each have a valid date and a non-negative height, at most one per row of the located table |
| Fetch.FetchData | script.js:20-121 | the result is newest first and a permutation of the accepted readings |
| Fetch.FetchDataOrder | script.js:118-121 | the result is newest first, a permutation of the accepted readings, and stable |
| Fetch.AnyStableSortAgrees | script.js:118 | any stable newest-first sort of the accepted readings is the result |
| Fetch.NoTableNoReadings | script.js:67-70 | without a qualifying table the result is empty |
| Fetch.SmallTablesNoReadings | script.js:40-70 | a page whose tables have fewer than five rows gives no reading |
| Fetch.FetchDataOrigins | script.js:75-121 | a reading is returned iff an examined row of the located table gives it |
| Fetch.FetchDataValid | script.js:105-106 | every returned reading has a valid date and a non-negative height |
| Fetch.FetchDataBound | script.js:86-121 | there are no more readings than examined rows, and none without a table |
| Chart.MinOf | script.js:178 | the minimum is one of the values and no value is below it |
| Chart.MaxOf | script.js:179 | the maximum is one of the values and no value is above it |
| Chart.UpdateChart | script.js:169-184 | empty data gives no update; otherwise one label and value per reading, and every value strictly inside the bounds |
| Chart.AxisBoundsTight | script.js:178-179 | the bounds are exactly five below the lowest and five above the highest reading |
| Chart.AxisRangeWidth | script.js:178-179 | the range is at least ten wide, and exactly ten around a constant level |
| Chart.AxisBoundsOfSubset | script.js:178-179 | the range of a list contains that of any list whose readings all occur in it |
| Chart.AxisBoundsOrderFree | script.js:178-179 | readings in another order give the same range |
| Chart.ChartOfFetch | script.js:118-184 | nothing is charted iff no row was accepted, and sorting leaves the range unchanged |
| Scenarios.DateTimeExample | script.js:134-146 | "01.02.2024 06:00" is (2024, 1, 1, 6, 0) |
| Scenarios.DateTimeMatch | script.js:134-135 | the primary pattern captures "01", "02", "2024", "06", "00" from it |
| Scenarios.DateOnlyExample | script.js:149-162 | "01.02.2024" has three tokens and gives the valid epoch sentinel |
| Scenarios.DateOnlySplit | script.js:149 | "01.02.2024" splits into "01", "02", "2024" |
| Scenarios.HeightValue | script.js:101-103 | "134,5" reads as 134.5 |
| Scenarios.GaugeRowExample | script.js:86-106 | a row of date and time, "134,5" and "—" gives one reading at that time with height 134.5 |
| Scenarios.DateOnlyRowExample | script.js:86-106 | a row with a date and no time gives a reading at the epoch sentinel |
| Scenarios.LegendRowSkipped | script.js:92-95 | a flood-stage legend row without a date is skipped |
| Scenarios.HeaderAndOneRowGivesNothing | script.js:40-70 | a table of a header row and one data row is located by neither strategy, and the result is empty |
| Scenarios.GaugeHeadersQualify | script.js:29-37 | "Datum a čas" is a date header and "Stav [cm]" a level header |
| Scenarios.HeaderTableLocated | script.js:23-44 | a first table whose row 0 holds a date header and a level header, with five rows or more after it, is the one located |

## Left out

- The fetch, the CORS proxy and `DOMParser` (script.js:5-15) are I/O. A parsed page is the
  input, and a fetch failure returning `[]` (script.js:122-125) is not modelled.
- The `catch` blocks at script.js:110-112 and script.js:163-166 guard operations that cannot
  throw in this model, so they have no counterpart.
- `console` logging has no behavioural content.
- Chart.js construction and `chart.update()` (script.js:185, 191-255) belong to a foreign
  library. `Chart.UpdateChart` returns the values it would store instead.
- The `lastRecord` status texts (script.js:171, 188, 258, 266) and `toLocaleString` are user
  interface. The labels are time values instead of `toISOString` strings.
- The polling driver `setInterval` (script.js:260-271) is a timer.
- Time zones: local time is taken to be UTC.
- IEEE floating point: heights are exact decimals, and `parseFloat` is modelled only on
  cleaned text, which is all the scraper gives it.
- Numbers.ParseInt: a numeral is read as an exact, unbounded integer. In JavaScript the result
  is a double, which rounds above 2^53 and is Infinity for numerals of about 309 digits or
  more. MakeTime's test that its arguments are finite is therefore not modelled, and
  `Dates.IsValid` checks only the TimeClip bound. A fallback date whose hour and minute tokens
  are such huge numerals, say hours 10^400 and minutes -6 * 10^401, is Invalid Date in
  JavaScript and dropped at script.js:105, while the model can give it a valid time value.
- `toLowerCase` is modelled for the Basic Latin, Latin-1 Supplement and Latin Extended-A
  blocks. Other characters are left unchanged.
- The DOM's text extraction: a cell's text is given, and `innerText` and `textContent` are
  not told apart.
- Nested tables: `querySelectorAll` on a table would also see the rows and cells of a table
  inside it. The page model has no nesting.
- `index.js` is not part of this model. It consists of wrappers over third-party libraries
  and file I/O, and its pipeline cannot run.
