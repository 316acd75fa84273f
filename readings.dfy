/** The row loop of `fetchData` (script.js:75-115): skipping a header row, and turning each
    later row into at most one reading. */
module Readings {
  import opened Options
  import opened Text
  import opened Numbers
  import opened Dates
  import opened Pages
  import opened Patterns

  /** `{ datetime, waterHeight }`, the object pushed at script.js:106. */
  datatype Reading = Reading(datetime: DateValue, waterHeight: real)

  /** What one row of the loop at script.js:86-115 pushes, if anything: at least three `td`,
      then the test of its first two cells' trimmed texts. */
  function RowReading(row: Row): (r: Option<Reading>)
    ensures r.Some? ==> IsValid(r.value.datetime) && r.value.waterHeight >= 0.0
  {
    var cells := TdTexts(row);
    if |cells| < 3 then None else CellsReading(Trim(cells[0]), Trim(cells[1]))
  }

  /** script.js:93-109 on the trimmed date and height texts: the date filter, the emptiness
      test, then a height that parses and a date that is not NaN. */
  function CellsReading(dateText: string, waterHeightText: string): (r: Option<Reading>)
    ensures r.Some? ==> IsValid(r.value.datetime) && r.value.waterHeight >= 0.0
  {
    if !HasPaddedDate(dateText) && !HasDate(dateText) then None
    else if dateText == [] || waterHeightText == [] then None
    else
      var datetime := ParseDate(dateText);
      var waterHeight := ParseCleanedFloat(CleanHeight(waterHeightText));
      if waterHeight.Some? && IsValid(datetime) then Some(Reading(datetime, waterHeight.value))
      else None
  }

  /** What a loop over `rows` collects when each row gives `read(row)`: the readings in row
      order. */
  function Collect(rows: seq<Row>, read: Row -> Option<Reading>): (r: seq<Reading>)
    ensures |r| <= |rows|
  {
    if rows == [] then []
    else Collect(rows[..|rows| - 1], read) + AsSeq(read(rows[|rows| - 1]))
  }

  /** script.js:79-84: the loop starts at row 1 when row 0 holds a `th`. */
  function StartIndex(table: Table): nat
    requires |table| > 0
  {
    if |ThTexts(table[0])| > 0 then 1 else 0
  }

  /** The rows the loop examines and the readings they give. */
  function TableReadings(table: Table): (r: seq<Reading>)
    requires |table| > 0
    ensures |r| <= |table| - StartIndex(table)
    ensures forall x | x in r :: Plausible(x)
  {
    RowReadingsValid(table[StartIndex(table)..]);
    Collect(table[StartIndex(table)..], RowReading)
  }

  /** What script.js:105 lets through: a date that is not NaN, and a height that is not negative
      since the clean-up keeps no minus sign. */
  predicate Plausible(x: Reading)
  {
    IsValid(x.datetime) && x.waterHeight >= 0.0
  }

  /** Every reading the row loop collects is plausible. */
  lemma RowReadingsValid(rows: seq<Row>)
    ensures forall x | x in Collect(rows, RowReading) :: Plausible(x)
  {
    forall x | x in Collect(rows, RowReading) ensures Plausible(x) {
      CollectMembers(rows, RowReading, x);
      var i :| 0 <= i < |rows| && RowReading(rows[i]) == Some(x);
    }
  }

  /** The loop of script.js:79-115: the start index, then one pass over the rows pushing onto
      `result`. */
  method ReadRows(rows: Table) returns (result: seq<Reading>)
    requires |rows| > 0
    ensures result == TableReadings(rows)
  {
    var startIndex := FirstDataRow(rows);
    result := PushReadings(rows, startIndex, RowReading);
    assert rows[startIndex..|rows|] == rows[startIndex..];
  }

  /** script.js:79-84. */
  method FirstDataRow(rows: Table) returns (startIndex: nat)
    requires |rows| > 0
    ensures startIndex == StartIndex(rows)
  {
    startIndex := 0;
    var firstRowCells := ThTexts(rows[0]);
    if |firstRowCells| > 0 {
      startIndex := 1;
    }
  }

  /** script.js:86-115: every row from `startIndex` on, once and in order, each pushing the
      reading `read` makes of it, if any; `fetchData` reads rows with `RowReading`. */
  method PushReadings(rows: Table, startIndex: nat, read: Row -> Option<Reading>) returns (result: seq<Reading>)
    requires startIndex <= |rows|
    ensures result == Collect(rows[startIndex..|rows|], read)
  {
    result := [];
    var i := startIndex;
    while i < |rows|
      invariant startIndex <= i <= |rows|
      invariant result == Collect(rows[startIndex..i], read)
    {
      var reading := read(rows[i]);
      CollectStep(rows, startIndex, i, read);
      if reading.Some? {
        result := result + [reading.value];
      }
      i := i + 1;
    }
  }

  /** One more row adds what that row gives. */
  lemma CollectStep(rows: seq<Row>, lo: nat, i: nat, read: Row -> Option<Reading>)
    requires lo <= i < |rows|
    ensures Collect(rows[lo..i + 1], read) == Collect(rows[lo..i], read) + AsSeq(read(rows[i]))
  {
    assert rows[lo..i + 1][..i - lo] == rows[lo..i];
  }

  /** A row gives a reading exactly when it has three `td` at least, its trimmed first cell
      contains `digit . 1-2 digits . 4 digits`, its cleaned height parses and its date is not
      NaN; the emptiness checks of script.js:97 never reject a row the filter let through. */
  lemma RowReadingAccepts(row: Row)
    ensures var cells := TdTexts(row);
      RowReading(row).Some? <==>
        |cells| >= 3 && HasShortDayDate(Trim(cells[0])) &&
        ParseCleanedFloat(CleanHeight(Trim(cells[1]))).Some? && IsValid(ParseDate(Trim(cells[0])))
    ensures var cells := TdTexts(row);
      RowReading(row).Some? ==>
        RowReading(row).value.datetime == ParseDate(Trim(cells[0])) &&
        Some(RowReading(row).value.waterHeight) == ParseCleanedFloat(CleanHeight(Trim(cells[1])))
  {
    var cells := TdTexts(row);
    if |cells| >= 3 {
      CellsReadingAccepts(Trim(cells[0]), Trim(cells[1]));
    }
  }

  /** The test of script.js:93-109 on two texts, stated without the filter's second pattern. */
  lemma CellsReadingAccepts(dateText: string, waterHeightText: string)
    ensures CellsReading(dateText, waterHeightText).Some? <==>
      HasShortDayDate(dateText) && ParseCleanedFloat(CleanHeight(waterHeightText)).Some? &&
      IsValid(ParseDate(dateText))
    ensures CellsReading(dateText, waterHeightText).Some? ==>
      CellsReading(dateText, waterHeightText).value.datetime == ParseDate(dateText) &&
      Some(CellsReading(dateText, waterHeightText).value.waterHeight) ==
        ParseCleanedFloat(CleanHeight(waterHeightText))
  {
    DateFilterIsLoosePattern(dateText);
    LoosePatternIsShortDay(dateText);
    if PassesDateFilter(dateText) {
      FilterNeedsEightCharacters(dateText);
    }
    assert CleanHeight([]) == [];
  }

  /** A height cell without a digit, such as "—", drops its row. */
  lemma RowWithoutHeightDigitDropped(row: Row)
    requires |TdTexts(row)| >= 3
    requires forall i | 0 <= i < |Trim(TdTexts(row)[1])| :: !IsDigit(Trim(TdTexts(row)[1])[i])
    ensures RowReading(row).None?
  {
    HeightWithoutDigitIsNaN(Trim(TdTexts(row)[1]));
  }

  /** A row with fewer than three `td` is skipped, whatever it holds. */
  lemma ShortRowDropped(row: Row)
    requires |TdTexts(row)| < 3
    ensures RowReading(row).None?
  {
  }

  /** The loop works row by row: the readings of two runs of rows are those of the first
      followed by those of the second. */
  lemma {:induction false} CollectAppend(a: seq<Row>, b: seq<Row>, read: Row -> Option<Reading>)
    ensures Collect(a + b, read) == Collect(a, read) + Collect(b, read)
    decreases |b|
  {
    if b == [] {
      assert a + b == a;
    } else {
      var b' := b[..|b| - 1];
      assert (a + b)[..|a + b| - 1] == a + b';
      assert (a + b)[|a + b| - 1] == b[|b| - 1];
      CollectAppend(a, b', read);
    }
  }

  /** Every reading comes from a row, and every row that gives a reading contributes it. */
  lemma {:induction false} CollectMembers(rows: seq<Row>, read: Row -> Option<Reading>, r: Reading)
    ensures r in Collect(rows, read) <==> exists i | 0 <= i < |rows| :: read(rows[i]) == Some(r)
    decreases |rows|
  {
    if rows != [] {
      var init, last := rows[..|rows| - 1], rows[|rows| - 1];
      var before, added := Collect(init, read), AsSeq(read(last));
      assert Collect(rows, read) == before + added;
      assert r in before + added <==> r in before || r in added;
      assert r in added <==> read(last) == Some(r);
      CollectMembers(init, read, r);
      if r in before {
        var i :| 0 <= i < |init| && read(init[i]) == Some(r);
        assert read(rows[i]) == Some(r);
      }
      if exists i | 0 <= i < |rows| :: read(rows[i]) == Some(r) {
        var i :| 0 <= i < |rows| && read(rows[i]) == Some(r);
        if i < |init| {
          assert read(init[i]) == Some(r);
        }
      }
    }
  }

  /** The readings collected from row `lo` on come from those rows, and each of them that gives
      a reading contributes it. */
  lemma SuffixMembers(rows: seq<Row>, lo: nat, read: Row -> Option<Reading>, r: Reading)
    requires lo <= |rows|
    ensures r in Collect(rows[lo..], read) <==> exists j | lo <= j < |rows| :: read(rows[j]) == Some(r)
  {
    var tail := rows[lo..];
    CollectMembers(tail, read, r);
    if exists i | 0 <= i < |tail| :: read(tail[i]) == Some(r) {
      var i :| 0 <= i < |tail| && read(tail[i]) == Some(r);
      assert read(rows[lo + i]) == Some(r);
    }
    if exists j | lo <= j < |rows| :: read(rows[j]) == Some(r) {
      var j :| lo <= j < |rows| && read(rows[j]) == Some(r);
      assert tail[j - lo] == rows[j];
    }
  }

  /** script.js:80-84: the loop skips row 0 exactly when it holds a `th`. */
  lemma StartIndexSkipsHeaderRow(table: Table)
    requires |table| > 0
    ensures StartIndex(table) == 1 <==> exists c | c in table[0] :: c.Th?
    ensures StartIndex(table) == 0 <==> forall c | c in table[0] :: c.Td?
  {
    var ths := ThTexts(table[0]);
    if |ths| > 0 {
      assert ths[0] in ths;
    }
    if exists c | c in table[0] :: c.Th? {
      var c :| c in table[0] && c.Th?;
      assert c.text in ths;
    }
  }

  lemma CollectFirst(rows: seq<Row>, read: Row -> Option<Reading>)
    requires |rows| > 0
    ensures Collect(rows, read) == AsSeq(read(rows[0])) + Collect(rows[1..], read)
  {
    var head := [rows[0]];
    assert rows == head + rows[1..];
    CollectAppend(head, rows[1..], read);
    assert head[..0] == [];
    assert Collect(head, read) == AsSeq(read(rows[0]));
  }

  /** Every later row is examined exactly once; row 0 is examined exactly when it holds no `th`. */
  lemma HeaderRowSkip(table: Table)
    requires |table| > 0
    ensures TableReadings(table) ==
      (if exists c | c in table[0] :: c.Th? then [] else AsSeq(RowReading(table[0]))) +
      Collect(table[1..], RowReading)
  {
    StartIndexSkipsHeaderRow(table);
    if StartIndex(table) == 0 {
      assert table[0..] == table;
      CollectFirst(table, RowReading);
    }
  }

  /** The three-`td` row of the given texts. */
  lemma ThreeCellRow(row: Row, a: string, b: string, c: string)
    requires row == [Td(a), Td(b), Td(c)]
    ensures TdTexts(row) == [a, b, c]
  {
    assert row[1..] == [Td(b), Td(c)];
    assert row[1..][1..] == [Td(c)];
    assert row[1..][1..][1..] == [];
  }

  /** Cells past the filter whose height parses and whose date is not NaN give exactly that
      reading. */
  lemma CellsAccepted(dateText: string, waterHeightText: string)
    requires PassesDateFilter(dateText)
    requires ParseCleanedFloat(CleanHeight(waterHeightText)).Some?
    requires IsValid(ParseDate(dateText))
    ensures CellsReading(dateText, waterHeightText) ==
      Some(Reading(ParseDate(dateText), ParseCleanedFloat(CleanHeight(waterHeightText)).value))
  {
    FilterNeedsEightCharacters(dateText);
    assert CleanHeight([]) == [];
  }
}
