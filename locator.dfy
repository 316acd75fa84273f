/** The search for the data table in `fetchData` (script.js:20-70): first by the header texts,
    then, if no table has them, by the shape of the second row. A located table is given by
    its index in the page's document-order list of tables. */
module Locator {
  import opened Options
  import opened Text
  import opened Pages
  import opened Patterns

  /** A header naming the date column: its lower-cased text contains "datum" or "čas". */
  predicate IsDateHeader(h: string)
  {
    Contains(Lower(h), "datum") || Contains(Lower(h), "čas")
  }

  /** A header naming the water level column: its lower-cased text contains "stav". */
  predicate IsLevelHeader(h: string)
  {
    Contains(Lower(h), "stav")
  }

  /** script.js:40: a date header, a level header and more than five rows. */
  predicate HeaderQualifies(t: Table)
  {
    var hs := HeaderTexts(t);
    (exists k | 0 <= k < |hs| :: IsDateHeader(hs[k])) &&
    (exists k | 0 <= k < |hs| :: IsLevelHeader(hs[k])) &&
    |t| > 5
  }

  /** script.js:50-58: at least five rows, and row 1 has two `td` at least, the first of
      which, trimmed, contains `DD.MM.YYYY`. */
  predicate ShapeQualifies(t: Table)
  {
    |t| >= 5 && |t| > 1 && |TdTexts(t[1])| >= 2 && HasPaddedDate(Trim(TdTexts(t[1])[0]))
  }

  datatype Strategy = ByHeaders | ByShape

  predicate Qualifies(s: Strategy, t: Table)
  {
    match s
    case ByHeaders => HeaderQualifies(t)
    case ByShape => ShapeQualifies(t)
  }

  /** The first table from index `from` on that the strategy accepts, in document order. */
  function FirstQualifying(page: Page, s: Strategy, from: nat): (r: Option<nat>)
    requires from <= |page|
    ensures r.Some? ==> from <= r.value < |page| && Qualifies(s, page[r.value])
    ensures r.Some? ==> forall j | from <= j < r.value :: !Qualifies(s, page[j])
    ensures r.None? <==> forall j | from <= j < |page| :: !Qualifies(s, page[j])
    decreases |page| - from
  {
    if from == |page| then None
    else if Qualifies(s, page[from]) then Some(from)
    else FirstQualifying(page, s, from + 1)
  }

  /** The table `fetchData` reads: the header strategy's, or the fallback's when the header
      strategy finds none. */
  function Locate(page: Page): (r: Option<nat>)
    ensures r.Some? ==> r.value < |page| && (HeaderQualifies(page[r.value]) || ShapeQualifies(page[r.value]))
    ensures r.None? <==> forall j | 0 <= j < |page| :: !HeaderQualifies(page[j]) && !ShapeQualifies(page[j])
  {
    match FirstQualifying(page, ByHeaders, 0)
    case Some(i) => Some(i)
    case None => FirstQualifying(page, ByShape, 0)
  }

  /** The first acceptable index is unique: any index that qualifies with none before it is it. */
  lemma FirstQualifyingIsFirst(page: Page, s: Strategy, i: nat)
    requires i < |page| && Qualifies(s, page[i])
    requires forall j | 0 <= j < i :: !Qualifies(s, page[j])
    ensures FirstQualifying(page, s, 0) == Some(i)
  {
  }

  /** What `Locate` picks: the first table with the headers; only if there is none, the first
      table of the right shape; nothing only when no table has either. */
  lemma LocateChoice(page: Page)
    ensures Locate(page).Some? ==> Locate(page).value < |page|
    ensures (exists j | 0 <= j < |page| :: HeaderQualifies(page[j])) ==>
      Locate(page).Some? && HeaderQualifies(page[Locate(page).value]) &&
      forall j | 0 <= j < Locate(page).value :: !HeaderQualifies(page[j])
    ensures (forall j | 0 <= j < |page| :: !HeaderQualifies(page[j])) ==>
      Locate(page) == FirstQualifying(page, ByShape, 0)
    ensures Locate(page).None? <==>
      forall j | 0 <= j < |page| :: !HeaderQualifies(page[j]) && !ShapeQualifies(page[j])
  {
    var h := FirstQualifying(page, ByHeaders, 0);
    if h.None? {
      assert forall j | 0 <= j < |page| :: !Qualifies(ByHeaders, page[j]);
    }
  }

  /** A table the locator can pick has at least five rows, so row 0 and row 1 exist. */
  lemma LocatedTableHasFiveRows(page: Page)
    requires Locate(page).Some?
    ensures Locate(page).value < |page| && |page[Locate(page).value]| >= 5
  {
    LocateChoice(page);
  }

  /** The inner loop of script.js:29-37: one pass over a table's headers that raises a flag
      for a date header and one for a level header. */
  method ScanHeaders(headers: seq<string>) returns (hasDateColumn: bool, hasWaterLevelColumn: bool)
    ensures hasDateColumn <==> exists k | 0 <= k < |headers| :: IsDateHeader(headers[k])
    ensures hasWaterLevelColumn <==> exists k | 0 <= k < |headers| :: IsLevelHeader(headers[k])
  {
    hasDateColumn := false;
    hasWaterLevelColumn := false;
    var hi := 0;
    while hi < |headers|
      invariant 0 <= hi <= |headers|
      invariant hasDateColumn <==> exists k | 0 <= k < hi :: IsDateHeader(headers[k])
      invariant hasWaterLevelColumn <==> exists k | 0 <= k < hi :: IsLevelHeader(headers[k])
    {
      var headerText := Lower(headers[hi]);
      if Contains(headerText, "datum") || Contains(headerText, "čas") {
        hasDateColumn := true;
      }
      if Contains(headerText, "stav") {
        hasWaterLevelColumn := true;
      }
      HeaderFlagsStep(headers, hi);
      hi := hi + 1;
    }
  }

  /** One more header raises a flag exactly when it names that column. */
  lemma HeaderFlagsStep(headers: seq<string>, hi: nat)
    requires hi < |headers|
    ensures (exists k | 0 <= k < hi + 1 :: IsDateHeader(headers[k])) <==>
      (exists k | 0 <= k < hi :: IsDateHeader(headers[k])) || IsDateHeader(headers[hi])
    ensures (exists k | 0 <= k < hi + 1 :: IsLevelHeader(headers[k])) <==>
      (exists k | 0 <= k < hi :: IsLevelHeader(headers[k])) || IsLevelHeader(headers[hi])
  {
  }

  /** The header strategy of script.js:23-44: one pass over the tables; the first table with
      both flags and more than five rows ends the search. */
  method FindByHeaders(page: Page) returns (found: Option<nat>)
    ensures found == FirstQualifying(page, ByHeaders, 0)
  {
    found := None;
    var ti := 0;
    while ti < |page|
      invariant 0 <= ti <= |page|
      invariant forall j | 0 <= j < ti :: !Qualifies(ByHeaders, page[j])
    {
      var qualifies := CheckHeaders(page[ti]);
      if qualifies {
        found := Some(ti);
        FirstQualifyingIsFirst(page, ByHeaders, ti);
        return;
      }
      ti := ti + 1;
    }
  }

  /** script.js:27-40 for one table: scan its headers, then test both flags and the row count. */
  method CheckHeaders(table: Table) returns (qualifies: bool)
    ensures qualifies <==> Qualifies(ByHeaders, table)
  {
    var hasDateColumn, hasWaterLevelColumn := ScanHeaders(HeaderTexts(table));
    qualifies := hasDateColumn && hasWaterLevelColumn && |table| > 5;
  }

  /** The fallback of script.js:48-64: skip tables with fewer than five rows, and take the first
      whose row 1 has two `td` at least, the first of them holding `DD.MM.YYYY`. */
  method FindByShape(page: Page) returns (found: Option<nat>)
    ensures found == FirstQualifying(page, ByShape, 0)
  {
    found := None;
    var ti := 0;
    while ti < |page|
      invariant 0 <= ti <= |page|
      invariant forall j | 0 <= j < ti :: !ShapeQualifies(page[j])
    {
      var rows := page[ti];
      if |rows| < 5 {
        ti := ti + 1;
        continue;
      }
      if |rows| > 1 {
        var cells := TdTexts(rows[1]);
        if |cells| >= 2 {
          var dateText := Trim(cells[0]);
          if HasPaddedDate(dateText) {
            found := Some(ti);
            FirstQualifyingIsFirst(page, ByShape, ti);
            return;
          }
        }
      }
      ti := ti + 1;
    }
  }

  /** script.js:20-65: `dataTable` after both searches. */
  method LocateTable(page: Page) returns (dataTable: Option<nat>)
    ensures dataTable == Locate(page)
  {
    dataTable := FindByHeaders(page);
    if dataTable.None? {
      dataTable := FindByShape(page);
    }
  }
}
