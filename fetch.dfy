/** `fetchData` once the page has been parsed (script.js:20-121): locate the data table, read
    its rows, sort the readings newest first. */
module Fetch {
  import opened Options
  import opened Pages
  import opened Dates
  import opened Locator
  import opened Readings
  import opened Sorting

  /** The sort key of `b.datetime - a.datetime`: the reading's time value. */
  function Key(r: Reading): int
  {
    Minutes(r.datetime)
  }

  /** The readings pushed onto `result`, in row order, before the sort; none without a table. */
  function Accepted(page: Page): (r: seq<Reading>)
    ensures forall x | x in r :: Plausible(x)
    ensures Locate(page).Some? ==> |r| <= |page[Locate(page).value]|
  {
    match Locate(page)
    case None => []
    case Some(i) =>
      LocatedTableHasFiveRows(page);
      TableReadings(page[i])
  }

  /** What `fetchData` returns for a parsed page. */
  function FetchData(page: Page): (r: seq<Reading>)
    ensures SortedNewestFirst(Key, r)
    ensures multiset(r) == multiset(Accepted(page))
  {
    SortSpecSorted(Key, Accepted(page));
    SortSpecPermutes(Key, Accepted(page));
    SortSpec(Key, Accepted(page))
  }

  /** script.js:20-121: the locator, the row loop, then the sort of the collected array in
      place. */
  method FetchReadings(page: Page) returns (result: seq<Reading>)
    ensures result == FetchData(page)
  {
    var dataTable := LocateTable(page);
    if dataTable.None? {
      return [];
    }
    LocatedTableHasFiveRows(page);
    var collected := ReadRows(page[dataTable.value]);
    var a := new Reading[|collected|](k requires 0 <= k < |collected| => collected[k]);
    assert a[..] == collected;
    SortNewestFirst(Key, a);
    result := a[..];
  }

  /** The result is newest first, holds exactly the accepted readings (with their
      multiplicities), and readings with the same time value keep their row order. */
  lemma FetchDataOrder(page: Page)
    ensures SortedNewestFirst(Key, FetchData(page))
    ensures multiset(FetchData(page)) == multiset(Accepted(page))
    ensures forall v :: WithKey(Key, FetchData(page), v) == WithKey(Key, Accepted(page), v)
  {
    SortSpecSorted(Key, Accepted(page));
    SortSpecPermutes(Key, Accepted(page));
    forall v ensures WithKey(Key, FetchData(page), v) == WithKey(Key, Accepted(page), v) {
      SortSpecStable(Key, Accepted(page), v);
    }
  }

  /** Any stable newest-first sort of the accepted readings gives what `FetchData` gives. */
  lemma AnyStableSortAgrees(page: Page, r: seq<Reading>)
    requires SortedNewestFirst(Key, r)
    requires forall v :: WithKey(Key, r, v) == WithKey(Key, Accepted(page), v)
    ensures r == FetchData(page)
  {
    StableSortIsUnique(Key, Accepted(page), r);
  }

  /** With no qualifying table the result is empty (script.js:67-70). */
  lemma NoTableNoReadings(page: Page)
    requires forall j | 0 <= j < |page| :: !HeaderQualifies(page[j]) && !ShapeQualifies(page[j])
    ensures FetchData(page) == []
  {
    LocateChoice(page);
  }

  /** A page whose tables all have fewer than five rows gives no readings. */
  lemma SmallTablesNoReadings(page: Page)
    requires forall j | 0 <= j < |page| :: |page[j]| < 5
    ensures FetchData(page) == []
  {
    NoTableNoReadings(page);
  }

  /** A reading is in the result exactly when some examined row of the located table gives it. */
  lemma FetchDataOrigins(page: Page, r: Reading)
    ensures r in FetchData(page) <==>
      Locate(page).Some? && Locate(page).value < |page| && |page[Locate(page).value]| > 0 &&
      var t := page[Locate(page).value];
      exists j | StartIndex(t) <= j < |t| :: RowReading(t[j]) == Some(r)
  {
    FetchDataOrder(page);
    assert r in FetchData(page) <==> r in multiset(Accepted(page));
    if Locate(page).Some? {
      LocatedTableHasFiveRows(page);
      var t := page[Locate(page).value];
      SuffixMembers(t, StartIndex(t), RowReading, r);
    }
  }

  /** Every returned reading has a date that is not NaN and a height that is not negative. */
  lemma FetchDataValid(page: Page, r: Reading)
    requires r in FetchData(page)
    ensures IsValid(r.datetime) && r.waterHeight >= 0.0
  {
    FetchDataOrigins(page, r);
    var t := page[Locate(page).value];
    var j :| StartIndex(t) <= j < |t| && RowReading(t[j]) == Some(r);
  }

  /** No more readings than examined rows. */
  lemma FetchDataBound(page: Page)
    ensures Locate(page).None? ==> |FetchData(page)| == 0
    ensures Locate(page).Some? ==>
      (Locate(page).value < |page| && |page[Locate(page).value]| > 0 &&
       |FetchData(page)| <= |page[Locate(page).value]| - StartIndex(page[Locate(page).value]))
  {
    if Locate(page).Some? {
      LocatedTableHasFiveRows(page);
    }
  }
}
