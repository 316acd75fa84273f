/** What the model gives for concrete rows and tables: the readings a gauge table's rows give,
    the epoch sentinel of a date without a time, a gauge table found by its headers, and a table
    too short for either strategy. */
module Scenarios {
  import opened Options
  import opened Text
  import opened Numbers
  import opened Dates
  import opened Pages
  import opened Patterns
  import opened Readings
  import opened Locator
  import opened Fetch

  /** "01.02.2024 06:00" is 1 February 2024, 06:00: month index 1, the written month minus one. */
  lemma DateTimeExample(s: string)
    requires s == "01.02.2024 06:00"
    ensures ParseDate(s) == Fields(2024, 1, 1, 6, 0)
  {
    TrimUnchanged(s);
    var c := Captures("01", "02", "2024", "06", "00");
    DateTimeMatch(s);
    assert FirstMatchFrom(s, 0) == Some(Found(0, Spans(2, 2, 1, 2, 2)));
    assert FirstCaptures(s) == Some(c);
    PrimaryDateOfCaptures(c);
    DigitsValues();
  }

  /** The primary pattern matches "01.02.2024 06:00" at its start, with every group two digits
      wide (four for the year). */
  lemma DateTimeMatch(s: string)
    requires s == "01.02.2024 06:00"
    ensures MatchAt(s, 0) == Some(Spans(2, 2, 1, 2, 2))
    ensures CapturesOf(s, 0, Spans(2, 2, 1, 2, 2)) == Captures("01", "02", "2024", "06", "00")
  {
    assert |s| == 16;
    assert s[0] == '0' && s[1] == '1' && s[2] == '.' && s[3] == '0' && s[4] == '2' && s[5] == '.';
    assert s[6] == '2' && s[7] == '0' && s[8] == '2' && s[9] == '4' && s[10] == ' ';
    assert s[11] == '0' && s[12] == '6' && s[13] == ':' && s[14] == '0' && s[15] == '0';
    assert GroupBefore(s, 0, '.') == 2;
    assert GroupBefore(s, 3, '.') == 2;
    assert DigitsIn(s, 6, 10);
    assert SpaceRun(s, 11) == 0;
    assert SpaceRun(s, 10) == 1;
    assert GroupBefore(s, 11, ':') == 2;
    assert MinutesLength(s, 14) == 2;
    assert s[0..2] == "01" && s[3..5] == "02" && s[6..10] == "2024" && s[11..13] == "06" && s[14..16] == "00";
  }

  lemma DigitsValues()
    ensures DecimalValue("01") == 1 && DecimalValue("02") == 2 && DecimalValue("06") == 6
    ensures DecimalValue("00") == 0 && DecimalValue("2024") == 2024
  {
    assert "01"[..1] == "0" && "02"[..1] == "0" && "06"[..1] == "0" && "00"[..1] == "0";
    assert "0"[..0] == "";
    assert "2024"[..3] == "202" && "202"[..2] == "20" && "20"[..1] == "2" && "2"[..0] == "";
  }

  /** A date without a time has no match of the primary pattern and only three tokens, so it
      gives the `new Date(0)` sentinel, which passes the NaN test. */
  lemma DateOnlyExample(s: string)
    requires s == "01.02.2024"
    ensures ParseDate(s) == EpochZero && IsValid(ParseDate(s))
  {
    TrimUnchanged(s);
    ShortTextHasNoMatch(s);
    DateOnlySplit(s);
    FallbackEpoch(s);
  }

  lemma DateOnlySplit(s: string)
    requires s == "01.02.2024"
    ensures Split(s) == ["01", "02", "2024"]
  {
    var day, month, year := "01", "02", "2024";
    assert s == day + ['.'] + (month + ['.'] + year);
    assert NoSeparator(day) && NoSeparator(month) && NoSeparator(year);
    SplitThreeTokens(day, month, year, '.');
  }

  /** "134,5" is 134.5. */
  lemma HeightValue(s: string)
    requires s == "134,5"
    ensures ParseCleanedFloat(CleanHeight(s)) == Some(134.5)
  {
    var ip, fp := "134", "5";
    assert s == ip + "," + fp + "";
    CommaDecimalHeight(ip, fp, "");
    HeightDigits(ip, fp);
  }

  lemma HeightDigits(ip: string, fp: string)
    requires ip == "134" && fp == "5"
    ensures DecimalNumber(ip, fp) == 134.5
  {
    DecimalValueSnoc([], '1');
    DecimalValueSnoc("1", '3');
    DecimalValueSnoc("13", '4');
    assert [] + ['1'] == "1" && "1" + ['3'] == "13" && "13" + ['4'] == ip;
    OneDecimalPlace(ip, '5');
    assert fp == ['5'];
  }

  /** A data row of the gauge table: date and time, a comma-decimal level and a missing flow
      give one reading at 1 February 2024, 06:00 with a level of 134.5. */
  lemma GaugeRowExample(row: Row)
    requires row == [Td("01.02.2024 06:00"), Td("134,5"), Td("—")]
    ensures RowReading(row) == Some(Reading(Fields(2024, 1, 1, 6, 0), 134.5))
  {
    var d, h := "01.02.2024 06:00", "134,5";
    RowOfThreeCells(row, d, h, "—");
    GaugeCells(d, h);
  }

  lemma GaugeCells(d: string, h: string)
    requires d == "01.02.2024 06:00" && h == "134,5"
    ensures CellsReading(d, h) == Some(Reading(Fields(2024, 1, 1, 6, 0), 134.5))
  {
    assert PassesDateFilter(d) by {
      assert DateAt(d, 0, 2, 2);
    }
    DateTimeExample(d);
    SmallFieldsAreValid(2024, 1, 1, 6, 0);
    HeightValue(h);
    CellsAccepted(d, h);
  }

  /** A row of three `td` whose first two texts have no surrounding white space is read from
      those two texts. */
  lemma RowOfThreeCells(row: Row, a: string, b: string, c: string)
    requires row == [Td(a), Td(b), Td(c)]
    requires a != [] && !IsSpace(a[0]) && !IsSpace(a[|a| - 1])
    requires b != [] && !IsSpace(b[0]) && !IsSpace(b[|b| - 1])
    ensures RowReading(row) == CellsReading(a, b)
  {
    ThreeCellRow(row, a, b, c);
    TrimUnchanged(a);
    TrimUnchanged(b);
  }

  /** A row whose date has no time is still read, at the epoch sentinel. */
  lemma DateOnlyRowExample(row: Row)
    requires row == [Td("01.02.2024"), Td("134,5"), Td("—")]
    ensures RowReading(row) == Some(Reading(EpochZero, 134.5))
  {
    var d, h := "01.02.2024", "134,5";
    RowOfThreeCells(row, d, h, "—");
    DateOnlyCells(d, h);
  }

  lemma DateOnlyCells(d: string, h: string)
    requires d == "01.02.2024" && h == "134,5"
    ensures CellsReading(d, h) == Some(Reading(EpochZero, 134.5))
  {
    assert DateAt(d, 0, 2, 2);
    DateOnlyExample(d);
    HeightValue(h);
    CellsAccepted(d, h);
  }

  /** A row of the flood-stage legend, with no date in its first cell, is skipped. */
  lemma LegendRowSkipped(row: Row)
    requires row == [Td("SPA 1"), Td("150"), Td("20")]
    ensures RowReading(row) == None
  {
    ThreeCellRow(row, "SPA 1", "150", "20");
    TrimUnchanged("SPA 1");
    assert !PassesDateFilter("SPA 1") by {
      if PassesDateFilter("SPA 1") {
        FilterNeedsEightCharacters("SPA 1");
      }
    }
  }

  /** A header row and one data row make a table of two rows: too short for the header strategy
      (more than five) and for the fallback (five at least), so the result is empty. */
  lemma HeaderAndOneRowGivesNothing(page: Page)
    requires page == [[[Th("Datum a čas"), Th("Stav [cm]"), Th("Průtok")],
                       [Td("01.02.2024 06:00"), Td("134,5"), Td("—")]]]
    ensures Locate(page) == None && FetchData(page) == []
  {
    SmallTablesNoReadings(page);
    LocateChoice(page);
  }

  /** A table whose header row holds a date header and a level header, followed by five rows or
      more, is the table the header strategy finds, whatever those rows hold. */
  lemma HeaderTableLocated(page: Page, dateHeader: string, levelHeader: string, rows: seq<Row>)
    requires IsDateHeader(dateHeader) && IsLevelHeader(levelHeader) && |rows| >= 5
    requires |page| > 0 && page[0] == [[Th(dateHeader), Th(levelHeader)]] + rows
    ensures Locate(page) == Some(0)
  {
    var t := page[0];
    var hs := HeaderTexts(t);
    assert Th(dateHeader) in t[0] && Th(levelHeader) in t[0];
    assert dateHeader in hs && levelHeader in hs;
    var d :| 0 <= d < |hs| && hs[d] == dateHeader;
    var l :| 0 <= l < |hs| && hs[l] == levelHeader;
    assert HeaderQualifies(t);
    FirstQualifyingIsFirst(page, ByHeaders, 0);
  }

  /** The gauge page's headers qualify: "Datum a čas" lower-cases to a text holding "datum", and
      "Stav [cm]" to one holding "stav". */
  lemma GaugeHeadersQualify()
    ensures IsDateHeader("Datum a čas") && IsLevelHeader("Stav [cm]")
  {
    GaugeHeaderParts();
    HeaderWord("Datum a čas", 'D', "atum", " a čas", "datum");
    HeaderWord("Stav [cm]", 'S', "tav", " [cm]", "stav");
  }

  /** The two headers split into a capital, the rest of the word and text without capitals. */
  lemma GaugeHeaderParts()
    ensures "Datum a čas" == ['D'] + "atum" + " a čas" && "Stav [cm]" == ['S'] + "tav" + " [cm]"
    ensures "datum" == [('D' as int - 'A' as int + 'a' as int) as char] + "atum"
    ensures "stav" == [('S' as int - 'A' as int + 'a' as int) as char] + "tav"
    ensures NoUpper("atum") && NoUpper(" a čas") && NoUpper("tav") && NoUpper(" [cm]")
  {
    GaugeWordsHaveNoCapital();
  }

  /** The rest of each header has no capital. */
  lemma GaugeWordsHaveNoCapital()
    ensures NoUpper("atum") && NoUpper(" a čas") && NoUpper("tav") && NoUpper(" [cm]")
  {
  }

  /** A header made of a capitalised word and text without capitals contains the word in small
      letters once lower-cased. */
  lemma HeaderWord(h: string, c: char, w: string, tail: string, word: string)
    requires h == [c] + w + tail && 'A' <= c <= 'Z' && NoUpper(w) && NoUpper(tail)
    requires word == [(c as int - 'A' as int + 'a' as int) as char] + w
    ensures Contains(Lower(h), word)
  {
    CapitalWord(c, w, tail);
  }

  /** A capitalised word followed by text without capitals contains, once lower-cased, the
      word in small letters. */
  lemma CapitalWord(c: char, w: string, tail: string)
    requires 'A' <= c <= 'Z' && NoUpper(w) && NoUpper(tail)
    ensures Contains(Lower([c] + w + tail), [(c as int - 'A' as int + 'a' as int) as char] + w)
  {
    var small := [(c as int - 'A' as int + 'a' as int) as char];
    var rest := w + tail;
    assert [c] + w + tail == [c] + rest;
    LowerAppend([c], rest);
    LowerCapital(c);
    NoUpperAppend(w, tail);
    LowerIsLower(rest);
    assert small + rest == (small + w) + tail;
    PrefixContained(small + w, tail);
  }

  /** A capital alone lower-cases to its small letter. */
  lemma LowerCapital(c: char)
    requires 'A' <= c <= 'Z'
    ensures Lower([c]) == [(c as int - 'A' as int + 'a' as int) as char]
  {
    LowerCharMapping(c);
    assert [c][1..] == [];
  }

  /** Text contains its own beginning. */
  lemma PrefixContained(pre: string, post: string)
    ensures Contains(pre + post, pre)
  {
    assert (pre + post)[0..|pre|] == pre;
    assert OccursAt(pre + post, pre, 0);
  }
}
