/** The two date tests on a first cell: `/\d{2}\.\d{2}\.\d{4}/` (script.js:58 and the first
    half of script.js:93) and `/\d{1,2}\.\d{1,2}\.\d{4}/` (the second half of script.js:93).
    A regular-expression test without anchors holds when the pattern occurs anywhere. */
module Patterns {
  import opened Text
  import opened Options
  import Dates

  /** `\d{dl}\.\d{ml}\.\d{4}` occurs at position `p`. */
  predicate DateAt(s: string, p: int, dl: int, ml: int)
  {
    0 <= p && 1 <= dl && 1 <= ml && p + dl + ml + 6 <= |s| &&
    DigitsIn(s, p, p + dl) && s[p + dl] == '.' &&
    DigitsIn(s, p + dl + 1, p + dl + 1 + ml) && s[p + dl + 1 + ml] == '.' &&
    DigitsIn(s, p + dl + ml + 2, p + dl + ml + 6)
  }

  /** `/\d{2}\.\d{2}\.\d{4}/.test(s)`. */
  predicate HasPaddedDate(s: string)
  {
    exists p | 0 <= p <= |s| :: DateAt(s, p, 2, 2)
  }

  /** `/\d{1,2}\.\d{1,2}\.\d{4}/.test(s)`. */
  predicate HasDate(s: string)
  {
    exists p, dl, ml | 0 <= p <= |s| && 1 <= dl <= 2 && 1 <= ml <= 2 :: DateAt(s, p, dl, ml)
  }

  /** `/\d\.\d{1,2}\.\d{4}/.test(s)`: a single day digit. */
  predicate HasShortDayDate(s: string)
  {
    exists p, ml | 0 <= p <= |s| && 1 <= ml <= 2 :: DateAt(s, p, 1, ml)
  }

  /** The row filter of script.js:93 lets a cell through iff either pattern occurs. */
  predicate PassesDateFilter(s: string)
  {
    HasPaddedDate(s) || HasDate(s)
  }

  /** The padded test adds nothing to the second one: the filter is the `\d{1,2}` test alone. */
  lemma DateFilterIsLoosePattern(s: string)
    ensures PassesDateFilter(s) <==> HasDate(s)
  {
    if HasPaddedDate(s) {
      var p :| 0 <= p <= |s| && DateAt(s, p, 2, 2);
      assert DateAt(s, p, 2, 2);
    }
  }

  /** A two-digit day contains a one-digit day: the filter holds exactly when some
      `digit . 1-2 digits . 4 digits` occurs. */
  lemma LoosePatternIsShortDay(s: string)
    ensures HasDate(s) <==> HasShortDayDate(s)
  {
    if HasDate(s) {
      var p, dl, ml :| 0 <= p <= |s| && 1 <= dl <= 2 && 1 <= ml <= 2 && DateAt(s, p, dl, ml);
      var q := p + dl - 1;
      assert DateAt(s, q, 1, ml);
    }
    if HasShortDayDate(s) {
      var p, ml :| 0 <= p <= |s| && 1 <= ml <= 2 && DateAt(s, p, 1, ml);
      assert DateAt(s, p, 1, ml);
    }
  }

  /** The test of script.js:58 demands more than the filter: every cell it accepts is accepted
      at script.js:93. */
  lemma PaddedDatePassesFilter(s: string)
    requires HasPaddedDate(s)
    ensures PassesDateFilter(s) && HasShortDayDate(s)
  {
    DateFilterIsLoosePattern(s);
    LoosePatternIsShortDay(s);
  }

  /** Text in which `parseDate`'s primary pattern matches always passes the row filter. */
  lemma PrimaryMatchPassesFilter(s: string, p: nat)
    requires p <= |s| && Dates.MatchAt(s, p).Some?
    ensures PassesDateFilter(s)
  {
    Dates.MatchAtSound(s, p);
    var sp := Dates.MatchAt(s, p).value;
    assert DateAt(s, p, sp.dl, sp.ml);
  }

  /** The filter needs eight characters at least. */
  lemma FilterNeedsEightCharacters(s: string)
    requires PassesDateFilter(s)
    ensures |s| >= 8
  {
    DateFilterIsLoosePattern(s);
  }
}
