/** The string built-ins of JavaScript that the scraper relies on:
    `trim`, `toLowerCase` and `includes`, and the `\s` and `\d` classes. */
module Text {

  /** ECMAScript WhiteSpace and LineTerminator code points: what `trim` removes and what `\s` matches. */
  predicate IsSpace(c: char)
  {
    c == '\t' || c == '\n' || c == '\U{000B}' || c == '\U{000C}' || c == '\r' || c == ' '
    || c == '\U{00A0}' || c == '\U{1680}' || ('\U{2000}' <= c <= '\U{200A}')
    || c == '\U{2028}' || c == '\U{2029}' || c == '\U{202F}' || c == '\U{205F}'
    || c == '\U{3000}' || c == '\U{FEFF}'
  }

  /** The regular-expression class `\d` (ASCII digits only). */
  predicate IsDigit(c: char)
  {
    '0' <= c <= '9'
  }

  /** `\d` matches every character of `s[lo..hi]`. */
  predicate DigitsIn(s: string, lo: int, hi: int)
    requires 0 <= lo <= hi <= |s|
  {
    forall k | lo <= k < hi :: IsDigit(s[k])
  }

  lemma DigitIsNotSpace(c: char)
    requires IsDigit(c)
    ensures !IsSpace(c)
  {
  }

  /** Every character of `s[lo..hi]` is white space. */
  predicate SpacesIn(s: string, lo: int, hi: int)
    requires 0 <= lo <= hi <= |s|
  {
    forall k | lo <= k < hi :: IsSpace(s[k])
  }

  /** The first index from `p` on that does not hold white space. */
  function SkipSpaces(s: string, p: nat): (q: nat)
    requires p <= |s|
    ensures p <= q <= |s| && SpacesIn(s, p, q)
    ensures q < |s| ==> !IsSpace(s[q])
    decreases |s| - p
  {
    if p < |s| && IsSpace(s[p]) then SkipSpaces(s, p + 1) else p
  }

  /** The end of `s[lo..q]` once its trailing white space is dropped. */
  function BackSpaces(s: string, lo: nat, q: nat): (r: nat)
    requires lo <= q <= |s|
    ensures lo <= r <= q && SpacesIn(s, r, q)
    ensures r > lo ==> !IsSpace(s[r - 1])
    decreases q - lo
  {
    if q > lo && IsSpace(s[q - 1]) then BackSpaces(s, lo, q - 1) else q
  }

  /** A run of `w` white-space characters at `p` that ends before a character of another kind
      is skipped exactly. */
  lemma SkipSpacesExact(s: string, p: nat, w: nat)
    requires p + w < |s| && SpacesIn(s, p, p + w) && !IsSpace(s[p + w])
    ensures SkipSpaces(s, p) == p + w
    decreases w
  {
    if w > 0 {
      SkipSpacesExact(s, p + 1, w - 1);
    }
  }

  /** `String.prototype.trimStart`, which `parseInt` applies first. */
  function TrimStart(s: string): string
  {
    s[SkipSpaces(s, 0)..]
  }

  /** `String.prototype.trim`. */
  function Trim(s: string): string
  {
    var lo := SkipSpaces(s, 0);
    s[lo..BackSpaces(s, lo, |s|)]
  }

  /** `trim` leaves the text between a leading and a trailing run of white space, and that text
      neither starts nor ends with white space. */
  lemma TrimSpec(s: string)
    ensures exists lo, hi | 0 <= lo <= hi <= |s| ::
      Trim(s) == s[lo..hi] && SpacesIn(s, 0, lo) && SpacesIn(s, hi, |s|)
    ensures Trim(s) != [] ==> !IsSpace(Trim(s)[0]) && !IsSpace(Trim(s)[|Trim(s)| - 1])
  {
    var lo := SkipSpaces(s, 0);
    var hi := BackSpaces(s, lo, |s|);
    assert Trim(s) == s[lo..hi];
    if lo < hi {
      assert Trim(s)[0] == s[lo];
      assert Trim(s)[|Trim(s)| - 1] == s[hi - 1];
    }
  }

  /** Text that neither starts nor ends with white space is its own trim. */
  lemma TrimUnchanged(s: string)
    requires s != [] && !IsSpace(s[0]) && !IsSpace(s[|s| - 1])
    ensures Trim(s) == s
  {
    assert SkipSpaces(s, 0) == 0;
    assert BackSpaces(s, 0, |s|) == |s|;
  }

  /** Trimming twice is trimming once. */
  lemma TrimIdempotent(s: string)
    ensures Trim(Trim(s)) == Trim(s)
  {
    var t := Trim(s);
    TrimSpec(s);
    if t == [] {
      assert SkipSpaces(t, 0) == 0;
    } else {
      TrimUnchanged(t);
    }
  }

  /** Lower-cases one character as `toLowerCase` does for the Basic Latin, Latin-1 Supplement
      and Latin Extended-A blocks (which hold every Czech letter); other characters stay. */
  function LowerChar(c: char): string
  {
    var n := c as int;
    if 'A' <= c <= 'Z' || ('\U{00C0}' <= c <= '\U{00DE}' && c != '\U{00D7}') then [(n + 32) as char]
    else if n == 0x130 then ['i', '\U{0307}']
    else if n == 0x178 then ['\U{00FF}']
    else if (0x100 <= n <= 0x12F || 0x132 <= n <= 0x137 || 0x14A <= n <= 0x177) && n % 2 == 0 then [(n + 1) as char]
    else if (0x139 <= n <= 0x148 || 0x179 <= n <= 0x17E) && n % 2 == 1 then [(n + 1) as char]
    else [c]
  }

  /** A character that `toLowerCase` changes. */
  predicate IsUpper(c: char)
  {
    LowerChar(c) != [c]
  }

  lemma LowerCharIsLower(c: char)
    ensures NoUpper(LowerChar(c))
  {
  }

  /** `String.prototype.toLowerCase`, character by character. */
  function Lower(s: string): string
  {
    if s == [] then [] else LowerChar(s[0]) + Lower(s[1..])
  }

  /** Text without an upper-case character. */
  predicate NoUpper(s: string)
  {
    forall i | 0 <= i < |s| :: !IsUpper(s[i])
  }

  /** No upper-case character is left, and text without one is unchanged. */
  lemma {:induction false} LowerIsLower(s: string)
    ensures NoUpper(Lower(s))
    ensures NoUpper(s) ==> Lower(s) == s
  {
    if s != [] {
      LowerCharIsLower(s[0]);
      LowerIsLower(s[1..]);
      NoUpperAppend(LowerChar(s[0]), Lower(s[1..]));
      if NoUpper(s) {
        assert !IsUpper(s[0]);
        NoUpperSuffix(s);
        assert s == [s[0]] + s[1..];
      }
    }
  }

  lemma NoUpperAppend(a: string, b: string)
    requires NoUpper(a) && NoUpper(b)
    ensures NoUpper(a + b)
  {
    forall i | 0 <= i < |a + b| ensures !IsUpper((a + b)[i]) {
      if i < |a| {
        assert (a + b)[i] == a[i];
      } else {
        assert (a + b)[i] == b[i - |a|];
      }
    }
  }

  lemma NoUpperSuffix(s: string)
    requires s != [] && NoUpper(s)
    ensures NoUpper(s[1..])
  {
    forall i | 0 <= i < |s[1..]| ensures !IsUpper(s[1..][i]) {
      assert s[1..][i] == s[i + 1];
    }
  }

  /** The capitals of the Czech alphabet outside Basic Latin, and their small letters. */
  const CzechCapitals: string := "ÁČĎÉĚÍŇÓŘŠŤÚŮÝŽ"
  const CzechSmalls: string := "áčďéěíňóřšťúůýž"

  /** `toLowerCase` maps 'A'..'Z' to 'a'..'z', and leaves the small letters, the digits and
      white space alone. */
  lemma LowerCharMapping(c: char)
    ensures 'A' <= c <= 'Z' ==> LowerChar(c) == [(c as int - 'A' as int + 'a' as int) as char]
    ensures 'a' <= c <= 'z' || IsDigit(c) || IsSpace(c) ==> LowerChar(c) == [c]
  {
  }

  /** The Czech capitals lower-case to the Czech small letters, which stay as they are. */
  lemma LowerCzech()
    ensures |CzechCapitals| == |CzechSmalls| == 15
    ensures forall k | 0 <= k < |CzechCapitals| :: LowerChar(CzechCapitals[k]) == [CzechSmalls[k]]
    ensures forall k | 0 <= k < |CzechSmalls| :: LowerChar(CzechSmalls[k]) == [CzechSmalls[k]]
  {
  }

  /** Lower-casing works piece by piece. */
  lemma {:induction false} LowerAppend(a: string, b: string)
    ensures Lower(a + b) == Lower(a) + Lower(b)
  {
    if a == [] {
      assert a + b == b;
    } else {
      assert (a + b)[0] == a[0];
      assert (a + b)[1..] == a[1..] + b;
      LowerAppend(a[1..], b);
    }
  }

  /** Lower-casing is idempotent. */
  lemma LowerIdempotent(s: string)
    ensures Lower(Lower(s)) == Lower(s)
  {
    LowerIsLower(s);
    LowerIsLower(Lower(s));
  }

  predicate OccursAt(s: string, sub: string, p: int)
  {
    0 <= p && p + |sub| <= |s| && s[p..p + |sub|] == sub
  }

  /** `String.prototype.includes`. */
  predicate Contains(s: string, sub: string)
  {
    exists p | 0 <= p <= |s| - |sub| :: OccursAt(s, sub, p)
  }
}
