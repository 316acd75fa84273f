/** JavaScript's `parseInt` and `parseFloat` as the scraper uses them, and the
    locale clean-up of a water-level cell (script.js:101-103). NaN is `None`. */
module Numbers {
  import opened Options
  import opened Text

  predicate AllDigits(s: string)
  {
    forall i | 0 <= i < |s| :: IsDigit(s[i])
  }

  function DigitValue(c: char): (v: nat)
    requires IsDigit(c)
    ensures v < 10
  {
    c as int - '0' as int
  }

  function Pow10(n: nat): (p: nat)
    ensures p >= 1
  {
    if n == 0 then 1 else 10 * Pow10(n - 1)
  }

  /** The value of a string of decimal digits, most significant first. */
  function DecimalValue(ds: string): (v: nat)
    requires AllDigits(ds)
    ensures v < Pow10(|ds|)
  {
    if ds == [] then 0 else DecimalValue(ds[..|ds| - 1]) * 10 + DigitValue(ds[|ds| - 1])
  }

  /** At most two digits are below 100, four below 10000. */
  lemma SmallDecimalBounds(ds: string)
    requires AllDigits(ds)
    ensures |ds| <= 2 ==> DecimalValue(ds) < 100
    ensures |ds| <= 4 ==> DecimalValue(ds) < 10000
  {
    assert Pow10(0) == 1;
    assert Pow10(1) == 10;
    assert Pow10(2) == 100;
    assert Pow10(3) == 1000;
    assert Pow10(4) == 10000;
  }

  /** The length of the longest all-digit prefix. */
  function DigitRun(s: string): (n: nat)
    ensures n <= |s| && AllDigits(s[..n])
    ensures n < |s| ==> !IsDigit(s[n])
  {
    if |s| > 0 && IsDigit(s[0]) then
      assert s[..1 + DigitRun(s[1..])] == [s[0]] + s[1..][..DigitRun(s[1..])];
      1 + DigitRun(s[1..])
    else 0
  }

  predicate IsHexDigit(c: char)
  {
    IsDigit(c) || 'a' <= c <= 'f' || 'A' <= c <= 'F'
  }

  function HexDigitValue(c: char): (v: nat)
    requires IsHexDigit(c)
    ensures v < 16
  {
    if IsDigit(c) then c as int - '0' as int
    else if 'a' <= c <= 'f' then c as int - 'a' as int + 10
    else c as int - 'A' as int + 10
  }

  function HexValue(hs: string): nat
    requires forall i | 0 <= i < |hs| :: IsHexDigit(hs[i])
  {
    if hs == [] then 0 else HexValue(hs[..|hs| - 1]) * 16 + HexDigitValue(hs[|hs| - 1])
  }

  /** The length of the longest prefix of hexadecimal digits. */
  function HexRun(s: string): (n: nat)
    ensures n <= |s| && forall i | 0 <= i < n :: IsHexDigit(s[i])
    ensures n < |s| ==> !IsHexDigit(s[n])
  {
    if |s| > 0 && IsHexDigit(s[0]) then 1 + HexRun(s[1..]) else 0
  }

  /** `parseInt(s)` with no radix: leading white space, an optional sign, an optional
      `0x`/`0X` prefix that selects base 16, then the longest run of digits; None is NaN. */
  function ParseInt(s: string): (r: Option<int>)
    ensures r.Some? ==> StartsNumeral(TrimStart(s))
    ensures r.None? && StartsNumeral(TrimStart(s)) ==> HexPrefixAlone(Unsigned(TrimStart(s)))
  {
    ParseSigned(TrimStart(s))
  }

  /** A digit, or a sign and a digit. */
  predicate StartsNumeral(t: string)
  {
    (|t| > 0 && IsDigit(t[0])) || (|t| > 1 && (t[0] == '-' || t[0] == '+') && IsDigit(t[1]))
  }

  /** A `0x` or `0X` prefix with no hexadecimal digit after it. */
  predicate HexPrefixAlone(u: string)
  {
    |u| >= 2 && u[0] == '0' && (u[1] == 'x' || u[1] == 'X') && (|u| == 2 || !IsHexDigit(u[2]))
  }

  /** The text after an optional sign. */
  function Unsigned(t: string): string
  {
    if |t| > 0 && (t[0] == '-' || t[0] == '+') then t[1..] else t
  }

  /** An optional sign, then the magnitude. */
  function ParseSigned(t: string): Option<int>
  {
    var u := Unsigned(t);
    match ParseMagnitude(u)
    case None => None
    case Some(v) => Some(if |t| > 0 && t[0] == '-' then 0 - v as int else v as int)
  }

  /** A `0x`/`0X` prefix and hexadecimal digits, or else decimal digits. */
  function ParseMagnitude(u: string): Option<nat>
  {
    if |u| >= 2 && u[0] == '0' && (u[1] == 'x' || u[1] == 'X') then
      var h := HexRun(u[2..]);
      if h == 0 then None else Some(HexValue(u[2..2 + h]))
    else
      var n := DigitRun(u);
      if n == 0 then None else Some(DecimalValue(u[..n]))
  }

  /** A non-empty digit string followed by anything that does not continue the number
      parses to its decimal value; only "0" followed by x or X switches to base 16. */
  lemma ParseIntDigitPrefix(ds: string, rest: string)
    requires |ds| > 0 && AllDigits(ds)
    requires rest == [] || !IsDigit(rest[0])
    requires ds == "0" ==> rest == [] || (rest[0] != 'x' && rest[0] != 'X')
    ensures ParseInt(ds + rest) == Some(DecimalValue(ds))
  {
    var s := ds + rest;
    assert s[0] == ds[0];
    DigitIsNotSpace(s[0]);
    assert SkipSpaces(s, 0) == 0;
    assert TrimStart(s) == s;
    MagnitudeOfDigits(ds, rest);
  }

  /** The magnitude of a digit string that is not a `0x` prefix is its decimal value. */
  lemma MagnitudeOfDigits(ds: string, rest: string)
    requires |ds| > 0 && AllDigits(ds)
    requires rest == [] || !IsDigit(rest[0])
    requires ds == "0" ==> rest == [] || (rest[0] != 'x' && rest[0] != 'X')
    ensures ParseMagnitude(ds + rest) == Some(DecimalValue(ds))
  {
    var s := ds + rest;
    assert s[0] == ds[0];
    assert !(|s| >= 2 && s[0] == '0' && (s[1] == 'x' || s[1] == 'X')) by {
      if |ds| >= 2 {
        assert s[1] == ds[1];
      } else if |s| >= 2 {
        assert s[1] == rest[0];
        assert ds == [ds[0]];
      }
    }
    DigitRunOfPrefix(ds, rest);
    assert s[..|ds|] == ds;
  }

  lemma DigitRunOfPrefix(ds: string, rest: string)
    requires AllDigits(ds)
    requires rest == [] || !IsDigit(rest[0])
    ensures DigitRun(ds + rest) == |ds|
  {
    if ds != [] {
      assert (ds + rest)[1..] == ds[1..] + rest;
      DigitRunOfPrefix(ds[1..], rest);
    } else {
      assert ds + rest == rest;
    }
  }

  /** `-x`; NaN stays NaN. */
  function Negated(o: Option<int>): Option<int>
  {
    match o
    case None => None
    case Some(v) => Some(0 - v)
  }

  /** A sign before text that starts with a digit: '+' keeps what `parseInt` reads from that
      text, '-' negates it, and NaN stays NaN. */
  lemma ParseIntSigned(s: string, sign: char, u: string)
    requires s == [sign] + u && (sign == '-' || sign == '+') && |u| > 0 && IsDigit(u[0])
    ensures sign == '+' ==> ParseInt(s) == ParseInt(u)
    ensures sign == '-' ==> ParseInt(s) == Negated(ParseInt(u))
  {
    SignedNoSpace(s, sign, u);
    SignedUnsigned(s, sign, u);
  }

  lemma SignedNoSpace(s: string, sign: char, u: string)
    requires s == [sign] + u && (sign == '-' || sign == '+') && |u| > 0 && IsDigit(u[0])
    ensures ParseInt(s) == ParseSigned(s) && ParseInt(u) == ParseSigned(u)
  {
    assert s[0] == sign;
    TrimStartUnchanged(s);
    DigitIsNotSpace(u[0]);
    TrimStartUnchanged(u);
  }

  lemma SignedUnsigned(s: string, sign: char, u: string)
    requires s == [sign] + u && (sign == '-' || sign == '+') && |u| > 0 && IsDigit(u[0])
    ensures sign == '+' ==> ParseSigned(s) == ParseSigned(u)
    ensures sign == '-' ==> ParseSigned(s) == Negated(ParseSigned(u))
  {
    assert s[0] == sign && s[1..] == u;
    assert Unsigned(s) == u && Unsigned(u) == u;
  }

  /** Text that does not start with white space is its own `trimStart`. */
  lemma TrimStartUnchanged(s: string)
    requires s != [] && !IsSpace(s[0])
    ensures TrimStart(s) == s
  {
    assert SkipSpaces(s, 0) == 0;
  }

  /** "0x" or "0X" and hexadecimal digits are read in base 16, up to the first character that is
      not a hexadecimal digit. */
  lemma ParseIntHex(s: string, x: char, hs: string, rest: string)
    requires s == ['0', x] + (hs + rest) && (x == 'x' || x == 'X')
    requires |hs| > 0 && forall i | 0 <= i < |hs| :: IsHexDigit(hs[i])
    requires rest == [] || !IsHexDigit(rest[0])
    ensures ParseInt(s) == Some(HexValue(hs) as int)
  {
    HexRunOfPrefix(hs, rest);
    assert (hs + rest)[..|hs|] == hs;
    HexMagnitude(s, x, hs + rest, |hs|);
  }

  lemma HexMagnitude(t: string, x: char, u: string, h: nat)
    requires t == ['0', x] + u && (x == 'x' || x == 'X')
    requires 0 < h <= |u| && HexRun(u) == h
    ensures ParseInt(t) == Some(HexValue(u[..h]) as int)
  {
    assert t[0] == '0' && t[1] == x && t[2..] == u && t[2..2 + h] == u[..h];
    TrimStartUnchanged(t);
    assert Unsigned(t) == t;
  }

  lemma HexRunOfPrefix(hs: string, rest: string)
    requires forall i | 0 <= i < |hs| :: IsHexDigit(hs[i])
    requires rest == [] || !IsHexDigit(rest[0])
    ensures HexRun(hs + rest) == |hs|
  {
    if hs != [] {
      assert (hs + rest)[1..] == hs[1..] + rest;
      HexRunOfPrefix(hs[1..], rest);
    } else {
      assert hs + rest == rest;
    }
  }

  /** An all-digit string parses to its decimal value. */
  lemma ParseIntDigits(ds: string)
    requires |ds| > 0 && AllDigits(ds)
    ensures ParseInt(ds) == Some(DecimalValue(ds))
  {
    ParseIntDigitPrefix(ds, "");
    assert ds + "" == ds;
  }

  /** Text that starts with neither a sign nor a digit after its white space is NaN. */
  lemma ParseIntNaN(s: string)
    requires var t := TrimStart(s); t == [] || (!IsDigit(t[0]) && t[0] != '-' && t[0] != '+')
    ensures ParseInt(s) == None
  {
  }

  /** The characters the height clean-up keeps: the complement of `[^\d.,]`. */
  predicate IsNumericChar(c: char)
  {
    IsDigit(c) || c == '.' || c == ','
  }

  predicate AllNumeric(s: string)
  {
    forall i | 0 <= i < |s| :: IsNumericChar(s[i])
  }

  /** `replace(/[^\d.,]/g, '')`: only digits, points and commas are left. */
  function KeepNumeric(s: string): (r: string)
    ensures AllNumeric(r) && |r| <= |s|
  {
    if s == [] then []
    else (if IsNumericChar(s[0]) then [s[0]] else []) + KeepNumeric(s[1..])
  }

  /** ... and each of them is kept as often as it occurs. */
  lemma {:induction false} KeepNumericCounts(s: string)
    ensures forall c | IsNumericChar(c) :: multiset(KeepNumeric(s))[c] == multiset(s)[c]
  {
    if s != [] {
      assert s == [s[0]] + s[1..];
      KeepNumericCounts(s[1..]);
    }
  }

  /** `replace(',', '.')` with a string pattern: only the first comma becomes a point. */
  function ReplaceFirstComma(s: string): (r: string)
    ensures |r| == |s|
    ensures forall k | 0 <= k < |s| :: r[k] == if s[k] == ',' && ',' !in s[..k] then '.' else s[k]
  {
    if s == [] then []
    else if s[0] == ',' then
      assert forall k | 0 < k < |s| :: s[0] in s[..k];
      "." + s[1..]
    else
      var r := [s[0]] + ReplaceFirstComma(s[1..]);
      assert forall k | 0 < k < |s| :: (',' in s[..k] <==> ',' in s[1..][..k - 1]) by {
        forall k | 0 < k < |s| ensures s[..k] == [s[0]] + s[1..][..k - 1] { }
      }
      r
  }

  /** The whole clean-up of script.js:101. */
  function CleanHeight(s: string): (r: string)
    ensures AllNumeric(r)
    ensures |r| == |KeepNumeric(s)|
  {
    ReplaceFirstComma(KeepNumeric(s))
  }

  /** The exact value of the decimal numeral `ip.fp`. */
  function DecimalNumber(ip: string, fp: string): (v: real)
    requires AllDigits(ip) && AllDigits(fp)
    ensures DecimalValue(ip) as real <= v < DecimalValue(ip) as real + 1.0
  {
    FractionBelowOne(DecimalValue(fp) as real, Pow10(|fp|) as real);
    DecimalValue(ip) as real + DecimalValue(fp) as real / Pow10(|fp|) as real
  }

  lemma FractionBelowOne(a: real, d: real)
    requires 0.0 <= a < d
    ensures 0.0 <= a / d < 1.0
  {
    assert a / d * d == a;
  }

  /** `parseFloat` on cleaned text: the longest prefix `digits [. digits]` or `. digits`,
      as an exact value; NaN (None) when neither part has a digit. */
  function ParseCleanedFloat(t: string): (r: Option<real>)
    requires AllNumeric(t)
    ensures r.Some? <==> (|t| > 0 && IsDigit(t[0])) || (|t| > 1 && t[0] == '.' && IsDigit(t[1]))
    ensures r.Some? ==> r.value >= 0.0
  {
    var n := DigitRun(t);
    if n < |t| && t[n] == '.' then
      var f := DigitRun(t[n + 1..]);
      if n == 0 && f == 0 then None
      else Some(DecimalNumber(t[..n], t[n + 1..][..f]))
    else if n == 0 then None
    else Some(DecimalNumber(t[..n], ""))
  }

  /** The clean-up works character by character. */
  lemma {:induction false} KeepNumericAppend(a: string, b: string)
    ensures KeepNumeric(a + b) == KeepNumeric(a) + KeepNumeric(b)
  {
    if a == [] {
      assert a + b == b;
    } else {
      var head := if IsNumericChar(a[0]) then [a[0]] else [];
      assert (a + b)[0] == a[0];
      assert (a + b)[1..] == a[1..] + b;
      calc {
        KeepNumeric(a + b);
        head + KeepNumeric(a[1..] + b);
        { KeepNumericAppend(a[1..], b); }
        head + (KeepNumeric(a[1..]) + KeepNumeric(b));
        (head + KeepNumeric(a[1..])) + KeepNumeric(b);
      }
    }
  }

  lemma KeepNumericNone(s: string)
    requires forall i | 0 <= i < |s| :: !IsNumericChar(s[i])
    ensures KeepNumeric(s) == []
  {
    if s != [] {
      KeepNumericNone(s[1..]);
    }
  }

  lemma KeepNumericAllNumeric(s: string)
    requires AllNumeric(s)
    ensures KeepNumeric(s) == s
  {
    if s != [] {
      KeepNumericAllNumeric(s[1..]);
    }
  }

  /** Text without a digit becomes NaN, so its row is dropped (the "—" case). */
  lemma HeightWithoutDigitIsNaN(s: string)
    requires forall i | 0 <= i < |s| :: !IsDigit(s[i])
    ensures ParseCleanedFloat(CleanHeight(s)) == None
  {
    var k := KeepNumeric(s);
    KeepNumericCounts(s);
    forall i | 0 <= i < |k| ensures !IsDigit(k[i]) {
      assert multiset(k)[k[i]] > 0;
    }
  }

  /** Text whose first kept character is a digit always gives a number. */
  lemma HeightWithLeadingDigitParses(s: string)
    requires |KeepNumeric(s)| > 0 && IsDigit(KeepNumeric(s)[0])
    ensures ParseCleanedFloat(CleanHeight(s)).Some?
  {
  }

  /** `replace(',', '.')` on `ip,fp` with a comma-free `ip` turns that comma into a point. */
  lemma ReplaceCommaAfterDigits(ip: string, fp: string)
    requires AllDigits(ip)
    ensures ReplaceFirstComma(ip + "," + fp) == ip + "." + fp
  {
    var s, t := ip + "," + fp, ip + "." + fp;
    var r := ReplaceFirstComma(s);
    forall k | 0 <= k < |s| ensures r[k] == t[k] {
      if k < |ip| {
        assert s[k] == ip[k] && t[k] == ip[k];
      } else if k == |ip| {
        assert s[..k] == ip;
      } else {
        assert s[..k][|ip|] == ',';
        assert s[k] == t[k];
      }
    }
  }

  /** `parseFloat` of `ip.fp` is the exact decimal value. */
  lemma ParseDecimal(ip: string, fp: string)
    requires |ip| > 0 && AllDigits(ip) && AllDigits(fp)
    ensures AllNumeric(ip + "." + fp)
    ensures ParseCleanedFloat(ip + "." + fp) == Some(DecimalNumber(ip, fp))
  {
    var tail := "." + fp;
    var t := ip + tail;
    assert t == ip + "." + fp;
    assert AllNumeric(t) by {
      forall i | 0 <= i < |t| ensures IsNumericChar(t[i]) {
        if i < |ip| { assert t[i] == ip[i]; }
        else if i > |ip| { assert t[i] == fp[i - |ip| - 1]; }
      }
    }
    DigitRunOfPrefix(ip, tail);
    assert t[..|ip|] == ip && t[|ip|] == '.' && t[|ip| + 1..] == fp;
    ParseCleanedFloatPoint(t, |ip|, ip, fp);
  }

  /** `parseFloat` of cleaned text made of the digits `ip`, a point and the digits `fp`. */
  lemma ParseCleanedFloatPoint(t: string, n: nat, ip: string, fp: string)
    requires AllNumeric(t) && n == DigitRun(t) && 0 < n < |t| && t[n] == '.'
    requires t[..n] == ip && t[n + 1..] == fp && AllDigits(fp)
    ensures ParseCleanedFloat(t) == Some(DecimalNumber(ip, fp))
  {
    DigitRunOfPrefix(fp, "");
    assert fp + "" == fp && fp[..|fp|] == fp;
    var f := DigitRun(t[n + 1..]);
    assert f == |fp|;
    assert t[n + 1..][..f] == fp;
  }

  /** `parseFloat` reads the longest numeral at the front: digits `ip`, a point and digits `fp`
      give the value of `ip.fp`, whatever follows that does not continue the number
      ("1.5.3" is 1.5). */
  lemma ParseCleanedFloatPrefix(ip: string, fp: string, rest: string)
    requires |ip| > 0 && AllDigits(ip) && AllDigits(fp) && AllNumeric(rest)
    requires rest == [] || !IsDigit(rest[0])
    ensures AllNumeric(ip + "." + fp + rest)
    ensures ParseCleanedFloat(ip + "." + fp + rest) == Some(DecimalNumber(ip, fp))
  {
    var t := ip + "." + fp + rest;
    var n := |ip|;
    assert AllNumeric(t) by {
      forall i | 0 <= i < |t| ensures IsNumericChar(t[i]) {
        if i < n { assert t[i] == ip[i]; }
        else if n < i <= n + |fp| { assert t[i] == fp[i - n - 1]; }
        else if i > n + |fp| { assert t[i] == rest[i - n - 1 - |fp|]; }
      }
    }
    assert t == ip + ("." + fp + rest);
    DigitRunOfPrefix(ip, "." + fp + rest);
    assert t[..n] == ip && t[n] == '.' && t[n + 1..] == fp + rest;
    DigitRunOfPrefix(fp, rest);
    assert (fp + rest)[..|fp|] == fp;
  }

  /** A numeral with no integer part: a point and the digits `fp` read as the fraction they
      write, whatever follows that is not a digit (".5", the clean-up of ",5", is 0.5). */
  lemma ParseCleanedFraction(fp: string, rest: string)
    requires |fp| > 0 && AllDigits(fp) && AllNumeric(rest)
    requires rest == [] || !IsDigit(rest[0])
    ensures AllNumeric("." + fp + rest)
    ensures ParseCleanedFloat("." + fp + rest) == Some(DecimalValue(fp) as real / Pow10(|fp|) as real)
  {
    var u := fp + rest;
    var t := "." + u;
    assert "." + fp + rest == t;
    PointThenNumeric(u, t);
    DigitsThenNumeric(fp, rest);
    DigitRunOfPrefix(fp, rest);
    assert u[..|fp|] == fp;
    ParseLeadingPoint(t, u, fp);
    PureFraction(fp);
  }

  lemma DigitsThenNumeric(ds: string, rest: string)
    requires AllDigits(ds) && AllNumeric(rest)
    ensures AllNumeric(ds + rest)
  {
    var u := ds + rest;
    forall i | 0 <= i < |u| ensures IsNumericChar(u[i]) {
      if i < |ds| { assert u[i] == ds[i]; } else { assert u[i] == rest[i - |ds|]; }
    }
  }

  lemma PointThenNumeric(u: string, t: string)
    requires t == "." + u
    ensures t[0] == '.' && t[1..] == u
    ensures AllNumeric(u) ==> AllNumeric(t)
  {
    if AllNumeric(u) {
      forall i | 0 < i < |t| ensures IsNumericChar(t[i]) {
        assert t[i] == u[i - 1];
      }
    }
  }

  /** `parseFloat` of cleaned text made of a point and the digits `fp`, then a non-digit. */
  lemma ParseLeadingPoint(t: string, u: string, fp: string)
    requires AllNumeric(t) && |t| > 0 && t[0] == '.' && t[1..] == u
    requires |fp| > 0 && AllDigits(fp) && DigitRun(u) == |fp| && u[..|fp|] == fp
    ensures ParseCleanedFloat(t) == Some(DecimalNumber("", fp))
  {
    assert DigitRun(t) == 0;
    assert t[..0] == "";
  }

  /** A numeral without an integer part is its fraction. */
  lemma PureFraction(fp: string)
    requires AllDigits(fp)
    ensures DecimalNumber("", fp) == DecimalValue(fp) as real / Pow10(|fp|) as real
  {
    assert DecimalValue("") == 0;
  }

  /** Digits `ip` not followed by a point or a digit are read as the whole number they write
      ("12," is 12). */
  lemma ParseCleanedInteger(ip: string, rest: string)
    requires |ip| > 0 && AllDigits(ip) && AllNumeric(rest)
    requires rest == [] || (!IsDigit(rest[0]) && rest[0] != '.')
    ensures AllNumeric(ip + rest)
    ensures ParseCleanedFloat(ip + rest) == Some(DecimalValue(ip) as real)
  {
    var t := ip + rest;
    assert AllNumeric(t) by {
      forall i | 0 <= i < |t| ensures IsNumericChar(t[i]) {
        if i < |ip| { assert t[i] == ip[i]; } else { assert t[i] == rest[i - |ip|]; }
      }
    }
    ParseCleanedFloatDigits(t, ip, rest);
    WholeDecimalNumber(ip);
  }

  lemma ParseCleanedFloatDigits(t: string, ip: string, rest: string)
    requires t == ip + rest && AllNumeric(t)
    requires |ip| > 0 && AllDigits(ip)
    requires rest == [] || (!IsDigit(rest[0]) && rest[0] != '.')
    ensures ParseCleanedFloat(t) == Some(DecimalNumber(ip, ""))
  {
    DigitRunOfPrefix(ip, rest);
    if |ip| < |t| {
      assert t[|ip|] == rest[0];
    }
    assert t[..|ip|] == ip;
  }

  /** A numeral without a fraction is its integer part. */
  lemma WholeDecimalNumber(ip: string)
    requires AllDigits(ip)
    ensures DecimalNumber(ip, "") == DecimalValue(ip) as real
  {
    assert DecimalValue("") == 0 && Pow10(0) == 1;
  }

  /** A whole-number height with a unit, such as "134 cm", reads as that number. */
  lemma IntegerHeight(ip: string, unit: string)
    requires |ip| > 0 && AllDigits(ip)
    requires forall i | 0 <= i < |unit| :: !IsNumericChar(unit[i])
    ensures CleanHeight(ip + unit) == ip
    ensures ParseCleanedFloat(CleanHeight(ip + unit)) == Some(DecimalValue(ip) as real)
  {
    KeepNumericAppend(ip, unit);
    KeepNumericAllNumeric(ip);
    KeepNumericNone(unit);
    assert KeepNumeric(ip + unit) == ip;
    NoCommaUnchanged(ip);
    ParseCleanedInteger(ip, "");
    assert ip + "" == ip;
  }

  /** Text without a comma is left alone by `replace(',', '.')`. */
  lemma NoCommaUnchanged(s: string)
    requires forall k | 0 <= k < |s| :: s[k] != ','
    ensures ReplaceFirstComma(s) == s
  {
    var r := ReplaceFirstComma(s);
    assert forall k | 0 <= k < |s| :: r[k] == s[k];
  }

  /** A comma-decimal height `ip,fp` followed by a unit without digits, points or commas (such
      as " cm") is cleaned to `ip.fp` and read as its exact value. */
  lemma CommaDecimalHeight(ip: string, fp: string, unit: string)
    requires |ip| > 0 && AllDigits(ip) && AllDigits(fp)
    requires forall i | 0 <= i < |unit| :: !IsNumericChar(unit[i])
    ensures CleanHeight(ip + "," + fp + unit) == ip + "." + fp
    ensures ParseCleanedFloat(CleanHeight(ip + "," + fp + unit)) == Some(DecimalNumber(ip, fp))
  {
    var num := ip + "," + fp;
    assert AllNumeric(num) by {
      forall i | 0 <= i < |num| ensures IsNumericChar(num[i]) {
        if i < |ip| { assert num[i] == ip[i]; }
        else if i > |ip| { assert num[i] == fp[i - |ip| - 1]; }
      }
    }
    KeepNumericAppend(num, unit);
    KeepNumericAllNumeric(num);
    KeepNumericNone(unit);
    assert KeepNumeric(num + unit) == num;
    ReplaceCommaAfterDigits(ip, fp);
    ParseDecimal(ip, fp);
  }

  /** A numeral with one decimal place is its integer part plus a tenth of that digit. */
  lemma OneDecimalPlace(ip: string, d: char)
    requires AllDigits(ip) && IsDigit(d)
    ensures DecimalNumber(ip, [d]) == DecimalValue(ip) as real + DigitValue(d) as real / 10.0
  {
    assert [d][..0] == [];
    assert DecimalValue([d]) == DigitValue(d);
    assert Pow10(1) == 10;
  }

  /** Appending a digit multiplies the value by ten and adds that digit. */
  lemma DecimalValueSnoc(ds: string, d: char)
    requires AllDigits(ds) && IsDigit(d)
    ensures AllDigits(ds + [d]) && DecimalValue(ds + [d]) == DecimalValue(ds) * 10 + DigitValue(d)
  {
    assert (ds + [d])[..|ds|] == ds;
  }

  /** "123,4 cm" becomes "123.4", that is 123.4. */
  lemma HeightExample(s: string)
    requires s == "123,4 cm"
    ensures CleanHeight(s) == "123.4"
    ensures ParseCleanedFloat(CleanHeight(s)) == Some(123.4)
  {
    var ip, fp, unit := "123", "4", " cm";
    HeightExampleText(s, ip, fp, unit);
    CommaDecimalHeight(ip, fp, unit);
    HeightExampleValue(ip, fp);
  }

  lemma HeightExampleText(s: string, ip: string, fp: string, unit: string)
    requires s == "123,4 cm" && ip == "123" && fp == "4" && unit == " cm"
    ensures s == ip + "," + fp + unit && ip + "." + fp == "123.4"
    ensures |ip| > 0 && AllDigits(ip) && AllDigits(fp)
    ensures forall i | 0 <= i < |unit| :: !IsNumericChar(unit[i])
  {
  }

  lemma HeightExampleValue(ip: string, fp: string)
    requires ip == "123" && fp == "4"
    ensures DecimalNumber(ip, fp) == 123.4
  {
    DecimalValueSnoc([], '1');
    DecimalValueSnoc("1", '2');
    DecimalValueSnoc("12", '3');
    assert [] + ['1'] == "1" && "1" + ['2'] == "12" && "12" + ['3'] == ip;
    OneDecimalPlace(ip, '4');
    assert fp == ['4'];
  }
}
