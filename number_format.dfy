/**
 * The axis and tooltip number formatter of the projection chart
 * (`nFormatter` in src/components/monte-carlo-chart.tsx).
 *
 * The formatter picks the last entry of a threshold table (1, 1e3, 1e6, 1e9,
 * 1e12, 1e15 with the symbols "", "k", "M", "B", "T", "Q") whose value does
 * not exceed the number; numbers below 1 print as "0". Otherwise the number
 * is divided by the threshold, printed in fixed-point notation, stripped of
 * trailing fractional zeros by one regular-expression replacement
 * (`/\.0+$|(?<=\.[0-9]*[1-9])0+$/` replaced by ""), and the symbol appended.
 *
 * Fixed-point printing (`toFixed(digits)`) is floating-point formatting and
 * is not modelled: it is a function parameter.
 */
module NumberFormat {

  /** One entry of the threshold table. */
  datatype Scale = Scale(value: real, symbol: string)

  /** The threshold table, in ascending order of value. */
  const Lookup: seq<Scale> := [
    Scale(1.0, ""),
    Scale(1000.0, "k"),
    Scale(1000000.0, "M"),
    Scale(1000000000.0, "B"),
    Scale(1000000000000.0, "T"),
    Scale(1000000000000000.0, "Q")
  ]

  /**
   * `findLastIndex(item => num >= item.value)`: the last index whose value is
   * at most `num`, or -1 when there is none.
   */
  function FindLastIndex(table: seq<Scale>, num: real): (k: int)
    ensures -1 <= k < |table|
    ensures k >= 0 ==> num >= table[k].value
    ensures forall j :: k < j < |table| ==> num < table[j].value
  {
    if |table| == 0 then -1
    else if num >= table[|table| - 1].value then |table| - 1
    else FindLastIndex(table[..|table| - 1], num)
  }

  /**
   * The entry chosen for `num`: none below 1; otherwise the largest threshold
   * not exceeding `num`, which is "Q" for every number from 1e15 up.
   */
  function ScaleFor(num: real): (k: int)
    ensures -1 <= k < |Lookup|
    ensures k == -1 <==> num < 1.0
    ensures k >= 0 ==> Lookup[k].value <= num
    ensures k + 1 < |Lookup| ==> num < Lookup[k + 1].value
    ensures k >= 0 ==> forall j :: 0 <= j < |Lookup| && Lookup[j].value <= num ==>
                          Lookup[j].value <= Lookup[k].value
    ensures num >= 1000000000000000.0 ==> k == |Lookup| - 1 && Lookup[k].symbol == "Q"
  {
    assert Lookup[0].value == 1.0 && Lookup[|Lookup| - 1].value == 1000000000000000.0;
    assert forall j :: 0 <= j < |Lookup| ==> Lookup[j].value >= 1.0;
    FindLastIndex(Lookup, num)
  }

  /**
   * Below 1e18 the quotient handed to fixed-point printing lies in [1, 1000).
   * Printing rounds, so a quotient just below 1000 can still print as 1000.
   */
  lemma ScaledIntoRange(num: real)
    requires 1.0 <= num < 1000000000000000000.0
    ensures 1.0 <= num / Lookup[ScaleFor(num)].value < 1000.0
  {
    var k := ScaleFor(num);
    var v := Lookup[k].value;
    assert num < 1000.0 * v;
  }

  predicate IsDigit(c: char)
  {
    '0' <= c <= '9'
  }

  predicate AllDigits(t: string)
  {
    forall i :: 0 <= i < |t| ==> IsDigit(t[i])
  }

  predicate AllZeros(t: string)
  {
    forall i :: 0 <= i < |t| ==> t[i] == '0'
  }

  /** The first alternative, `\.0+$`, matches at position `i`. */
  predicate PointZerosAt(s: string, i: nat)
  {
    i + 1 < |s| && s[i] == '.' && AllZeros(s[i + 1..])
  }

  /** `\.[0-9]*` matches some substring of `s` that ends with position `j`. */
  predicate DigitsSincePoint(s: string, j: int)
    requires j < |s|
    decreases j + 1
  {
    0 <= j && (s[j] == '.' || (IsDigit(s[j]) && DigitsSincePoint(s, j - 1)))
  }

  /** The second alternative, `(?<=\.[0-9]*[1-9])0+$`, matches at position `i`. */
  predicate ZerosAfterNonzeroAt(s: string, i: nat)
  {
    2 <= i < |s| && AllZeros(s[i..]) && '1' <= s[i - 1] <= '9' && DigitsSincePoint(s, i - 2)
  }

  predicate MatchAt(s: string, i: nat)
  {
    PointZerosAt(s, i) || ZerosAfterNonzeroAt(s, i)
  }

  /**
   * The leftmost position from `i` on where the pattern matches, or `|s|`.
   * Both alternatives end at the end of the string, so a match at `m`
   * covers exactly `s[m..]`.
   */
  function FirstMatch(s: string, i: nat): (m: nat)
    requires i <= |s|
    ensures i <= m <= |s|
    ensures m < |s| ==> MatchAt(s, m)
    ensures forall j :: i <= j < m ==> !MatchAt(s, j)
    decreases |s| - i
  {
    if i == |s| then |s|
    else if MatchAt(s, i) then i
    else FirstMatch(s, i + 1)
  }

  /**
   * `s.replace(regexp, "")`: the first match, if any, is removed. Every match
   * runs to the end of `s`, so the result is the text before the leftmost match.
   */
  function StripZeros(s: string): (r: string)
  {
    s[..FirstMatch(s, 0)]
  }

  /** The replacement keeps a prefix, cut at the leftmost match or not at all. */
  lemma StripZerosLeftmost(s: string)
    ensures var r := StripZeros(s);
            && |r| <= |s| && r == s[..|r|]
            && (|r| < |s| ==> MatchAt(s, |r|))
            && forall j :: 0 <= j < |r| ==> !MatchAt(s, j)
  {
  }

  /** Reference definition: `t` without its trailing zeros. */
  function TrimZeros(t: string): (r: string)
    ensures |r| <= |t| && r == t[..|r|]
    ensures AllZeros(t[|r|..])
    ensures r == [] || r[|r| - 1] != '0'
  {
    if |t| > 0 && t[|t| - 1] == '0' then TrimZeros(t[..|t| - 1]) else t
  }

  /** A `\.[0-9]*` match needs a decimal point. */
  lemma {:induction false} DigitsSincePointHasPoint(s: string, j: int)
    requires j < |s| && DigitsSincePoint(s, j)
    ensures '.' in s[..j + 1]
    decreases j + 1
  {
    if s[j] != '.' {
      DigitsSincePointHasPoint(s, j - 1);
      assert s[..j] == s[..j + 1][..j];
    }
  }

  /** Digits following a point at `p` up to `j` form a `\.[0-9]*` match. */
  lemma {:induction false} DigitsAfterPoint(s: string, p: nat, j: int)
    requires p <= j < |s| && s[p] == '.'
    requires forall k :: p < k <= j ==> IsDigit(s[k])
    ensures DigitsSincePoint(s, j)
    decreases j - p
  {
    if j > p {
      DigitsAfterPoint(s, p, j - 1);
    }
  }

  /** Text without a decimal point is left unchanged, integer zeros included. */
  lemma StripZerosNoPoint(s: string)
    requires '.' !in s
    ensures StripZeros(s) == s
  {
    var m := FirstMatch(s, 0);
    if m < |s| {
      assert MatchAt(s, m);
      if ZerosAfterNonzeroAt(s, m) {
        DigitsSincePointHasPoint(s, m - 2);
      }
    }
  }

  /** Nothing matches inside the integer part: a point follows it. */
  lemma NoMatchBeforePoint(s: string, ip: string, fp: string, j: nat)
    requires s == ip + "." + fp && '.' !in ip
    requires j < |ip|
    ensures !MatchAt(s, j)
  {
    assert s[j] == ip[j];
    assert s[j..][|ip| - j] == '.';
  }

  /**
   * When the fraction has a nonzero digit, nothing matches from the point up
   * to the last nonzero digit.
   */
  lemma NoMatchBeforeLastNonzero(s: string, ip: string, fp: string, j: nat)
    requires s == ip + "." + fp && AllDigits(fp)
    requires TrimZeros(fp) != []
    requires |ip| <= j <= |ip| + |TrimZeros(fp)|
    ensures !MatchAt(s, j)
  {
    var last := |ip| + |TrimZeros(fp)|;
    assert s[last] == fp[|TrimZeros(fp)| - 1] != '0';
    assert s[j..][last - j] != '0';
    if j == |ip| {
      assert s[j + 1..][last - j - 1] != '0';
    } else {
      assert s[j] != '.';
    }
  }

  /** After the last nonzero fractional digit, the zeros that follow match. */
  lemma MatchAfterLastNonzero(s: string, ip: string, fp: string)
    requires s == ip + "." + fp && AllDigits(fp)
    requires TrimZeros(fp) != [] && |TrimZeros(fp)| < |fp|
    ensures MatchAt(s, |ip| + |TrimZeros(fp)| + 1)
  {
    var t := TrimZeros(fp);
    var last := |ip| + |t|;
    assert s[last + 1..] == fp[|t|..];
    assert s[last] == t[|t| - 1];
    DigitsAfterPoint(s, |ip|, last - 1);
  }

  /** On fixed-point text with an all-zero fraction, the leftmost match is at the point. */
  lemma FirstMatchZeroFraction(ip: string, fp: string)
    requires '.' !in ip
    requires |fp| >= 1 && TrimZeros(fp) == []
    ensures FirstMatch(ip + "." + fp, 0) == |ip|
  {
    var s := ip + "." + fp;
    var m := FirstMatch(s, 0);
    if m < |ip| {
      NoMatchBeforePoint(s, ip, fp, m);
    }
    PointMatchesZeroFraction(s, ip, fp);
  }

  /**
   * On fixed-point text with a nonzero fractional digit, the leftmost match
   * starts just after the last nonzero digit (or there is none).
   */
  lemma FirstMatchNonzeroFraction(ip: string, fp: string)
    requires '.' !in ip
    requires AllDigits(fp) && TrimZeros(fp) != []
    ensures FirstMatch(ip + "." + fp, 0) == |ip| + |TrimZeros(fp)| + 1
  {
    var s := ip + "." + fp;
    var m := FirstMatch(s, 0);
    if m < |ip| {
      NoMatchBeforePoint(s, ip, fp, m);
    }
    if |ip| <= m <= |ip| + |TrimZeros(fp)| {
      NoMatchBeforeLastNonzero(s, ip, fp, m);
    }
    if |TrimZeros(fp)| < |fp| {
      MatchAfterLastNonzero(s, ip, fp);
    }
  }

  /**
   * On fixed-point text `ip + "." + fp` the replacement removes exactly the
   * trailing zeros of the fraction, and the point too when nothing else of
   * the fraction remains.
   */
  lemma StripZerosFixed(ip: string, fp: string)
    requires '.' !in ip
    requires |fp| >= 1 && AllDigits(fp)
    ensures StripZeros(ip + "." + fp)
            == if TrimZeros(fp) == [] then ip else ip + "." + TrimZeros(fp)
  {
    var t := TrimZeros(fp);
    if t == [] {
      FirstMatchZeroFraction(ip, fp);
      KeepThroughFraction(ip, fp, []);
    } else {
      FirstMatchNonzeroFraction(ip, fp);
      KeepThroughFraction(ip, fp, t);
    }
  }

  /** Cutting fixed-point text after a prefix `t` of the fraction (before the point when `t` is empty). */
  lemma KeepThroughFraction(ip: string, fp: string, t: string)
    requires |t| <= |fp| && t == fp[..|t|]
    ensures (ip + "." + fp)[..if t == [] then |ip| else |ip| + |t| + 1]
            == if t == [] then ip else ip + "." + t
  {
  }

  /** An all-zero fraction is matched, with its point, by the first alternative. */
  lemma PointMatchesZeroFraction(s: string, ip: string, fp: string)
    requires s == ip + "." + fp
    requires |fp| >= 1 && TrimZeros(fp) == []
    ensures MatchAt(s, |ip|)
  {
    assert s[|ip| + 1..] == fp;
  }

  lemma StripZerosExamples()
    ensures StripZeros("10.00") == "10"
    ensures StripZeros("1.500") == "1.5"
    ensures StripZeros("100") == "100"
  {
    StripZerosFixed("10", "00");
    assert "10" + "." + "00" == "10.00";
    StripZerosFixed("1", "500");
    assert "1" + "." + "500" == "1.500";
    StripZerosNoPoint("100");
  }

  /**
   * `nFormatter(num, digits)`, where `toFixed` prints a number with `digits`
   * fractional digits.
   */
  function NFormat(num: real, toFixed: real -> string): (text: string)
    ensures num < 1.0 ==> text == "0"
  {
    var k := ScaleFor(num);
    if k < 0 then "0"
    else StripZeros(toFixed(num / Lookup[k].value)) + Lookup[k].symbol
  }

  /**
   * From 1 up, the text is the stripped fixed-point quotient by the largest
   * threshold not above `num`, followed by that threshold's symbol.
   */
  lemma NFormatScaled(num: real, toFixed: real -> string)
    requires num >= 1.0
    ensures exists k :: 0 <= k < |Lookup| && Lookup[k].value <= num
              && (k + 1 < |Lookup| ==> num < Lookup[k + 1].value)
              && NFormat(num, toFixed) == StripZeros(toFixed(num / Lookup[k].value)) + Lookup[k].symbol
  {
    var k := ScaleFor(num);
    assert 0 <= k < |Lookup| && Lookup[k].value <= num
           && (k + 1 < |Lookup| ==> num < Lookup[k + 1].value)
           && NFormat(num, toFixed) == StripZeros(toFixed(num / Lookup[k].value)) + Lookup[k].symbol;
  }

  /** From 1e15 up the symbol is always "Q": there is no larger scale. */
  lemma NFormatQuadrillions(num: real, toFixed: real -> string)
    requires num >= 1000000000000000.0
    ensures NFormat(num, toFixed) == StripZeros(toFixed(num / 1000000000000000.0)) + "Q"
  {
  }
}
