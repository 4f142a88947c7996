/**
 * Text conversions the watch-list store relies on: Python's `str.isdigit`
 * check and `Decimal(...)` conversion of the stored price, `str(int)` of a
 * stock code, and the `'{:,.1f}'` rendering of an integral price
 * (comma-separated thousands, one decimal place).
 */
module Format {

  predicate IsDigit(ch: char) {
    '0' <= ch <= '9'
  }

  predicate AllDigits(s: string) {
    forall i :: 0 <= i < |s| ==> IsDigit(s[i])
  }

  /** `s.isdigit()` restricted to ASCII: non-empty and made of `0`-`9` only. */
  predicate IsDigits(s: string) {
    |s| > 0 && AllDigits(s)
  }

  /** No leading zero, except for "0" itself: the way `str(n)` writes a natural number. */
  predicate Canonical(s: string) {
    IsDigits(s) && (|s| == 1 || s[0] != '0')
  }

  predicate NoSpace(s: string) {
    forall i :: 0 <= i < |s| ==> s[i] != ' '
  }

  function DigitValue(ch: char): (d: nat)
    requires IsDigit(ch)
    ensures d < 10
  {
    ch as int - '0' as int
  }

  function DigitChar(d: nat): (ch: char)
    requires d < 10
    ensures IsDigit(ch) && DigitValue(ch) == d
  {
    ('0' as int + d) as char
  }

  /** The value `Decimal(s)` gives a string of decimal digits. */
  function DigitsValue(s: string): (v: nat)
    requires AllDigits(s)
    ensures |s| > 0 && s[0] != '0' ==> v >= 1
  {
    if s == [] then 0 else 10 * DigitsValue(s[..|s| - 1]) + DigitValue(s[|s| - 1])
  }

  /** `str(n)` for a natural number: canonical digits that read back as `n`. */
  function NatToDigits(n: nat): (s: string)
    ensures Canonical(s)
    ensures DigitsValue(s) == n
    ensures 1 <= |s|
  {
    if n < 10 then [DigitChar(n)]
    else
      var p := NatToDigits(n / 10);
      var s := p + [DigitChar(n % 10)];
      assert s[..|s| - 1] == p;
      s
  }

  /** `str(i)` (and `'{}'.format(i)`) for an integer. */
  function IntToString(i: int): (s: string)
    ensures NoSpace(s)
    ensures i >= 0 ==> s == NatToDigits(i)
    ensures i < 0 ==> s == "-" + NatToDigits(-i)
  {
    NoSpaceInDigits(if i < 0 then -i else i);
    if i < 0 then "-" + NatToDigits(-i) else NatToDigits(i)
  }

  /** Groups a digit string in threes from the right, joined by commas. */
  function GroupThousands(s: string): (g: string)
    requires IsDigits(s)
    ensures WellGrouped(g)
    ensures StripCommas(g) == s
  {
    if |s| <= 3 then
      NoCommaStrips(s);
      s
    else
      var head := GroupThousands(s[..|s| - 3]);
      var tail := s[|s| - 3..];
      GroupedAppend(head, tail);
      assert s[..|s| - 3] + tail == s;
      head + "," + tail
  }

  /** `'{:,.1f}'.format(Decimal(p))` for an integral price `p`. */
  function FormatPrice(p: nat): (f: string)
    ensures |f| >= 3 && f[|f| - 2..] == ".0"
    ensures WellGrouped(f[..|f| - 2]) && StripCommas(f[..|f| - 2]) == NatToDigits(p)
  {
    var g := GroupThousands(NatToDigits(p));
    assert (g + ".0")[..|g|] == g;
    g + ".0"
  }

  /** One to three digits, followed by any number of groups `,ddd`. */
  predicate WellGrouped(g: string) {
    if |g| <= 3 then 1 <= |g| && AllDigits(g)
    else
      |g| >= 5 && g[|g| - 4] == ',' && AllDigits(g[|g| - 3..]) && WellGrouped(g[..|g| - 4])
  }

  function StripCommas(g: string): string {
    if g == [] then []
    else (if g[0] == ',' then [] else [g[0]]) + StripCommas(g[1..])
  }

  lemma {:induction false} StripCommasAppend(a: string, b: string)
    ensures StripCommas(a + b) == StripCommas(a) + StripCommas(b)
  {
    if a != [] {
      assert (a + b)[0] == a[0];
      assert (a + b)[1..] == a[1..] + b;
      StripCommasAppend(a[1..], b);
    } else {
      assert a + b == b;
    }
  }

  lemma CommaStrips()
    ensures StripCommas(",") == []
  {
    assert ","[1..] == [];
  }

  lemma {:induction false} NoCommaStrips(s: string)
    requires AllDigits(s)
    ensures StripCommas(s) == s
  {
    if s != [] {
      NoCommaStrips(s[1..]);
    }
  }

  lemma {:induction false} NoSpaceInDigits(n: nat)
    ensures NoSpace(NatToDigits(n)) && NoSpace("-" + NatToDigits(n))
  {
  }

  lemma StripGroup(h: string, t: string)
    requires AllDigits(t)
    ensures StripCommas(h + "," + t) == StripCommas(h) + t
  {
    assert h + "," + t == h + ("," + t);
    StripCommasAppend(h, "," + t);
    StripCommasAppend(",", t);
    CommaStrips();
    NoCommaStrips(t);
  }

  /** One more group of three digits keeps a string well grouped. */
  lemma GroupedAppend(h: string, t: string)
    requires WellGrouped(h) && |t| == 3 && AllDigits(t)
    ensures WellGrouped(h + "," + t)
    ensures StripCommas(h + "," + t) == StripCommas(h) + t
  {
    var g := h + "," + t;
    assert g[..|g| - 4] == h && g[|g| - 4] == ',' && g[|g| - 3..] == t;
    StripGroup(h, t);
  }

  lemma AllDigitsAppend(a: string, b: string)
    requires AllDigits(a) && AllDigits(b)
    ensures AllDigits(a + b)
  {
    forall i | 0 <= i < |a + b| ensures IsDigit((a + b)[i]) {
      if i < |a| { assert (a + b)[i] == a[i]; } else { assert (a + b)[i] == b[i - |a|]; }
    }
  }

  /** A well-grouped string holds at least one digit once its commas are removed. */
  lemma {:induction false} WellGroupedStrips(g: string)
    requires WellGrouped(g)
    ensures IsDigits(StripCommas(g))
    ensures |g| > 3 ==> StripCommas(g) == StripCommas(g[..|g| - 4]) + g[|g| - 3..]
  {
    if |g| <= 3 {
      NoCommaStrips(g);
    } else {
      var h, t := g[..|g| - 4], g[|g| - 3..];
      assert g == h + "," + t;
      WellGroupedStrips(h);
      StripGroup(h, t);
      AllDigitsAppend(StripCommas(h), t);
    }
  }

  /** The grouping is the only well-grouped way of writing its digits. */
  lemma {:induction false} GroupThousandsUnique(g: string)
    requires WellGrouped(g)
    ensures IsDigits(StripCommas(g))
    ensures GroupThousands(StripCommas(g)) == g
  {
    WellGroupedStrips(g);
    if |g| > 3 {
      var h, t := g[..|g| - 4], g[|g| - 3..];
      assert g == h + "," + t;
      GroupThousandsUnique(h);
      var s := StripCommas(g);
      assert s == StripCommas(h) + t;
      assert s[..|s| - 3] == StripCommas(h);
      assert s[|s| - 3..] == t;
      assert GroupThousands(s) == GroupThousands(s[..|s| - 3]) + "," + s[|s| - 3..];
    } else {
      NoCommaStrips(g);
    }
  }

  /** Digits read back by `Decimal` print again as `str` gives: the canonical round trip. */
  lemma {:induction false} DigitsRoundTrip(s: string)
    requires Canonical(s)
    ensures NatToDigits(DigitsValue(s)) == s
  {
    if |s| > 1 {
      var p := s[..|s| - 1];
      assert p[0] == s[0];
      DigitsRoundTrip(p);
      var n := DigitsValue(s);
      assert n / 10 == DigitsValue(p) && n % 10 == DigitValue(s[|s| - 1]);
      assert s == p + [s[|s| - 1]];
    }
  }

  /** Different numbers print differently. */
  lemma NatToDigitsInjective(a: nat, b: nat)
    requires NatToDigits(a) == NatToDigits(b)
    ensures a == b
  {
    assert DigitsValue(NatToDigits(a)) == a;
  }

  lemma {:induction false} IntToStringInjective(a: int, b: int)
    requires IntToString(a) == IntToString(b)
    ensures a == b
  {
    var sa, sb := IntToString(a), IntToString(b);
    if a < 0 && b < 0 {
      assert sa[1..] == NatToDigits(-a) && sb[1..] == NatToDigits(-b);
      NatToDigitsInjective(-a, -b);
    } else {
      NatToDigitsInjective(a, b);
    }
  }

  /**
   * The rendered price keeps the value: it ends in ".0", and dropping that
   * suffix and the commas leaves digits worth exactly `p`.
   */
  lemma {:induction false} FormatPriceRoundTrip(p: nat)
    ensures var f := FormatPrice(p);
      && |f| >= 3 && f[|f| - 2..] == ".0"
      && WellGrouped(f[..|f| - 2])
      && AllDigits(StripCommas(f[..|f| - 2]))
      && DigitsValue(StripCommas(f[..|f| - 2])) == p
  {
    var g := GroupThousands(NatToDigits(p));
    var f := FormatPrice(p);
    assert f[..|f| - 2] == g;
  }

  lemma Digits134()
    ensures NatToDigits(134) == "134"
  {
    assert NatToDigits(1) == "1";
    assert NatToDigits(13) == "13";
  }

  lemma Digits2700()
    ensures NatToDigits(2700) == "2700"
  {
    assert NatToDigits(2) == "2";
    assert NatToDigits(27) == "27";
    assert NatToDigits(270) == "270";
  }

  lemma Digits12345()
    ensures NatToDigits(12345) == "12345"
  {
    assert NatToDigits(1) == "1";
    assert NatToDigits(12) == "12";
    assert NatToDigits(123) == "123";
    assert NatToDigits(1234) == "1234";
  }

  lemma Digits8267()
    ensures NatToDigits(8267) == "8267"
  {
    assert NatToDigits(8) == "8";
    assert NatToDigits(82) == "82";
    assert NatToDigits(826) == "826";
  }

  /** A price below a thousand is written without a separator. */
  lemma FormatPriceUngrouped()
    ensures FormatPrice(134) == "134.0"
  {
    Digits134();
  }

  /** From a thousand on, the thousands are split off by a comma. */
  lemma FormatPriceGrouped()
    ensures FormatPrice(2700) == "2,700.0"
  {
    Digits2700();
    var s := "2700";
    assert s[..|s| - 3] == "2" && s[|s| - 3..] == "700";
    assert GroupThousands("2") == "2";
    assert GroupThousands(s) == "2,700";
  }

  lemma {:induction false} FormatPriceInjective(a: nat, b: nat)
    requires FormatPrice(a) == FormatPrice(b)
    ensures a == b
  {
    FormatPriceRoundTrip(a);
    FormatPriceRoundTrip(b);
  }

  lemma {:induction false} FormatPriceNoSpace(p: nat)
    ensures NoSpace(FormatPrice(p))
  {
    var f := FormatPrice(p);
    var g := f[..|f| - 2];
    FormatPriceRoundTrip(p);
    WellGroupedNoSpace(g);
    assert f == g + ".0";
  }

  lemma {:induction false} WellGroupedNoSpace(g: string)
    requires WellGrouped(g)
    ensures NoSpace(g)
  {
    if |g| > 3 {
      var h, t := g[..|g| - 4], g[|g| - 3..];
      assert g == h + "," + t;
      WellGroupedNoSpace(h);
    }
  }

  /**
   * Two texts that each start with a word free of spaces, followed by a part
   * that starts with a space, split the same way.
   */
  lemma SplitAtSpace(a: string, x: string, b: string, y: string)
    requires NoSpace(a) && NoSpace(b)
    requires |x| > 0 && x[0] == ' ' && |y| > 0 && y[0] == ' '
    requires a + x == b + y
    ensures a == b && x == y
  {
    assert a == (a + x)[..|a|];
    assert b == (b + y)[..|b|];
    assert x == (a + x)[|a|..];
    assert y == (b + y)[|b|..];
  }
}
