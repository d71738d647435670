/**
 * The text forms the scripts build from dates: the map key `${year}-${month}`
 * and the tooltip label `${year}-${String(month + 1).padStart(2, '0')}`.
 * Integers are written the way a template literal writes a whole number:
 * decimal digits, a leading '-' when negative, no leading zeros.
 */
module KeyText {

  predicate IsDigit(c: char) {
    '0' <= c <= '9'
  }

  predicate AllDigits(s: string) {
    forall i :: 0 <= i < |s| ==> IsDigit(s[i])
  }

  function DigitChar(d: nat): (c: char)
    requires d < 10
  {
    (48 + d) as char
  }

  function DigitValue(c: char): (d: nat)
    requires IsDigit(c)
  {
    c as int - 48
  }

  /** Decimal text of a natural number, without leading zeros. */
  function NatToString(n: nat): (s: string)
    ensures |s| > 0 && AllDigits(s)
    ensures n < 10 <==> |s| == 1
    ensures n >= 10 ==> s[0] != '0'
  {
    if n < 10 then [DigitChar(n)]
    else NatToString(n / 10) + [DigitChar(n % 10)]
  }

  /** Decimal text of an integer, as `${n}` writes it. */
  function IntToString(n: int): string {
    if n < 0 then "-" + NatToString(-n) else NatToString(n)
  }

  /** Reads decimal digits back (leading zeros allowed). */
  function ParseNat(s: string): nat
    requires AllDigits(s)
  {
    if s == [] then 0 else ParseNat(s[..|s| - 1]) * 10 + DigitValue(s[|s| - 1])
  }

  /** `String.prototype.padStart(width, fill)`. */
  function PadStart(s: string, width: nat, fill: char): (r: string)
    ensures |r| == if |s| < width then width else |s|
    ensures r[|r| - |s|..] == s
    ensures forall i :: 0 <= i < |r| - |s| ==> r[i] == fill
  {
    if |s| < width then seq(width - |s|, _ => fill) + s else s
  }

  /** The key of the monthly maps: `${year}-${month}`. */
  function KeyString(year: int, month: nat): string {
    IntToString(year) + "-" + NatToString(month)
  }

  /** The date shown in a tooltip: year, '-', 1-based month padded to two digits. */
  function DateLabel(year: int, month: int): string
    requires 0 <= month <= 11
  {
    IntToString(year) + "-" + PadStart(NatToString(month + 1), 2, '0')
  }

  /**
   * The label's layout: the year's text, a '-', then exactly two digits that
   * read back as the 1-based month.
   */
  lemma DateLabelFields(year: int, month: int)
    requires 0 <= month <= 11
    ensures var r := DateLabel(year, month);
      && |r| >= 3 && r[|r| - 3] == '-'
      && r[..|r| - 3] == IntToString(year)
      && AllDigits(r[|r| - 2..]) && ParseNat(r[|r| - 2..]) == month + 1
  {
    var padded := PadStart(NatToString(month + 1), 2, '0');
    MonthField(month);
    DashThenTwo(IntToString(year), padded);
    var r := DateLabel(year, month);
    assert r == IntToString(year) + "-" + padded;
    assert r[|r| - 2..] == padded;
  }

  /** Where the parts of prefix + "-" + a two-character field sit. */
  lemma DashThenTwo(y: string, p: string)
    requires |p| == 2
    ensures var r := y + "-" + p;
      && |r| >= 3 && r[|r| - 3] == '-' && r[..|r| - 3] == y && r[|r| - 2..] == p
  {
    var r := y + "-" + p;
    assert r[|r| - 2..] == p;
    assert r[..|r| - 3] == y;
  }

  /** The month part of the label: exactly two digits reading back as month + 1. */
  lemma MonthField(month: int)
    requires 0 <= month <= 11
    ensures var p := PadStart(NatToString(month + 1), 2, '0');
      |p| == 2 && AllDigits(p) && ParseNat(p) == month + 1
  {
    var m := NatToString(month + 1);
    ParseNatToString(month + 1);
    if month + 1 < 10 {
      assert PadStart(m, 2, '0') == ['0'] + m;
      ParseNatLeadingZero(m);
    } else {
      assert NatToString((month + 1) / 10) == NatToString(1);
    }
  }

  lemma {:induction false} ParseNatToString(n: nat)
    ensures ParseNat(NatToString(n)) == n
  {
    var s := NatToString(n);
    if n < 10 {
      assert s[..|s| - 1] == [];
    } else {
      assert s[..|s| - 1] == NatToString(n / 10);
      ParseNatToString(n / 10);
    }
  }

  lemma {:induction false} ParseNatLeadingZero(s: string)
    requires AllDigits(s)
    ensures AllDigits(['0'] + s) && ParseNat(['0'] + s) == ParseNat(s)
  {
    var t := ['0'] + s;
    if s != [] {
      assert t[..|t| - 1] == ['0'] + s[..|s| - 1];
      ParseNatLeadingZero(s[..|s| - 1]);
    } else {
      assert t[..|t| - 1] == [];
    }
  }

  /** Different natural numbers are written differently. */
  lemma NatToStringInjective(a: nat, b: nat)
    requires NatToString(a) == NatToString(b)
    ensures a == b
  {
    ParseNatToString(a);
    ParseNatToString(b);
  }

  /** Different integers are written differently: the sign and the digits both come back. */
  lemma IntToStringInjective(a: int, b: int)
    requires IntToString(a) == IntToString(b)
    ensures a == b
  {
    var s := IntToString(a);
    assert s[0] == '-' <==> a < 0 by {
      if a >= 0 { assert IsDigit(NatToString(a)[0]); }
    }
    assert s[0] == '-' <==> b < 0 by {
      if b >= 0 { assert IsDigit(NatToString(b)[0]); }
    }
    if a < 0 {
      assert NatToString(-a) == s[1..] == NatToString(-b);
      NatToStringInjective(-a, -b);
    } else {
      NatToStringInjective(a, b);
    }
  }

  /** Index of the last '-' in a text, or -1 when there is none. */
  function LastDash(s: string): (i: int)
    ensures -1 <= i < |s|
  {
    if s == [] then -1
    else if s[|s| - 1] == '-' then |s| - 1
    else LastDash(s[..|s| - 1])
  }

  /** In prefix + "-" + digits, the last '-' is the one after the prefix. */
  lemma {:induction false} LastDashBeforeDigits(a: string, d: string)
    requires AllDigits(d)
    ensures LastDash(a + "-" + d) == |a|
  {
    var s := a + "-" + d;
    if d != [] {
      assert s[|s| - 1] == d[|d| - 1];
      assert s[..|s| - 1] == a + "-" + d[..|d| - 1];
      LastDashBeforeDigits(a, d[..|d| - 1]);
    }
  }

  /**
   * Two texts of the form prefix + "-" + digits that are equal split at the
   * same place: the last '-' of the text.
   */
  lemma SplitAtLastDash(a1: string, d1: string, a2: string, d2: string)
    requires AllDigits(d1) && AllDigits(d2)
    requires a1 + "-" + d1 == a2 + "-" + d2
    ensures a1 == a2 && d1 == d2
  {
    var s := a1 + "-" + d1;
    LastDashBeforeDigits(a1, d1);
    LastDashBeforeDigits(a2, d2);
    assert a1 == s[..|a1|] == a2;
    assert d1 == s[|a1| + 1..] == d2;
  }

  /**
   * The key text identifies its (year, month): two buckets never share a key,
   * so the map may be keyed by the pair itself.
   */
  lemma KeyStringInjective(y1: int, m1: nat, y2: int, m2: nat)
    requires KeyString(y1, m1) == KeyString(y2, m2)
    ensures y1 == y2 && m1 == m2
  {
    SplitAtLastDash(IntToString(y1), NatToString(m1), IntToString(y2), NatToString(m2));
    IntToStringInjective(y1, y2);
    NatToStringInjective(m1, m2);
  }

  /** The tooltip label identifies the cell's (year, month). */
  lemma DateLabelInjective(y1: int, m1: int, y2: int, m2: int)
    requires 0 <= m1 <= 11 && 0 <= m2 <= 11
    requires DateLabel(y1, m1) == DateLabel(y2, m2)
    ensures y1 == y2 && m1 == m2
  {
    DateLabelFields(y1, m1);
    DateLabelFields(y2, m2);
    IntToStringInjective(y1, y2);
  }
}
