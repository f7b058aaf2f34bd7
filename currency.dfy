/** store/templatetags/currency.py: the `money_plain` template filter, which
    shows an amount of cents as plain euros without a currency sign and
    without trailing zeros ("150", "149.9", "149.99"). */
module Currency {
  import opened Wrappers
  import opened Text
  import opened Money

  /** `f"{Decimal(cents) / Decimal(100):.2f}"` for whole cents, taking the
      quotient as exact: the sign, the whole euros, a `.` and two digits of
      cents. The text denotes exactly the amount it was made from. */
  function FixedTwo(cents: int): (r: string)
    ensures |r| >= 4 && r[|r| - 3] == '.' && IsDigit(r[|r| - 2]) && IsDigit(r[|r| - 1])
    ensures ParsePlain(r) == Some(cents)
  {
    var a := Abs(cents);
    var ds := NatToDecimal(a / 100);
    var sign: string := if cents < 0 then "-" else "";
    DecimalRoundTrip(a / 100);
    assert a / 100 * 100 + a % 100 == a;
    var t := ds + "." + TwoDigits(a % 100);
    ParseTwoDigits(ds, a % 100);
    assert t[0] == ds[0];
    SignedReads(cents < 0, t, a);
    sign + t
  }

  /** A `-` in front of an unsigned amount negates it; without one the
      amount is read as it stands. */
  lemma SignedReads(neg: bool, t: string, v: int)
    requires t != [] && IsDigit(t[0]) && ParseUnsigned(t) == Some(v)
    ensures ParsePlain((if neg then "-" else "") + t) == Some(if neg then -v else v)
  {
    var s := (if neg then "-" else "") + t;
    if neg {
      assert s[0] == '-' && s[1..] == t;
    } else {
      assert s == t;
    }
  }


  /** `money_plain`. `None` stands for every input `Decimal` refuses (None,
      the empty string, text that is not a number), for which the filter
      shows nothing. The layout it produces: whole euros are never touched
      by the stripping, a zero cent part disappears with its `.`, and a
      cent part ending in zero keeps one digit. */
  function MoneyPlain(cents: Option<int>): (r: string)
    ensures cents.None? ==> r == ""
    ensures cents.Some? ==>
      r == (if cents.value < 0 then "-" else "") + NatToDecimal(Abs(cents.value) / 100) + Fraction(Abs(cents.value) % 100)
  {
    match cents
    case None => ""
    case Some(n) =>
      var a := Abs(n);
      var ds := NatToDecimal(a / 100);
      var p := (if n < 0 then "-" else "") + ds;
      assert p != [] && IsDigit(p[|p| - 1]) by {
        assert p[|p| - 1] == ds[|ds| - 1];
      }
      StripCents(p, a % 100);
      assert FixedTwo(n) == p + "." + TwoDigits(a % 100) by {
        assert p + "." + TwoDigits(a % 100) == (if n < 0 then "-" else "") + (ds + "." + TwoDigits(a % 100));
      }
      RStripChar(RStripChar(FixedTwo(n), '0'), '.')
  }

  /** What is left of the two cent digits once trailing zeros and a bare
      `.` are stripped. */
  function Fraction(f: nat): (r: string)
    requires f < 100
  {
    if f == 0 then "" else if f % 10 == 0 then ['.', DigitChar(f / 10)] else "." + TwoDigits(f)
  }

  /** Stripping only ever eats into the two cent digits and their `.`:
      the part before the `.` ends in a digit, which stops it. */
  lemma {:induction false} StripCents(p: string, f: nat)
    requires p != [] && IsDigit(p[|p| - 1])
    requires f < 100
    ensures RStripChar(RStripChar(p + "." + TwoDigits(f), '0'), '.') == p + Fraction(f)
  {
    var fr := TwoDigits(f);
    if f == 0 {
      assert fr == "00";
      RStripCharSplit(p + ".", fr, '0');
      RStripCharSplit(p, ".", '.');
      assert p + Fraction(f) == p;
    } else if f % 10 == 0 {
      var x := p + ['.', fr[0]];
      assert fr[0] != '0';
      assert p + "." + fr == x + "0";
      RStripCharSplit(x, "0", '0');
      RStripCharSplit(x, [], '.');
      assert x + [] == x;
    } else {
      var x := p + "." + fr;
      assert fr[1] != '0';
      RStripCharSplit(x, [], '0');
      RStripCharSplit(x, [], '.');
      assert x + [] == x;
    }
  }

  /** The text never ends in a `.`, and once it has a `.` it never ends in a
      zero: the filter's promise that 150 shows as "150" and not "150.00". */
  lemma MoneyPlainCanonical(n: int)
    ensures var r := MoneyPlain(Some(n));
      r != [] && IsDigit(r[|r| - 1]) && ('.' in r ==> r[|r| - 1] != '0')
  {
    var a := Abs(n);
    CanonicalShape((if n < 0 then "-" else ""), NatToDecimal(a / 100), a % 100, MoneyPlain(Some(n)));
  }

  /** Text in the layout of `money_plain` ends in a digit, and in a digit
      other than zero once it has a `.`. */
  lemma CanonicalShape(sign: string, ds: string, f: nat, r: string)
    requires ds != [] && AllDigits(ds) && '.' !in sign && f < 100
    requires r == sign + ds + Fraction(f)
    ensures r != [] && IsDigit(r[|r| - 1]) && ('.' in r ==> r[|r| - 1] != '0')
  {
    var p := sign + ds;
    assert p[|p| - 1] == ds[|ds| - 1];
    if f == 0 {
      assert r == p;
      assert '.' !in ds;
    }
  }


  // ---------------------------------------------------------------------
  // Reading the text back

  /** Reads an amount in the layout `money_plain` writes: an optional `-`,
      whole euros, and optionally a `.` with one or two digits of cents. */
  function ParsePlain(s: string): Option<int> {
    if |s| > 0 && s[0] == '-' then
      match ParseUnsigned(s[1..])
      case Some(v) => Some(-v)
      case None => None
    else ParseUnsigned(s)
  }

  function ParseUnsigned(t: string): Option<int> {
    if |t| >= 4 && t[|t| - 3] == '.' then ParseWith(t[..|t| - 3], t[|t| - 2..], 1)
    else if |t| >= 3 && t[|t| - 2] == '.' then ParseWith(t[..|t| - 2], t[|t| - 1..], 10)
    else ParseWith(t, [], 1)
  }

  /** Whole euros and the digits after the `.`, read with the given scale. */
  function ParseWith(whole: string, frac: string, scale: nat): Option<int> {
    if whole == [] || !AllDigits(whole) || !AllDigits(frac) then None
    else Some(DecimalValue(whole) * 100 + DecimalValue(frac) * scale)
  }

  lemma ParseWhole(ds: string)
    requires ds != [] && AllDigits(ds)
    ensures ParseUnsigned(ds) == Some(DecimalValue(ds) * 100)
  {
    assert '.' !in ds;
    assert [] == "" && DecimalValue([]) == 0;
  }

  lemma ParseOneDigit(ds: string, d: nat)
    requires ds != [] && AllDigits(ds)
    requires 0 < d < 10
    ensures ParseUnsigned(ds + ['.', DigitChar(d)]) == Some(DecimalValue(ds) * 100 + d * 10)
  {
    var t := ds + ['.', DigitChar(d)];
    assert t[..|t| - 2] == ds && t[|t| - 1..] == [DigitChar(d)];
    assert |t| < 4 || t[|t| - 3] != '.';
    assert [DigitChar(d)][..0] == [];
  }

  lemma ParseTwoDigits(ds: string, f: nat)
    requires ds != [] && AllDigits(ds)
    requires f < 100
    ensures ParseUnsigned(ds + "." + TwoDigits(f)) == Some(DecimalValue(ds) * 100 + f)
  {
    var t := ds + "." + TwoDigits(f);
    assert t[..|t| - 3] == ds && t[|t| - 2..] == TwoDigits(f);
    TwoDigitsValue(f);
  }

  lemma ParseUnsignedOf(ds: string, f: nat)
    requires ds != [] && AllDigits(ds)
    requires f < 100
    ensures ParseUnsigned(ds + Fraction(f)) == Some(DecimalValue(ds) * 100 + f)
  {
    if f == 0 {
      assert ds + Fraction(f) == ds;
      ParseWhole(ds);
    } else if f % 10 == 0 {
      ParseOneDigit(ds, f / 10);
    } else {
      assert ds + Fraction(f) == ds + "." + TwoDigits(f);
      ParseTwoDigits(ds, f);
    }
  }

  /** `money_plain` loses nothing: its text reads back as the amount. */
  lemma MoneyPlainRoundTrip(n: int)
    ensures ParsePlain(MoneyPlain(Some(n))) == Some(n)
  {
    ParseShape(n, MoneyPlain(Some(n)));
  }

  /** Any text in the layout of `money_plain` reads back as its amount. */
  lemma ParseShape(n: int, s: string)
    requires s == (if n < 0 then "-" else "") + NatToDecimal(Abs(n) / 100) + Fraction(Abs(n) % 100)
    ensures ParsePlain(s) == Some(n)
  {
    var a := Abs(n);
    var sign: string := if n < 0 then "-" else "";
    var ds := NatToDecimal(a / 100);
    assert s == sign + (ds + Fraction(a % 100));
    DecimalRoundTrip(a / 100);
    assert a / 100 * 100 + a % 100 == a;
    var t := ds + Fraction(a % 100);
    ParseUnsignedOf(ds, a % 100);
    assert t[0] == ds[0];
    SignedReads(n < 0, t, a);
  }

  /** The first rendering the filter's documentation names: 15000 cents
      is "150". */
  lemma MoneyPlainWholeExample(n: int)
    requires n == 15000
    ensures MoneyPlain(Some(n)) == "150"
  {
    ShapeExample(n, MoneyPlain(Some(n)));
  }

  /** The second: 14999 cents is "149.99". */
  lemma MoneyPlainCentsExample(n: int)
    requires n == 14999
    ensures MoneyPlain(Some(n)) == "149.99"
  {
    ShapeExample(n, MoneyPlain(Some(n)));
  }

  lemma ShapeExample(n: int, s: string)
    requires n == 15000 || n == 14999
    requires s == (if n < 0 then "-" else "") + NatToDecimal(Abs(n) / 100) + Fraction(Abs(n) % 100)
    ensures n == 15000 ==> s == "150"
    ensures n == 14999 ==> s == "149.99"
  {
    var euros, cents := Abs(n) / 100, Abs(n) % 100;
    if n == 15000 {
      assert euros == 150 && cents == 0;
      DecimalExample(euros, "150");
      assert Fraction(cents) == "";
      assert "" + "150" + "" == "150";
    } else {
      assert euros == 149 && cents == 99;
      DecimalExample(euros, "149");
      assert Fraction(cents) == ".99";
      assert "" + "149" + ".99" == "149.99";
    }
  }

  lemma DecimalExample(n: nat, ds: string)
    requires (n == 150 && ds == "150") || (n == 149 && ds == "149")
    ensures NatToDecimal(n) == ds
  {
    assert NatToDecimal(n / 100) == [ds[0]];
    assert NatToDecimal(n / 10) == ds[..2];
  }
}
