/** store/utils.py: splitting a VAT-inclusive amount into net and VAT, and the
    German-style euro label. All amounts are integer cents. */
module Money {
  import opened Wrappers
  import opened Text

  /** A VAT rate, kept as the exact non-negative fraction `num / den`
      (the standard German rate 0.19 is `Rate(19, 100)`). */
  datatype Rate = Rate(num: nat, den: nat)

  type VatRate = r: Rate | r.den > 0 witness Rate(0, 1)

  /** The `VatBreakdown` record: net + VAT = gross, and the rate it used. */
  datatype VatBreakdown = VatBreakdown(net: int, vat: int, gross: int, vatRate: VatRate)

  /** Python's `round` on the exact quotient `n / d`: the nearest integer,
      and on a tie the even one. */
  function RoundHalfEven(n: int, d: int): (r: int)
    requires d > 0
    ensures -d <= 2 * (r * d - n) <= d
    ensures (2 * (r * d - n) == d || 2 * (r * d - n) == -d) ==> r % 2 == 0
  {
    var q, m := n / d, n % d;
    assert n == q * d + m;
    assert (q + 1) * d - n == d - m;
    if 2 * m < d then q
    else if 2 * m > d then q + 1
    else if q % 2 == 0 then q
    else q + 1
  }

  /** The sign of a product with a positive factor, as implications so that
      callers need no case split. */
  lemma MulSign(k: int, d: int)
    ensures d > 0 && k >= 1 ==> k * d >= d
    ensures d > 0 && k <= -1 ==> k * d <= -d
  {
    if d > 0 && k >= 1 {
      assert k * d == d + (k - 1) * d;
    } else if d > 0 && k <= -1 {
      assert k * d == -d + (k + 1) * d;
    }
  }

  /** Two integers that both round `n / d` half-to-even are the same. */
  lemma HalfEvenCandidatesAgree(n: int, d: int, r: int, e: int)
    requires d > 0
    requires -d <= 2 * (r * d - n) <= d
    requires (2 * (r * d - n) == d || 2 * (r * d - n) == -d) ==> r % 2 == 0
    requires -d <= 2 * (e * d - n) <= d
    requires (2 * (e * d - n) == d || 2 * (e * d - n) == -d) ==> e % 2 == 0
    ensures r == e
  {
    assert (r * d - n) - (e * d - n) == (r - e) * d;
    MulSteps(r - e, d);
    ErrorsAgree(r * d - n, e * d - n, d, r, e, (r - e) * d);
  }

  /** The multiples of a positive `d` by small and by larger factors. */
  lemma MulSteps(k: int, d: int)
    requires d > 0
    ensures k >= 2 ==> k * d >= 2 * d
    ensures k <= -2 ==> k * d <= -2 * d
    ensures k == 1 ==> k * d == d
    ensures k == -1 ==> k * d == -d
  {
    assert k * d == (k - 1) * d + d;
    assert k * d == (k + 1) * d - d;
    MulSign(k - 1, d);
    MulSign(k + 1, d);
  }

  /** The rounding errors `x` and `y` of two candidates `r` and `e` differ by
      `p`, the multiple of `d` by `r - e`; within half a step each, and even
      on a tie, that multiple is zero. */
  lemma ErrorsAgree(x: int, y: int, d: int, r: int, e: int, p: int)
    requires d > 0
    requires -d <= 2 * x <= d && -d <= 2 * y <= d
    requires (2 * x == d || 2 * x == -d) ==> r % 2 == 0
    requires (2 * y == d || 2 * y == -d) ==> e % 2 == 0
    requires x - y == p
    requires r - e >= 2 ==> p >= 2 * d
    requires r - e <= -2 ==> p <= -2 * d
    requires r - e == 1 ==> p == d
    requires r - e == -1 ==> p == -d
    ensures r == e
  {
  }

  /** The rounding is unique: any integer as close to `n / d`, even on a
      tie, is the one `RoundHalfEven` picks. */
  lemma RoundHalfEvenUnique(n: int, d: int, r: int)
    requires d > 0
    requires -d <= 2 * (r * d - n) <= d
    requires (2 * (r * d - n) == d || 2 * (r * d - n) == -d) ==> r % 2 == 0
    ensures r == RoundHalfEven(n, d)
  {
    HalfEvenCandidatesAgree(n, d, r, RoundHalfEven(n, d));
  }

  /** `net` is gross / (1 + rate) rounded to the cent, so it lies in [0, gross]
      when gross and the rate are non-negative. */
  lemma NetWithinGross(gross: int, net: int, num: nat, den: nat)
    requires den > 0 && gross >= 0
    requires -(den + num) <= 2 * (net * (den + num) - gross * den) <= den + num
    ensures 0 <= net <= gross
  {
    var d := den + num;
    assert net * d - gross * den == (net - gross) * d + gross * num;
    assert gross * num >= 0;
    MulSign(net - gross, d);
    MulSign(net, d);
  }

  /** With a zero rate nothing is split off. */
  lemma NetAtZeroRate(gross: int, net: int, den: nat)
    requires den > 0
    requires -(den as int) <= 2 * (net * den - gross * den) <= den
    ensures net == gross
  {
    assert net * den - gross * den == (net - gross) * den;
    MulSign(net - gross, den);
  }

  /** `split_vat_from_gross`: net = round(gross / (1 + rate)) and VAT is the
      remainder, so the two parts always add up to the gross amount. */
  function SplitVatFromGross(grossCents: int, rate: VatRate): (b: VatBreakdown)
    ensures b.net + b.vat == grossCents
    ensures b.gross == grossCents && b.vatRate == rate
    ensures -(rate.den + rate.num) <= 2 * (b.net * (rate.den + rate.num) - grossCents * rate.den) <= rate.den + rate.num
    ensures grossCents >= 0 ==> 0 <= b.net <= grossCents && 0 <= b.vat <= grossCents
    ensures rate.num == 0 ==> b.net == grossCents && b.vat == 0
  {
    var net := RoundHalfEven(grossCents * rate.den, rate.den + rate.num);
    assert grossCents >= 0 ==> 0 <= net <= grossCents by {
      if grossCents >= 0 { NetWithinGross(grossCents, net, rate.num, rate.den); }
    }
    assert rate.num == 0 ==> net == grossCents by {
      if rate.num == 0 { NetAtZeroRate(grossCents, net, rate.den); }
    }
    VatBreakdown(net, grossCents - net, grossCents, rate)
  }

  // ---------------------------------------------------------------------
  // euro()

  function Abs(x: int): nat {
    if x < 0 then -x else x
  }

  /** Python's `f"{cents / 100:,.2f}"`: a minus sign for negative amounts,
      the whole euros grouped by `,`, a `.` and two digits of cents. So the
      text ends in a `.` and exactly two digits, before which there are only
      digits, group separators and a leading sign; in particular it never
      contains the placeholder `X` that `euro` swaps through. */
  function EnglishAmount(cents: int): (r: string)
    ensures |r| >= 4 && r[|r| - 3] == '.' && IsDigit(r[|r| - 2]) && IsDigit(r[|r| - 1])
    ensures forall i :: 0 <= i < |r| - 3 ==> IsDigit(r[i]) || r[i] == ',' || (i == 0 && r[i] == '-')
    ensures 'X' !in r
  {
    var a := Abs(cents);
    var ds := NatToDecimal(a / 100);
    var sign: string := if cents < 0 then "-" else "";
    var g := Group(ds, ',');
    GroupDigits(ds, ',');
    var r := sign + g + "." + TwoDigits(a % 100);
    assert forall i :: |sign| <= i < |sign| + |g| ==> r[i] == g[i - |sign|];
    r
  }

  /** `euro`: the English layout with ` €` appended, then `,` and `.` swapped
      through the placeholder `X`. What it prints: a minus sign for a
      negative amount, the whole euros grouped in thousands by `.`, a `,`,
      exactly two digits (the cents modulo 100, zero-padded) and ` €`. */
  function Euro(cents: int): (r: string)
    ensures r == (if cents < 0 then "-" else "")
      + (Group(NatToDecimal(Abs(cents) / 100), '.') + ("," + (TwoDigits(Abs(cents) % 100) + " €")))
  {
    var a := Abs(cents);
    var ds := NatToDecimal(a / 100);
    var sign: string := if cents < 0 then "-" else "";
    var e := EnglishAmount(cents) + " €";
    assert 'X' !in e;
    ReplaceChainSwaps(e);
    Associate(sign, Group(ds, ','), ".", TwoDigits(a % 100), " €");
    SwappedAmount(sign, ds, TwoDigits(a % 100) + " €");
    ReplaceChar(ReplaceChar(ReplaceChar(e, ',', 'X'), '.', ','), 'X', '.')
  }

  /** The three replacements together exchange `,` and `.`; this is what they
      do to any text without an `X`. */
  function SwapChar(c: char): char {
    if c == ',' then '.' else if c == '.' then ',' else c
  }

  function Swapped(s: string): string
  {
    if s == [] then [] else Swapped(s[..|s| - 1]) + [SwapChar(s[|s| - 1])]
  }

  lemma {:induction false} ReplaceChainSwaps(s: string)
    requires 'X' !in s
    ensures ReplaceChar(ReplaceChar(ReplaceChar(s, ',', 'X'), '.', ','), 'X', '.') == Swapped(s)
  {
    if s != [] {
      var p := s[..|s| - 1];
      assert 'X' !in p by {
        forall i | 0 <= i < |p| ensures p[i] != 'X' { assert p[i] == s[i]; }
      }
      ReplaceChainSwaps(p);
    }
  }

  lemma {:induction false} SwappedAppend(a: string, b: string)
    ensures Swapped(a + b) == Swapped(a) + Swapped(b)
    decreases |b|
  {
    if b == [] {
      assert a + b == a;
    } else {
      var c := b[..|b| - 1];
      assert (a + b)[..|a + b| - 1] == a + c;
      SwappedAppend(a, c);
    }
  }

  lemma {:induction false} SwappedFixed(s: string)
    requires ',' !in s && '.' !in s
    ensures Swapped(s) == s
  {
    if s != [] {
      var p := s[..|s| - 1];
      assert ',' !in p && '.' !in p by {
        forall i | 0 <= i < |p| ensures p[i] != ',' && p[i] != '.' { assert p[i] == s[i]; }
      }
      SwappedFixed(p);
    }
  }

  lemma {:induction false} SwappedGroup(ds: string)
    requires AllDigits(ds)
    ensures Swapped(Group(ds, ',')) == Group(ds, '.')
    decreases |ds|
  {
    if |ds| > 3 {
      var h, t := ds[..|ds| - 3], ds[|ds| - 3..];
      assert AllDigits(h) && AllDigits(t);
      SwappedGroup(h);
      SwappedFixed(t);
      SwappedAppend(Group(h, ',') + [','], t);
      SwappedAppend(Group(h, ','), [',']);
      assert Swapped([',']) == ['.'] by { assert [','][..0] == []; }
    } else {
      SwappedFixed(ds);
    }
  }

  lemma {:induction false} GroupDigits(ds: string, sep: char)
    requires AllDigits(ds) && !IsDigit(sep)
    ensures forall i :: 0 <= i < |Group(ds, sep)| ==> IsDigit(Group(ds, sep)[i]) || Group(ds, sep)[i] == sep
    ensures ds != [] ==> Group(ds, sep) != [] && Group(ds, sep)[0] == ds[0]
    decreases |ds|
  {
    if |ds| > 3 {
      var h, t := ds[..|ds| - 3], ds[|ds| - 3..];
      GroupDigits(h, sep);
      assert Group(ds, sep) == Group(h, sep) + [sep] + t;
    }
  }

  lemma Associate(a: string, b: string, c: string, d: string, e: string)
    ensures a + b + c + d + e == a + (b + (c + (d + e)))
  {
  }

  lemma SwappedAmount(sign: string, ds: string, tail: string)
    requires AllDigits(ds)
    requires ',' !in sign && '.' !in sign && ',' !in tail && '.' !in tail
    ensures Swapped(sign + (Group(ds, ',') + ("." + tail))) == sign + (Group(ds, '.') + ("," + tail))
  {
    var g := Group(ds, ',');
    SwappedAppend(sign, g + ("." + tail));
    SwappedAppend(g, "." + tail);
    SwappedAppend(".", tail);
    SwappedGroup(ds);
    SwappedFixed(sign);
    SwappedFixed(tail);
    assert Swapped(".") == "," by { assert "."[..0] == []; }
  }

  /** Reads the amount back from a label in the layout `euro` writes. */
  function ParseEuro(s: string): Option<int> {
    if |s| < 2 || s[|s| - 2..] != " €" then None else ParseSigned(s[..|s| - 2])
  }

  function ParseSigned(body: string): Option<int> {
    if |body| > 0 && body[0] == '-' then
      match ParseMagnitude(body[1..])
      case Some(v) => Some(-v)
      case None => None
    else ParseMagnitude(body)
  }

  /** Whole euros (possibly grouped by `.`), a `,`, then two digits. */
  function ParseMagnitude(mag: string): Option<int> {
    if |mag| < 4 || mag[|mag| - 3] != ',' then None
    else
      var whole := RemoveChar(mag[..|mag| - 3], '.');
      var frac := mag[|mag| - 2..];
      if whole == [] || !AllDigits(whole) || !AllDigits(frac) then None
      else Some(DecimalValue(whole) * 100 + DecimalValue(frac))
  }

  lemma ParseMagnitudeOf(g: string, fr: string, v: int)
    requires |fr| == 2 && AllDigits(fr)
    requires RemoveChar(g, '.') != [] && AllDigits(RemoveChar(g, '.'))
    requires v == DecimalValue(RemoveChar(g, '.')) * 100 + DecimalValue(fr)
    ensures ParseMagnitude(g + ("," + fr)) == Some(v)
  {
    CommaSplit(g, fr);
    ParseMagnitudeParts(g + ("," + fr), RemoveChar(g, '.'), fr, v);
  }

  /** A magnitude whose parts around the `,` are digits reads as their value. */
  lemma ParseMagnitudeParts(mag: string, whole: string, frac: string, v: int)
    requires |mag| >= 4 && mag[|mag| - 3] == ','
    requires RemoveChar(mag[..|mag| - 3], '.') == whole && mag[|mag| - 2..] == frac
    requires whole != [] && AllDigits(whole) && AllDigits(frac)
    requires v == DecimalValue(whole) * 100 + DecimalValue(frac)
    ensures ParseMagnitude(mag) == Some(v)
  {
  }

  lemma CommaSplit(g: string, fr: string)
    requires |fr| == 2 && RemoveChar(g, '.') != []
    ensures var mag := g + ("," + fr);
      |mag| >= 4 && mag[..|mag| - 3] == g && mag[|mag| - 3] == ',' && mag[|mag| - 2..] == fr
  {
  }

  /** The ` €` suffix is cut off before the sign is read. */
  lemma ParseEuroSuffix(body: string)
    ensures ParseEuro(body + " €") == ParseSigned(body)
  {
    var s := body + " €";
    assert s[|s| - 2..] == " €" && s[..|s| - 2] == body;
  }

  /** A leading `-` negates the magnitude after it. */
  lemma ParseNegative(mag: string, v: int)
    requires ParseMagnitude(mag) == Some(v)
    ensures ParseSigned("-" + mag) == Some(-v)
  {
    assert ("-" + mag)[1..] == mag;
  }

  /** Without a `-` the magnitude is the value. */
  lemma ParseUnsignedMagnitude(mag: string, v: int)
    requires mag != [] && IsDigit(mag[0])
    requires ParseMagnitude(mag) == Some(v)
    ensures ParseSigned("" + mag) == Some(v)
  {
    assert "" + mag == mag;
    assert mag[0] != '-';
  }

  /** An optional `-` and a magnitude starting with a digit read back as the
      signed magnitude. */
  lemma ParseSignedOf(neg: bool, mag: string, v: int)
    requires mag != [] && IsDigit(mag[0])
    requires ParseMagnitude(mag) == Some(v)
    ensures ParseSigned((if neg then "-" else "") + mag) == Some(if neg then -v else v)
  {
    if neg {
      ParseNegative(mag, v);
    } else {
      ParseUnsignedMagnitude(mag, v);
    }
  }

  lemma Associate4(a: string, b: string, c: string, d: string)
    ensures a + (b + (c + (d + " €"))) == a + (b + (c + d)) + " €"
  {
  }

  lemma ParseEuroOf(neg: bool, g: string, fr: string, v: int)
    requires g != [] && IsDigit(g[0])
    requires |fr| == 2 && AllDigits(fr)
    requires RemoveChar(g, '.') != [] && AllDigits(RemoveChar(g, '.'))
    requires v == DecimalValue(RemoveChar(g, '.')) * 100 + DecimalValue(fr)
    ensures ParseEuro((if neg then "-" else "") + (g + ("," + (fr + " €")))) == Some(if neg then -v else v)
  {
    var sign: string := if neg then "-" else "";
    var mag := g + ("," + fr);
    Associate4(sign, g, ",", fr);
    ParseEuroSuffix(sign + mag);
    ParseMagnitudeOf(g, fr, v);
    assert mag[0] == g[0];
    ParseSignedOf(neg, mag, v);
  }

  /** Grouped whole euros start with a digit and lose nothing but their
      separators. */
  lemma GroupedWhole(n: nat)
    ensures var g := Group(NatToDecimal(n), '.');
      g != [] && IsDigit(g[0]) && RemoveChar(g, '.') == NatToDecimal(n)
  {
    var ds := NatToDecimal(n);
    GroupDigits(ds, '.');
    assert '.' !in ds by {
      assert forall i :: 0 <= i < |ds| ==> IsDigit(ds[i]);
    }
    GroupUngroup(ds, '.');
  }

  /** `euro` loses nothing: the label reads back as the amount it shows. */
  lemma EuroRoundTrip(cents: int)
    ensures ParseEuro(Euro(cents)) == Some(cents)
  {
    var a := Abs(cents);
    var w, c := a / 100, a % 100;
    GroupedWhole(w);
    DecimalRoundTrip(w);
    TwoDigitsValue(c);
    ParseEuroOf(cents < 0, Group(NatToDecimal(w), '.'), TwoDigits(c), a);
    assert w * 100 + c == a;
  }

  /** The worked example of the VAT split: 80.98 gross at 19 % is 68.05 net
      plus 12.93 VAT. */
  lemma VatExample()
    ensures SplitVatFromGross(8098, Rate(19, 100)) == VatBreakdown(6805, 1293, 8098, Rate(19, 100))
  {
    assert RoundHalfEven(809800, 119) == 6805;
  }

  lemma GroupedExample(w: nat, g: string)
    requires w == 1234567 && g == "1.234.567"
    ensures Group(NatToDecimal(w), '.') == g
  {
    DecimalExample(w);
    GroupExample(NatToDecimal(w));
  }

  lemma DecimalExample(n: nat)
    requires n == 1234567
    ensures NatToDecimal(n) == "1234567"
  {
    DecimalStep(12, "1", '2', "12");
    DecimalStep(123, "12", '3', "123");
    DecimalStep(1234, "123", '4', "1234");
    DecimalStep(12345, "1234", '5', "12345");
    DecimalStep(123456, "12345", '6', "123456");
    DecimalStep(n, "123456", '7', "1234567");
  }

  /** One more digit of a numeral: the numeral of `n / 10`, then the last
      digit. */
  lemma DecimalStep(n: nat, ds: string, d: char, s: string)
    requires n >= 10 && NatToDecimal(n / 10) == ds
    requires d == DigitChar(n % 10) && s == ds + [d]
    ensures NatToDecimal(n) == s
  {
  }

  lemma GroupExample(ds: string)
    requires ds == "1234567"
    ensures Group(ds, '.') == "1.234.567"
  {
    assert ds[..4] == "1234" && ds[4..] == "567";
    assert "1234"[..1] == "1" && "1234"[1..] == "234";
    assert Group("1234", '.') == "1.234";
  }

  /** German grouping of a large amount. */
  lemma EuroExample(cents: int)
    requires cents == 123456789
    ensures Euro(cents) == "1.234.567,89 €"
  {
    var w, c := cents / 100, cents % 100;
    GroupedExample(w, "1.234.567");
    assert c == 89;
    CentsExample(c, "89");
    EuroOfParts(cents, w, c, "1.234.567", "89");
  }

  lemma CentsExample(c: nat, t: string)
    requires c == 89 && t == "89"
    ensures TwoDigits(c) == t
  {
  }

  /** The label of a non-negative amount from its grouped euros and its two
      cent digits. */
  lemma EuroOfParts(cents: int, w: nat, c: nat, g: string, t: string)
    requires cents >= 0 && w == cents / 100 && c == cents % 100
    requires Group(NatToDecimal(w), '.') == g && TwoDigits(c) == t
    ensures Euro(cents) == g + ("," + (t + " €"))
  {
    assert "" + (g + ("," + (t + " €"))) == g + ("," + (t + " €"));
  }
}
