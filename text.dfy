/** The string operations the shop's Python code relies on, restricted to
    ASCII: `str.strip()`, `str.lower()`, `str.rstrip(c)`, single-character
    `str.replace`, `str(n)` / `int(s)` for non-negative integers, and the
    thousands grouping of the `,` format option. */
module Text {

  // ---------------------------------------------------------------------
  // Whitespace, strip and lower

  /** Python's `str.isspace()` on ASCII: tab, line feed, vertical tab, form
      feed, carriage return, the four information separators and space. */
  predicate IsSpace(c: char) {
    9 <= c as int <= 13 || 28 <= c as int <= 32
  }

  predicate AllSpace(s: string) {
    forall i :: 0 <= i < |s| ==> IsSpace(s[i])
  }

  /** `str.lstrip()`. */
  function TrimStart(s: string): string {
    if s != [] && IsSpace(s[0]) then TrimStart(s[1..]) else s
  }

  /** `str.lstrip()` drops the leading whitespace and keeps the rest. */
  lemma {:induction false} TrimStartSpec(s: string)
    ensures var r := TrimStart(s);
      |r| <= |s| && r == s[|s| - |r|..] && AllSpace(s[..|s| - |r|]) && (r == [] || !IsSpace(r[0]))
  {
    if s != [] && IsSpace(s[0]) {
      TrimStartSpec(s[1..]);
      var r := TrimStart(s);
      assert s[..|s| - |r|] == [s[0]] + s[1..][..|s| - 1 - |r|];
    }
  }

  /** `str.rstrip()`. */
  function TrimEnd(s: string): string {
    if s != [] && IsSpace(s[|s| - 1]) then TrimEnd(s[..|s| - 1]) else s
  }

  /** `str.rstrip()` drops the trailing whitespace and keeps the rest. */
  lemma {:induction false} TrimEndSpec(s: string)
    ensures var r := TrimEnd(s);
      |r| <= |s| && r == s[..|r|] && AllSpace(s[|r|..]) && (r == [] || !IsSpace(r[|r| - 1]))
  {
    if s != [] && IsSpace(s[|s| - 1]) {
      TrimEndSpec(s[..|s| - 1]);
      var r := TrimEnd(s);
      assert s[|r|..] == s[..|s| - 1][|r|..] + [s[|s| - 1]];
    }
  }

  /** `str.strip()`. */
  function Strip(s: string): (r: string)
  {
    TrimEnd(TrimStart(s))
  }

  /** The stripped string is a piece of the input with only whitespace cut
      away on either side, and it neither starts nor ends with whitespace. */
  lemma StripIsCore(s: string)
    ensures var r := Strip(s);
      exists i :: 0 <= i <= |s| - |r| && s[i..i + |r|] == r && AllSpace(s[..i]) && AllSpace(s[i + |r|..])
    ensures var r := Strip(s); r == [] || (!IsSpace(r[0]) && !IsSpace(r[|r| - 1]))
  {
    var t := TrimStart(s);
    var r := TrimEnd(t);
    TrimStartSpec(s);
    TrimEndSpec(t);
    var i := |s| - |t|;
    assert s[i..i + |r|] == t[..|r|];
    assert s[i + |r|..] == t[|r|..];
  }

  /** Leading whitespace does not survive `lstrip`, and a non-blank prefix
      keeps whatever follows it. */
  lemma {:induction false} TrimStartAppend(s: string, t: string)
    ensures TrimStart(s + t) == if AllSpace(s) then TrimStart(t) else TrimStart(s) + t
  {
    if s != [] {
      assert (s + t)[1..] == s[1..] + t;
      if IsSpace(s[0]) {
        TrimStartAppend(s[1..], t);
        assert AllSpace(s) <==> AllSpace(s[1..]);
      } else {
        assert !AllSpace(s);
      }
    } else {
      assert s + t == t;
    }
  }

  /** Trailing whitespace does not survive `rstrip`. */
  lemma {:induction false} TrimEndSpaces(s: string, w: string)
    requires AllSpace(w)
    ensures TrimEnd(s + w) == TrimEnd(s)
    decreases |w|
  {
    if w == [] {
      assert s + w == s;
    } else {
      var u := w[..|w| - 1];
      assert (s + w)[..|s + w| - 1] == s + u;
      TrimEndSpaces(s, u);
    }
  }

  lemma TrimStartAllSpace(w: string)
    requires AllSpace(w)
    ensures TrimStart(w) == []
  {
  }

  /** Whitespace padding on either side does not change the stripped value. */
  lemma StripPadded(w1: string, s: string, w2: string)
    requires AllSpace(w1) && AllSpace(w2)
    ensures Strip(w1 + s + w2) == Strip(s)
  {
    assert w1 + s + w2 == w1 + (s + w2);
    TrimStartAppend(w1, s + w2);
    assert TrimStart(w1 + s + w2) == TrimStart(s + w2);
    TrimStartAppend(s, w2);
    if AllSpace(s) {
      TrimStartAllSpace(w2);
      TrimStartAllSpace(s);
    } else {
      TrimEndSpaces(TrimStart(s), w2);
    }
  }

  lemma StripIdempotent(s: string)
    ensures Strip(Strip(s)) == Strip(s)
  {
    var r := Strip(s);
    StripIsCore(s);
    if r != [] {
      assert TrimStart(r) == r;
      assert TrimEnd(r) == r;
    }
  }

  /** ASCII `str.lower()` on one character. */
  function LowerChar(c: char): char {
    if 'A' <= c <= 'Z' then (c as int + 32) as char else c
  }

  /** ASCII `str.lower()`: every character is lowered, the length is kept. */
  function Lower(s: string): (r: string)
    ensures |r| == |s|
    ensures forall i :: 0 <= i < |s| ==> r[i] == LowerChar(s[i])
  {
    if s == [] then [] else [LowerChar(s[0])] + Lower(s[1..])
  }

  lemma LowerIdempotent(s: string)
    ensures Lower(Lower(s)) == Lower(s)
  {
  }

  /** Lowering never turns whitespace into text or text into whitespace, so
      it commutes with `lstrip`. */
  lemma {:induction false} TrimStartLower(s: string)
    ensures TrimStart(Lower(s)) == Lower(TrimStart(s))
  {
    if s != [] {
      assert Lower(s)[1..] == Lower(s[1..]);
      TrimStartLower(s[1..]);
    }
  }

  lemma {:induction false} TrimEndLower(s: string)
    ensures TrimEnd(Lower(s)) == Lower(TrimEnd(s))
  {
    if s != [] {
      assert Lower(s)[..|s| - 1] == Lower(s[..|s| - 1]);
      TrimEndLower(s[..|s| - 1]);
    }
  }

  lemma StripLower(s: string)
    ensures Strip(Lower(s)) == Lower(Strip(s))
  {
    TrimStartLower(s);
    TrimEndLower(TrimStart(s));
  }

  // ---------------------------------------------------------------------
  // Trailing characters and single-character replacement

  /** `str.rstrip(c)` for one character `c`. */
  function RStripChar(s: string, c: char): (r: string)
    ensures |r| <= |s| && r == s[..|r|]
    ensures forall i :: |r| <= i < |s| ==> s[i] == c
    ensures r == [] || r[|r| - 1] != c
  {
    if s != [] && s[|s| - 1] == c then RStripChar(s[..|s| - 1], c) else s
  }

  /** What `rstrip(c)` keeps is determined: the prefix up to the last
      character that is not `c`. */
  lemma RStripCharSplit(a: string, b: string, c: char)
    requires a == [] || a[|a| - 1] != c
    requires forall i :: 0 <= i < |b| ==> b[i] == c
    ensures RStripChar(a + b, c) == a
  {
    var r := RStripChar(a + b, c);
    assert r == (a + b)[..|a|] == a;
  }

  /** `str.replace(from, to)` where both are single characters. */
  function ReplaceChar(s: string, from: char, to: char): (r: string)
    ensures |r| == |s|
    ensures forall i :: 0 <= i < |s| ==> r[i] == (if s[i] == from then to else s[i])
  {
    if s == [] then [] else ReplaceChar(s[..|s| - 1], from, to) + [if s[|s| - 1] == from then to else s[|s| - 1]]
  }

  /** `s` with every occurrence of `c` left out. */
  function RemoveChar(s: string, c: char): (r: string)
    ensures |r| <= |s|
    ensures c !in r
  {
    if s == [] then [] else RemoveChar(s[..|s| - 1], c) + (if s[|s| - 1] == c then [] else [s[|s| - 1]])
  }

  lemma {:induction false} RemoveCharAppend(s: string, t: string, c: char)
    ensures RemoveChar(s + t, c) == RemoveChar(s, c) + RemoveChar(t, c)
    decreases |t|
  {
    if t == [] {
      assert s + t == s;
    } else {
      var u := t[..|t| - 1];
      assert (s + t)[..|s + t| - 1] == s + u;
      RemoveCharAppend(s, u, c);
    }
  }

  lemma {:induction false} RemoveCharAbsent(s: string, c: char)
    requires c !in s
    ensures RemoveChar(s, c) == s
  {
    if s != [] {
      RemoveCharAbsent(s[..|s| - 1], c);
      assert s[..|s| - 1] + [s[|s| - 1]] == s;
    }
  }

  // ---------------------------------------------------------------------
  // Decimal numerals

  predicate IsDigit(c: char) {
    '0' <= c <= '9'
  }

  predicate AllDigits(s: string) {
    forall i :: 0 <= i < |s| ==> IsDigit(s[i])
  }

  function DigitChar(d: nat): (c: char)
    requires d < 10
    ensures IsDigit(c)
  {
    ('0' as int + d) as char
  }

  function DigitValue(c: char): (d: nat)
    requires IsDigit(c)
    ensures d < 10 && DigitChar(d) == c
  {
    c as int - '0' as int
  }

  /** Python's `str(n)` for a non-negative integer: the shortest decimal
      numeral, with a leading zero only for zero itself. */
  function NatToDecimal(n: nat): (s: string)
    ensures s != [] && AllDigits(s)
    ensures s[0] == '0' <==> n == 0
    ensures n == 0 ==> s == "0"
  {
    if n < 10 then [DigitChar(n)] else NatToDecimal(n / 10) + [DigitChar(n % 10)]
  }

  /** The value of a numeral of decimal digits (`int(s)` on such a string). */
  function DecimalValue(s: string): nat
    requires AllDigits(s)
  {
    if s == [] then 0 else DecimalValue(s[..|s| - 1]) * 10 + DigitValue(s[|s| - 1])
  }

  /** `int(str(n)) == n`. */
  lemma {:induction false} DecimalRoundTrip(n: nat)
    ensures DecimalValue(NatToDecimal(n)) == n
  {
    if n >= 10 {
      var s := NatToDecimal(n);
      assert s[..|s| - 1] == NatToDecimal(n / 10);
      DecimalRoundTrip(n / 10);
    }
  }

  /** `str` is injective on non-negative integers. */
  lemma DecimalInjective(m: nat, n: nat)
    requires NatToDecimal(m) == NatToDecimal(n)
    ensures m == n
  {
    DecimalRoundTrip(m);
    DecimalRoundTrip(n);
  }

  /** Two decimal digits with a leading zero, as `%02d`. */
  function TwoDigits(n: nat): (s: string)
    requires n < 100
    ensures |s| == 2 && AllDigits(s)
  {
    [DigitChar(n / 10), DigitChar(n % 10)]
  }

  lemma TwoDigitsValue(n: nat)
    requires n < 100
    ensures DecimalValue(TwoDigits(n)) == n
  {
    var s := TwoDigits(n);
    assert s[..1] == [s[0]];
    assert [s[0]][..0] == [];
    assert DecimalValue([s[0]]) == n / 10;
  }

  // ---------------------------------------------------------------------
  // Thousands grouping

  lemma NotInSlices(ds: string, c: char, k: nat)
    requires c !in ds && k <= |ds|
    ensures c !in ds[..k] && c !in ds[k..]
  {
    forall i | 0 <= i < k ensures ds[..k][i] != c { assert ds[..k][i] == ds[i]; }
    forall i | 0 <= i < |ds| - k ensures ds[k..][i] != c { assert ds[k..][i] == ds[k + i]; }
  }

  /** The integer part as the `,` format option lays it out: groups of three
      digits from the right, joined by `sep`. */
  function Group(ds: string, sep: char): (g: string)
    decreases |ds|
  {
    if |ds| <= 3 then ds else Group(ds[..|ds| - 3], sep) + [sep] + ds[|ds| - 3..]
  }

  /** The layout of a grouped numeral: one separator for every full group of
      three digits, and a character is a separator exactly when it sits a
      multiple of four places from the end. */
  lemma {:induction false} GroupLayout(ds: string, sep: char)
    requires ds != [] && sep !in ds
    ensures var g := Group(ds, sep);
      |g| == |ds| + (|ds| - 1) / 3 &&
      forall i :: 0 <= i < |g| ==> (g[i] == sep <==> (|g| - i) % 4 == 0)
    decreases |ds|
  {
    if |ds| > 3 {
      var h := ds[..|ds| - 3];
      var t := ds[|ds| - 3..];
      NotInSlices(ds, sep, |ds| - 3);
      GroupLayout(h, sep);
      LayoutStep(Group(h, sep), t, Group(ds, sep), sep);
    } else {
      forall i | 0 <= i < |ds| ensures ds[i] != sep { }
    }
  }

  /** Appending a separator and a full group keeps the separators at the
      places that are a multiple of four from the end. */
  lemma LayoutStep(gh: string, t: string, g: string, sep: char)
    requires g == gh + [sep] + t && |t| == 3 && sep !in t
    requires forall i :: 0 <= i < |gh| ==> (gh[i] == sep <==> (|gh| - i) % 4 == 0)
    ensures forall i :: 0 <= i < |g| ==> (g[i] == sep <==> (|g| - i) % 4 == 0)
  {
    forall i | 0 <= i < |g| ensures g[i] == sep <==> (|g| - i) % 4 == 0 {
      if i < |gh| {
        assert g[i] == gh[i];
      } else if i > |gh| {
        assert g[i] == t[i - |gh| - 1];
      }
    }
  }

  /** Taking the separators out gives back the digits. */
  lemma {:induction false} GroupUngroup(ds: string, sep: char)
    requires sep !in ds
    ensures RemoveChar(Group(ds, sep), sep) == ds
    decreases |ds|
  {
    if |ds| <= 3 {
      assert Group(ds, sep) == ds;
      RemoveCharAbsent(ds, sep);
    } else {
      var h := ds[..|ds| - 3];
      var t := ds[|ds| - 3..];
      NotInSlices(ds, sep, |ds| - 3);
      GroupUngroup(h, sep);
      assert h + t == ds;
      UngroupStep(Group(ds, sep), Group(h, sep), h, t, ds, sep);
    }
  }

  /** Removing the separators from a group joined to the next one. */
  lemma UngroupStep(whole: string, g: string, h: string, t: string, ds: string, sep: char)
    requires whole == g + [sep] + t && h + t == ds
    requires RemoveChar(g, sep) == h && sep !in t
    ensures RemoveChar(whole, sep) == ds
  {
    RemoveCharAbsent(t, sep);
    assert RemoveChar([sep], sep) == [] by {
      assert [sep][..0] == [];
    }
    RemoveCharAppend(g + [sep], t, sep);
    RemoveCharAppend(g, [sep], sep);
    assert h + [] == h;
  }

}
