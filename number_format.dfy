/** The `"%.3f"` rendering of a path's total cost: the value rounded half up to three decimal
    places, written as integer digits, a point and exactly three fractional digits. Costs are
    exact reals here, so the rounding is of the exact value. */
module NumberFormat {
  /** The character of one decimal digit. */
  function DigitChar(d: nat): (c: char)
    requires d < 10
    ensures '0' <= c <= '9' && c as int - '0' as int == d
  {
    ('0' as int + d) as char
  }

  predicate AllDigits(s: string)
  {
    forall i :: 0 <= i < |s| ==> '0' <= s[i] <= '9'
  }

  /** The decimal digits of `n`, most significant first, with no leading zero ("0" for zero). */
  function Digits(n: nat): (r: string)
    ensures 1 <= |r| && AllDigits(r)
  {
    if n < 10 then [DigitChar(n)] else Digits(n / 10) + [DigitChar(n % 10)]
  }

  /** The number a string of decimal digits stands for. */
  function Value(s: string): nat
    requires AllDigits(s)
  {
    if s == [] then 0 else Value(s[..|s| - 1]) * 10 + (s[|s| - 1] as int - '0' as int)
  }

  /** Reading back the digits of `n` gives `n`. */
  lemma {:induction false} DigitsValue(n: nat)
    ensures Value(Digits(n)) == n
  {
    if n >= 10 {
      DigitsValue(n / 10);
      var d := Digits(n);
      assert d[..|d| - 1] == Digits(n / 10);
    }
  }

  /** A number below `10^k`, for `k >= 1`, has at most `k` digits. */
  lemma {:induction false} DigitsShort(n: nat, k: nat, bound: nat)
    requires 1 <= k && bound == Power10(k) && n < bound
    ensures |Digits(n)| <= k
  {
    if n >= 10 {
      assert Power10(1) == 10;
      DigitsShort(n / 10, k - 1, Power10(k - 1));
    }
  }

  function Power10(k: nat): nat
  {
    if k == 0 then 1 else 10 * Power10(k - 1)
  }

  /** `s` with zeros put in front up to three characters. */
  function Pad3(s: string): (r: string)
    decreases 3 - |s|
  {
    if |s| >= 3 then s else Pad3("0" + s)
  }

  /** A leading zero does not change the value. */
  lemma {:induction false} LeadingZero(s: string)
    requires AllDigits(s)
    ensures AllDigits("0" + s) && Value("0" + s) == Value(s)
  {
    var t := "0" + s;
    assert AllDigits(t) by {
      forall i | 0 <= i < |t| ensures '0' <= t[i] <= '9' {
        if i > 0 {
          assert t[i] == s[i - 1];
        }
      }
    }
    if s != [] {
      var init := s[..|s| - 1];
      LeadingZero(init);
      assert t[..|t| - 1] == "0" + init;
    }
  }

  /** Padding keeps the digits and their value and gives at least three characters. */
  lemma {:induction false} Pad3Facts(s: string)
    requires AllDigits(s)
    ensures AllDigits(Pad3(s)) && Value(Pad3(s)) == Value(s)
    ensures |Pad3(s)| == if |s| >= 3 then |s| else 3
    decreases 3 - |s|
  {
    if |s| < 3 {
      LeadingZero(s);
      Pad3Facts("0" + s);
    }
  }

  /** A count of thousandths written with three fractional digits. */
  function Fixed3(m: nat): string
  {
    Digits(m / 1000) + "." + Pad3(Digits(m % 1000))
  }

  /** The thousandths that half-up rounding of a non-negative `x` yields. */
  function Rounded(x: real): (m: int)
    requires x >= 0.0
    ensures m >= 0
    ensures x - 0.0005 < m as real / 1000.0 <= x + 0.0005
  {
    (x * 1000.0 + 0.5).Floor
  }

  /** `String.format("%.3f", x)`: a minus sign for a negative value, then the rounded magnitude. */
  function Format3(x: real): string
  {
    if x < 0.0 then "-" + Fixed3(Rounded(-x)) else Fixed3(Rounded(x))
  }

  /** Reads back a count of thousandths from digits, a point and three digits. */
  function ParseFixed(s: string): Option3
  {
    if |s| >= 5 && s[|s| - 4] == '.' && AllDigits(s[..|s| - 4]) && AllDigits(s[|s| - 3..])
    then Thousandths(Value(s[..|s| - 4]) * 1000 + Value(s[|s| - 3..]))
    else Malformed
  }

  datatype Option3 = Thousandths(m: nat) | Malformed

  /** Reading `Fixed3(m)` back gives `m`. */
  lemma Fixed3RoundTrip(m: nat)
    ensures ParseFixed(Fixed3(m)) == Thousandths(m)
  {
    var whole := Digits(m / 1000);
    var frac := Digits(m % 1000);
    DigitsShort(m % 1000, 3, 1000);
    Pad3Facts(frac);
    DigitsValue(m / 1000);
    DigitsValue(m % 1000);
    var s := Fixed3(m);
    assert s[..|s| - 4] == whole;
    assert s[|s| - 3..] == Pad3(frac);
  }

  /** The rendering of a non-negative value reads back within half a thousandth of it. */
  lemma Format3Near(x: real)
    requires x >= 0.0
    ensures ParseFixed(Format3(x)).Thousandths?
    ensures var m := ParseFixed(Format3(x)).m; x - 0.0005 < m as real / 1000.0 <= x + 0.0005
  {
    Fixed3RoundTrip(Rounded(x));
  }

  lemma Format3Zero()
    ensures Format3(0.0) == "0.000"
  {
    assert Rounded(0.0) == 0;
    assert Pad3("0") == "000";
  }
}
