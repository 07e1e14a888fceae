/**
  `pd.to_numeric(column, errors='coerce')` on text cells: a plain decimal
  numeral becomes its number, anything else becomes missing.
 */
module Numbers {
  import opened Wrappers
  import opened Frames

  predicate IsDigit(c: char)
  {
    '0' <= c <= '9'
  }

  predicate AllDigits(s: string)
  {
    forall i | 0 <= i < |s| :: IsDigit(s[i])
  }

  /** The natural number a string of decimal digits denotes. */
  function DigitsValue(s: string): nat
    requires AllDigits(s)
  {
    if |s| == 0 then 0 else DigitsValue(s[..|s| - 1]) * 10 + (s[|s| - 1] as int - '0' as int)
  }

  function Pow10(k: nat): (r: nat)
    ensures r > 0
  {
    if k == 0 then 1 else 10 * Pow10(k - 1)
  }

  /** Position of the first '.' in `s`, or `|s|` when there is none. */
  function DotIndex(s: string): (k: nat)
    ensures k <= |s|
    ensures k < |s| ==> s[k] == '.'
    ensures forall i | 0 <= i < k :: s[i] != '.'
  {
    if |s| == 0 then 0 else if s[0] == '.' then 0 else 1 + DotIndex(s[1..])
  }

  /** The value of a numeral with digits `w` before its '.' and `d` after it. */
  function DecimalOf(w: string, d: string): real
    requires AllDigits(w) && AllDigits(d)
  {
    DigitsValue(w) as real + DigitsValue(d) as real / Pow10(|d|) as real
  }

  /** Digits, optionally followed by '.' and more digits, with at least one digit in all. */
  function ParseUnsigned(s: string): (r: Option<real>)
    ensures r.Some? ==> r.value >= 0.0
  {
    var k := DotIndex(s);
    var whole := s[..k];
    var frac := if k < |s| then s[k + 1..] else [];
    if AllDigits(whole) && AllDigits(frac) && |whole| + |frac| > 0 then
      Some(DecimalOf(whole, frac))
    else None
  }

  /** An optional sign followed by an unsigned decimal numeral. */
  function ParseDecimal(s: string): (r: Option<real>)
    ensures r.Some? ==> exists i | 0 <= i < |s| :: IsDigit(s[i])
  {
    if |s| > 0 && s[0] == '-' then
      match ParseUnsigned(s[1..])
      case Some(x) => Some(-x)
      case None => None
    else if |s| > 0 && s[0] == '+' then ParseUnsigned(s[1..])
    else ParseUnsigned(s)
  }

  /** One cell through `to_numeric(errors='coerce')`. */
  function ToNumeric(v: Value): (r: Value)
    ensures !r.Str?
    ensures v.Num? ==> r == v
    ensures v.Missing? ==> r.Missing?
    ensures v.Str? ==> (r.Num? <==> ParseDecimal(v.text).Some?)
    ensures v.Str? && r.Num? ==> ParseDecimal(v.text) == Some(r.x)
  {
    match v
    case Str(s) => (match ParseDecimal(s) case Some(x) => Num(x) case None => Missing)
    case _ => v
  }

  /** The decimal numeral Python's `str(n)` prints for a natural number. */
  function NatToDigits(n: nat): (s: string)
    ensures |s| > 0 && AllDigits(s)
    decreases n
  {
    if n < 10 then [('0' as int + n) as char]
    else NatToDigits(n / 10) + [('0' as int + n % 10) as char]
  }

  lemma {:induction false} DigitsValueOfNat(n: nat)
    ensures DigitsValue(NatToDigits(n)) == n
    decreases n
  {
    var s := NatToDigits(n);
    if n >= 10 {
      DigitsValueOfNat(n / 10);
      assert s[..|s| - 1] == NatToDigits(n / 10);
    }
  }

  lemma {:induction false} NoDotInDigits(s: string)
    requires AllDigits(s)
    ensures DotIndex(s) == |s|
  {
    if |s| > 0 {
      NoDotInDigits(s[1..]);
    }
  }

  /** Parsing the printed form of a natural number, with or without a sign, gives it back. */
  lemma ParseNatRoundTrip(n: nat)
    ensures ParseDecimal(NatToDigits(n)) == Some(n as real)
    ensures ParseDecimal("-" + NatToDigits(n)) == Some(-(n as real))
  {
    var s := NatToDigits(n);
    NoDotInDigits(s);
    DigitsValueOfNat(n);
    assert s[..|s|] == s;
    assert ("-" + s)[1..] == s;
  }

  /** A '.' behind a run of digits is the first '.' of the string. */
  lemma {:induction false} DotAfterDigits(w: string, rest: string)
    requires AllDigits(w)
    ensures DotIndex(w + "." + rest) == |w|
  {
    if |w| > 0 {
      assert (w + "." + rest)[1..] == w[1..] + "." + rest;
      DotAfterDigits(w[1..], rest);
    }
  }

  lemma UnsignedValue(w: string, d: string)
    requires AllDigits(w) && AllDigits(d) && |w| + |d| > 0
    ensures ParseUnsigned(w + "." + d) == Some(DecimalOf(w, d))
  {
    var s := w + "." + d;
    DotAfterDigits(w, d);
    assert s[..|w|] == w;
    assert s[|w| + 1..] == d;
  }

  /**
    A numeral with a fractional part, such as the charges "29.85", parses to
    its whole part plus its fraction digits scaled by their count; with a
    leading '-' it parses to the negated value.
   */
  lemma DecimalValue(w: string, d: string)
    requires AllDigits(w) && AllDigits(d) && |w| + |d| > 0
    ensures ParseDecimal(w + "." + d) == Some(DecimalOf(w, d))
    ensures ParseDecimal("-" + w + "." + d) == Some(-DecimalOf(w, d))
  {
    DecimalParses(w, d, w + "." + d);
    NegatedText(w, d, "-" + w + "." + d);
  }

  lemma DecimalParses(w: string, d: string, s: string)
    requires AllDigits(w) && AllDigits(d) && |w| + |d| > 0 && s == w + "." + d
    ensures ParseDecimal(s) == Some(DecimalOf(w, d))
    ensures ParseDecimal("-" + s) == Some(-DecimalOf(w, d))
  {
    UnsignedNumeral(w, d, s);
    SignedParse(s, DecimalOf(w, d));
  }

  lemma UnsignedNumeral(w: string, d: string, s: string)
    requires AllDigits(w) && AllDigits(d) && |w| + |d| > 0 && s == w + "." + d
    ensures |s| > 0 && s[0] != '-' && s[0] != '+'
    ensures ParseUnsigned(s) == Some(DecimalOf(w, d))
  {
    UnsignedValue(w, d);
    UnsignedStart(w, d);
  }

  lemma NegatedText(w: string, d: string, t: string)
    requires t == "-" + w + "." + d
    ensures t == "-" + (w + "." + d)
  {
  }

  /** A numeral `w.d` starts with a digit or with the '.', never with a sign. */
  lemma UnsignedStart(w: string, d: string)
    requires AllDigits(w)
    ensures var s := w + "." + d; s[0] != '-' && s[0] != '+'
  {
    if |w| > 0 {
      assert (w + "." + d)[0] == w[0] && IsDigit(w[0]);
    } else {
      assert (w + "." + d)[0] == '.';
    }
  }

  /** Without a leading sign a text parses as unsigned; a '-' in front negates that value. */
  lemma SignedParse(s: string, v: real)
    requires |s| > 0 && s[0] != '-' && s[0] != '+' && ParseUnsigned(s) == Some(v)
    ensures ParseDecimal(s) == Some(v)
    ensures ParseDecimal("-" + s) == Some(-v)
  {
    assert ("-" + s)[1..] == s;
  }

  /** The fare "29.85" of the data set's first customer. */
  lemma ChargesExample(s: string)
    requires s == "29.85"
    ensures ToNumeric(Str(s)) == Num(29.85)
  {
    var w, d := "29", "85";
    ChargesDigits();
    DecimalValue(w, d);
    assert w + "." + d == s;
  }

  lemma ChargesDigits()
    ensures AllDigits("29") && AllDigits("85") && DecimalOf("29", "85") == 29.85
  {
    var w, d := "29", "85";
    assert DigitsValue(w) == 29 by { assert w[..1] == "2"; }
    assert DigitsValue(d) == 85 by { assert d[..1] == "8"; }
    assert Pow10(2) == 100;
  }

  /**
    A text without any digit, and so every blank cell such as the `" "`
    cells of the telco data set, becomes a missing value.
   */
  lemma BlankIsMissing(s: string)
    requires forall i | 0 <= i < |s| :: !IsDigit(s[i])
    ensures ToNumeric(Str(s)) == Missing
  {
  }
}
