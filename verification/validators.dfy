/**
  The input validators of utils.py. The regular expressions are written
  out as the languages they accept (ASCII character classes; Python's `$`
  also matches before one final newline) and each validator is proved to
  accept exactly that language.
 */
module Validators {
  import opened Wrappers

  predicate IsAsciiUpper(c: char) { 'A' <= c <= 'Z' }
  predicate IsAsciiLower(c: char) { 'a' <= c <= 'z' }
  predicate IsAsciiDigit(c: char) { '0' <= c <= '9' }

  predicate HasUpper(s: string) { exists i | 0 <= i < |s| :: IsAsciiUpper(s[i]) }
  predicate HasLower(s: string) { exists i | 0 <= i < |s| :: IsAsciiLower(s[i]) }
  predicate HasDigit(s: string) { exists i | 0 <= i < |s| :: IsAsciiDigit(s[i]) }

  const TooShort := "Password must be at least 8 characters long"
  const NoUpper := "Password must contain at least one uppercase letter"
  const NoLower := "Password must contain at least one lowercase letter"
  const NoDigit := "Password must contain at least one number"
  const PasswordValid := "Password is valid"

  /**
    `validate_password`: the checks run in the order length, upper case,
    lower case, digit, and the message names the first one that fails.
   */
  function ValidatePassword(p: string): (r: (bool, string))
    ensures r.0 <==> |p| >= 8 && HasUpper(p) && HasLower(p) && HasDigit(p)
    ensures r.0 <==> r.1 == PasswordValid
    ensures r.1 == TooShort <==> |p| < 8
    ensures r.1 == NoUpper <==> |p| >= 8 && !HasUpper(p)
    ensures r.1 == NoLower <==> |p| >= 8 && HasUpper(p) && !HasLower(p)
    ensures r.1 == NoDigit <==> |p| >= 8 && HasUpper(p) && HasLower(p) && !HasDigit(p)
  {
    if |p| < 8 then (false, TooShort)
    else if !HasUpper(p) then (false, NoUpper)
    else if !HasLower(p) then (false, NoLower)
    else if !HasDigit(p) then (false, NoDigit)
    else (true, PasswordValid)
  }

  predicate AllDigits(s: string)
  {
    forall i | 0 <= i < |s| :: IsAsciiDigit(s[i])
  }

  /**
    `s` is `\+?[0-9]{10,15}` followed by `\n` when `newline`, with the
    '+' present exactly when `plus`.
   */
  predicate PhoneForm(s: string, plus: bool, newline: bool)
  {
    var lo := if plus then 1 else 0;
    var hi := if newline then |s| - 1 else |s|;
    && lo <= hi
    && (plus ==> s[0] == '+')
    && (newline ==> s[|s| - 1] == '\n')
    && 10 <= hi - lo <= 15
    && AllDigits(s[lo..hi])
  }

  /** The strings `re.match(r'^\+?[0-9]{10,15}$', s)` accepts. */
  predicate PhoneLanguage(s: string)
  {
    PhoneForm(s, false, false) || PhoneForm(s, true, false) || PhoneForm(s, false, true) || PhoneForm(s, true, true)
  }

  /** `validate_phone`, as a left-to-right scan. */
  method ValidatePhone(s: string) returns (ok: bool)
    ensures ok <==> PhoneLanguage(s)
  {
    var hi := |s|;
    var newline := false;
    if hi > 0 && s[hi - 1] == '\n' {
      hi := hi - 1;
      newline := true;
    }
    var lo := 0;
    var plus := false;
    if lo < hi && s[0] == '+' {
      lo := 1;
      plus := true;
    }
    var i := lo;
    while i < hi && IsAsciiDigit(s[i])
      invariant lo <= i <= hi
      invariant AllDigits(s[lo..i])
    {
      assert s[lo..i + 1] == s[lo..i] + [s[i]];
      i := i + 1;
    }
    PhoneScan(s, lo, hi, i, plus, newline);
    ok := i == hi && 10 <= hi - lo <= 15;
  }

  /**
    Where the scan of `ValidatePhone` stops decides the match: after the
    optional '\n' and '+' are set aside, the digits must reach the end and
    number 10 to 15.
   */
  lemma PhoneScan(s: string, lo: nat, hi: nat, i: nat, plus: bool, newline: bool)
    requires newline <==> |s| > 0 && s[|s| - 1] == '\n'
    requires hi == if newline then |s| - 1 else |s|
    requires plus <==> 0 < hi && s[0] == '+'
    requires lo == if plus then 1 else 0
    requires lo <= i <= hi && AllDigits(s[lo..i])
    requires i < hi ==> !IsAsciiDigit(s[i])
    ensures PhoneLanguage(s) <==> i == hi && 10 <= hi - lo <= 15
  {
    if i == hi && 10 <= hi - lo <= 15 {
      assert PhoneForm(s, plus, newline);
    }
    if PhoneLanguage(s) {
      var p, n :| PhoneForm(s, p, n);
      PhoneFormUnique(s, p, n);
      assert n == newline && p == plus;
      forall j | lo <= j < hi
        ensures IsAsciiDigit(s[j])
      {
        assert s[lo..hi][j - lo] == s[j];
      }
    }
  }

  /** The optional parts of an accepted number are determined by its first and last characters. */
  lemma PhoneFormUnique(s: string, plus: bool, newline: bool)
    requires PhoneForm(s, plus, newline)
    ensures plus <==> s[0] == '+'
    ensures newline <==> s[|s| - 1] == '\n'
  {
    var lo := if plus then 1 else 0;
    var hi := if newline then |s| - 1 else |s|;
    assert s[lo..hi][0] == s[lo];
    assert s[lo..hi][hi - lo - 1] == s[hi - 1];
  }

  predicate IsLocalChar(c: char)
  {
    IsAsciiUpper(c) || IsAsciiLower(c) || IsAsciiDigit(c) || c == '_' || c == '.' || c == '+' || c == '-'
  }

  predicate IsLabelChar(c: char)
  {
    IsAsciiUpper(c) || IsAsciiLower(c) || IsAsciiDigit(c) || c == '-'
  }

  predicate IsTailChar(c: char)
  {
    IsAsciiUpper(c) || IsAsciiLower(c) || IsAsciiDigit(c) || c == '-' || c == '.'
  }

  predicate AllLocal(s: string) { forall i | 0 <= i < |s| :: IsLocalChar(s[i]) }
  predicate AllLabel(s: string) { forall i | 0 <= i < |s| :: IsLabelChar(s[i]) }
  predicate AllTail(s: string) { forall i | 0 <= i < |s| :: IsTailChar(s[i]) }

  /** Python's `$` also matches before one final '\n'. */
  predicate FinalNewline(s: string) { |s| > 0 && s[|s| - 1] == '\n' }

  /** Where the text before that optional final '\n' ends. */
  function TextEnd(s: string, newline: bool): int { if newline then |s| - 1 else |s| }

  /**
    `s` splits as local part `s[..at]`, '@', label `s[at+1..dot]`, '.',
    tail `s[dot+1..]`, and a final '\n' when `newline`; each part non-empty.
   */
  predicate EmailForm(s: string, at: nat, dot: nat, newline: bool)
  {
    var end := TextEnd(s, newline);
    && 0 < at && at + 1 < dot && dot + 1 < end && end <= |s|
    && (newline ==> s[|s| - 1] == '\n')
    && s[at] == '@' && s[dot] == '.'
    && AllLocal(s[..at]) && AllLabel(s[at + 1..dot]) && AllTail(s[dot + 1..end])
  }

  /** The strings `re.match(r'^[a-zA-Z0-9_.+-]+@[a-zA-Z0-9-]+\.[a-zA-Z0-9-.]+$', s)` accepts. */
  ghost predicate EmailLanguage(s: string)
  {
    exists at: nat, dot: nat :: EmailForm(s, at, dot, false) || EmailForm(s, at, dot, true)
  }

  /** The first position of `c` in `s`, or `|s|`. */
  function FirstIndex(s: string, c: char): (k: nat)
    ensures k <= |s|
    ensures k < |s| ==> s[k] == c
    ensures forall i | 0 <= i < k :: s[i] != c
  {
    if |s| == 0 then 0 else if s[0] == c then 0 else 1 + FirstIndex(s[1..], c)
  }

  /**
    `validate_email`: drop one final newline, split at the first '@' and
    at the first '.' after it, and check the three parts.
   */
  function ValidateEmail(s: string): bool
  {
    var newline := FinalNewline(s);
    var end := TextEnd(s, newline);
    var at := FirstIndex(s[..end], '@');
    && at + 1 < end
    && var dot := at + 1 + FirstIndex(s[at + 1..end], '.');
       dot < end && EmailForm(s, at, dot, newline)
  }

  /** The validator accepts exactly the language of the pattern. */
  lemma {:induction false} ValidateEmailMatchesPattern(s: string)
    ensures ValidateEmail(s) <==> EmailLanguage(s)
  {
    if ValidateEmail(s) {
      var newline := FinalNewline(s);
      var end := TextEnd(s, newline);
      var at := FirstIndex(s[..end], '@');
      var dot := at + 1 + FirstIndex(s[at + 1..end], '.');
      assert EmailForm(s, at, dot, newline);
    }
    if EmailLanguage(s) {
      var at: nat, dot: nat, newline :| EmailForm(s, at, dot, newline);
      EmailFormUnique(s, at, dot, newline);
    }
  }

  /** An accepted address splits in exactly one way. */
  lemma EmailFormUnique(s: string, at: nat, dot: nat, newline: bool)
    requires EmailForm(s, at, dot, newline)
    ensures newline <==> FinalNewline(s)
    ensures at == FirstIndex(s[..TextEnd(s, newline)], '@')
    ensures dot == at + 1 + FirstIndex(s[at + 1..TextEnd(s, newline)], '.')
    ensures ValidateEmail(s)
  {
    EmailNewline(s, at, dot, newline);
    EmailAtFirst(s, at, dot, newline);
    EmailDotFirst(s, at, dot, newline);
    EmailAccepted(s, at, dot, newline);
  }

  /** The validator's own split points give back the form. */
  lemma EmailAccepted(s: string, at: nat, dot: nat, newline: bool)
    requires EmailForm(s, at, dot, newline)
    requires newline <==> FinalNewline(s)
    requires at == FirstIndex(s[..TextEnd(s, newline)], '@')
    requires dot == at + 1 + FirstIndex(s[at + 1..TextEnd(s, newline)], '.')
    ensures ValidateEmail(s)
  {
  }

  /** The tail part cannot end in '\n', so a final newline is the optional one. */
  lemma EmailNewline(s: string, at: nat, dot: nat, newline: bool)
    requires EmailForm(s, at, dot, newline)
    ensures newline <==> FinalNewline(s)
  {
    var end := TextEnd(s, newline);
    assert s[dot + 1..end][end - dot - 2] == s[end - 1];
  }

  /** The local part holds no '@', so the split point is the first one. */
  lemma EmailAtFirst(s: string, at: nat, dot: nat, newline: bool)
    requires EmailForm(s, at, dot, newline)
    ensures at == FirstIndex(s[..TextEnd(s, newline)], '@')
  {
    var end := TextEnd(s, newline);
    forall i | 0 <= i < at
      ensures s[..end][i] != '@'
    {
      assert s[..at][i] == s[i];
    }
    assert s[..end][at] == '@';
    FirstIndexAt(s[..end], '@', at);
  }

  /** The label holds no '.', so the second split point is the first '.' after the '@'. */
  lemma EmailDotFirst(s: string, at: nat, dot: nat, newline: bool)
    requires EmailForm(s, at, dot, newline)
    ensures dot == at + 1 + FirstIndex(s[at + 1..TextEnd(s, newline)], '.')
  {
    var end := TextEnd(s, newline);
    var rest := s[at + 1..end];
    forall j | 0 <= j < dot - at - 1
      ensures rest[j] != '.'
    {
      assert s[at + 1..dot][j] == rest[j];
    }
    assert rest[dot - at - 1] == '.';
    FirstIndexAt(rest, '.', dot - at - 1);
  }

  /** A position holding `c` with no `c` before it is the first index of `c`. */
  lemma FirstIndexAt(s: string, c: char, k: nat)
    requires k < |s| && s[k] == c
    requires forall i | 0 <= i < k :: s[i] != c
    ensures FirstIndex(s, c) == k
  {
  }

  /** An accepted address holds exactly one '@', and at least one character comes before it. */
  lemma EmailHasOneAt(s: string)
    requires ValidateEmail(s)
    ensures exists at | 0 < at < |s| :: s[at] == '@' && forall i | 0 <= i < |s| && i != at :: s[i] != '@'
  {
    var newline := FinalNewline(s);
    var end := TextEnd(s, newline);
    var at := FirstIndex(s[..end], '@');
    var dot := at + 1 + FirstIndex(s[at + 1..end], '.');
    forall i | 0 <= i < |s| && i != at
      ensures s[i] != '@'
    {
      if i < at {
        assert s[..at][i] == s[i];
      } else if i < dot {
        assert s[at + 1..dot][i - at - 1] == s[i];
      } else if i > dot && i < end {
        assert s[dot + 1..end][i - dot - 1] == s[i];
      }
    }
  }

  /**
    `validate_number` on the result of `float(value)` (`None` when it
    raised ValueError): both bounds are inclusive and a bound left `None`
    is not checked.
   */
  function ValidateNumber(value: Option<real>, minVal: Option<real>, maxVal: Option<real>): (r: bool)
    ensures value.None? ==> !r
    ensures value.Some? && minVal.Some? && value.value < minVal.value ==> !r
    ensures value.Some? && maxVal.Some? && value.value > maxVal.value ==> !r
    ensures (value.Some? && (minVal.None? || minVal.value <= value.value) &&
             (maxVal.None? || value.value <= maxVal.value)) ==> r
  {
    match value
    case None => false
    case Some(num) =>
      if minVal.Some? && num < minVal.value then false
      else if maxVal.Some? && num > maxVal.value then false
      else true
  }
}
