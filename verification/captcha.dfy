/**
  The CAPTCHA page (captcha_page.py): the generated text, the check of
  an entry against it, and what a check does to the page and to the
  controller. The random choice of characters is a parameter.
 */
module Captcha {
  import opened Wrappers
  import Controller

  const TextLength := 6
  const Retry := "Incorrect CAPTCHA. Please try again."

  /** Size of `string.ascii_uppercase + string.digits`. */
  const AlphabetSize := 36

  /** Position `k` of `string.ascii_uppercase + string.digits`: the 26 capital letters, then the 10 digits. */
  function AlphabetChar(k: nat): char
    requires k < AlphabetSize
  {
    if k < 26 then ('A' as int + k) as char else ('0' as int + k - 26) as char
  }

  predicate InAlphabet(c: char)
  {
    'A' <= c <= 'Z' || '0' <= c <= '9'
  }

  /** The alphabet is the 36 characters the page draws from, in order. */
  lemma AlphabetSpelled()
    ensures seq(AlphabetSize, k requires 0 <= k < AlphabetSize => AlphabetChar(k)) == "ABCDEFGHIJKLMNOPQRSTUVWXYZ0123456789"
    ensures forall k | 0 <= k < AlphabetSize :: InAlphabet(AlphabetChar(k))
  {
  }

  predicate IsCaptchaText(t: string)
  {
    |t| == TextLength && forall i | 0 <= i < |t| :: InAlphabet(t[i])
  }

  /**
    `''.join(random.choices(alphabet, k=6))`: `picks` are the six
    positions in the alphabet the random source chose.
   */
  function Generate(picks: seq<nat>): (t: string)
    requires |picks| == TextLength && forall i | 0 <= i < |picks| :: picks[i] < AlphabetSize
    ensures IsCaptchaText(t)
    ensures forall i | 0 <= i < TextLength :: t[i] == AlphabetChar(picks[i])
  {
    seq(TextLength, i requires 0 <= i < TextLength => AlphabetChar(picks[i]))
  }

  /** Every possible text can be generated. */
  lemma GenerateOnto(t: string)
    requires IsCaptchaText(t)
    ensures exists picks: seq<nat> | |picks| == TextLength && (forall i | 0 <= i < |picks| :: picks[i] < AlphabetSize) ::
      Generate(picks) == t
  {
    var picks := seq(TextLength, i requires 0 <= i < TextLength => PositionIn(t[i]));
    assert Generate(picks) == t;
  }

  /** Where an alphabet character stands in the alphabet. */
  function PositionIn(c: char): (k: nat)
    requires InAlphabet(c)
    ensures k < AlphabetSize && AlphabetChar(k) == c
  {
    if 'A' <= c <= 'Z' then c as int - 'A' as int else 26 + c as int - '0' as int
  }

  /** Python's `str.isspace`. */
  predicate IsSpace(c: char)
  {
    || '\t' <= c <= '\r' || '\U{1C}' <= c <= '\U{1F}' || c == ' ' || c == '\U{85}' || c == '\U{A0}'
    || c == '\U{1680}' || '\U{2000}' <= c <= '\U{200A}' || c == '\U{2028}' || c == '\U{2029}'
    || c == '\U{202F}' || c == '\U{205F}' || c == '\U{3000}'
  }

  predicate AllSpace(s: string)
  {
    forall i | 0 <= i < |s| :: IsSpace(s[i])
  }

  /** `r` is `s[i..j]`, and what lies outside it is whitespace that `r` does not continue. */
  predicate StripAt(s: string, r: string, i: int, j: int)
  {
    && 0 <= i <= j <= |s| && r == s[i..j] && AllSpace(s[..i]) && AllSpace(s[j..])
    && (|r| > 0 ==> !IsSpace(r[0]) && !IsSpace(r[|r| - 1]))
  }

  /** `r` is `s` without its leading and trailing whitespace. */
  predicate StrippedOf(s: string, r: string)
  {
    exists i, j | 0 <= i <= j <= |s| :: StripAt(s, r, i, j)
  }

  lemma SpacePrefix(s: string, i: int)
    requires 0 <= i <= |s| && AllSpace(s[..i])
    ensures forall k | 0 <= k < i :: IsSpace(s[k])
  {
    forall k | 0 <= k < i ensures IsSpace(s[k]) { assert s[..i][k] == s[k]; }
  }

  lemma SpaceSuffix(s: string, j: int)
    requires 0 <= j <= |s| && AllSpace(s[j..])
    ensures forall k | j <= k < |s| :: IsSpace(s[k])
  {
    forall k | j <= k < |s| ensures IsSpace(s[k]) { assert s[j..][k - j] == s[k]; }
  }

  /** The number of whitespace characters `s` starts with. */
  function LeadingSpace(s: string): (k: nat)
    ensures k <= |s| && AllSpace(s[..k]) && (k < |s| ==> !IsSpace(s[k]))
  {
    if |s| == 0 || !IsSpace(s[0]) then 0
    else
      var k := 1 + LeadingSpace(s[1..]);
      assert s[..k] == [s[0]] + s[1..][..k - 1];
      k
  }

  /** The number of whitespace characters `s` ends with. */
  function TrailingSpace(s: string): (k: nat)
    ensures k <= |s| && AllSpace(s[|s| - k..]) && (k < |s| ==> !IsSpace(s[|s| - k - 1]))
  {
    if |s| == 0 || !IsSpace(s[|s| - 1]) then 0
    else
      var k := 1 + TrailingSpace(s[..|s| - 1]);
      assert s[|s| - k..] == s[..|s| - 1][|s| - k..] + [s[|s| - 1]];
      k
  }

  /** `str.strip()` */
  function Strip(s: string): (r: string)
    ensures StrippedOf(s, r)
  {
    var i := LeadingSpace(s);
    var rest := s[i..];
    var k := TrailingSpace(rest);
    var r := rest[..|rest| - k];
    assert r == s[i..|s| - k];
    assert rest[|rest| - k..] == s[|s| - k..];
    assert |r| > 0 ==> r[0] == s[i];
    assert StripAt(s, r, i, |s| - k);
    r
  }

  /** Stripping leaves nothing exactly when the string is all whitespace. */
  lemma StrippedEmpty(s: string, r: string)
    requires StrippedOf(s, r)
    ensures |r| == 0 <==> AllSpace(s)
  {
    var i, j :| 0 <= i <= j <= |s| && StripAt(s, r, i, j);
    if |r| == 0 {
      SpacePrefix(s, i);
      SpaceSuffix(s, j);
    }
  }

  /** The outer bounds of a non-blank string's stripped form are fixed. */
  lemma StripBoundsUnique(s: string, r1: string, i1: int, j1: int, r2: string, i2: int, j2: int)
    requires StripAt(s, r1, i1, j1) && StripAt(s, r2, i2, j2) && |r1| > 0 && |r2| > 0
    ensures i1 == i2 && j1 == j2
  {
    assert !IsSpace(s[i1]) && !IsSpace(s[i2]) && !IsSpace(s[j1 - 1]) && !IsSpace(s[j2 - 1]);
    SpacePrefix(s, i1);
    SpacePrefix(s, i2);
    SpaceSuffix(s, j1);
    SpaceSuffix(s, j2);
  }

  /** There is only one way to strip a string. */
  lemma StrippedUnique(s: string, r1: string, r2: string)
    requires StrippedOf(s, r1) && StrippedOf(s, r2)
    ensures r1 == r2
  {
    StrippedEmpty(s, r1);
    StrippedEmpty(s, r2);
    if !AllSpace(s) {
      var i1, j1 :| 0 <= i1 <= j1 <= |s| && StripAt(s, r1, i1, j1);
      var i2, j2 :| 0 <= i2 <= j2 <= |s| && StripAt(s, r2, i2, j2);
      StripBoundsUnique(s, r1, i1, j1, r2, i2, j2);
    }
  }

  lemma AllSpaceConcat(a: string, b: string)
    requires AllSpace(a) && AllSpace(b)
    ensures AllSpace(a + b)
  {
    forall k | 0 <= k < |a + b| ensures IsSpace((a + b)[k]) {
      if k < |a| { assert (a + b)[k] == a[k]; } else { assert (a + b)[k] == b[k - |a|]; }
    }
  }

  /** Stripping bounds found inside `core` carry over to `core` padded with whitespace. */
  lemma StripAtPadded(pre: string, core: string, post: string, r: string, i: int, j: int)
    requires AllSpace(pre) && AllSpace(post) && StripAt(core, r, i, j)
    ensures StripAt(pre + core + post, r, |pre| + i, |pre| + j)
  {
    var s := pre + core + post;
    var a, b := |pre| + i, |pre| + j;
    assert s[a..b] == core[i..j];
    assert s[..a] == pre + core[..i];
    assert s[b..] == core[j..] + post;
    AllSpaceConcat(pre, core[..i]);
    AllSpaceConcat(core[j..], post);
  }

  /** Whitespace around an entry makes no difference to its stripped form. */
  lemma StripPadding(pre: string, core: string, post: string)
    requires AllSpace(pre) && AllSpace(post)
    ensures Strip(pre + core + post) == Strip(core)
  {
    var r := Strip(core);
    var i, j :| 0 <= i <= j <= |core| && StripAt(core, r, i, j);
    StripAtPadded(pre, core, post, r, i, j);
    StrippedUnique(pre + core + post, Strip(pre + core + post), r);
  }

  /**
    `str.upper()` on one character, where the result can matter: ASCII
    letters, and the characters whose upper case is made of ASCII
    letters. Any other character's upper case contains a character
    outside A-Z0-9, so keeping it decides the comparison the same way.
   */
  function UpperChar(c: char): (r: string)
    ensures 'a' <= c <= 'z' ==> r == [(c as int - 32) as char]
    ensures !('a' <= c <= 'z') && c < '\U{80}' ==> r == [c]
  {
    if 'a' <= c <= 'z' then [(c as int - 32) as char]
    else if c == '\U{131}' then "I"
    else if c == '\U{17F}' then "S"
    else if c == '\U{DF}' then "SS"
    else if c == '\U{FB00}' then "FF"
    else if c == '\U{FB01}' then "FI"
    else if c == '\U{FB02}' then "FL"
    else if c == '\U{FB03}' then "FFI"
    else if c == '\U{FB04}' then "FFL"
    else if c == '\U{FB05}' || c == '\U{FB06}' then "ST"
    else [c]
  }

  function Upper(s: string): (r: string)
    ensures |s| <= |r|
  {
    if |s| == 0 then [] else UpperChar(s[0]) + Upper(s[1..])
  }

  /** `verify_captcha`'s test (captcha_page.py:89). */
  predicate Accepts(entry: string, text: string)
  {
    Upper(Strip(entry)) == text
  }

  /** Lower case of an alphabet character, as typed by a user. */
  function Lower(c: char): char
  {
    if 'A' <= c <= 'Z' then (c as int + 32) as char else c
  }

  predicate IsAscii(s: string)
  {
    forall i | 0 <= i < |s| :: s[i] < '\U{80}'
  }

  /** On ASCII text, upper-casing works character by character. */
  lemma {:induction false} UpperAscii(core: string)
    requires IsAscii(core)
    ensures |Upper(core)| == |core|
    ensures forall i | 0 <= i < |core| :: Upper(core)[i] == UpperChar(core[i])[0]
  {
    if |core| > 0 {
      assert IsAscii(core[1..]) by {
        forall i | 0 <= i < |core| - 1 ensures core[1..][i] < '\U{80}' { assert core[1..][i] == core[i + 1]; }
      }
      UpperAscii(core[1..]);
      forall i | 0 <= i < |core| ensures Upper(core)[i] == UpperChar(core[i])[0] {
        if i > 0 { assert core[1..][i - 1] == core[i]; }
      }
    }
  }

  /** An ASCII character upper-cases to an alphabet character exactly when it is that character in either case. */
  lemma UpperCharMatch(c: char, t: char)
    requires c < '\U{80}' && InAlphabet(t)
    ensures UpperChar(c)[0] == t <==> c == t || c == Lower(t)
  {
  }

  /**
    For an ASCII entry, upper-casing it gives an alphabet text exactly
    when each character is that text's character in either case.
   */
  lemma UpperMatchesIgnoringCase(core: string, t: string)
    requires IsAscii(core) && forall i | 0 <= i < |t| :: InAlphabet(t[i])
    ensures Upper(core) == t <==> |core| == |t| && forall i | 0 <= i < |t| :: core[i] == t[i] || core[i] == Lower(t[i])
  {
    UpperAscii(core);
    if |core| == |t| {
      forall i | 0 <= i < |t| ensures Upper(core)[i] == t[i] <==> core[i] == t[i] || core[i] == Lower(t[i]) {
        UpperCharMatch(core[i], t[i]);
      }
    }
  }

  /**
    The check ignores surrounding whitespace and the case of an ASCII
    entry: it passes exactly when the stripped entry is the text in any
    mix of upper and lower case.
   */
  lemma AcceptsIgnoringCaseAndPadding(pre: string, core: string, post: string, text: string)
    requires AllSpace(pre) && AllSpace(post) && IsCaptchaText(text) && IsAscii(core)
    requires |core| == 0 || (!IsSpace(core[0]) && !IsSpace(core[|core| - 1]))
    ensures Accepts(pre + core + post, text) <==>
      |core| == |text| && forall i | 0 <= i < |text| :: core[i] == text[i] || core[i] == Lower(text[i])
  {
    StripPadding(pre, core, post);
    assert StrippedOf(core, core) by {
      assert core[0..|core|] == core && core[..0] == [] && core[|core|..] == [];
      assert StripAt(core, core, 0, |core|);
    }
    StrippedUnique(core, Strip(core), core);
    UpperMatchesIgnoringCase(core, text);
  }

  /**
    Outside ASCII, `str.upper` can lengthen an entry: the five-character
    entry "ßabcd" upper-cases to "SSABCD" and passes for that text.
   */
  lemma SharpSAccepted()
    ensures Accepts("\U{DF}abcd", "SSABCD") && |"\U{DF}abcd"| != |"SSABCD"|
  {
    SharpSStripped();
    SharpSUpper();
  }

  lemma SharpSStripped()
    ensures Strip("\U{DF}abcd") == "\U{DF}abcd"
  {
    var core := "\U{DF}abcd";
    assert StrippedOf(core, core) by {
      assert core[0..|core|] == core && core[..0] == [] && core[|core|..] == [];
      assert StripAt(core, core, 0, |core|);
    }
    StrippedUnique(core, Strip(core), core);
  }

  lemma SharpSUpper()
    ensures Upper("\U{DF}abcd") == "SSABCD"
  {
    var core := "\U{DF}abcd";
    assert Upper(core) == "SS" + Upper("abcd") by {
      assert core[1..] == "abcd";
    }
    assert Upper("abcd") == "ABCD" by {
      assert "abcd"[1..] == "bcd" && "bcd"[1..] == "cd" && "cd"[1..] == "d" && "d"[1..] == "";
    }
  }

  /** An empty or all-whitespace entry never passes, since the text always has six characters. */
  lemma BlankNeverAccepted(entry: string, text: string)
    requires AllSpace(entry) && IsCaptchaText(text)
    ensures !Accepts(entry, text)
  {
    StrippedEmpty(entry, Strip(entry));
    assert Upper(Strip(entry)) == [];
  }

  /** The page: the current text and the message on its label. */
  datatype Page = Page(text: string, message: string)

  /** The page as built: a text is generated during construction (captcha_page.py:72). */
  function NewPage(picks: seq<nat>): (p: Page)
    requires |picks| == TextLength && forall i | 0 <= i < |picks| :: picks[i] < AlphabetSize
    ensures IsCaptchaText(p.text)
  {
    Page(Generate(picks), "")
  }

  /**
    `verify_captcha` (captcha_page.py:87-94): a passing entry hands over
    to the controller when there is one; a failing entry shows the retry
    message and draws a new text from `picks`.
   */
  function VerifyCaptcha(p: Page, entry: string, controller: Option<Controller.State>, picks: seq<nat>)
    : (r: (Page, Option<Controller.State>))
    requires |picks| == TextLength && forall i | 0 <= i < |picks| :: picks[i] < AlphabetSize
    ensures Accepts(entry, p.text) ==> r.0 == p
    ensures Accepts(entry, p.text) && controller.Some? ==> r.1 == Some(Controller.OnCaptchaSuccess(controller.value))
    ensures !Accepts(entry, p.text) || controller.None? ==> r.1 == controller
    ensures !Accepts(entry, p.text) ==> r.0.message == Retry && IsCaptchaText(r.0.text) && r.0.text == Generate(picks)
  {
    if Accepts(entry, p.text) then
      (p, if controller.Some? then Some(Controller.OnCaptchaSuccess(controller.value)) else None)
    else
      (Page(Generate(picks), Retry), controller)
  }

  /** A page always holds a six-character alphabet text, so a blank entry is always refused. */
  lemma VerifyKeepsText(p: Page, entry: string, controller: Option<Controller.State>, picks: seq<nat>)
    requires IsCaptchaText(p.text)
    requires |picks| == TextLength && forall i | 0 <= i < |picks| :: picks[i] < AlphabetSize
    ensures IsCaptchaText(VerifyCaptcha(p, entry, controller, picks).0.text)
    ensures AllSpace(entry) ==> VerifyCaptcha(p, entry, controller, picks).0.message == Retry
  {
    if AllSpace(entry) {
      BlankNeverAccepted(entry, p.text);
    }
  }
}
