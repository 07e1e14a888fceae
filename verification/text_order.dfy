/**
  Python's ordering on `str` (lexicographic by code point, a proper prefix
  first) and the sorted list of distinct strings that pandas and
  scikit-learn build when they enumerate the categories of a column.
 */
module TextOrder {

  /** `a <= b` under Python's string comparison. */
  predicate StrLe(a: string, b: string)
    decreases |a|
  {
    |a| == 0 || (|b| > 0 && (a[0] < b[0] || (a[0] == b[0] && StrLe(a[1..], b[1..]))))
  }

  predicate StrLt(a: string, b: string)
  {
    StrLe(a, b) && a != b
  }

  lemma {:induction false} StrLeTotal(a: string, b: string)
    ensures StrLe(a, b) || StrLe(b, a)
    decreases |a|
  {
    if |a| > 0 && |b| > 0 && a[0] == b[0] {
      StrLeTotal(a[1..], b[1..]);
    }
  }

  lemma {:induction false} StrLeAntisymmetric(a: string, b: string)
    requires StrLe(a, b) && StrLe(b, a)
    ensures a == b
    decreases |a|
  {
    if |a| > 0 {
      StrLeAntisymmetric(a[1..], b[1..]);
      assert a == [a[0]] + a[1..];
      assert b == [b[0]] + b[1..];
    }
  }

  lemma {:induction false} StrLeTransitive(a: string, b: string, c: string)
    requires StrLe(a, b) && StrLe(b, c)
    ensures StrLe(a, c)
    decreases |a|
  {
    if |a| > 0 && a[0] == b[0] && b[0] == c[0] {
      StrLeTransitive(a[1..], b[1..], c[1..]);
    }
  }

  /** Strictly increasing, hence also free of repetitions. */
  predicate StrictlySorted(s: seq<string>)
  {
    forall i, j | 0 <= i < j < |s| :: StrLt(s[i], s[j])
  }

  /** Places `x` into the strictly sorted `s`, dropping it if already there. */
  function Insert(x: string, s: seq<string>): (r: seq<string>)
    requires StrictlySorted(s)
    ensures StrictlySorted(r)
    ensures forall y :: y in r <==> y == x || y in s
    decreases |s|
  {
    if |s| == 0 then [x]
    else if x == s[0] then s
    else if StrLe(x, s[0]) then
      assert forall j | 0 <= j < |s| :: StrLt(x, s[j]) by {
        forall j | 0 <= j < |s|
          ensures StrLt(x, s[j])
        {
          if j > 0 {
            StrLeTransitive(x, s[0], s[j]);
            if x == s[j] {
              StrLeAntisymmetric(s[0], s[j]);
            }
          }
        }
      }
      [x] + s
    else
      StrLeTotal(x, s[0]);
      var t := Insert(x, s[1..]);
      assert forall y | y in t :: StrLt(s[0], y) by {
        forall y | y in t
          ensures StrLt(s[0], y)
        {
          if y != x {
            var k :| 1 <= k < |s| && s[k] == y;
          }
        }
      }
      [s[0]] + t
  }

  /** The distinct members of `s` in increasing order (`sorted(set(s))`). */
  function SortedDistinct(s: seq<string>): (r: seq<string>)
    ensures StrictlySorted(r)
    ensures forall y :: y in r <==> y in s
  {
    if |s| == 0 then [] else Insert(s[|s| - 1], SortedDistinct(s[..|s| - 1]))
  }

  /** Position of `x` in `s`; `|s|` when absent. */
  function IndexOf(s: seq<string>, x: string): (k: nat)
    ensures k <= |s|
    ensures k < |s| ==> s[k] == x
    ensures k == |s| <==> x !in s
    ensures forall j | 0 <= j < k :: s[j] != x
  {
    if |s| == 0 then 0 else if s[0] == x then 0 else 1 + IndexOf(s[1..], x)
  }

  /** In a strictly sorted list every element sits at exactly one position. */
  lemma IndexOfSorted(s: seq<string>, i: nat)
    requires StrictlySorted(s) && i < |s|
    ensures IndexOf(s, s[i]) == i
  {
  }
}
