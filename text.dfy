/** The string operations both cleaners use to build their dialog texts:
    blank tests, decimal rendering of counts, and joining lines. */
module Text {

  /** The characters treated as white space by the blank test. */
  predicate IsWhiteSpace(c: char) {
    c == ' ' || c == '\t' || c == '\n' || c == '\r' || c == '\U{000B}' || c == '\U{000C}'
    || c == '\U{0085}' || c == '\U{00A0}' || c == '\U{2028}' || c == '\U{2029}' || c == '\U{3000}'
  }

  /** `string.IsNullOrWhiteSpace` for a present string: empty or white space only. */
  predicate IsBlank(s: string) {
    forall i :: 0 <= i < |s| ==> IsWhiteSpace(s[i])
  }

  predicate IsDigit(c: char) { '0' <= c <= '9' }

  predicate AllDigits(s: string) {
    forall i :: 0 <= i < |s| ==> IsDigit(s[i])
  }

  function DigitChar(d: nat): (c: char)
    requires d < 10
    ensures IsDigit(c) && c as int - '0' as int == d
  {
    ('0' as int + d) as char
  }

  /** The decimal text an interpolated count has: digits only, no leading zero. */
  function NatToString(n: nat): (r: string)
    ensures |r| > 0 && AllDigits(r)
    ensures r[0] == '0' ==> n == 0
    decreases n
  {
    if n < 10 then [DigitChar(n)] else NatToString(n / 10) + [DigitChar(n % 10)]
  }

  /** The number a string of decimal digits denotes. */
  function DigitsValue(s: string): nat
    requires AllDigits(s)
  {
    if s == [] then 0 else DigitsValue(s[..|s| - 1]) * 10 + (s[|s| - 1] as int - '0' as int)
  }

  /** Reading back the decimal text of a count gives the count: the number shown is exact. */
  lemma {:induction false} NatToStringRoundTrip(n: nat)
    ensures DigitsValue(NatToString(n)) == n
    decreases n
  {
    if n >= 10 {
      NatToStringRoundTrip(n / 10);
      var s := NatToString(n);
      assert s[..|s| - 1] == NatToString(n / 10);
    }
  }

  /** `string.Join(sep, parts)`. */
  function Join(sep: string, parts: seq<string>): string
  {
    if |parts| == 0 then ""
    else if |parts| == 1 then parts[0]
    else Join(sep, parts[..|parts| - 1]) + sep + parts[|parts| - 1]
  }

  /** The text built by appending `parts` one after another to an empty string. */
  function Concat(parts: seq<string>): string
  {
    if parts == [] then "" else Concat(parts[..|parts| - 1]) + parts[|parts| - 1]
  }

  lemma ConcatSnoc(parts: seq<string>, s: string)
    ensures Concat(parts + [s]) == Concat(parts) + s
  {
    assert (parts + [s])[..|parts|] == parts;
  }

  lemma AppendEmpty(s: string)
    ensures s + "" == s
  {
  }

  lemma AppendAssoc(a: string, b: string, c: string)
    ensures (a + b) + c == a + (b + c)
  {
  }

  lemma ConcatPrefixStep(parts: seq<string>, i: int)
    requires 0 <= i < |parts|
    ensures Concat(parts[..i + 1]) == Concat(parts[..i]) + parts[i]
  {
    assert parts[..i + 1] == parts[..i] + [parts[i]];
    ConcatSnoc(parts[..i], parts[i]);
  }

  predicate EndsWith(s: string, suffix: string) {
    |suffix| <= |s| && s[|s| - |suffix|..] == suffix
  }

  lemma EndsWithAppend(s: string, suffix: string)
    ensures EndsWith(s + suffix, suffix)
  {
    assert (s + suffix)[|s|..] == suffix;
  }

  lemma AppendDropSuffix(s: string, suffix: string)
    ensures (s + suffix)[..|s + suffix| - |suffix|] == s
  {
    assert (s + suffix)[..|s|] == s;
  }

  /** Ending with a text that ends with `suffix` is ending with `suffix`. */
  lemma EndsWithTrans(s: string, t: string, suffix: string)
    requires EndsWith(s, t) && EndsWith(t, suffix)
    ensures EndsWith(s, suffix)
  {
    assert s[|s| - |suffix|..] == s[|s| - |t|..][|t| - |suffix|..];
  }

  /** A joined text ends with its last part. */
  lemma JoinEndsWithLast(sep: string, parts: seq<string>)
    requires |parts| > 0
    ensures EndsWith(Join(sep, parts), parts[|parts| - 1])
  {
  }

  /** A text followed by a join ends with whatever the last part ends with. */
  lemma JoinedEndsWith(prefix: string, sep: string, parts: seq<string>, suffix: string)
    requires |parts| > 0 && EndsWith(parts[|parts| - 1], suffix)
    ensures EndsWith(prefix + Join(sep, parts), suffix)
  {
    var joined := Join(sep, parts);
    JoinEndsWithLast(sep, parts);
    EndsWithTrans(joined, parts[|parts| - 1], suffix);
    EndsWithAppend(prefix, joined);
    EndsWithTrans(prefix + joined, joined, suffix);
  }

  /** Two texts with a common suffix end in the same character. */
  lemma EndsWithLastChar(s: string, suffix: string)
    requires |suffix| > 0
    ensures EndsWith(s, suffix) ==> s[|s| - 1] == suffix[|suffix| - 1]
  {
    EndsWithCharAt(s, suffix, 1);
  }

  /** Two texts with a common suffix agree on its characters counted from the end. */
  lemma EndsWithCharAt(s: string, suffix: string, k: int)
    requires 0 < k <= |suffix|
    ensures EndsWith(s, suffix) ==> s[|s| - k] == suffix[|suffix| - k]
  {
    if EndsWith(s, suffix) {
      assert s[|s| - |suffix|..][|suffix| - k] == s[|s| - k];
    }
  }
}
