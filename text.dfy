/**
 * The few string operations of Python's `str` that the scripts rely on,
 * restricted to the characters their inputs use: ASCII digits and letters
 * and the whitespace characters of Latin-1.
 */
module Text {
  import opened Wrappers

  /**
   * Python's `s or fallback` (and `s if s else fallback`) on a column that may
   * be NULL: None and the empty string are falsy and give way to the fallback.
   */
  function OrDefault(s: Option<string>, fallback: string): (r: string)
    ensures fallback != "" ==> r != ""
    ensures s.Some? && s.value != "" ==> r == s.value
    ensures r != fallback ==> s.Some? && r == s.value
  {
    if s.None? || s.value == "" then fallback else s.value
  }

  predicate IsAsciiDigit(c: char) {
    '0' <= c <= '9'
  }

  /** `str.isdigit()`: non-empty and made of digits only. */
  predicate IsDigitString(s: string) {
    |s| > 0 && forall i :: 0 <= i < |s| ==> IsAsciiDigit(s[i])
  }

  /** The decimal value of a run of digits (leading zeros allowed, as `int()` allows them). */
  function DecimalValue(s: string): nat
    requires forall i :: 0 <= i < |s| ==> IsAsciiDigit(s[i])
  {
    if s == [] then 0
    else
      assert forall i :: 0 <= i < |s| - 1 ==> s[..|s| - 1][i] == s[i];
      assert IsAsciiDigit(s[|s| - 1]);
      DecimalValue(s[..|s| - 1]) * 10 + (s[|s| - 1] as int - '0' as int) as nat
  }

  function DigitChar(d: nat): (c: char)
    requires d < 10
    ensures IsAsciiDigit(c) && c as int - '0' as int == d
  {
    ('0' as int + d) as char
  }

  /** `str(n)` for a non-negative integer. */
  function DecimalString(n: nat): (s: string)
    ensures |s| > 0
  {
    if n < 10 then [DigitChar(n)] else DecimalString(n / 10) + [DigitChar(n % 10)]
  }

  /** `int(str(n)) == n`, and `str(n)` is a digit string. */
  lemma {:induction false} DecimalRoundTrip(n: nat)
    ensures IsDigitString(DecimalString(n))
    ensures DecimalValue(DecimalString(n)) == n
  {
    var s := DecimalString(n);
    if n < 10 {
      assert s[..0] == [];
    } else {
      DecimalRoundTrip(n / 10);
      var p := DecimalString(n / 10);
      assert s == p + [DigitChar(n % 10)];
      assert s[..|s| - 1] == p;
    }
  }

  /** The characters `str.split()` treats as separators (those of Latin-1). */
  predicate IsSpace(c: char) {
    c == ' ' || ('\t' <= c <= '\r') || ('\U{1c}' <= c <= '\U{1f}') || c == '\U{85}' || c == '\U{a0}'
  }

  /** Length of the leading run of non-separator characters. */
  function TokenLength(s: string): (n: nat)
    ensures n <= |s|
    ensures s != [] && !IsSpace(s[0]) ==> n >= 1
  {
    if s == [] || IsSpace(s[0]) then 0 else 1 + TokenLength(s[1..])
  }

  /** `str.split()` with no separator: the maximal runs of non-whitespace, in order. */
  function Words(s: string): seq<string>
    decreases |s|
  {
    if s == [] then []
    else if IsSpace(s[0]) then Words(s[1..])
    else
      var n := TokenLength(s);
      [s[..n]] + Words(s[n..])
  }

  predicate NoSpace(t: string) {
    forall i :: 0 <= i < |t| ==> !IsSpace(t[i])
  }

  lemma {:induction false} TokenLengthOfWord(t: string, rest: string)
    requires NoSpace(t)
    requires rest == [] || IsSpace(rest[0])
    ensures TokenLength(t + rest) == |t|
  {
    if t != [] {
      assert (t + rest)[1..] == t[1..] + rest;
      TokenLengthOfWord(t[1..], rest);
    } else {
      assert t + rest == rest;
    }
  }

  /** A single word splits into itself. */
  lemma WordsOfWord(d: string)
    requires |d| > 0 && NoSpace(d)
    ensures Words(d) == [d]
  {
    TokenLengthOfWord(d, []);
    assert d + [] == d;
    assert d[..|d|] == d && d[|d|..] == [];
  }

  /** Splitting `w + " " + d` gives back the two words. */
  lemma TwoWords(w: string, d: string)
    requires |w| > 0 && |d| > 0 && NoSpace(w) && NoSpace(d)
    ensures Words(w + " " + d) == [w, d]
  {
    var tail := " " + d;
    var s := w + tail;
    assert w + " " + d == s;
    TokenLengthOfWord(w, tail);
    assert s[0] == w[0];
    assert s[..|w|] == w;
    assert s[|w|..] == tail;
    assert Words(s) == [w] + Words(tail);
    assert tail[1..] == d;
    assert Words(tail) == Words(d);
    WordsOfWord(d);
  }

  /** A string of whitespace only splits into no words. */
  lemma {:induction false} WordsOfBlank(s: string)
    requires forall i :: 0 <= i < |s| ==> IsSpace(s[i])
    ensures Words(s) == []
  {
    if s != [] {
      assert forall i :: 0 <= i < |s| - 1 ==> s[1..][i] == s[i + 1];
      WordsOfBlank(s[1..]);
    }
  }

  /** Python's `int()` applied to a token without whitespace: an optional sign, then digits. */
  function ParseInt(t: string): (r: Option<int>)
    ensures IsDigitString(t) ==> r == Some(DecimalValue(t))
    ensures r.Some? ==> |t| > 0
  {
    if IsDigitString(t) then Some(DecimalValue(t))
    else if |t| > 1 && (t[0] == '+' || t[0] == '-') && IsDigitString(t[1..]) then
      var v: int := DecimalValue(t[1..]);
      Some(if t[0] == '-' then -v else v)
    else None
  }

  /** `str.lower()` on ASCII letters. */
  function Lower(s: string): (r: string)
    ensures |r| == |s|
    ensures forall i :: 0 <= i < |s| ==> r[i] == (if 'A' <= s[i] <= 'Z' then (s[i] as int + 32) as char else s[i])
  {
    seq(|s|, i requires 0 <= i < |s| => if 'A' <= s[i] <= 'Z' then (s[i] as int + 32) as char else s[i])
  }

  /** `sub in s`. */
  predicate Contains(s: string, sub: string) {
    exists i :: 0 <= i <= |s| - |sub| && OccursAt(s, sub, i)
  }

  predicate OccursAt(s: string, sub: string, i: int) {
    0 <= i <= |s| - |sub| && s[i..i + |sub|] == sub
  }

  /** `s.endswith(suffix)`. */
  predicate EndsWith(s: string, suffix: string) {
    |suffix| <= |s| && s[|s| - |suffix|..] == suffix
  }
}
