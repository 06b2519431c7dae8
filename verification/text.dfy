/** String helpers the editor and the page loader share: the decimal
    numerals inside tile ids (`T${i}`) and the extension an uploaded
    file name contributes to its archive entry (`name.split('.').pop()`). */
module Text {

  predicate IsDigit(c: char) {
    '0' <= c <= '9'
  }

  predicate AllDigits(s: string) {
    forall k :: 0 <= k < |s| ==> IsDigit(s[k])
  }

  function DigitChar(d: nat): (c: char)
    requires d < 10
    ensures IsDigit(c)
  {
    (48 + d) as char
  }

  function DigitValue(c: char): (d: nat)
    requires IsDigit(c)
    ensures d < 10
  {
    c as int - 48
  }

  /** The decimal numeral of `n`, as a template literal renders a number. */
  function Decimal(n: nat): (r: string)
    ensures 1 <= |r|
    ensures AllDigits(r)
    ensures n < 10 <==> |r| == 1
    decreases n
  {
    if n < 10 then [DigitChar(n)] else Decimal(n / 10) + [DigitChar(n % 10)]
  }

  /** Reads a numeral back: the inverse of `Decimal`. */
  function DigitsValue(s: string): nat
    requires AllDigits(s)
    decreases |s|
  {
    if s == [] then 0 else 10 * DigitsValue(s[..|s| - 1]) + DigitValue(s[|s| - 1])
  }

  lemma {:induction false} DecimalRoundTrip(n: nat)
    ensures DigitsValue(Decimal(n)) == n
    decreases n
  {
    var s := Decimal(n);
    if n < 10 {
      assert s[..|s| - 1] == [];
    } else {
      assert s[..|s| - 1] == Decimal(n / 10);
      DecimalRoundTrip(n / 10);
    }
  }

  /** Distinct numbers have distinct numerals, so distinct positions get distinct tile ids. */
  lemma DecimalInjective(a: nat, b: nat)
    ensures Decimal(a) == Decimal(b) <==> a == b
  {
    DecimalRoundTrip(a);
    DecimalRoundTrip(b);
  }

  predicate StartsWith(s: string, prefix: string) {
    |prefix| <= |s| && s[..|prefix|] == prefix
  }

  /** `s.split('.').pop()`: the longest suffix of `s` without a dot, that is
      the text after the last '.', or all of `s` when it contains none. */
  function AfterLastDot(s: string): (r: string)
    ensures '.' !in r
    ensures |r| <= |s| && r == s[|s| - |r|..]
    ensures |r| < |s| ==> s[|s| - |r| - 1] == '.'
    decreases |s|
  {
    if |s| == 0 then ""
    else if s[|s| - 1] == '.' then ""
    else
      var front := s[..|s| - 1];
      var rest := AfterLastDot(front);
      var r := rest + [s[|s| - 1]];
      assert s[|s| - |r|..] == front[|front| - |rest|..] + [s[|s| - 1]];
      r
  }

  /** A name `stem.ext` yields `ext`, however many dots the stem holds. */
  lemma {:induction false} AfterLastDotOfDotted(stem: string, ext: string)
    requires '.' !in ext
    ensures AfterLastDot(stem + "." + ext) == ext
    decreases |ext|
  {
    var s := stem + "." + ext;
    if ext != [] {
      var shorter := ext[..|ext| - 1];
      assert s[..|s| - 1] == stem + "." + shorter;
      assert s[|s| - 1] == ext[|ext| - 1];
      AfterLastDotOfDotted(stem, shorter);
      assert shorter + [ext[|ext| - 1]] == ext;
    }
  }

  /** A name without any dot is its own extension. */
  lemma {:induction false} AfterLastDotOfUndotted(s: string)
    requires '.' !in s
    ensures AfterLastDot(s) == s
    decreases |s|
  {
    if s != [] {
      AfterLastDotOfUndotted(s[..|s| - 1]);
      assert s[..|s| - 1] + [s[|s| - 1]] == s;
    }
  }
}
