/** Text-to-integer conversions used by the normaliser: parsing a whole cell as a
    signed integer (the year) and extracting the first run of decimal digits
    (the duration). Only the ASCII digits '0'..'9' are digits here. */
module Numeric {
  import opened Frames

  predicate IsDigit(ch: char) {
    '0' <= ch <= '9'
  }

  function DigitValue(ch: char): nat
    requires IsDigit(ch)
  {
    (ch as int) - ('0' as int)
  }

  function DigitChar(d: nat): (ch: char)
    requires d < 10
    ensures IsDigit(ch) && DigitValue(ch) == d
  {
    (('0' as int) + d) as char
  }

  predicate AllDigits(s: string) {
    forall k :: 0 <= k < |s| ==> IsDigit(s[k])
  }

  predicate NoDigit(s: string) {
    forall k :: 0 <= k < |s| ==> !IsDigit(s[k])
  }

  /** The base-10 value of a digit string, most significant digit first. */
  function DigitsValue(s: string): nat
    requires AllDigits(s)
  {
    if s == [] then 0 else 10 * DigitsValue(s[..|s| - 1]) + DigitValue(s[|s| - 1])
  }

  /** Python's `str` of a non-negative integer: its decimal digits, no leading zero. */
  function NatToString(n: nat): (s: string)
    ensures |s| > 0 && AllDigits(s)
    ensures n >= 10 ==> s[0] != '0'
  {
    if n < 10 then [DigitChar(n)] else NatToString(n / 10) + [DigitChar(n % 10)]
  }

  /** Python's `str` of an integer: a minus sign before the digits of a negative one. */
  function IntToString(n: int): string {
    if n < 0 then "-" + NatToString(-n) else NatToString(n)
  }

  lemma {:induction false} NatToStringValue(n: nat)
    ensures DigitsValue(NatToString(n)) == n
  {
    if n >= 10 {
      NatToStringValue(n / 10);
      var s := NatToString(n);
      assert s[..|s| - 1] == NatToString(n / 10);
    }
  }

  /** Whole-cell integer parse: an optional '+' or '-' followed by at least one
      digit; anything else is not a number. */
  function ParseInt(s: string): Option<int> {
    if |s| > 0 && (s[0] == '-' || s[0] == '+') then
      var body := s[1..];
      if |body| > 0 && AllDigits(body) then
        var v: int := if s[0] == '-' then -(DigitsValue(body) as int) else DigitsValue(body);
        Some(v)
      else None
    else if |s| > 0 && AllDigits(s) then Some(DigitsValue(s))
    else None
  }

  /** Parsing the decimal text of any integer gives that integer back. */
  lemma ParseIntRoundTrip(n: int)
    ensures ParseInt(IntToString(n)) == Some(n)
  {
    if n < 0 {
      var s := IntToString(n);
      assert s[1..] == NatToString(-n);
      NatToStringValue(-n);
    } else {
      NatToStringValue(n);
    }
  }

  /** A character that is neither a digit nor a leading sign makes the parse fail:
      words, decimals and blanks all read as "not a number". */
  lemma ParseIntRejects(s: string, k: nat)
    requires k < |s| && !IsDigit(s[k])
    requires k > 0 || (s[k] != '-' && s[k] != '+') || |s| == 1
    ensures ParseInt(s) == None
  {
    if k > 0 && (s[0] == '-' || s[0] == '+') {
      assert s[1..][k - 1] == s[k];
    }
  }

  /** Length of the run of digits at the very start of `s`. */
  function RunLength(s: string): (n: nat)
    ensures n <= |s| && AllDigits(s[..n])
    ensures n == |s| || !IsDigit(s[n])
  {
    if s == [] || !IsDigit(s[0]) then 0
    else
      var n := 1 + RunLength(s[1..]);
      assert s[..n] == [s[0]] + s[1..][..n - 1];
      n
  }

  /** Index of the first digit in `s`, or `|s|` when there is none. */
  function FirstDigitIndex(s: string): (i: nat)
    ensures i <= |s| && NoDigit(s[..i])
    ensures i == |s| || IsDigit(s[i])
  {
    if s == [] || IsDigit(s[0]) then 0
    else
      var i := 1 + FirstDigitIndex(s[1..]);
      assert s[..i] == [s[0]] + s[1..][..i - 1];
      i
  }

  /** The integer value of the first maximal run of digits in `s`, or None when
      `s` has no digit at all. */
  function FirstDigitRun(s: string): Option<nat> {
    if s == [] then None
    else if IsDigit(s[0]) then Some(DigitsValue(s[..RunLength(s)]))
    else FirstDigitRun(s[1..])
  }

  /** No digit anywhere in the text is exactly the case with no value. */
  lemma {:induction false} FirstDigitRunNone(s: string)
    ensures FirstDigitRun(s) == None <==> NoDigit(s)
  {
    if s != [] && !IsDigit(s[0]) {
      FirstDigitRunNone(s[1..]);
      assert NoDigit(s[1..]) ==> NoDigit(s) by {
        if NoDigit(s[1..]) {
          forall k | 0 <= k < |s| ensures !IsDigit(s[k]) {
            if k > 0 { assert s[k] == s[1..][k - 1]; }
          }
        }
      }
    }
  }

  /** Whenever `s` splits into a digit-free prefix `s[..i]`, a maximal digit run
      `s[i..j]` and the rest, the extracted value is the value of that run. */
  lemma {:induction false} FirstDigitRunAt(s: string, i: nat, j: nat)
    requires i < j <= |s|
    requires NoDigit(s[..i]) && AllDigits(s[i..j])
    requires j == |s| || !IsDigit(s[j])
    ensures FirstDigitRun(s) == Some(DigitsValue(s[i..j]))
  {
    if i == 0 {
      assert IsDigit(s[..j][0]);
      assert s[..j] == s[0..j];
    } else {
      assert !IsDigit(s[..i][0]);
      var t := s[1..];
      assert t[..i - 1] == s[1..i];
      var before, rest := s[..i], t[..i - 1];
      forall k | 0 <= k < |rest| ensures !IsDigit(rest[k]) {
        assert rest[k] == before[k + 1];
      }
      assert t[i - 1..j - 1] == s[i..j];
      assert j - 1 < |t| ==> t[j - 1] == s[j];
      FirstDigitRunAt(t, i - 1, j - 1);
    }
  }

  /** The first maximal run of digits in `s` (empty when `s` has no digit). */
  function FirstRun(s: string): (run: string)
    ensures AllDigits(run)
  {
    var i := FirstDigitIndex(s);
    var n := RunLength(s[i..]);
    assert s[i..][..n] == s[i..i + n];
    s[i..i + n]
  }

  /** When `s` has a digit, the extracted value is the value of its first run. */
  lemma FirstDigitRunFirstRun(s: string)
    requires !NoDigit(s)
    ensures FirstDigitRun(s) == Some(DigitsValue(FirstRun(s)))
  {
    var i := FirstDigitIndex(s);
    assert i < |s|;
    var n := RunLength(s[i..]);
    assert s[i..][..n] == s[i..i + n];
    assert i + n == |s| || s[i + n] == s[i..][n];
    FirstDigitRunAt(s, i, i + n);
  }

  /** The decimal text of an integer extracts to its magnitude (so a numeric
      duration cell keeps its value, a negative one loses its sign). */
  lemma FirstDigitRunOfInt(n: int)
    ensures FirstDigitRun(IntToString(n)) == Some(if n < 0 then -n else n)
  {
    var m: nat := if n < 0 then -n else n;
    var digits := NatToString(m);
    NatToStringValue(m);
    if n < 0 {
      var s := IntToString(n);
      assert s[..1] == "-";
      assert s[1..1 + |digits|] == digits;
      FirstDigitRunAt(s, 1, 1 + |digits|);
    } else {
      assert digits[0..|digits|] == digits;
      FirstDigitRunAt(digits, 0, |digits|);
    }
  }
}
