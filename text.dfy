/** ASCII text helpers: digits, case mapping and splitting at dots. */
module Text {

  predicate IsDigit(c: char) {
    '0' <= c <= '9'
  }

  /** Python's `str.isdigit()` restricted to ASCII: non-empty and all digits. */
  predicate IsDigits(s: string) {
    |s| > 0 && forall i :: 0 <= i < |s| ==> IsDigit(s[i])
  }

  function DigitValue(c: char): (n: int)
    requires IsDigit(c)
    ensures 0 <= n <= 9
  {
    c as int - '0' as int
  }

  function DigitChar(n: int): (c: char)
    requires 0 <= n <= 9
    ensures IsDigit(c) && DigitValue(c) == n
  {
    ('0' as int + n) as char
  }

  /** `%02d`: the two-digit, zero-padded decimal form of `n`. */
  function Pad2(n: int): (s: string)
    requires 0 <= n < 100
    ensures |s| == 2 && IsDigit(s[0]) && IsDigit(s[1])
    ensures 10 * DigitValue(s[0]) + DigitValue(s[1]) == n
  {
    [DigitChar(n / 10), DigitChar(n % 10)]
  }

  /** `%04d`: the four-digit, zero-padded decimal form of `n`. */
  function Pad4(n: int): (s: string)
    requires 0 <= n < 10000
    ensures |s| == 4 && forall i :: 0 <= i < 4 ==> IsDigit(s[i])
    ensures Value4(s) == n
  {
    Pad2(n / 100) + Pad2(n % 100)
  }

  /** The value of a run of four ASCII digits. */
  function Value4(s: string): int
    requires |s| == 4 && forall i :: 0 <= i < 4 ==> IsDigit(s[i])
  {
    1000 * DigitValue(s[0]) + 100 * DigitValue(s[1]) + 10 * DigitValue(s[2]) + DigitValue(s[3])
  }

  /** Two strings of digits with the same four-digit value are equal. */
  lemma Value4Injective(s: string, t: string)
    requires |s| == 4 && forall i :: 0 <= i < 4 ==> IsDigit(s[i])
    requires |t| == 4 && forall i :: 0 <= i < 4 ==> IsDigit(t[i])
    requires Value4(s) == Value4(t)
    ensures s == t
  {
    assert DigitValue(s[0]) == DigitValue(t[0]);
    assert DigitValue(s[1]) == DigitValue(t[1]);
    assert DigitValue(s[2]) == DigitValue(t[2]);
  }

  function LowerChar(c: char): char {
    if 'A' <= c <= 'Z' then (c as int + 32) as char else c
  }

  function UpperChar(c: char): char {
    if 'a' <= c <= 'z' then (c as int - 32) as char else c
  }

  predicate IsUpper(c: char) {
    'A' <= c <= 'Z'
  }

  predicate IsLower(c: char) {
    'a' <= c <= 'z'
  }

  /**
   * `str.lower()` on ASCII text: every upper-case letter becomes its lower-case
   * partner, every other character stays, and no upper-case letter is left.
   */
  function Lower(s: string): (r: string)
    ensures |r| == |s|
    ensures forall i :: 0 <= i < |s| ==> !IsUpper(r[i])
    ensures forall i :: 0 <= i < |s| && !IsUpper(s[i]) ==> r[i] == s[i]
    ensures forall i :: 0 <= i < |s| && IsUpper(s[i]) ==> r[i] as int == s[i] as int + 32
  {
    if s == [] then [] else [LowerChar(s[0])] + Lower(s[1..])
  }

  /**
   * `str.capitalize()` on ASCII text: the first character is not a lower-case
   * letter, no later character is an upper-case one, and letter case is all
   * that changes.
   */
  function Capitalize(s: string): (r: string)
    ensures |r| == |s|
    ensures |s| > 0 ==> !IsLower(r[0])
    ensures forall i :: 1 <= i < |s| ==> !IsUpper(r[i])
    ensures Lower(r) == Lower(s)
  {
    if s == [] then []
    else
      LowerOfUpperChar(s[0]);
      LowerIdempotent(s[1..]);
      assert Lower([UpperChar(s[0])] + Lower(s[1..]))[1..] == Lower(Lower(s[1..]));
      [UpperChar(s[0])] + Lower(s[1..])
  }

  lemma LowerOfUpperChar(c: char)
    ensures LowerChar(UpperChar(c)) == LowerChar(c)
  {
  }

  /** Lower-casing twice is lower-casing once. */
  lemma {:induction false} LowerIdempotent(s: string)
    ensures Lower(Lower(s)) == Lower(s)
  {
    if s != [] {
      LowerIdempotent(s[1..]);
      assert Lower(s)[1..] == Lower(s[1..]);
    }
  }

  /** `s.split('.')`: the pieces between dots, always at least one. */
  function SplitDots(s: string): (parts: seq<string>)
    ensures |parts| >= 1
  {
    if s == [] then [""]
    else
      var rest := SplitDots(s[1..]);
      if s[0] == '.' then [""] + rest
      else [[s[0]] + rest[0]] + rest[1..]
  }

  /** Splitting a text with no dot gives the text itself. */
  lemma {:induction false} SplitNoDot(a: string)
    requires forall i :: 0 <= i < |a| ==> a[i] != '.'
    ensures SplitDots(a) == [a]
  {
    if a != [] {
      SplitNoDot(a[1..]);
      assert [a[0]] + a[1..] == a;
    }
  }

  /** A dot-free piece followed by a dot splits off as the first part. */
  lemma {:induction false} SplitAtDot(a: string, rest: string)
    requires forall i :: 0 <= i < |a| ==> a[i] != '.'
    ensures SplitDots(a + "." + rest) == [a] + SplitDots(rest)
  {
    if a == [] {
      assert a + "." + rest == "." + rest;
      assert ("." + rest)[1..] == rest;
    } else {
      assert (a + "." + rest)[1..] == a[1..] + "." + rest;
      SplitAtDot(a[1..], rest);
      assert [a[0]] + a[1..] == a;
    }
  }

  /** `'.'.join(parts)`. */
  function JoinDots(parts: seq<string>): string
    requires |parts| >= 1
  {
    if |parts| == 1 then parts[0] else parts[0] + "." + JoinDots(parts[1..])
  }

  /** Joining the pieces of `s.split('.')` with dots gives `s` back. */
  lemma {:induction false} JoinSplit(s: string)
    ensures JoinDots(SplitDots(s)) == s
  {
    if s != [] {
      var rest := SplitDots(s[1..]);
      JoinSplit(s[1..]);
      if s[0] == '.' {
        assert SplitDots(s)[1..] == rest;
      } else if |rest| == 1 {
        assert [s[0]] + s[1..] == s;
      } else {
        var parts := SplitDots(s);
        assert parts[1..] == rest[1..];
        assert JoinDots(rest) == rest[0] + "." + JoinDots(rest[1..]);
        assert [s[0]] + s[1..] == s;
      }
    }
  }
}
