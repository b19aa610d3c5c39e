/**
 * The few `java.lang.String` and `java.lang.Integer` operations the task
 * manager relies on, stated over `seq<char>` and unbounded integers.
 */
module JavaText {
  import opened Wrappers

  const MinInt32: int := -0x8000_0000
  const MaxInt32: int := 0x7fff_ffff

  // ---------------------------------------------------------------------
  // String.indexOf(String)
  // ---------------------------------------------------------------------

  /** `pat` occurs in `s` starting at index `k`. */
  predicate OccursAt(s: string, pat: string, k: int)
  {
    0 <= k && k + |pat| <= |s| && s[k..k + |pat|] == pat
  }

  /** `s.indexOf(pat, from)`: the first occurrence at or after `from`, or -1. */
  function IndexOfFrom(s: string, pat: string, from: nat): (r: int)
    requires from <= |s|
    ensures r == -1 || (from <= r && OccursAt(s, pat, r))
    ensures r == -1 ==> forall k :: from <= k ==> !OccursAt(s, pat, k)
    ensures r != -1 ==> forall k :: from <= k < r ==> !OccursAt(s, pat, k)
    decreases |s| - from
  {
    if from + |pat| > |s| then -1
    else if s[from..from + |pat|] == pat then from
    else IndexOfFrom(s, pat, from + 1)
  }

  /** `s.indexOf(pat)`: the first index at which `pat` occurs, or -1 when it never does. */
  function IndexOf(s: string, pat: string): (r: int)
    ensures r == -1 || 0 <= r <= |s| - |pat|
    ensures r == -1 <==> forall k :: 0 <= k ==> !OccursAt(s, pat, k)
    ensures r != -1 ==> OccursAt(s, pat, r) && forall k :: 0 <= k < r ==> !OccursAt(s, pat, k)
  {
    IndexOfFrom(s, pat, 0)
  }

  /** A one-character pattern occurs exactly where that character stands. */
  lemma OccursAtChar(s: string, c: char, k: int)
    requires 0 <= k < |s|
    ensures OccursAt(s, [c], k) <==> s[k] == c
  {
    assert s[k..k + 1] == [s[k]];
  }

  /** `s.indexOf(" ")` read character by character. */
  lemma IndexOfSpace(s: string)
    ensures IndexOf(s, " ") == -1 ==> forall k :: 0 <= k < |s| ==> s[k] != ' '
    ensures IndexOf(s, " ") != -1 ==> s[IndexOf(s, " ")] == ' '
    ensures forall k :: 0 <= k < |s| && (IndexOf(s, " ") == -1 || k < IndexOf(s, " ")) ==> s[k] != ' '
  {
    var i := IndexOf(s, " ");
    forall k | 0 <= k < |s| && (i == -1 || k < i)
      ensures s[k] != ' '
    {
      OccursAtChar(s, ' ', k);
    }
    if i != -1 {
      OccursAtChar(s, ' ', i);
    }
  }

  // ---------------------------------------------------------------------
  // String.toLowerCase and String.trim
  // ---------------------------------------------------------------------

  function ToLowerChar(c: char): char
  {
    if 'A' <= c <= 'Z' then (c as int + 32) as char else c
  }

  /** `s.toLowerCase()`, restricted to the ASCII letters. */
  function ToLower(s: string): (r: string)
    ensures |r| == |s|
    ensures forall k :: 0 <= k < |s| ==> r[k] == ToLowerChar(s[k])
  {
    if s == [] then [] else [ToLowerChar(s[0])] + ToLower(s[1..])
  }

  /** Text without upper-case letters is its own lower case. */
  lemma ToLowerIdentity(s: string)
    requires forall k :: 0 <= k < |s| ==> !('A' <= s[k] <= 'Z')
    ensures ToLower(s) == s
  {
  }

  /** The characters `String.trim` strips: every code point up to and including the space. */
  predicate IsBlank(c: char)
  {
    c <= ' '
  }

  /** `s.trim()`: drops blank characters at both ends. */
  function Trim(s: string): (r: string)
    ensures |r| <= |s|
    ensures r != [] ==> !IsBlank(r[0]) && !IsBlank(r[|r| - 1])
    ensures r == [] <==> forall k :: 0 <= k < |s| ==> IsBlank(s[k])
    ensures (s != [] && !IsBlank(s[0]) && !IsBlank(s[|s| - 1])) ==> r == s
    decreases |s|
  {
    if s == [] then []
    else if IsBlank(s[0]) then
      var r := Trim(s[1..]);
      assert forall k :: 1 <= k < |s| ==> s[k] == s[1..][k - 1];
      r
    else if IsBlank(s[|s| - 1]) then
      var r := Trim(s[..|s| - 1]);
      assert forall k :: 0 <= k < |s| - 1 ==> s[k] == s[..|s| - 1][k];
      r
    else s
  }

  /** `trim` removes blanks at the two ends and nothing else: the result is a contiguous middle of `s`. */
  lemma {:induction false} TrimIsMiddle(s: string) returns (a: nat, b: nat)
    ensures a <= b <= |s| && Trim(s) == s[a..b]
    ensures forall k :: 0 <= k < a ==> IsBlank(s[k])
    ensures forall k :: b <= k < |s| ==> IsBlank(s[k])
    decreases |s|
  {
    if s == [] {
      a, b := 0, 0;
    } else if IsBlank(s[0]) {
      assert Trim(s) == Trim(s[1..]);
      var a', b' := TrimIsMiddle(s[1..]);
      a, b := a' + 1, b' + 1;
      MiddleAfterBlank(s, a', b');
    } else if IsBlank(s[|s| - 1]) {
      var init := s[..|s| - 1];
      assert Trim(s) == Trim(init);
      a, b := TrimIsMiddle(init);
      MiddleBeforeBlank(s, init, a, b);
    } else {
      a, b := 0, |s|;
      assert s[0..|s|] == s;
    }
  }

  /** A middle of `s[1..]` bounded by blanks, shifted by one, when `s[0]` is blank. */
  lemma MiddleAfterBlank(s: string, a: nat, b: nat)
    requires s != [] && IsBlank(s[0]) && a <= b <= |s| - 1
    requires forall k :: 0 <= k < a ==> IsBlank(s[1..][k])
    requires forall k :: b <= k < |s| - 1 ==> IsBlank(s[1..][k])
    ensures s[1..][a..b] == s[a + 1..b + 1]
    ensures forall k :: 0 <= k < a + 1 ==> IsBlank(s[k])
    ensures forall k :: b + 1 <= k < |s| ==> IsBlank(s[k])
  {
    forall k | 1 <= k < |s|
      ensures s[k] == s[1..][k - 1]
    {
    }
  }

  /** A middle of `init`, the text before the last character of `s`, which is blank. */
  lemma MiddleBeforeBlank(s: string, init: string, a: nat, b: nat)
    requires s != [] && init == s[..|s| - 1] && IsBlank(s[|s| - 1]) && a <= b <= |init|
    requires forall k :: 0 <= k < a ==> IsBlank(init[k])
    requires forall k :: b <= k < |init| ==> IsBlank(init[k])
    ensures init[a..b] == s[a..b]
    ensures forall k :: 0 <= k < a ==> IsBlank(s[k])
    ensures forall k :: b <= k < |s| ==> IsBlank(s[k])
  {
    forall k | 0 <= k < |init|
      ensures s[k] == init[k]
    {
    }
  }

  // ---------------------------------------------------------------------
  // Decimal numbers: Integer.parseInt and the "%d" format
  // ---------------------------------------------------------------------

  predicate IsDigit(c: char)
  {
    '0' <= c <= '9'
  }

  predicate AllDigits(s: string)
  {
    forall k :: 0 <= k < |s| ==> IsDigit(s[k])
  }

  function DigitChar(d: nat): (c: char)
    requires d < 10
    ensures IsDigit(c) && c as int - '0' as int == d
  {
    ('0' as int + d) as char
  }

  /** The value of a string of decimal digits, most significant first. */
  function DigitsValue(s: string): nat
    requires AllDigits(s)
  {
    if s == [] then 0 else 10 * DigitsValue(s[..|s| - 1]) + (s[|s| - 1] as int - '0' as int)
  }

  /** The decimal rendering of `n` (what `"%d"` prints for a non-negative int). */
  function NatToString(n: nat): (r: string)
    ensures r != [] && AllDigits(r)
    ensures n == 0 || r[0] != '0'
  {
    if n < 10 then [DigitChar(n)] else NatToString(n / 10) + [DigitChar(n % 10)]
  }

  /** Reading back the digits of `n` gives `n`. */
  lemma {:induction false} NatToStringValue(n: nat)
    ensures DigitsValue(NatToString(n)) == n
  {
    if n >= 10 {
      NatToStringValue(n / 10);
      var s := NatToString(n);
      assert s[..|s| - 1] == NatToString(n / 10);
    }
  }

  /**
   * `Integer.parseInt(s)`: an optional sign followed by at least one decimal
   * digit, whose value fits in 32 bits; anything else is a NumberFormatException
   * (None).
   */
  function ParseInt(s: string): (r: Option<int>)
    ensures r.Some? ==> MinInt32 <= r.value <= MaxInt32
    ensures r.Some? ==>
      s != [] &&
      var digits := if s[0] == '-' || s[0] == '+' then s[1..] else s;
      digits != [] && AllDigits(digits) &&
      r.value == (if s[0] == '-' then -(DigitsValue(digits) as int) else DigitsValue(digits))
    ensures s != [] ==>
      var digits := if s[0] == '-' || s[0] == '+' then s[1..] else s;
      (digits != [] && AllDigits(digits) &&
       MinInt32 <= (if s[0] == '-' then -(DigitsValue(digits) as int) else DigitsValue(digits)) <= MaxInt32) ==>
      r.Some?
  {
    if s == [] then None
    else
      var digits := if s[0] == '-' || s[0] == '+' then s[1..] else s;
      if digits == [] || !AllDigits(digits) then None
      else
        var v: int := if s[0] == '-' then -(DigitsValue(digits) as int) else DigitsValue(digits);
        if MinInt32 <= v <= MaxInt32 then Some(v) else None
  }

  /** Parsing what `"%d"` prints for a 32-bit non-negative number gives the number back. */
  lemma ParseNatToString(n: nat)
    requires n <= MaxInt32
    ensures ParseInt(NatToString(n)) == Some(n)
  {
    NatToStringValue(n);
    var s := NatToString(n);
    assert IsDigit(s[0]);
  }

  // ---------------------------------------------------------------------
  // 32-bit int arithmetic
  // ---------------------------------------------------------------------

  /** The Java `int` that an exact integer wraps to. */
  function Wrap32(x: int): (r: int)
    ensures MinInt32 <= r <= MaxInt32
    ensures MinInt32 <= x <= MaxInt32 ==> r == x
    ensures x == MinInt32 - 1 ==> r == MaxInt32
  {
    (x - MinInt32) % 0x1_0000_0000 + MinInt32
  }
}
