/**
  The string operations the schemas and controllers rely on:
  `String.prototype.trim`, ASCII `toLowerCase` / `toUpperCase`, the user
  schema's email pattern `.+@.+\..+`, and decimal rendering of integers.
 */
module Text {

  /** The characters `trim` removes: ECMAScript WhiteSpace and LineTerminator. */
  predicate IsWhitespace(c: char) {
    || c == ' ' || c == '\t' || c == '\n' || c == '\r'
    || c == '\U{000B}' || c == '\U{000C}' || c == '\U{00A0}' || c == '\U{FEFF}'
    || c == '\U{1680}' || ('\U{2000}' <= c <= '\U{200A}')
    || c == '\U{2028}' || c == '\U{2029}' || c == '\U{202F}' || c == '\U{205F}' || c == '\U{3000}'
  }

  /** The characters the regular-expression `.` does not match. */
  predicate IsLineTerminator(c: char) {
    c == '\n' || c == '\r' || c == '\U{2028}' || c == '\U{2029}'
  }

  function TrimStart(s: string): (r: string)
    ensures |r| <= |s| && r == s[|s| - |r|..]
    ensures r == [] || !IsWhitespace(r[0])
    ensures forall i :: 0 <= i < |s| - |r| ==> IsWhitespace(s[i])
  {
    if s != [] && IsWhitespace(s[0]) then TrimStart(s[1..]) else s
  }

  function TrimEnd(s: string): (r: string)
    ensures |r| <= |s| && r == s[..|r|]
    ensures r == [] || !IsWhitespace(r[|r| - 1])
    ensures forall i :: |r| <= i < |s| ==> IsWhitespace(s[i])
  {
    if s != [] && IsWhitespace(s[|s| - 1]) then TrimEnd(s[..|s| - 1]) else s
  }

  /** How many leading characters `trim` drops. */
  function TrimOffset(s: string): (k: nat)
    ensures k <= |s|
    ensures forall m :: 0 <= m < k ==> IsWhitespace(s[m])
    ensures k == |s| || !IsWhitespace(s[k])
  {
    |s| - |TrimStart(s)|
  }

  /**
    `s.trim()`: the infix of `s` left after dropping leading and trailing
    whitespace; every dropped character is whitespace and what remains
    neither starts nor ends with whitespace.
   */
  function Trim(s: string): (r: string)
    ensures TrimOffset(s) + |r| <= |s| && r == s[TrimOffset(s)..TrimOffset(s) + |r|]
    ensures forall m :: TrimOffset(s) + |r| <= m < |s| ==> IsWhitespace(s[m])
    ensures r == [] || (!IsWhitespace(r[0]) && !IsWhitespace(r[|r| - 1]))
  {
    var t := TrimStart(s);
    var r := TrimEnd(t);
    assert r == s[|s| - |t|..][..|r|] == s[|s| - |t|..|s| - |t| + |r|];
    assert forall m :: |r| <= m < |t| ==> t[m] == s[|s| - |t| + m];
    r
  }

  /** Trimming a trimmed string changes nothing (the schema setters re-run on save). */
  lemma TrimIdempotent(s: string)
    ensures Trim(Trim(s)) == Trim(s)
  {
    var r := Trim(s);
    assert TrimStart(r) == r;
    assert TrimEnd(r) == r;
  }

  /** A string with no surrounding whitespace is its own trim. */
  lemma TrimOfTrimmed(s: string)
    requires s == [] || (!IsWhitespace(s[0]) && !IsWhitespace(s[|s| - 1]))
    ensures Trim(s) == s
  {
  }

  /** An upper-case ASCII letter becomes its lower-case letter, 32 code points on; every other character is kept. */
  function LowerChar(c: char): (d: char)
    ensures !('A' <= d <= 'Z')
    ensures 'A' <= c <= 'Z' ==> 'a' <= d <= 'z' && d as int == c as int + 32
    ensures !('A' <= c <= 'Z') ==> d == c
    ensures IsWhitespace(d) == IsWhitespace(c)
    ensures IsLineTerminator(d) == IsLineTerminator(c)
  {
    if 'A' <= c <= 'Z' then (c as int - 'A' as int + 'a' as int) as char else c
  }

  /** A lower-case ASCII letter becomes its upper-case letter, 32 code points back; every other character is kept. */
  function UpperChar(c: char): (d: char)
    ensures !('a' <= d <= 'z')
    ensures 'a' <= c <= 'z' ==> 'A' <= d <= 'Z' && d as int == c as int - 32
    ensures !('a' <= c <= 'z') ==> d == c
    ensures IsWhitespace(d) == IsWhitespace(c)
    ensures IsLineTerminator(d) == IsLineTerminator(c)
  {
    if 'a' <= c <= 'z' then (c as int - 'a' as int + 'A' as int) as char else c
  }

  /** `s.toLowerCase()` over ASCII letters. */
  function ToLower(s: string): (r: string)
    ensures |r| == |s|
    ensures forall i :: 0 <= i < |s| ==> r[i] == LowerChar(s[i])
    ensures forall i :: 0 <= i < |r| ==> !('A' <= r[i] <= 'Z')
  {
    seq(|s|, i requires 0 <= i < |s| => LowerChar(s[i]))
  }

  /** `s.toUpperCase()` over ASCII letters. */
  function ToUpper(s: string): (r: string)
    ensures |r| == |s|
    ensures forall i :: 0 <= i < |s| ==> r[i] == UpperChar(s[i])
    ensures forall i :: 0 <= i < |r| ==> !('a' <= r[i] <= 'z')
  {
    seq(|s|, i requires 0 <= i < |s| => UpperChar(s[i]))
  }

  lemma ToLowerIdempotent(s: string)
    ensures ToLower(ToLower(s)) == ToLower(s)
  {
  }

  lemma ToUpperIdempotent(s: string)
    ensures ToUpper(ToUpper(s)) == ToUpper(s)
  {
  }

  lemma {:induction false} TrimStartOfLower(s: string)
    ensures TrimStart(ToLower(s)) == ToLower(TrimStart(s))
    decreases |s|
  {
    if s != [] && IsWhitespace(s[0]) {
      assert ToLower(s)[1..] == ToLower(s[1..]);
      TrimStartOfLower(s[1..]);
    }
  }

  lemma {:induction false} TrimEndOfLower(s: string)
    ensures TrimEnd(ToLower(s)) == ToLower(TrimEnd(s))
    decreases |s|
  {
    if s != [] && IsWhitespace(s[|s| - 1]) {
      assert ToLower(s)[..|s| - 1] == ToLower(s[..|s| - 1]);
      TrimEndOfLower(s[..|s| - 1]);
    }
  }

  /**
    The user schema declares both `lowercase` and `trim` on `email`; the
    order in which the two setters run does not matter.
   */
  lemma LowerTrimCommute(s: string)
    ensures Trim(ToLower(s)) == ToLower(Trim(s))
  {
    TrimStartOfLower(s);
    TrimEndOfLower(TrimStart(s));
  }

  /** Upper-casing a trimmed string leaves it trimmed, since case mapping never creates or removes whitespace. */
  lemma UpperOfTrimmed(s: string)
    ensures Trim(ToUpper(Trim(s))) == ToUpper(Trim(s))
  {
    var u := ToUpper(Trim(s));
    assert u == [] || (!IsWhitespace(u[0]) && !IsWhitespace(u[|u| - 1]));
    TrimOfTrimmed(u);
  }

  /** No line terminator among `s[lo..hi]`. */
  predicate NoBreakIn(s: string, lo: int, hi: int)
    requires 0 <= lo <= hi <= |s|
  {
    forall m :: lo <= m < hi ==> !IsLineTerminator(s[m])
  }

  /**
    The email pattern `.+@.+\..+` (unanchored): some infix `s[a..b]` is one
    or more non-line-terminators, `@`, one or more non-line-terminators, a
    dot, one or more non-line-terminators.
   */
  ghost predicate MatchesEmailPattern(s: string) {
    exists a, i, j, b :: 0 <= a < i && i + 1 < j && j + 1 < b <= |s|
      && s[i] == '@' && s[j] == '.' && NoBreakIn(s, a, b)
  }

  /**
    Whether the line `s[from..k]` holds an `@` with a character before it
    and a later dot with at least one character on each side.
   */
  predicate LineHasEmail(s: string, from: nat, k: nat)
    requires from <= k <= |s|
  {
    exists i, j :: from < i && i + 1 < j && j + 1 < k && s[i] == '@' && s[j] == '.'
  }

  /** Index of the first line terminator of `s` at or after `from`, or `|s|`. */
  function NextBreak(s: string, from: nat): (k: nat)
    requires from <= |s|
    ensures from <= k <= |s|
    ensures k == |s| || IsLineTerminator(s[k])
    ensures NoBreakIn(s, from, k)
    decreases |s| - from
  {
    if from == |s| || IsLineTerminator(s[from]) then from else NextBreak(s, from + 1)
  }

  /**
    The validator the schema runs, scanning one line at a time from
    `from`: every infix the pattern can match lies inside a single line.
   */
  function EmailShapeFrom(s: string, from: nat): (ok: bool)
    requires from <= |s|
    decreases |s| - from
  {
    var k := NextBreak(s, from);
    if LineHasEmail(s, from, k) then true
    else if k == |s| then false
    else EmailShapeFrom(s, k + 1)
  }

  /** Whether `s` passes the user schema's email `match` validator. */
  function EmailShapeOk(s: string): (ok: bool) {
    EmailShapeFrom(s, 0)
  }

  lemma {:induction false} ShapeFromSound(s: string, from: nat)
    requires from <= |s|
    requires EmailShapeFrom(s, from)
    ensures MatchesEmailPattern(s)
    decreases |s| - from
  {
    var k := NextBreak(s, from);
    if LineHasEmail(s, from, k) {
      var i, j :| from < i && i + 1 < j && j + 1 < k && s[i] == '@' && s[j] == '.';
      assert NoBreakIn(s, i - 1, j + 2);
    } else {
      ShapeFromSound(s, k + 1);
    }
  }

  /** A match inside the line that starts at `from` is found by the scan. */
  lemma ShapeFromComplete(s: string, from: nat, i: nat, j: nat, b: nat)
    requires from < i && i + 1 < j && j + 1 < b <= |s|
    requires s[i] == '@' && s[j] == '.' && NoBreakIn(s, from, b)
    ensures EmailShapeFrom(s, from)
  {
    var k := NextBreak(s, from);
    assert k >= b;
    assert LineHasEmail(s, from, k);
  }

  /** If the scan succeeds at a later line start, it succeeds from `from`. */
  lemma {:induction false} ScanReaches(s: string, from: nat, start: nat)
    requires from <= start <= |s|
    requires start == from || (start > 0 && IsLineTerminator(s[start - 1]))
    requires EmailShapeFrom(s, start)
    ensures EmailShapeFrom(s, from)
    decreases start - from
  {
    if start != from {
      var k := NextBreak(s, from);
      assert k < start;
      if !LineHasEmail(s, from, k) {
        ScanReaches(s, k + 1, start);
      }
    }
  }

  /** The scanning validator decides exactly the email pattern. */
  lemma EmailShapeCorrect(s: string)
    ensures EmailShapeOk(s) <==> MatchesEmailPattern(s)
  {
    if EmailShapeOk(s) {
      ShapeFromSound(s, 0);
    }
    if MatchesEmailPattern(s) {
      var a, i, j, b :| 0 <= a < i && i + 1 < j && j + 1 < b <= |s|
        && s[i] == '@' && s[j] == '.' && NoBreakIn(s, a, b);
      var a' := a;
      // move the start of the match back to the start of its line
      while a' > 0 && !IsLineTerminator(s[a' - 1])
        invariant 0 <= a' <= a
        invariant NoBreakIn(s, a', b)
        decreases a'
      {
        a' := a' - 1;
      }
      ShapeFromComplete(s, a', i, j, b);
      ScanReaches(s, 0, a');
    }
  }

  /** Decimal digits of a natural number, most significant first. */
  function NatToDecimal(n: nat): (r: string)
    ensures |r| >= 1
    ensures forall i :: 0 <= i < |r| ==> '0' <= r[i] <= '9'
    ensures r[0] == '0' <==> n == 0
    decreases n
  {
    if n < 10 then [DigitChar(n)] else NatToDecimal(n / 10) + [DigitChar(n % 10)]
  }

  function DigitChar(d: nat): (c: char)
    requires d < 10
    ensures '0' <= c <= '9' && c as int - '0' as int == d
  {
    ('0' as int + d) as char
  }

  /** The value of a string of decimal digits, the inverse of `NatToDecimal`. */
  function DecimalValue(s: string): (n: nat)
    requires IsDigits(s)
  {
    if s == [] then 0 else DecimalValue(s[..|s| - 1]) * 10 + (s[|s| - 1] as int - '0' as int)
  }

  lemma {:induction false} DecimalRoundTrip(n: nat)
    ensures DecimalValue(NatToDecimal(n)) == n
    decreases n
  {
    if n >= 10 {
      var r := NatToDecimal(n);
      assert r[..|r| - 1] == NatToDecimal(n / 10);
      DecimalRoundTrip(n / 10);
    }
  }

  /**
    `String(n)` for an integer `n`: the digits of its magnitude, with no
    leading zero, after a "-" when it is negative; they read back as `n`.
   */
  function IntToDecimal(n: int): (r: string)
    ensures n >= 0 ==> IsDigits(r) && DecimalValue(r) == n
    ensures n < 0 ==> |r| >= 2 && r[0] == '-' && IsDigits(r[1..]) && DecimalValue(r[1..]) == -n
    ensures n >= 0 ==> |r| >= 1 && (|r| == 1 || r[0] != '0')
    ensures n < 0 ==> r[1] != '0'
  {
    if n >= 0 then
      DecimalRoundTrip(n);
      NatToDecimal(n)
    else
      DecimalRoundTrip(-n);
      var digits := NatToDecimal(-n);
      assert ("-" + digits)[1..] == digits;
      "-" + digits
  }

  predicate IsDigits(s: string) {
    forall i :: 0 <= i < |s| ==> '0' <= s[i] <= '9'
  }
}
