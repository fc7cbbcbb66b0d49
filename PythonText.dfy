/**
 * The behaviour of the Python string and integer built-ins that the ticket
 * script relies on: `str.isspace` and `str.strip()`, the ordering `<` of
 * strings (used by `max`), `str.split(sep)`, `int(str)` and `str(int)`.
 * Strings are sequences of Unicode code points, as in Python 3.
 */
module PythonText {

  datatype Option<+T> = None | Some(value: T)

  // ---------------------------------------------------------------------
  // Whitespace and str.strip()
  // ---------------------------------------------------------------------

  /** The characters for which Python's `str.isspace()` holds. */
  predicate IsSpace(c: char) {
    ('\t' <= c <= '\r') || ('\U{1C}' <= c <= '\U{1F}') || c == ' '
    || c == '\U{85}' || c == '\U{A0}' || c == '\U{1680}'
    || ('\U{2000}' <= c <= '\U{200A}') || c == '\U{2028}' || c == '\U{2029}'
    || c == '\U{202F}' || c == '\U{205F}' || c == '\U{3000}'
  }

  /** The ASCII whitespace of `str.isspace()`, listed character by character. */
  lemma IsSpaceAscii(c: char)
    requires c < '\U{80}'
    ensures IsSpace(c) <==> c in "\t\n\U{B}\U{C}\r\U{1C}\U{1D}\U{1E}\U{1F} "
  {
  }

  /** Every character of `s` is whitespace (the empty string included). */
  predicate IsBlank(s: string) {
    forall i :: 0 <= i < |s| ==> IsSpace(s[i])
  }

  /** `s.lstrip()`: the suffix of `s` left after dropping leading whitespace. */
  function TrimStart(s: string): (r: string)
    ensures |r| <= |s| && r == s[|s| - |r|..]
    ensures IsBlank(s[..|s| - |r|])
    ensures r == [] || !IsSpace(r[0])
  {
    if s == [] || !IsSpace(s[0]) then s
    else
      var r := TrimStart(s[1..]);
      TrimStartStep(s, r);
      r
  }

  /** Dropping one more leading space keeps the trimmed suffix a suffix, with a blank prefix before it. */
  lemma TrimStartStep(s: string, r: string)
    requires s != [] && IsSpace(s[0])
    requires |r| <= |s| - 1 && r == s[1..][|s| - 1 - |r|..] && IsBlank(s[1..][..|s| - 1 - |r|])
    ensures r == s[|s| - |r|..] && IsBlank(s[..|s| - |r|])
  {
    var k := |s| - |r|;
    assert s[1..][k - 1..] == s[k..];
    assert s[..k] == [s[0]] + s[1..][..k - 1];
    BlankCons(s[0], s[1..][..k - 1]);
  }

  lemma BlankCons(c: char, u: string)
    requires IsSpace(c) && IsBlank(u)
    ensures IsBlank([c] + u)
  {
    assert forall i :: 1 <= i < |u| + 1 ==> ([c] + u)[i] == u[i - 1];
  }

  /** `s.rstrip()`: the prefix of `s` left after dropping trailing whitespace. */
  function TrimEnd(s: string): (r: string)
    ensures |r| <= |s| && r == s[..|r|]
    ensures IsBlank(s[|r|..])
    ensures r == [] || !IsSpace(r[|r| - 1])
  {
    if s == [] || !IsSpace(s[|s| - 1]) then s
    else
      var r := TrimEnd(s[..|s| - 1]);
      TrimEndStep(s, r);
      r
  }

  /** Dropping one more trailing space keeps the trimmed prefix a prefix, with a blank tail after it. */
  lemma TrimEndStep(s: string, r: string)
    requires s != [] && IsSpace(s[|s| - 1])
    requires |r| <= |s| - 1 && r == s[..|s| - 1][..|r|] && IsBlank(s[..|s| - 1][|r|..])
    ensures r == s[..|r|] && IsBlank(s[|r|..])
  {
    var u := s[..|s| - 1][|r|..];
    assert u + [s[|s| - 1]] == s[|r|..];
    assert forall i :: 0 <= i < |u| ==> (u + [s[|s| - 1]])[i] == u[i];
  }

  /** `s.strip()`: `s` without its leading and trailing whitespace. */
  function Strip(s: string): (r: string)
    ensures |r| <= |s|
    ensures r == [] || (!IsSpace(r[0]) && !IsSpace(r[|r| - 1]))
    ensures r == [] <==> IsBlank(s)
  {
    var t := TrimStart(s);
    var r := TrimEnd(t);
    assert t != [] ==> t[0] == s[|s| - |t|];
    assert t == [] ==> s[..|s|] == s;
    assert t != [] ==> t[0..] == t && t[0..][0] == t[0];
    r
  }

  /** Stripping a string that neither starts nor ends with whitespace leaves it as it is. */
  lemma StripUnchanged(s: string)
    requires s != [] && !IsSpace(s[0]) && !IsSpace(s[|s| - 1])
    ensures Strip(s) == s
  {
    assert TrimStart(s) == s;
    assert TrimEnd(s) == s;
  }

  // ---------------------------------------------------------------------
  // String ordering (Python's `<` on str, which `max` uses)
  // ---------------------------------------------------------------------

  /** Python's `a < b` on strings: code-point lexicographic order, where a proper prefix is smaller. */
  predicate StrLess(a: string, b: string) {
    if a == [] then b != []
    else if b == [] then false
    else if a[0] != b[0] then a[0] < b[0]
    else StrLess(a[1..], b[1..])
  }

  /** Python's `a <= b` on strings. */
  predicate StrLe(a: string, b: string) {
    a == b || StrLess(a, b)
  }

  lemma {:induction false} StrLessIrreflexive(a: string)
    ensures !StrLess(a, a)
  {
    if a != [] {
      StrLessIrreflexive(a[1..]);
    }
  }

  lemma {:induction false} StrLessAsymmetric(a: string, b: string)
    ensures !(StrLess(a, b) && StrLess(b, a))
  {
    if a != [] && b != [] && a[0] == b[0] {
      StrLessAsymmetric(a[1..], b[1..]);
    }
  }

  lemma {:induction false} StrLessTransitive(a: string, b: string, c: string)
    requires StrLess(a, b) && StrLess(b, c)
    ensures StrLess(a, c)
  {
    if a != [] && a[0] == b[0] && b[0] == c[0] {
      StrLessTransitive(a[1..], b[1..], c[1..]);
    }
  }

  lemma {:induction false} StrLessTotal(a: string, b: string)
    ensures a == b || StrLess(a, b) || StrLess(b, a)
  {
    if a != [] && b != [] && a[0] == b[0] {
      StrLessTotal(a[1..], b[1..]);
      if a[1..] == b[1..] {
        assert a == [a[0]] + a[1..] && b == [b[0]] + b[1..];
      }
    }
  }

  /** A common prefix does not change how two strings compare. */
  lemma {:induction false} StrLessCommonPrefix(p: string, a: string, b: string)
    ensures StrLess(p + a, p + b) <==> StrLess(a, b)
  {
    if p != [] {
      assert (p + a)[1..] == p[1..] + a;
      assert (p + b)[1..] == p[1..] + b;
      StrLessCommonPrefix(p[1..], a, b);
    } else {
      assert p + a == a && p + b == b;
    }
  }

  /** Python's `max(xs)` over strings: the running maximum replaced by each item greater than it. */
  function MaxStr(xs: seq<string>): (m: string)
    requires |xs| > 0
    ensures m in xs
    ensures forall i :: 0 <= i < |xs| ==> StrLe(xs[i], m)
  {
    if |xs| == 1 then xs[0]
    else
      var m0 := MaxStr(xs[..|xs| - 1]);
      var x := xs[|xs| - 1];
      assert forall i :: 0 <= i < |xs| - 1 ==> xs[i] == xs[..|xs| - 1][i];
      if StrLess(m0, x) then
        assert forall i :: 0 <= i < |xs| - 1 ==> StrLe(xs[i], x) by {
          forall i | 0 <= i < |xs| - 1 ensures StrLe(xs[i], x) {
            if xs[i] != m0 {
              StrLessTransitive(xs[i], m0, x);
            }
          }
        }
        x
      else
        StrLessTotal(m0, x);
        m0
  }

  /** Whichever element is at least every element is the one `max` returns. */
  lemma MaxStrIsGreatest(xs: seq<string>, k: nat)
    requires k < |xs|
    requires forall i :: 0 <= i < |xs| ==> StrLe(xs[i], xs[k])
    ensures MaxStr(xs) == xs[k]
  {
    var m := MaxStr(xs);
    var j :| 0 <= j < |xs| && xs[j] == m;
    assert StrLe(xs[k], m) && StrLe(m, xs[k]);
    StrLessAsymmetric(m, xs[k]);
  }

  // ---------------------------------------------------------------------
  // str.split(sep) with an explicit one-character separator
  // ---------------------------------------------------------------------

  /** `s.split(sep)`: the pieces of `s` between occurrences of `sep`; never empty. */
  function Split(s: string, sep: char): (parts: seq<string>)
    ensures |parts| >= 1
    ensures forall i :: 0 <= i < |parts| ==> sep !in parts[i]
  {
    if s == [] then [[]]
    else if s[0] == sep then [[]] + Split(s[1..], sep)
    else
      var rest := Split(s[1..], sep);
      [[s[0]] + rest[0]] + rest[1..]
  }

  /** `sep.join(parts)`. */
  function Join(parts: seq<string>, sep: char): string
    requires |parts| >= 1
  {
    if |parts| == 1 then parts[0] else parts[0] + [sep] + Join(parts[1..], sep)
  }

  /** Joining the pieces of a split gives back the original string. */
  lemma {:induction false} JoinSplit(s: string, sep: char)
    ensures Join(Split(s, sep), sep) == s
  {
    if s != [] {
      var rest := Split(s[1..], sep);
      JoinSplit(s[1..], sep);
      if s[0] == sep {
        assert Split(s, sep)[1..] == rest;
      } else {
        var parts := Split(s, sep);
        assert parts[1..] == rest[1..];
        if |rest| > 1 {
          assert Join(parts, sep) == [s[0]] + (rest[0] + [sep] + Join(rest[1..], sep));
        }
      }
    }
  }

  /** A string without the separator is split into itself alone. */
  lemma {:induction false} SplitNoSeparator(s: string, sep: char)
    requires sep !in s
    ensures Split(s, sep) == [s]
  {
    if s != [] {
      assert forall i :: 0 <= i < |s| - 1 ==> s[1..][i] == s[i + 1];
      SplitNoSeparator(s[1..], sep);
      assert [s[0]] + s[1..] == s;
    }
  }

  /** A piece without the separator, followed by the separator, splits off as the first piece. */
  lemma {:induction false} SplitAfterPiece(p: string, sep: char, rest: string)
    requires sep !in p
    ensures Split(p + [sep] + rest, sep) == [p] + Split(rest, sep)
  {
    var s := p + [sep] + rest;
    if p != [] {
      assert s[1..] == p[1..] + [sep] + rest;
      assert s[0] == p[0];
      assert forall i :: 0 <= i < |p| - 1 ==> p[1..][i] == p[i + 1];
      SplitAfterPiece(p[1..], sep, rest);
      assert [p[0]] + p[1..] == p;
    } else {
      assert s[1..] == rest;
    }
  }

  /** Splitting a join of separator-free pieces gives back the pieces. */
  lemma {:induction false} SplitJoin(parts: seq<string>, sep: char)
    requires |parts| >= 1
    requires forall i :: 0 <= i < |parts| ==> sep !in parts[i]
    ensures Split(Join(parts, sep), sep) == parts
  {
    if |parts| == 1 {
      SplitNoSeparator(parts[0], sep);
    } else {
      assert forall i :: 0 <= i < |parts| - 1 ==> parts[1..][i] == parts[i + 1];
      SplitJoin(parts[1..], sep);
      assert Join(parts, sep) == parts[0] + [sep] + Join(parts[1..], sep);
      SplitAfterPiece(parts[0], sep, Join(parts[1..], sep));
      assert [parts[0]] + parts[1..] == parts;
    }
  }

  // ---------------------------------------------------------------------
  // Decimal digits
  // ---------------------------------------------------------------------

  predicate IsDigit(c: char) {
    '0' <= c <= '9'
  }

  predicate AllDigits(s: string) {
    forall i :: 0 <= i < |s| ==> IsDigit(s[i])
  }

  function DigitValue(c: char): (d: nat)
    requires IsDigit(c)
    ensures d < 10
  {
    c as int - '0' as int
  }

  function DigitChar(d: nat): (c: char)
    requires d < 10
    ensures IsDigit(c) && DigitValue(c) == d
  {
    (48 + d) as char
  }

  /** The number a string of decimal digits denotes (leading zeros allowed). */
  function DigitsValue(s: string): nat
    requires AllDigits(s)
  {
    if s == [] then 0 else DigitsValue(s[..|s| - 1]) * 10 + DigitValue(s[|s| - 1])
  }

  function Pow10(k: nat): (p: nat)
    ensures p >= 1
  {
    if k == 0 then 1 else 10 * Pow10(k - 1)
  }

  /** `str(n)` for a natural number: its decimal digits without leading zeros. */
  function NatToString(n: nat): (s: string)
    ensures |s| > 0 && AllDigits(s)
    ensures DigitsValue(s) == n
    ensures n > 0 ==> s[0] != '0'
    ensures n == 0 ==> s == "0"
  {
    if n < 10 then [DigitChar(n)]
    else
      var s := NatToString(n / 10) + [DigitChar(n % 10)];
      assert s[..|s| - 1] == NatToString(n / 10);
      s
  }

  /** `str(n)` for any integer: a minus sign for negative numbers, then the digits of the magnitude. */
  function IntToString(n: int): string {
    if n < 0 then "-" + NatToString(-n) else NatToString(n)
  }

  /** `str(n)` is a digit string for `n >= 0`, and a minus sign before a digit string without leading zero otherwise. */
  lemma IntToStringShape(n: int)
    ensures n >= 0 ==> |IntToString(n)| > 0 && AllDigits(IntToString(n))
    ensures n < 0 ==> var s := IntToString(n);
                      |s| > 1 && s[0] == '-' && AllDigits(s[1..]) && s[1] != '0'
  {
    if n < 0 {
      var d := NatToString(-n);
      assert IntToString(n)[1..] == d;
    }
  }

  /** Only the digits themselves can make a string of `n` digits: its value stays below `10^n`. */
  lemma {:induction false} DigitsValueBound(s: string)
    requires AllDigits(s)
    ensures DigitsValue(s) < Pow10(|s|)
  {
    if s != [] {
      DigitsValueBound(s[..|s| - 1]);
    }
  }

  /** A digit string's value read from the front: the leading digit weighs `10^(n-1)`. */
  lemma {:induction false} DigitsValueFront(s: string)
    requires AllDigits(s) && |s| > 0
    ensures DigitsValue(s) == DigitValue(s[0]) * Pow10(|s| - 1) + DigitsValue(s[1..])
  {
    var n := |s|;
    if n > 1 {
      var init := s[..n - 1];
      DigitsValueFront(init);
      assert init[1..] == s[1..][..n - 2];
      assert init[0] == s[0];
      assert s[1..][n - 2] == s[n - 1];
      ShiftDigit(DigitValue(s[0]), Pow10(n - 2), DigitsValue(init[1..]), DigitValue(s[n - 1]));
    }
  }

  lemma ShiftDigit(d: int, p: int, mid: int, last: int)
    ensures (d * p + mid) * 10 + last == d * (10 * p) + (mid * 10 + last)
  {
  }

  lemma LeadingDigitDecides(x: nat, y: nat, p: nat, a: nat, b: nat)
    requires x < y && a < p
    ensures x * p + a < y * p + b
  {
    var d: nat := y - x - 1;
    assert (x + 1) * p == x * p + p;
    assert y * p == (x + 1) * p + d * p;
    assert d * p >= 0;
  }

  /** For digit strings of equal length, string order is numeric order. */
  lemma {:induction false} SameWidthOrder(a: string, b: string)
    requires AllDigits(a) && AllDigits(b) && |a| == |b|
    ensures StrLess(a, b) <==> DigitsValue(a) < DigitsValue(b)
  {
    if a != [] {
      var p := Pow10(|a| - 1);
      DigitsValueFront(a);
      DigitsValueFront(b);
      DigitsValueBound(a[1..]);
      DigitsValueBound(b[1..]);
      var x, y := DigitValue(a[0]), DigitValue(b[0]);
      if a[0] == b[0] {
        SameWidthOrder(a[1..], b[1..]);
      } else if x < y {
        LeadingDigitDecides(x, y, p, DigitsValue(a[1..]), DigitsValue(b[1..]));
      } else {
        LeadingDigitDecides(y, x, p, DigitsValue(b[1..]), DigitsValue(a[1..]));
      }
    }
  }

  /** A number between `10^(w-1)` and `10^w` is written with exactly `w` digits. */
  lemma {:induction false} NatToStringWidth(n: nat, w: nat)
    requires w >= 1 && Pow10(w - 1) <= n < Pow10(w)
    ensures |NatToString(n)| == w
  {
    if w > 1 {
      assert Pow10(w - 1) == 10 * Pow10(w - 2);
      assert Pow10(w - 2) <= n / 10 < Pow10(w - 1);
      NatToStringWidth(n / 10, w - 1);
    }
  }

  // ---------------------------------------------------------------------
  // int(str)
  // ---------------------------------------------------------------------

  /** The body of a base-10 literal that `int()` accepts: digits, with single underscores between digits. */
  predicate IsDigitGroup(b: string)
    decreases |b|
  {
    |b| > 0 && IsDigit(b[0])
    && (|b| == 1 || if b[1] == '_' then IsDigitGroup(b[2..]) else IsDigitGroup(b[1..]))
  }

  /** The digits of a digit group with its underscores removed. */
  function DropUnderscores(b: string): (r: string)
    ensures |r| <= |b|
  {
    if b == [] then []
    else if b[0] == '_' then DropUnderscores(b[1..])
    else [b[0]] + DropUnderscores(b[1..])
  }

  /** Removing the underscores of a digit group leaves a non-empty digit string. */
  lemma {:induction false} DigitGroupDigits(b: string)
    requires IsDigitGroup(b)
    ensures |DropUnderscores(b)| > 0 && AllDigits(DropUnderscores(b))
  {
    if |b| > 1 {
      if b[1] == '_' {
        DigitGroupDigits(b[2..]);
        assert b[1..][1..] == b[2..];
      } else {
        DigitGroupDigits(b[1..]);
      }
    }
  }

  /** A non-empty digit string is a digit group and has no underscores to drop. */
  lemma {:induction false} DigitsAreDigitGroup(s: string)
    requires |s| > 0 && AllDigits(s)
    ensures IsDigitGroup(s) && DropUnderscores(s) == s
  {
    if |s| > 1 {
      DigitsAreDigitGroup(s[1..]);
    }
    assert [s[0]] + s[1..] == s;
  }

  /** An unsigned digit group's value, or `None` when `int()` would raise `ValueError`. */
  function ParseUnsigned(b: string): Option<nat> {
    if IsDigitGroup(b) then
      DigitGroupDigits(b);
      Some(DigitsValue(DropUnderscores(b)))
    else None
  }

  /**
   * The ASCII information separators U+001C..U+001F. `str.isspace()` holds
   * for them, but `int()` skips only the ASCII whitespace `\t\n\v\f\r` and
   * space, and non-ASCII whitespace; an information separator makes it raise.
   */
  predicate IsInfoSeparator(c: char) {
    '\U{1C}' <= c <= '\U{1F}'
  }

  /** The whitespace `int()` skips around a literal. */
  predicate IsIntSpace(c: char) {
    IsSpace(c) && !IsInfoSeparator(c)
  }

  /** `s` without the leading and trailing whitespace that `int()` skips. */
  function TrimIntSpace(s: string): string
    decreases |s|
  {
    if s != [] && IsIntSpace(s[0]) then TrimIntSpace(s[1..])
    else if s != [] && IsIntSpace(s[|s| - 1]) then TrimIntSpace(s[..|s| - 1])
    else s
  }

  /**
   * `int(s)` in base 10: surrounding whitespace is ignored, one optional sign,
   * then a digit group. `None` stands for the `ValueError` that `int()` raises.
   */
  function ParseInt(s: string): Option<int> {
    ParseSigned(TrimIntSpace(s))
  }

  /** A stripped literal: one optional sign, then a digit group. */
  function ParseSigned(t: string): Option<int> {
    if |t| > 0 && (t[0] == '+' || t[0] == '-') then
      match ParseUnsigned(t[1..])
      case None => None
      case Some(v) =>
        var n: int := if t[0] == '-' then -(v as int) else v;
        Some(n)
    else
      match ParseUnsigned(t)
      case None => None
      case Some(v) => Some(v)
  }

  /** `int()` of a plain, non-empty digit string is its decimal value. */
  lemma ParseIntDigits(d: string)
    requires |d| > 0 && AllDigits(d)
    ensures ParseInt(d) == Some(DigitsValue(d))
  {
    assert TrimIntSpace(d) == d;
    DigitsAreDigitGroup(d);
    assert ParseSigned(d) == Some(DigitsValue(d));
  }

  /** `int()` of an empty or all-whitespace string raises. */
  lemma ParseIntBlank(s: string)
    requires IsBlank(s)
    ensures ParseInt(s) == None
  {
    var t := TrimIntSpace(s);
    TrimBlank(s);
    if t != [] {
      assert !IsDigit(t[0]) && t[0] != '+' && t[0] != '-';
    }
  }

  /** What `int()` leaves of an all-whitespace string is empty or starts with an information separator. */
  lemma {:induction false} TrimBlank(s: string)
    requires IsBlank(s)
    ensures TrimIntSpace(s) == [] || IsInfoSeparator(TrimIntSpace(s)[0])
    decreases |s|
  {
    if s != [] && IsIntSpace(s[0]) {
      assert IsBlank(s[1..]) by {
        assert forall i :: 0 <= i < |s| - 1 ==> s[1..][i] == s[i + 1];
      }
      TrimBlank(s[1..]);
    } else if s != [] && IsIntSpace(s[|s| - 1]) {
      assert IsBlank(s[..|s| - 1]) by {
        assert forall i :: 0 <= i < |s| - 1 ==> s[..|s| - 1][i] == s[i];
      }
      TrimBlank(s[..|s| - 1]);
    } else if s != [] {
      assert IsSpace(s[0]);
    }
  }

  /** `int("\x1c5")` raises, although `"\x1c".isspace()` holds. */
  lemma SeparatorNotSkipped()
    ensures IsSpace('\U{1C}')
    ensures ParseInt(['\U{1C}', '5']) == None
  {
    var s := ['\U{1C}', '5'];
    assert TrimIntSpace(s) == s;
    assert !IsDigitGroup(s);
  }

  /** `int(str(n)) == n` for every integer `n`. */
  lemma IntStringRoundTrip(n: int)
    ensures ParseInt(IntToString(n)) == Some(n)
  {
    if n < 0 {
      var d := NatToString(-n);
      var s := "-" + d;
      assert s[|s| - 1] == d[|d| - 1];
      assert TrimIntSpace(s) == s;
      assert s[1..] == d;
      DigitsAreDigitGroup(d);
    } else {
      ParseIntDigits(NatToString(n));
    }
  }
}
