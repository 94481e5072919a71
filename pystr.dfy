/**
 * The Python string operations the extractors are built from: `str.find`,
 * slicing with negative and out-of-range indices, `strip`/`rstrip`,
 * `replace`, `int(...)` on text and `str(...)` on a non-negative integer.
 * Characters stand for Unicode code points; digits are the ASCII digits.
 */
module PyStr {
  import opened Opt

  /** `sub` occurs in `s` starting at index `i`. */
  predicate IsAt(s: string, i: int, sub: string) {
    0 <= i && i + |sub| <= |s| && s[i..i + |sub|] == sub
  }

  /** `s.find(sub, start)`: the first index at or after `start` where `sub` occurs, or -1. */
  function FindFrom(s: string, sub: string, start: nat): (r: int)
    ensures r == -1 || (start <= r && IsAt(s, r, sub))
    decreases |s| - start
  {
    if start + |sub| > |s| then -1
    else if s[start..start + |sub|] == sub then start
    else FindFrom(s, sub, start + 1)
  }

  /** `FindFrom` answers -1 only when nothing occurs from `start` on, and otherwise the first occurrence. */
  lemma {:induction false} FindFromFirst(s: string, sub: string, start: nat)
    ensures var r := FindFrom(s, sub, start);
      && (r == -1 <==> forall j :: start <= j ==> !IsAt(s, j, sub))
      && (r != -1 ==> forall j :: start <= j < r ==> !IsAt(s, j, sub))
    decreases |s| - start
  {
    if start + |sub| > |s| {
      assert forall j :: start <= j ==> !IsAt(s, j, sub);
    } else if s[start..start + |sub|] != sub {
      assert !IsAt(s, start, sub);
      FindFromFirst(s, sub, start + 1);
    }
  }

  /** `s.find(sub)`: the first index where `sub` occurs, or -1 when it does not occur. */
  function Find(s: string, sub: string): (r: int)
    ensures r == -1 || IsAt(s, r, sub)
  {
    FindFrom(s, sub, 0)
  }

  /** `Find` answers -1 exactly when `sub` does not occur, and otherwise its first occurrence. */
  lemma FindFirst(s: string, sub: string)
    ensures Find(s, sub) == -1 <==> forall j :: !IsAt(s, j, sub)
    ensures Find(s, sub) != -1 ==> forall j :: 0 <= j < Find(s, sub) ==> !IsAt(s, j, sub)
  {
    FindFromFirst(s, sub, 0);
  }

  /** The first occurrence is what `Find` returns. */
  lemma FindIsFirst(s: string, sub: string, r: nat)
    requires IsAt(s, r, sub)
    requires forall j :: 0 <= j < r ==> !IsAt(s, j, sub)
    ensures Find(s, sub) == r
  {
    FindFirst(s, sub);
  }

  /** Nothing is found when `sub` occurs nowhere. */
  lemma FindAbsent(s: string, sub: string)
    requires forall j :: !IsAt(s, j, sub)
    ensures Find(s, sub) == -1
  {
    FindFirst(s, sub);
  }

  /** The first occurrence at or after `start` is what `FindFrom` returns. */
  lemma FindFromIsFirst(s: string, sub: string, start: nat, r: nat)
    requires start <= r && IsAt(s, r, sub)
    requires forall j :: start <= j < r ==> !IsAt(s, j, sub)
    ensures FindFrom(s, sub, start) == r
  {
    FindFromFirst(s, sub, start);
  }

  /** Nothing is found from `start` on when nothing occurs there. */
  lemma FindFromAbsent(s: string, sub: string, start: nat)
    requires forall j :: start <= j ==> !IsAt(s, j, sub)
    ensures FindFrom(s, sub, start) == -1
  {
    FindFromFirst(s, sub, start);
  }

  /** A one-character pattern occurs exactly where that character stands. */
  lemma IsAtChar(s: string, j: int, c: char)
    ensures IsAt(s, j, [c]) <==> 0 <= j < |s| && s[j] == c
  {
    if 0 <= j < |s| {
      assert |s[j..j + 1]| == 1 && s[j..j + 1][0] == s[j];
    }
  }

  /** Python's `sub in s`. */
  function Contains(s: string, sub: string): (b: bool)
    ensures b <==> exists j :: IsAt(s, j, sub)
  {
    FindFirst(s, sub);
    Find(s, sub) != -1
  }

  /** How a slice bound is normalised: a negative bound counts from the end, then it is clamped to [0, n]. */
  function SliceBound(i: int, n: nat): (r: nat)
    ensures r <= n
    ensures 0 <= i <= n ==> r == i
    ensures -(n as int) <= i < 0 ==> r == i + n
    ensures i < -(n as int) ==> r == 0
    ensures n < i ==> r == n
  {
    if i < 0 then (if i + n < 0 then 0 else i + n)
    else if i > n then n
    else i
  }

  /** Python's `s[a:b]`. */
  function PySlice(s: string, a: int, b: int): (r: string)
    ensures |r| <= |s|
    ensures 0 <= a <= b <= |s| ==> r == s[a..b]
  {
    var lo := SliceBound(a, |s|);
    var hi := SliceBound(b, |s|);
    if lo < hi then s[lo..hi] else []
  }

  /** Python's `s[a:]`. */
  function PySliceFrom(s: string, a: int): (r: string)
    ensures |r| <= |s|
    ensures 0 <= a <= |s| ==> r == s[a..]
  {
    PySlice(s, a, |s|)
  }

  /** `str.isspace()` for one character: the characters Python strips by default. */
  predicate IsSpace(c: char) {
    c == ' ' || ('\t' <= c <= '\r') || ('\U{1c}' <= c <= '\U{1f}')
    || c == '\U{85}' || c == '\U{a0}' || c == '\U{1680}'
    || ('\U{2000}' <= c <= '\U{200a}') || c == '\U{2028}' || c == '\U{2029}'
    || c == '\U{202f}' || c == '\U{205f}' || c == '\U{3000}'
  }

  /** `s.rstrip()`: `s` without its trailing whitespace. */
  function RStrip(s: string): (r: string)
    ensures |r| <= |s|
  {
    if |s| > 0 && IsSpace(s[|s| - 1]) then RStrip(s[..|s| - 1]) else s
  }

  /** `rstrip` keeps a prefix, ends on a non-space, and drops only whitespace. */
  lemma {:induction false} RStripShape(s: string)
    ensures var r := RStrip(s);
      && r == s[..|r|]
      && (r == [] || !IsSpace(r[|r| - 1]))
      && forall i :: |r| <= i < |s| ==> IsSpace(s[i])
    decreases |s|
  {
    if |s| > 0 && IsSpace(s[|s| - 1]) {
      RStripShape(s[..|s| - 1]);
    }
  }

  /** `s.lstrip()`: `s` without its leading whitespace. */
  function LStrip(s: string): (r: string)
    ensures |r| <= |s|
  {
    if |s| > 0 && IsSpace(s[0]) then LStrip(s[1..]) else s
  }

  /** `lstrip` keeps a suffix, starts on a non-space, and drops only whitespace. */
  lemma {:induction false} LStripShape(s: string)
    ensures var r := LStrip(s);
      && r == s[|s| - |r|..]
      && (r == [] || !IsSpace(r[0]))
      && forall i :: 0 <= i < |s| - |r| ==> IsSpace(s[i])
    decreases |s|
  {
    if |s| > 0 && IsSpace(s[0]) {
      LStripShape(s[1..]);
    }
  }

  /** `s.strip()`. */
  function Strip(s: string): (r: string)
    ensures |r| <= |s|
  {
    LStrip(RStrip(s))
  }

  /** `strip` leaves neither leading nor trailing whitespace. */
  lemma StripTrimmed(s: string)
    ensures var r := Strip(s); r == [] || (!IsSpace(r[0]) && !IsSpace(r[|r| - 1]))
  {
    RStripShape(s);
    LStripShape(RStrip(s));
  }

  /** Text without surrounding whitespace comes out of `strip` unchanged. */
  lemma {:induction false} StripOfTrimmed(s: string)
    requires s == [] || (!IsSpace(s[0]) && !IsSpace(s[|s| - 1]))
    ensures Strip(s) == s
  {
  }

  predicate IsDigit(c: char) {
    '0' <= c <= '9'
  }

  predicate AllDigits(s: string) {
    forall i :: 0 <= i < |s| ==> IsDigit(s[i])
  }

  /** The value of a run of decimal digits, most significant first. */
  function DigitsValue(ds: string): (v: nat)
    requires AllDigits(ds)
  {
    if ds == [] then 0
    else DigitsValue(ds[..|ds| - 1]) * 10 + (ds[|ds| - 1] as int - '0' as int)
  }

  /** One or two digits have a value below 100. */
  lemma ShortDigitsValue(ds: string)
    requires AllDigits(ds) && |ds| <= 2
    ensures DigitsValue(ds) < 100
  {
    if |ds| == 2 {
      assert DigitsValue(ds[..1]) < 10;
    }
  }

  /** The length of the run of digits that starts at index `i`. */
  function DigitRun(s: string, i: nat): (k: nat)
    requires i <= |s|
    ensures i + k <= |s|
    ensures AllDigits(s[i..i + k])
    ensures i + k == |s| || !IsDigit(s[i + k])
    decreases |s| - i
  {
    if i < |s| && IsDigit(s[i]) then
      var k := 1 + DigitRun(s, i + 1);
      assert s[i..i + k] == [s[i]] + s[i + 1..i + k];
      k
    else 0
  }

  /** `int(s)` on a string: surrounding whitespace, an optional sign, then decimal digits. */
  function ParseInt(s: string): (r: Option<int>)
  {
    var t := Strip(s);
    if |t| > 0 && (t[0] == '+' || t[0] == '-') then
      var ds := t[1..];
      if |ds| > 0 && AllDigits(ds) then
        Some(if t[0] == '-' then 0 - DigitsValue(ds) else DigitsValue(ds))
      else None
    else if |t| > 0 && AllDigits(t) then Some(DigitsValue(t))
    else None
  }

  /** Parsing text of at most two characters gives a value in [-9, 99], and nothing for empty text. */
  lemma ParseIntShort(s: string)
    requires |s| <= 2
    ensures ParseInt(s).Some? ==> -9 <= ParseInt(s).value <= 99
    ensures Strip(s) == [] ==> ParseInt(s) == None
  {
    var t := Strip(s);
    if |t| > 0 && (t[0] == '+' || t[0] == '-') {
      if |t[1..]| > 0 && AllDigits(t[1..]) {
        ShortDigitsValue(t[1..]);
        assert DigitsValue(t[1..]) < 10 by {
          assert t[1..] == t[1..][..0] + [t[1]];
        }
      }
    } else if |t| > 0 && AllDigits(t) {
      ShortDigitsValue(t);
    }
  }

  /** A plain run of digits parses to its value. */
  lemma ParseIntDigits(ds: string)
    requires |ds| > 0 && AllDigits(ds)
    ensures ParseInt(ds) == Some(DigitsValue(ds))
  {
    StripOfTrimmed(ds);
  }

  /** `int` on padded, signed and malformed texts. */
  lemma ParseIntCases()
    ensures ParseInt(" 7") == Some(7)
    ensures ParseInt("05") == Some(5)
    ensures ParseInt("-5") == Some(-5)
    ensures ParseInt("x5") == None
    ensures ParseInt("+") == None
  {
    assert Strip(" 7") == "7" by {
      assert RStrip(" 7") == " 7";
      assert LStrip(" 7") == "7";
    }
    assert Strip("05") == "05" by {
      StripOfTrimmed("05");
    }
    assert Strip("-5") == "-5" by {
      StripOfTrimmed("-5");
    }
    assert Strip("x5") == "x5" by {
      StripOfTrimmed("x5");
    }
    assert Strip("+") == "+" by {
      StripOfTrimmed("+");
    }
    assert "05"[..1] == "0";
  }

  /** `str(n)` for a non-negative integer. */
  function NatToString(n: nat): (r: string)
    ensures |r| > 0 && AllDigits(r)
    ensures DigitsValue(r) == n
  {
    if n < 10 then ['0' + n as char]
    else
      var r := NatToString(n / 10) + ['0' + (n % 10) as char];
      assert r[..|r| - 1] == NatToString(n / 10);
      r
  }

  /**
   * `s.replace(pat, rep)`: every occurrence of `pat`, scanning left to right
   * and not overlapping, replaced by `rep`.
   */
  function Replace(s: string, pat: string, rep: string): (r: string)
    requires |pat| > 0
    ensures (forall j :: !IsAt(s, j, pat)) ==> r == s
    decreases |s|
  {
    var i := Find(s, pat);
    if i == -1 then s else s[..i] + rep + Replace(s[i + |pat|..], pat, rep)
  }
}
