/** The few string operations of JavaScript the lineage engine relies on:
    `trim`, `parseInt`, number-to-decimal conversion, `split(...).pop()`,
    `split(':')` into a head and the rest, and `replace` of one character.
    Whitespace is modelled as space, tab, carriage return and line feed. */
module Text {
  import opened Wrappers

  predicate IsSpace(ch: char) {
    ch == ' ' || ch == '\t' || ch == '\n' || ch == '\r'
  }

  predicate IsDigit(ch: char) {
    '0' <= ch <= '9'
  }

  predicate AllSpace(s: string) {
    forall k :: 0 <= k < |s| ==> IsSpace(s[k])
  }

  predicate AllDigits(s: string) {
    forall k :: 0 <= k < |s| ==> IsDigit(s[k])
  }

  /** A string that `trim` leaves alone: no whitespace at either end. */
  predicate IsTrimmed(s: string) {
    |s| == 0 || (!IsSpace(s[0]) && !IsSpace(s[|s| - 1]))
  }

  /** Drops the leading whitespace (`trimStart`). */
  function TrimStart(s: string): string {
    if |s| > 0 && IsSpace(s[0]) then TrimStart(s[1..]) else s
  }

  lemma {:induction false} TrimStartFacts(s: string)
    ensures var r := TrimStart(s);
      && |r| <= |s| && r == s[|s| - |r|..]
      && (|r| == 0 || !IsSpace(r[0]))
      && (forall k :: 0 <= k < |s| - |r| ==> IsSpace(s[k]))
  {
    if |s| > 0 && IsSpace(s[0]) {
      TrimStartFacts(s[1..]);
    }
  }

  /** Drops the trailing whitespace (`trimEnd`). */
  function TrimEnd(s: string): string {
    if |s| > 0 && IsSpace(s[|s| - 1]) then TrimEnd(s[..|s| - 1]) else s
  }

  lemma {:induction false} TrimEndFacts(s: string)
    ensures var r := TrimEnd(s);
      && |r| <= |s| && r == s[..|r|]
      && (|r| == 0 || !IsSpace(r[|r| - 1]))
      && (forall k :: |r| <= k < |s| ==> IsSpace(s[k]))
  {
    if |s| > 0 && IsSpace(s[|s| - 1]) {
      TrimEndFacts(s[..|s| - 1]);
    }
  }

  /** JavaScript's `String.prototype.trim`. */
  function Trim(s: string): (r: string)
    ensures IsTrimmed(r)
    ensures |r| == 0 <==> AllSpace(s)
    ensures IsTrimmed(s) ==> r == s
  {
    var t := TrimStart(s);
    var r := TrimEnd(t);
    TrimStartFacts(s);
    TrimEndFacts(t);
    assert |r| > 0 ==> r[0] == t[0];
    r
  }

  /** The trimmed text is the input with its surrounding whitespace removed: a slice
      of the input with only whitespace before and after it. */
  lemma TrimRemovesSurroundingSpace(s: string)
    ensures exists i, j :: 0 <= i <= j <= |s| && Trim(s) == s[i..j] && AllSpace(s[..i]) && AllSpace(s[j..])
  {
    var t := TrimStart(s);
    TrimStartFacts(s);
    TrimEndFacts(t);
    var i := |s| - |t|;
    var j := i + |Trim(s)|;
    assert Trim(s) == t[..|Trim(s)|];
    assert t == s[i..];
    assert Trim(s) == s[i..j];
    assert AllSpace(s[..i]) by {
      forall k | 0 <= k < |s[..i]| ensures IsSpace(s[..i][k]) {
        assert s[..i][k] == s[k];
      }
    }
    assert AllSpace(s[j..]) by {
      forall k | 0 <= k < |s[j..]| ensures IsSpace(s[j..][k]) {
        assert s[j..][k] == t[|Trim(s)| + k];
      }
    }
  }

  /** Trimming is idempotent, and whitespace added at the front is trimmed away again. */
  lemma TrimOfSpacePrefixed(t: string)
    requires IsTrimmed(t)
    ensures Trim(" " + t) == t
  {
    var s := " " + t;
    assert s[1..] == t;
    assert TrimStart(s) == TrimStart(t);
    if |t| > 0 {
      assert TrimStart(t) == t;
    }
    TrimEndFacts(t);
  }

  function DigitChar(d: nat): (ch: char)
    requires d < 10
    ensures IsDigit(ch)
  {
    ('0' as int + d) as char
  }

  function DigitValue(ch: char): (d: nat)
    requires IsDigit(ch)
    ensures d < 10 && DigitChar(d) == ch
  {
    ch as int - '0' as int
  }

  /** The value of a string of decimal digits (leading zeros allowed). */
  function DigitsValue(s: string): nat
    requires AllDigits(s)
  {
    if |s| == 0 then 0 else DigitsValue(s[..|s| - 1]) * 10 + DigitValue(s[|s| - 1])
  }

  /** The decimal rendering of a number, as in a template literal `${n}`. */
  function NatToString(n: nat): (r: string)
    ensures |r| > 0 && AllDigits(r)
  {
    if n < 10 then [DigitChar(n)] else NatToString(n / 10) + [DigitChar(n % 10)]
  }

  lemma {:induction false} NatToStringRoundTrip(n: nat)
    ensures DigitsValue(NatToString(n)) == n
  {
    if n >= 10 {
      var a := NatToString(n / 10);
      var s := a + [DigitChar(n % 10)];
      assert s[..|s| - 1] == a;
      NatToStringRoundTrip(n / 10);
    }
  }

  /** Decimal renderings of distinct numbers are distinct. */
  lemma NatToStringInjective(a: nat, b: nat)
    requires NatToString(a) == NatToString(b)
    ensures a == b
  {
    NatToStringRoundTrip(a);
    NatToStringRoundTrip(b);
  }

  /** The longest prefix made of decimal digits. */
  function LeadingDigits(s: string): (r: string)
    ensures |r| <= |s| && AllDigits(r)
  {
    if |s| > 0 && IsDigit(s[0]) then [s[0]] + LeadingDigits(s[1..]) else []
  }

  lemma {:induction false} LeadingDigitsFacts(s: string)
    ensures var r := LeadingDigits(s);
      && |r| <= |s| && r == s[..|r|] && AllDigits(r)
      && (|r| == |s| || !IsDigit(s[|r|]))
  {
    if |s| > 0 && IsDigit(s[0]) {
      LeadingDigitsFacts(s[1..]);
    }
  }

  lemma {:induction false} LeadingDigitsOfDigits(s: string)
    requires AllDigits(s)
    ensures LeadingDigits(s) == s
  {
    if |s| > 0 {
      LeadingDigitsOfDigits(s[1..]);
      assert s == [s[0]] + s[1..];
    }
  }

  /** `parseInt(s, 10)` on non-negative input: leading whitespace is skipped, the
      longest run of digits is read and anything after it ignored; no digit at all
      gives `NaN`, modelled as `None`. */
  function ParseInt(s: string): Option<nat> {
    var digits := LeadingDigits(TrimStart(s));
    if |digits| == 0 then None else Some(DigitsValue(digits))
  }

  lemma ParseIntOfNat(n: nat)
    ensures ParseInt(NatToString(n)) == Some(n)
  {
    var s := NatToString(n);
    assert TrimStart(s) == s by {
      assert !IsSpace(s[0]);
    }
    LeadingDigitsOfDigits(s);
    NatToStringRoundTrip(n);
  }

  /** `parseInt` reads whitespace, then a run of digits, then stops at the first
      non-digit: the result is the value of the digits. */
  lemma ParseIntReadsLeadingNumber(ws: string, digits: string, rest: string)
    requires AllSpace(ws) && AllDigits(digits) && |digits| > 0
    requires |rest| == 0 || !IsDigit(rest[0])
    ensures ParseInt(ws + digits + rest) == Some(DigitsValue(digits))
  {
    SkipSpacesBeforeDigits(ws, digits, rest);
    LeadingDigitsOfDigitsThen(digits, rest);
  }

  lemma SkipSpacesBeforeDigits(ws: string, digits: string, rest: string)
    requires AllSpace(ws) && AllDigits(digits) && |digits| > 0
    ensures TrimStart(ws + digits + rest) == digits + rest
  {
    var t := digits + rest;
    assert ws + digits + rest == ws + t;
    assert t[0] == digits[0];
    TrimStartOfSpaces(ws, t);
  }

  /** When the first non-whitespace character is not a digit, or there is none,
      `parseInt` gives `NaN`. */
  lemma ParseIntWithoutDigits(ws: string, rest: string)
    requires AllSpace(ws)
    requires |rest| == 0 || (!IsSpace(rest[0]) && !IsDigit(rest[0]))
    ensures ParseInt(ws + rest) == None
  {
    TrimStartOfSpaces(ws, rest);
  }

  lemma {:induction false} TrimStartOfSpaces(ws: string, rest: string)
    requires AllSpace(ws)
    requires |rest| == 0 || !IsSpace(rest[0])
    ensures TrimStart(ws + rest) == rest
  {
    if |ws| > 0 {
      assert (ws + rest)[1..] == ws[1..] + rest;
      TrimStartOfSpaces(ws[1..], rest);
    }
  }

  lemma {:induction false} LeadingDigitsOfDigitsThen(digits: string, rest: string)
    requires AllDigits(digits)
    requires |rest| == 0 || !IsDigit(rest[0])
    ensures LeadingDigits(digits + rest) == digits
  {
    if |digits| > 0 {
      assert (digits + rest)[1..] == digits[1..] + rest;
      LeadingDigitsOfDigitsThen(digits[1..], rest);
      assert digits == [digits[0]] + digits[1..];
    }
  }

  /** The index of the first occurrence of `ch`, or `None` (`indexOf` returning -1). */
  function FirstIndexOf(s: string, ch: char): (r: Option<nat>)
    ensures r.Some? ==> r.value < |s|
  {
    if |s| == 0 then None
    else if s[0] == ch then Some(0)
    else
      match FirstIndexOf(s[1..], ch)
      case None => None
      case Some(p) => Some(p + 1)
  }

  lemma {:induction false} FirstIndexOfFacts(s: string, ch: char)
    ensures var r := FirstIndexOf(s, ch);
      && (r.None? <==> ch !in s)
      && (r.Some? ==> r.value < |s| && s[r.value] == ch && ch !in s[..r.value])
  {
    if |s| > 0 && s[0] != ch {
      FirstIndexOfFacts(s[1..], ch);
      assert s == [s[0]] + s[1..];
      match FirstIndexOf(s[1..], ch)
      case None =>
      case Some(p) =>
        assert s[..p + 1] == [s[0]] + s[1..][..p];
    }
  }

  /** The index of the last occurrence of `ch`, or `None`. */
  function LastIndexOf(s: string, ch: char): Option<nat> {
    if |s| == 0 then None
    else if s[|s| - 1] == ch then Some(|s| - 1)
    else LastIndexOf(s[..|s| - 1], ch)
  }

  lemma {:induction false} LastIndexOfFacts(s: string, ch: char)
    ensures var r := LastIndexOf(s, ch);
      && (r.None? <==> ch !in s)
      && (r.Some? ==> r.value < |s| && s[r.value] == ch && ch !in s[r.value + 1..])
  {
    if |s| > 0 && s[|s| - 1] != ch {
      LastIndexOfFacts(s[..|s| - 1], ch);
      assert s == s[..|s| - 1] + [s[|s| - 1]];
    }
  }

  lemma LastIndexOfJoin(head: string, ch: char, tail: string)
    requires ch !in tail
    ensures LastIndexOf(head + [ch] + tail, ch) == Some(|head|)
  {
    var s := head + [ch] + tail;
    var r := LastIndexOf(s, ch);
    LastIndexOfFacts(s, ch);
    assert s[|head|] == ch;
    assert r.Some?;
  }

  /** `s.split(ch).pop()`: the part after the last `ch`, or all of `s` when there is
      none; that is, the longest suffix without `ch`. */
  function LastSegment(s: string, ch: char): (r: string)
    ensures ch !in r
    ensures |r| <= |s| && r == s[|s| - |r|..]
    ensures |r| < |s| ==> s[|s| - |r| - 1] == ch
  {
    LastIndexOfFacts(s, ch);
    match LastIndexOf(s, ch)
    case None => s
    case Some(p) => s[p + 1..]
  }

  lemma LastSegmentOfJoin(head: string, ch: char, tail: string)
    requires ch !in tail
    ensures LastSegment(head + [ch] + tail, ch) == tail
  {
    LastIndexOfJoin(head, ch, tail);
    assert (head + [ch] + tail)[|head| + 1..] == tail;
  }

  /** `const [head, ...rest] = s.split(ch); rest.join(ch)`: the text before the
      first `ch` and everything after it (empty when there is no `ch`). */
  function SplitAtFirst(s: string, ch: char): (r: (string, string))
    ensures ch !in r.0 && |r.0| <= |s| && r.0 == s[..|r.0|]
    ensures |r.0| < |s| ==> s[|r.0|] == ch && r.1 == s[|r.0| + 1..]
    ensures |r.0| == |s| ==> r.1 == ""
  {
    FirstIndexOfFacts(s, ch);
    match FirstIndexOf(s, ch)
    case None => (s, "")
    case Some(p) => (s[..p], s[p + 1..])
  }

  /** `s.replace(ch, '')` with a one-character string pattern: the first occurrence goes. */
  function RemoveFirst(s: string, ch: char): string {
    match FirstIndexOf(s, ch)
    case None => s
    case Some(p) => s[..p] + s[p + 1..]
  }

  /** Without `ch` the text is left as it is. */
  lemma {:induction false} RemoveFirstAbsent(s: string, ch: char)
    requires ch !in s
    ensures RemoveFirst(s, ch) == s
  {
    FirstIndexOfFacts(s, ch);
  }

  /** With `ch` first at position `p`, removing it leaves the text on both sides. */
  lemma RemoveFirstAt(s: string, ch: char, p: nat)
    requires p < |s| && s[p] == ch && ch !in s[..p]
    ensures RemoveFirst(s, ch) == s[..p] + s[p + 1..]
  {
    FirstIndexOfFacts(s, ch);
    assert s[..p + 1][p] == ch;
  }
}
