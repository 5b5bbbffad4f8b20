/** Optional and failure-carrying values: Java's `null` and the exceptions
    the modelled code returns instead of throwing. */
module Nullable {

  datatype Option<+T> = None | Some(value: T)

  datatype Result<+T, +E> = Ok(value: T) | Err(error: E)
}

/** The few pieces of `java.lang` the modelled code relies on: 32-bit
    integers, truncating division, `Character.isWhitespace`, `String.trim`,
    `isBlank`, `startsWith`, `split` and `Integer.parseInt`. Strings are
    sequences of Unicode scalar values (one element per code point). */
module JavaLang {

  import opened Nullable

  const INT_MIN: int := -0x8000_0000
  const INT_MAX: int := 0x7fff_ffff
  const TWO_32: int := 0x1_0000_0000

  predicate IsInt32(x: int) {
    INT_MIN <= x <= INT_MAX
  }

  /** Java's integer `/` for a positive divisor: rounds toward zero, so the
      remainder takes the sign of the dividend. */
  function TruncDiv(a: int, b: int): (q: int)
    requires b > 0
    ensures 0 <= a ==> 0 <= a - q * b < b
    ensures a < 0 ==> -b < a - q * b <= 0
  {
    if a >= 0 then a / b else -((-a) / b)
  }

  /** A narrowing `(int)` cast of a Java `long`: keeps the low 32 bits. */
  function WrapInt32(x: int): (r: int)
    ensures IsInt32(r)
    ensures (x - r) % TWO_32 == 0
    ensures IsInt32(x) ==> r == x
  {
    var m := x % TWO_32;
    if m > INT_MAX then m - TWO_32 else m
  }

  // ---------------------------------------------------------------------
  // Characters
  // ---------------------------------------------------------------------

  /** `Character.isWhitespace`: the Unicode space, line and paragraph
      separators other than the no-break spaces, plus the ASCII controls
      HT, LF, VT, FF, CR and FS..US. */
  predicate IsJavaWhitespace(c: char) {
    || IsRegexSpace(c)
    || ('\U{1C}' <= c <= '\U{1F}')
    || c == '\U{1680}'
    || ('\U{2000}' <= c <= '\U{2006}') || ('\U{2008}' <= c <= '\U{200A}')
    || c == '\U{2028}' || c == '\U{2029}' || c == '\U{205F}' || c == '\U{3000}'
  }

  /** The regular-expression class `\s` (without UNICODE_CHARACTER_CLASS). */
  predicate IsRegexSpace(c: char) {
    c == ' ' || c == '\t' || c == '\n' || c == '\U{0B}' || c == '\U{0C}' || c == '\r'
  }

  /** The regular-expression class `\d`: ASCII digits only. */
  predicate IsDigit(c: char) {
    '0' <= c <= '9'
  }

  function DigitValue(c: char): (d: nat)
    requires IsDigit(c)
    ensures d < 10
  {
    (c as int) - ('0' as int)
  }

  /** `String.trim` removes every character whose code is at most U+0020. */
  predicate IsTrimmed(c: char) {
    c <= ' '
  }

  // ---------------------------------------------------------------------
  // Strings
  // ---------------------------------------------------------------------

  predicate IsBlank(s: string) {
    forall i :: 0 <= i < |s| ==> IsJavaWhitespace(s[i])
  }

  predicate StartsWith(s: string, prefix: string) {
    |prefix| <= |s| && s[..|prefix|] == prefix
  }

  predicate EndsWith(s: string, suffix: string) {
    |suffix| <= |s| && s[|s| - |suffix|..] == suffix
  }

  /** The first index at or after i of a character `trim` keeps, or |s|. */
  function TrimLo(s: string, i: nat): (a: nat)
    requires i <= |s|
    decreases |s| - i
    ensures i <= a <= |s|
    ensures forall k :: i <= k < a ==> IsTrimmed(s[k])
    ensures a < |s| ==> !IsTrimmed(s[a])
  {
    if i < |s| && IsTrimmed(s[i]) then TrimLo(s, i + 1) else i
  }

  /** One past the last index below j, and at or above lo, of a character
      `trim` keeps, or lo. */
  function TrimHi(s: string, lo: nat, j: nat): (b: nat)
    requires lo <= j <= |s|
    decreases j
    ensures lo <= b <= j
    ensures forall k :: b <= k < j ==> IsTrimmed(s[k])
    ensures b > lo ==> !IsTrimmed(s[b - 1])
  {
    if j > lo && IsTrimmed(s[j - 1]) then TrimHi(s, lo, j - 1) else j
  }

  /** `String.trim`: the longest slice whose first and last characters are
      above U+0020; everything cut off is at or below U+0020. */
  function Trim(s: string): (r: string)
    ensures |r| <= |s|
    ensures |r| > 0 ==> !IsTrimmed(r[0]) && !IsTrimmed(r[|r| - 1])
    ensures (forall i :: 0 <= i < |s| ==> IsTrimmed(s[i])) <==> r == []
  {
    var a := TrimLo(s, 0);
    var b := TrimHi(s, a, |s|);
    assert |s[a..b]| > 0 ==> s[a..b][0] == s[a] && s[a..b][b - a - 1] == s[b - 1];
    s[a..b]
  }

  /** What `trim` cuts off lies at the two ends and is all at or below
      U+0020. */
  lemma TrimSlice(s: string)
    ensures var a := TrimLo(s, 0); var b := TrimHi(s, a, |s|);
            Trim(s) == s[a..b]
            && (forall i :: 0 <= i < a ==> IsTrimmed(s[i]))
            && (forall i :: b <= i < |s| ==> IsTrimmed(s[i]))
  {
  }

  /** Index of the first occurrence of `c` at or after `from`. */
  function IndexOfFrom(s: string, c: char, from: nat): (r: Option<nat>)
    requires from <= |s|
    decreases |s| - from
    ensures r.Some? ==> from <= r.value < |s| && s[r.value] == c
    ensures r.Some? ==> forall j :: from <= j < r.value ==> s[j] != c
    ensures r.None? ==> forall j :: from <= j < |s| ==> s[j] != c
  {
    if from == |s| then None
    else if s[from] == c then Some(from)
    else IndexOfFrom(s, c, from + 1)
  }

  /** `Matcher.find`: the first position in [from, last] at which `matchAt`
      reports a match. */
  function FindFirst<T>(matchAt: nat -> Option<T>, from: nat, last: nat): (r: Option<nat>)
    decreases last as int - from as int
    ensures r.Some? ==> from <= r.value <= last && matchAt(r.value).Some?
  {
    if from > last then None
    else if matchAt(from).Some? then Some(from)
    else FindFirst(matchAt, from + 1, last)
  }

  /** The position found is the leftmost match; none is found only when no
      position matches. */
  lemma {:induction false} FindFirstLeftmost<T>(matchAt: nat -> Option<T>, from: nat, last: nat)
    ensures var r := FindFirst(matchAt, from, last);
            (r.Some? ==> forall j :: from <= j < r.value ==> matchAt(j).None?)
            && (r.None? ==> forall j :: from <= j <= last ==> matchAt(j).None?)
    decreases last as int - from as int
  {
    if from <= last && matchAt(from).None? {
      FindFirstLeftmost(matchAt, from + 1, last);
    }
  }

  /** Splits `s` at every `sep`, keeping empty pieces: k separators give
      k + 1 pieces. */
  function SplitAll(s: string, sep: char): (parts: seq<string>)
    decreases |s|
    ensures |parts| > 0
    ensures forall i :: 0 <= i < |parts| ==> sep !in parts[i]
  {
    match IndexOfFrom(s, sep, 0)
    case None => [s]
    case Some(i) => [s[..i]] + SplitAll(s[i + 1..], sep)
  }

  function JoinWith(parts: seq<string>, sep: char): string
    requires |parts| > 0
  {
    if |parts| == 1 then parts[0] else parts[0] + [sep] + JoinWith(parts[1..], sep)
  }

  lemma {:induction false} SplitAllJoin(s: string, sep: char)
    ensures JoinWith(SplitAll(s, sep), sep) == s
    decreases |s|
  {
    match IndexOfFrom(s, sep, 0)
    case None =>
    case Some(i) =>
      SplitAllJoin(s[i + 1..], sep);
      assert s == s[..i] + [sep] + s[i + 1..];
  }

  function DropTrailingEmpty(parts: seq<string>): (r: seq<string>)
    ensures |r| <= |parts| && r == parts[..|r|]
    ensures |r| > 0 ==> r[|r| - 1] != ""
    ensures forall i :: |r| <= i < |parts| ==> parts[i] == ""
  {
    if |parts| > 0 && parts[|parts| - 1] == "" then DropTrailingEmpty(parts[..|parts| - 1])
    else parts
  }

  /** `String.split` with a one-character literal separator and no limit:
      every piece, minus the trailing empty ones; a string without any
      separator (the empty string included) comes back whole. */
  function JavaSplit(s: string, sep: char): (parts: seq<string>)
    ensures sep !in s ==> parts == [s]
    ensures forall i :: 0 <= i < |parts| ==> sep !in parts[i]
    ensures s != [] ==> |parts| > 0 ==> parts[|parts| - 1] != ""
  {
    if sep !in s then [s] else DropTrailingEmpty(SplitAll(s, sep))
  }

  /** `String.split` with a one-character literal separator and a positive
      limit: at most `limit` pieces, the last one holding the rest of the
      string; trailing empty pieces are kept. */
  function JavaSplitLimit(s: string, sep: char, limit: nat): (parts: seq<string>)
    requires limit >= 1
    decreases limit
    ensures 1 <= |parts| <= limit
    ensures JoinWith(parts, sep) == s
    ensures forall i :: 0 <= i < |parts| - 1 ==> sep !in parts[i]
  {
    if limit == 1 then [s]
    else match IndexOfFrom(s, sep, 0)
      case None => [s]
      case Some(i) =>
        var rest := JavaSplitLimit(s[i + 1..], sep, limit - 1);
        assert s == s[..i] + [sep] + s[i + 1..];
        [s[..i]] + rest
  }

  /** Pieces that are all empty join to nothing but separators. */
  lemma {:induction false} JoinOfEmpties(parts: seq<string>, sep: char)
    requires |parts| > 0 && forall i :: 0 <= i < |parts| ==> parts[i] == []
    ensures forall j :: 0 <= j < |JoinWith(parts, sep)| ==> JoinWith(parts, sep)[j] == sep
    decreases |parts|
  {
    if |parts| > 1 {
      JoinOfEmpties(parts[1..], sep);
    }
  }

  /** `split` leaves at least one piece as soon as some character is not
      the separator. */
  lemma JavaSplitNonEmpty(s: string, sep: char, k: nat)
    requires k < |s| && s[k] != sep
    ensures |JavaSplit(s, sep)| > 0
  {
    if sep in s {
      var all := SplitAll(s, sep);
      SplitAllJoin(s, sep);
      if DropTrailingEmpty(all) == [] {
        JoinOfEmpties(all, sep);
      }
    }
  }

  /** A separator followed by a separator-free tail adds that tail as the
      last piece. */
  lemma {:induction false} SplitAllSnoc(a: string, b: string, sep: char)
    requires sep !in b
    ensures SplitAll(a + [sep] + b, sep) == SplitAll(a, sep) + [b]
    decreases |a|
  {
    var s := a + [sep] + b;
    FirstSeparatorOf(a, b, sep);
    match IndexOfFrom(a, sep, 0)
    case None =>
      assert s[..|a|] == a && s[|a| + 1..] == b;
      assert SplitAll(b, sep) == [b] by {
        assert IndexOfFrom(b, sep, 0).None?;
      }
    case Some(i) =>
      var t := a[i + 1..];
      assert s[..i] == a[..i];
      assert s[i + 1..] == t + [sep] + b;
      SplitAllSnoc(t, b, sep);
      assert [a[..i]] + (SplitAll(t, sep) + [b]) == ([a[..i]] + SplitAll(t, sep)) + [b];
  }

  /** The first separator of `a + [sep] + b` is the first one of `a`, or
      the added one. */
  lemma FirstSeparatorOf(a: string, b: string, sep: char)
    ensures IndexOfFrom(a + [sep] + b, sep, 0)
            == (if IndexOfFrom(a, sep, 0).Some? then IndexOfFrom(a, sep, 0) else Some(|a|))
  {
    var s := a + [sep] + b;
    assert s[|a|] == sep;
    assert forall j :: 0 <= j < |a| ==> s[j] == a[j];
  }

  /** The last piece of `split` after a final separator is the non-empty,
      separator-free text behind it. */
  lemma JavaSplitLast(a: string, b: string, sep: char)
    requires sep !in b && b != []
    ensures var parts := JavaSplit(a + [sep] + b, sep);
            |parts| > 0 && parts[|parts| - 1] == b
  {
    var s := a + [sep] + b;
    assert s[|a|] == sep;
    SplitAllSnoc(a, b, sep);
  }

  /** `split` with a limit reads back pieces joined by the separator, when
      every piece but the last is separator-free and there are exactly
      `limit` of them. */
  lemma {:induction false} SplitLimitJoin(parts: seq<string>, sep: char)
    requires |parts| >= 1
    requires forall i :: 0 <= i < |parts| - 1 ==> sep !in parts[i]
    ensures JavaSplitLimit(JoinWith(parts, sep), sep, |parts|) == parts
    decreases |parts|
  {
    if |parts| > 1 {
      var s := JoinWith(parts, sep);
      var h := parts[0];
      var rest := JoinWith(parts[1..], sep);
      assert s == h + [sep] + rest;
      assert IndexOfFrom(h, sep, 0).None?;
      FirstSeparatorOf(h, rest, sep);
      assert s[..|h|] == h;
      assert s[|h| + 1..] == rest;
      assert JavaSplitLimit(s, sep, |parts|) == [h] + JavaSplitLimit(rest, sep, |parts| - 1);
      SplitLimitJoin(parts[1..], sep);
      assert parts == [h] + parts[1..];
    }
  }

  /** `String.replace(CharSequence, CharSequence)` with a non-empty target:
      every non-overlapping occurrence, scanning left to right. */
  function ReplaceAll(s: string, target: string, replacement: string): (r: string)
    requires |target| > 0
    decreases |s|
    ensures target == replacement ==> r == s
  {
    if |s| < |target| then s
    else if s[..|target|] == target then replacement + ReplaceAll(s[|target|..], target, replacement)
    else [s[0]] + ReplaceAll(s[1..], target, replacement)
  }

  /** `String.replace(char, char)`. */
  function ReplaceChar(s: string, from: char, to: char): (r: string)
    ensures |r| == |s|
    ensures forall i :: 0 <= i < |s| ==> r[i] == (if s[i] == from then to else s[i])
  {
    seq(|s|, i requires 0 <= i < |s| => if s[i] == from then to else s[i])
  }

  predicate OccursAt(s: string, target: string, i: nat) {
    i + |target| <= |s| && s[i..i + |target|] == target
  }

  /** No occurrence of `target` anywhere in `s`. */
  predicate Lacks(s: string, target: string) {
    forall i: nat | i <= |s| :: !OccursAt(s, target, i)
  }

  /** `replace` leaves a string without any occurrence of the target as it
      is. */
  lemma {:induction false} ReplaceAllAbsent(s: string, target: string, replacement: string)
    requires |target| > 0 && Lacks(s, target)
    ensures ReplaceAll(s, target, replacement) == s
    decreases |s|
  {
    if |s| >= |target| {
      assert !OccursAt(s, target, 0);
      assert s[0..|target|] == s[..|target|];
      forall i: nat ensures !OccursAt(s[1..], target, i) {
        assert !OccursAt(s, target, i + 1);
        if i + |target| <= |s[1..]| {
          assert s[1..][i..i + |target|] == s[i + 1..i + 1 + |target|];
        }
      }
      ReplaceAllAbsent(s[1..], target, replacement);
      assert s == [s[0]] + s[1..];
    }
  }

  /** An occurrence at the scan position is replaced and the scan resumes
      after it. */
  lemma ReplaceAllAtTarget(target: string, rest: string, replacement: string)
    requires |target| > 0
    ensures ReplaceAll(target + rest, target, replacement) == replacement + ReplaceAll(rest, target, replacement)
  {
    assert (target + rest)[..|target|] == target;
    assert (target + rest)[|target|..] == rest;
  }

  /** Text in which no occurrence starts is copied unchanged: `replace`
      keeps everything outside the occurrences it finds. */
  lemma {:induction false} ReplaceAllKeepsPrefix(a: string, rest: string, target: string, replacement: string)
    requires |target| > 0
    requires forall i :: 0 <= i < |a| ==> !OccursAt(a + rest, target, i)
    ensures ReplaceAll(a + rest, target, replacement) == a + ReplaceAll(rest, target, replacement)
    decreases |a|
  {
    if |a| > 0 {
      var s := a + rest;
      assert s[1..] == a[1..] + rest;
      forall i | 0 <= i < |a[1..]| ensures !OccursAt(a[1..] + rest, target, i) {
        assert !OccursAt(s, target, i + 1);
        if i + |target| <= |s[1..]| {
          assert s[1..][i..i + |target|] == s[i + 1..i + 1 + |target|];
        }
      }
      ReplaceAllKeepsPrefix(a[1..], rest, target, replacement);
      if |s| >= |target| {
        assert !OccursAt(s, target, 0);
        assert s[0..|target|] == s[..|target|];
        var tail := ReplaceAll(rest, target, replacement);
        calc {
          ReplaceAll(s, target, replacement);
          [s[0]] + ReplaceAll(s[1..], target, replacement);
          [a[0]] + (a[1..] + tail);
          { assert a == [a[0]] + a[1..]; }
          a + tail;
        }
      } else {
        assert ReplaceAll(rest, target, replacement) == rest;
      }
    } else {
      assert a + rest == rest;
    }
  }

  // ---------------------------------------------------------------------
  // Integer.parseInt
  // ---------------------------------------------------------------------

  predicate AllDigits(s: string) {
    forall i :: 0 <= i < |s| ==> IsDigit(s[i])
  }

  /** The value of a run of decimal digits, most significant first. */
  function DigitsValue(s: string): (v: nat)
    requires AllDigits(s)
    decreases |s|
  {
    if |s| == 0 then 0 else DigitsValue(s[..|s| - 1]) * 10 + DigitValue(s[|s| - 1])
  }

  /** An optional '-' or '+' followed by at least one ASCII digit. */
  predicate IsSignedDecimal(s: string) {
    |s| > 0
    && if s[0] == '-' || s[0] == '+' then |s| > 1 && AllDigits(s[1..]) else AllDigits(s)
  }

  /** The value of a signed decimal: its digits, negated after a '-'. */
  function SignedDecimalValue(s: string): int
    requires IsSignedDecimal(s)
  {
    if s[0] == '-' then -(DigitsValue(s[1..]) as int)
    else if s[0] == '+' then DigitsValue(s[1..])
    else DigitsValue(s)
  }

  /** `Integer.parseInt(s)`: an optional sign, at least one digit and a value
      inside the 32-bit range; anything else is a NumberFormatException,
      here `None`. */
  function ParseInt(s: string): (r: Option<int>)
    ensures r.Some? ==> IsInt32(r.value)
    ensures AllDigits(s) && |s| > 0 && DigitsValue(s) <= INT_MAX ==> r == Some(DigitsValue(s))
    ensures |s| == 0 ==> r.None?
    ensures r.Some? ==> IsSignedDecimal(s) && r.value == SignedDecimalValue(s)
    ensures IsSignedDecimal(s) && IsInt32(SignedDecimalValue(s)) ==> r.Some?
  {
    if |s| == 0 then None
    else
      var negative := s[0] == '-';
      var digits := if s[0] == '-' || s[0] == '+' then s[1..] else s;
      if |digits| == 0 || !AllDigits(digits) then None
      else
        var v: int := if negative then -(DigitsValue(digits) as int) else DigitsValue(digits);
        if IsInt32(v) then Some(v) else None
  }

  /** Decimal rendering of a natural number, without leading zeros. */
  function NatToDigits(n: nat): (s: string)
    ensures |s| > 0 && AllDigits(s)
    decreases n
  {
    var last := [('0' as int + n % 10) as char];
    if n < 10 then last else NatToDigits(n / 10) + last
  }

  /** Parsing reads back what rendering wrote. */
  lemma {:induction false} NatToDigitsValue(n: nat)
    ensures DigitsValue(NatToDigits(n)) == n
    decreases n
  {
    var s := NatToDigits(n);
    if n >= 10 {
      NatToDigitsValue(n / 10);
      assert s[..|s| - 1] == NatToDigits(n / 10);
    }
  }

  lemma ParseIntRoundTrip(n: nat)
    requires n <= INT_MAX
    ensures ParseInt(NatToDigits(n)) == Some(n)
  {
    NatToDigitsValue(n);
  }

  // ---------------------------------------------------------------------
  // Character case
  // ---------------------------------------------------------------------

  /** `Character.toUpperCase` on ASCII letters; other characters unchanged. */
  function UpperAscii(c: char): char {
    if 'a' <= c <= 'z' then ((c as int) - 32) as char else c
  }

  function ToUpperAscii(s: string): (r: string)
    ensures |r| == |s|
    ensures forall i :: 0 <= i < |s| ==> r[i] == UpperAscii(s[i])
  {
    seq(|s|, i requires 0 <= i < |s| => UpperAscii(s[i]))
  }
}
