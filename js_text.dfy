/**
 * JavaScript strings as the editor's code sees them: sequences of UTF-16 code
 * units. `length`, `substring`, textarea selection offsets and regular
 * expressions without the `u` flag all count and index code units, so the
 * model does the same. The string built-ins the editor calls are defined here.
 */
module JsText {

  newtype CodeUnit = x: int | 0 <= x < 0x1_0000

  type JsString = seq<CodeUnit>

  /** An optional JavaScript value: `None` stands for `undefined`. */
  datatype Option<+T> = None | Some(value: T)

  const NEWLINE: CodeUnit := 0x0A
  const SPACE: CodeUnit := 0x20
  const DOLLAR: CodeUnit := 0x24
  const AMPERSAND: CodeUnit := 0x26
  const APOSTROPHE: CodeUnit := 0x27
  const BACKTICK: CodeUnit := 0x60
  const UNDERSCORE: CodeUnit := 0x5F

  /** The UTF-16 encoding of one Unicode scalar value. */
  function EncodeChar(c: char): (units: JsString)
    ensures |units| == (if c as int < 0x1_0000 then 1 else 2)
    ensures c as int < 0x1_0000 ==> units[0] as int == c as int
  {
    var v := c as int;
    if v < 0x1_0000 then [v as CodeUnit]
    else [(0xD800 + (v - 0x1_0000) / 0x400) as CodeUnit, (0xDC00 + (v - 0x1_0000) % 0x400) as CodeUnit]
  }

  /** The UTF-16 encoding of a string: how JavaScript stores text. */
  function Utf16(s: string): JsString
  {
    if s == [] then [] else EncodeChar(s[0]) + Utf16(s[1..])
  }

  predicate InBmp(s: string)
  {
    forall i :: 0 <= i < |s| ==> s[i] as int < 0x1_0000
  }

  /** A string literal of the source; every one of them lies in the Basic Multilingual Plane. */
  function Literal(s: string): JsString
    requires InBmp(s)
  {
    seq(|s|, i requires 0 <= i < |s| => s[i] as int as CodeUnit)
  }

  /** A literal holds one code unit per character, as its UTF-16 encoding does. */
  lemma {:induction false} LiteralIsUtf16(s: string)
    requires InBmp(s)
    ensures Literal(s) == Utf16(s)
  {
    if s != [] {
      LiteralIsUtf16(s[1..]);
      assert Literal(s) == EncodeChar(s[0]) + Literal(s[1..]);
    }
  }

  /** Splitting a literal between two characters gives two literals. */
  lemma LiteralAppend(a: string, b: string)
    requires InBmp(a) && InBmp(b)
    ensures InBmp(a + b) && Literal(a + b) == Literal(a) + Literal(b)
  {
    assert forall i :: 0 <= i < |a| ==> (a + b)[i] == a[i];
    assert forall i :: |a| <= i < |a + b| ==> (a + b)[i] == b[i - |a|];
  }

  /** The number of characters of `s` outside the Basic Multilingual Plane. */
  function Astral(s: string): nat
  {
    if s == [] then 0 else (if s[0] as int < 0x1_0000 then 0 else 1) + Astral(s[1..])
  }

  /** The three parts of a concatenation are its slices. */
  lemma SlicesOfConcat(a: JsString, b: JsString, c: JsString)
    ensures (a + b + c)[..|a|] == a
    ensures (a + b + c)[|a|..|a| + |b|] == b
    ensures (a + b + c)[|a| + |b|..] == c
  {
  }

  /** A slice of a slice is a slice of the whole. */
  lemma SliceOfSlice(s: JsString, lo: nat, hi: nat, i: nat, j: nat)
    requires lo <= hi <= |s| && i <= j <= hi - lo
    ensures s[lo..hi][i..j] == s[lo + i..lo + j]
  {
    assert forall k :: 0 <= k < j - i ==> s[lo..hi][i..j][k] == s[lo + i + k];
  }

  /**
   * The characters matched by `\s` and removed by `trim()`: ECMAScript's
   * WhiteSpace and LineTerminator code points (all of them are single code units).
   */
  predicate IsSpace(c: CodeUnit)
  {
    c == 0x09 || c == 0x0A || c == 0x0B || c == 0x0C || c == 0x0D || c == 0x20
    || c == 0xA0 || c == 0x1680 || (0x2000 <= c <= 0x200A) || c == 0x2028
    || c == 0x2029 || c == 0x202F || c == 0x205F || c == 0x3000 || c == 0xFEFF
  }

  predicate AllSpace(s: JsString)
  {
    forall i :: 0 <= i < |s| ==> IsSpace(s[i])
  }

  predicate NoSpace(s: JsString)
  {
    forall i :: 0 <= i < |s| ==> !IsSpace(s[i])
  }

  /** The number of leading whitespace code units. */
  function LeadingSpaces(s: JsString): (k: nat)
    ensures k <= |s| && AllSpace(s[..k])
    ensures k == |s| || !IsSpace(s[k])
  {
    if s == [] || !IsSpace(s[0]) then 0
    else
      var k := 1 + LeadingSpaces(s[1..]);
      assert s[..k] == [s[0]] + s[1..][..k - 1];
      k
  }

  /** The offset at which the trailing whitespace of `s` begins. */
  function TrailingStart(s: JsString): (k: nat)
    ensures k <= |s| && AllSpace(s[k..])
    ensures k == 0 || !IsSpace(s[k - 1])
  {
    if s == [] || !IsSpace(s[|s| - 1]) then |s|
    else
      var k := TrailingStart(s[..|s| - 1]);
      assert s[k..] == s[..|s| - 1][k..] + [s[|s| - 1]];
      k
  }

  /**
   * `String.prototype.trim`: the longest slice of `s` that neither starts nor
   * ends with whitespace, with only whitespace before and after it.
   */
  function Trim(s: JsString): (t: JsString)
    ensures exists a, b :: 0 <= a <= b <= |s| && t == s[a..b] && AllSpace(s[..a]) && AllSpace(s[b..])
    ensures t == [] || (!IsSpace(t[0]) && !IsSpace(t[|t| - 1]))
    ensures t == [] <==> AllSpace(s)
  {
    var a := LeadingSpaces(s);
    var rest := s[a..];
    var b := TrailingStart(rest);
    assert rest[..b] == s[a..a + b] && rest[b..] == s[a + b..];
    assert AllSpace(s) ==> a == |s|;
    assert a == |s| ==> s == s[..a];
    rest[..b]
  }

  /**
   * `s.split(/\s+/)`: the pieces between maximal whitespace runs. Leading or
   * trailing whitespace yields an empty first or last piece, and the empty
   * string yields one empty piece.
   */
  function SplitOnSpaces(s: JsString): (pieces: seq<JsString>)
    ensures |pieces| >= 1
    ensures forall k :: 0 <= k < |pieces| ==> NoSpace(pieces[k])
    ensures pieces[0] == [] <==> (s == [] || IsSpace(s[0]))
    decreases |s|
  {
    if s == [] then [[]]
    else if IsSpace(s[0]) then
      if |s| > 1 && IsSpace(s[1]) then SplitOnSpaces(s[1..]) else [[]] + SplitOnSpaces(s[1..])
    else
      var rest := SplitOnSpaces(s[1..]);
      [[s[0]] + rest[0]] + rest[1..]
  }

  /** `pieces.filter(Boolean)` on strings: the non-empty pieces, in order. */
  function DropEmpty(pieces: seq<JsString>): (kept: seq<JsString>)
    ensures |kept| <= |pieces|
    ensures forall k :: 0 <= k < |kept| ==> kept[k] != [] && kept[k] in pieces
    ensures (forall k :: 0 <= k < |pieces| ==> pieces[k] != []) ==> kept == pieces
  {
    if pieces == [] then []
    else (if pieces[0] == [] then [] else [pieces[0]]) + DropEmpty(pieces[1..])
  }

  /** `filter(Boolean)` drops every empty piece and keeps every other one as often as it occurs. */
  lemma {:induction false} DropEmptyCounts(pieces: seq<JsString>)
    ensures multiset(DropEmpty(pieces)) == multiset(pieces)[[] := 0]
  {
    if pieces != [] {
      DropEmptyCounts(pieces[1..]);
      assert pieces == [pieces[0]] + pieces[1..];
      assert multiset(pieces) == multiset([pieces[0]]) + multiset(pieces[1..]);
    }
  }

  /** `filter` works piece by piece and keeps the order: filtering a concatenation concatenates the filtered parts. */
  lemma {:induction false} DropEmptyAppend(a: seq<JsString>, b: seq<JsString>)
    ensures DropEmpty(a + b) == DropEmpty(a) + DropEmpty(b)
  {
    if a == [] {
      assert a + b == b;
    } else {
      var head := if a[0] == [] then [] else [a[0]];
      assert (a + b)[1..] == a[1..] + b;
      calc {
        DropEmpty(a + b);
        head + DropEmpty(a[1..] + b);
        { DropEmptyAppend(a[1..], b); }
        head + (DropEmpty(a[1..]) + DropEmpty(b));
        (head + DropEmpty(a[1..])) + DropEmpty(b);
        DropEmpty(a) + DropEmpty(b);
      }
    }
  }

  predicate MatchAt(s: JsString, pattern: JsString, i: nat)
  {
    i + |pattern| <= |s| && s[i..i + |pattern|] == pattern
  }

  /** The first occurrence of `pattern` in `s` at or after `from`. */
  function IndexFrom(s: JsString, pattern: JsString, from: nat): (r: Option<nat>)
    ensures r.Some? ==> from <= r.value && MatchAt(s, pattern, r.value)
    ensures r.Some? ==> forall j :: from <= j < r.value ==> !MatchAt(s, pattern, j)
    ensures r.None? ==> forall j :: from <= j ==> !MatchAt(s, pattern, j)
    decreases |s| - from
  {
    if from + |pattern| > |s| then None
    else if s[from..from + |pattern|] == pattern then Some(from)
    else IndexFrom(s, pattern, from + 1)
  }

  /** `s.indexOf(pattern)`, with `None` for -1. */
  function IndexOf(s: JsString, pattern: JsString): Option<nat>
  {
    IndexFrom(s, pattern, 0)
  }

  /** `s.includes(pattern)`. */
  predicate Includes(s: JsString, pattern: JsString)
  {
    IndexOf(s, pattern).Some?
  }

  /** Searching for a one-unit string is a membership test. */
  lemma IncludesUnit(s: JsString, c: CodeUnit)
    ensures Includes(s, [c]) <==> c in s
  {
    if c in s {
      var i :| 0 <= i < |s| && s[i] == c;
      assert MatchAt(s, [c], i);
    }
    if Includes(s, [c]) {
      var i := IndexOf(s, [c]).value;
      assert s[i..i + 1][0] == s[i];
    }
  }

  /** `s.endsWith(suffix)`. */
  predicate EndsWith(s: JsString, suffix: JsString)
  {
    |suffix| <= |s| && s[|s| - |suffix|..] == suffix
  }

  /**
   * GetSubstitution of ECMAScript for a string pattern (no capture groups):
   * `$$` gives `$`, `$&` the matched text, `` $` `` the text before the match,
   * `$'` the text after it; every other `$` stays as it is.
   */
  function Substitution(matched: JsString, str: JsString, position: nat, replacement: JsString): (r: JsString)
    requires position + |matched| <= |str|
    ensures DOLLAR !in replacement ==> r == replacement
    decreases |replacement|
  {
    if replacement == [] then []
    else if replacement[0] == DOLLAR && |replacement| >= 2 then
      var tail := Substitution(matched, str, position, replacement[2..]);
      if replacement[1] == DOLLAR then [DOLLAR] + tail
      else if replacement[1] == AMPERSAND then matched + tail
      else if replacement[1] == BACKTICK then str[..position] + tail
      else if replacement[1] == APOSTROPHE then str[position + |matched|..] + tail
      else [DOLLAR] + Substitution(matched, str, position, replacement[1..])
    else
      [replacement[0]] + Substitution(matched, str, position, replacement[1..])
  }

  /** `s.replace(pattern, replacement)` with a string pattern: only the first occurrence is replaced. */
  function ReplaceFirst(s: JsString, pattern: JsString, replacement: JsString): (r: JsString)
    ensures !Includes(s, pattern) ==> r == s
    ensures Includes(s, pattern) && DOLLAR !in replacement ==>
      var i := IndexOf(s, pattern).value;
      r == s[..i] + replacement + s[i + |pattern|..]
  {
    match IndexOf(s, pattern)
    case None => s
    case Some(i) => s[..i] + Substitution(pattern, s, i, replacement) + s[i + |pattern|..]
  }

  const ZERO: CodeUnit := 0x30

  predicate IsDigit(c: CodeUnit)
  {
    ZERO <= c <= ZERO + 9
  }

  /** The number a string of decimal digits denotes. */
  function DigitsValue(s: JsString): nat
    requires forall i :: 0 <= i < |s| ==> IsDigit(s[i])
  {
    if s == [] then 0
    else
      assert IsDigit(s[|s| - 1]);
      10 * DigitsValue(s[..|s| - 1]) + (s[|s| - 1] as int - ZERO as int)
  }

  /**
   * `String(n)` for a non-negative integer: its decimal digits, without
   * leading zeros.
   */
  function Decimal(n: nat): (s: JsString)
    ensures |s| >= 1 && forall i :: 0 <= i < |s| ==> IsDigit(s[i])
    ensures s[0] == ZERO ==> s == [ZERO]
  {
    var last := [ZERO + (n % 10) as CodeUnit];
    if n < 10 then last
    else
      var s := Decimal(n / 10) + last;
      assert s[0] == Decimal(n / 10)[0];
      s
  }

  /** Reading the digits back gives the number: `Number(String(n)) == n`. */
  lemma {:induction false} DecimalRoundTrip(n: nat)
    ensures DigitsValue(Decimal(n)) == n
  {
    if n >= 10 {
      DecimalRoundTrip(n / 10);
      assert Decimal(n)[..|Decimal(n)| - 1] == Decimal(n / 10);
    }
  }

  /** Distinct numbers print differently. */
  lemma DecimalInjective(m: nat, n: nat)
    requires Decimal(m) == Decimal(n)
    ensures m == n
  {
    DecimalRoundTrip(m);
    DecimalRoundTrip(n);
  }
}
