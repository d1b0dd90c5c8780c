/**
 * The Kotlin standard-library string operations the client relies on
 * (`lowercase`, `trim`, `isBlank`, `indexOf`, `substringAfter`, `split`,
 * `joinToString`, `toIntOrNull`, ...), written out so that the rest of the
 * model can state exactly which character a branch looks at.
 *
 * Character classes and case mapping are the ASCII part of Kotlin's Unicode
 * tables.
 */
module Text {
  import opened Wrappers

  // ---------------------------------------------------------------------
  // Character classes
  // ---------------------------------------------------------------------

  /** `Char.isDigit()`, ASCII part. */
  predicate IsDigit(c: char) { '0' <= c <= '9' }

  predicate IsLetter(c: char) { 'a' <= c <= 'z' || 'A' <= c <= 'Z' }

  /** `Char.isLetterOrDigit()`, ASCII part. */
  predicate IsLetterOrDigit(c: char) { IsLetter(c) || IsDigit(c) }

  /** `Char.isWhitespace()`, ASCII part: space, TAB..CR and the separators 0x1C..0x1F. */
  predicate IsWhitespace(c: char) { c == ' ' || '\t' <= c <= '\r' || '\U{1C}' <= c <= '\U{1F}' }

  /** `Char.isDigit() || Char.lowercaseChar() in 'a'..'f'`. */
  predicate IsHexDigit(c: char) { IsDigit(c) || 'a' <= c <= 'f' || 'A' <= c <= 'F' }

  function DigitValue(c: char): nat
    requires IsDigit(c)
  {
    c as int - '0' as int
  }

  function HexValue(c: char): nat
    requires IsHexDigit(c)
  {
    if IsDigit(c) then DigitValue(c)
    else if 'a' <= c <= 'f' then c as int - 'a' as int + 10
    else c as int - 'A' as int + 10
  }

  // ---------------------------------------------------------------------
  // Case mapping
  // ---------------------------------------------------------------------

  function LowerChar(c: char): char {
    if 'A' <= c <= 'Z' then (c as int + 32) as char else c
  }

  function UpperChar(c: char): char {
    if 'a' <= c <= 'z' then (c as int - 32) as char else c
  }

  /** `String.lowercase()`. */
  function Lower(s: string): string {
    seq(|s|, i requires 0 <= i < |s| => LowerChar(s[i]))
  }

  /** `String.uppercase()`. */
  function Upper(s: string): string {
    seq(|s|, i requires 0 <= i < |s| => UpperChar(s[i]))
  }

  /** `a.equals(b, ignoreCase = true)`. */
  predicate EqualsIgnoreCase(a: string, b: string) {
    Lower(a) == Lower(b)
  }

  lemma LowerIdempotent(s: string)
    ensures Lower(Lower(s)) == Lower(s)
  {
  }

  lemma LowerAppend(a: string, b: string)
    ensures Lower(a + b) == Lower(a) + Lower(b)
  {
    assert forall i :: 0 <= i < |a + b| ==> Lower(a + b)[i] == (Lower(a) + Lower(b))[i];
  }

  // ---------------------------------------------------------------------
  // String order
  // ---------------------------------------------------------------------

  /** `String.compareTo(...) < 0`: by character, a proper prefix first; characters compare by scalar value, not UTF-16 code unit. */
  predicate LexLess(a: string, b: string)
    decreases |a|
  {
    if a == [] then b != []
    else if b == [] then false
    else if a[0] != b[0] then a[0] < b[0]
    else LexLess(a[1..], b[1..])
  }

  lemma {:induction false} LexLessIrreflexive(a: string)
    ensures !LexLess(a, a)
    decreases |a|
  {
    if a != [] {
      LexLessIrreflexive(a[1..]);
    }
  }

  lemma {:induction false} LexLessAsymmetric(a: string, b: string)
    ensures !(LexLess(a, b) && LexLess(b, a))
    decreases |a|
  {
    if a != [] && b != [] && a[0] == b[0] {
      LexLessAsymmetric(a[1..], b[1..]);
    }
  }

  lemma {:induction false} LexLessTotal(a: string, b: string)
    requires a != b
    ensures LexLess(a, b) || LexLess(b, a)
    decreases |a|
  {
    if a != [] && b != [] && a[0] == b[0] {
      assert a == [a[0]] + a[1..] && b == [b[0]] + b[1..];
      LexLessTotal(a[1..], b[1..]);
    }
  }

  lemma {:induction false} LexLessTransitive(a: string, b: string, c: string)
    requires LexLess(a, b) && LexLess(b, c)
    ensures LexLess(a, c)
    decreases |a|
  {
    if a != [] && a[0] == b[0] && b[0] == c[0] {
      LexLessTransitive(a[1..], b[1..], c[1..]);
    }
  }

  // ---------------------------------------------------------------------
  // Blank, trim
  // ---------------------------------------------------------------------

  /** `String.isBlank()`: empty or whitespace only. */
  predicate IsBlank(s: string) {
    forall i :: 0 <= i < |s| ==> IsWhitespace(s[i])
  }

  function TrimStart(s: string): (r: string)
    ensures |r| <= |s| && r == s[|s| - |r|..]
    ensures r == [] || !IsWhitespace(r[0])
    ensures forall i :: 0 <= i < |s| - |r| ==> IsWhitespace(s[i])
  {
    if s != [] && IsWhitespace(s[0]) then TrimStart(s[1..]) else s
  }

  function TrimEnd(s: string): (r: string)
    ensures |r| <= |s| && r == s[..|r|]
    ensures r == [] || !IsWhitespace(r[|r| - 1])
    ensures forall i :: |r| <= i < |s| ==> IsWhitespace(s[i])
  {
    if s != [] && IsWhitespace(s[|s| - 1]) then TrimEnd(s[..|s| - 1]) else s
  }

  /** `String.trim()`: drops leading and trailing whitespace. */
  function Trim(s: string): string {
    TrimEnd(TrimStart(s))
  }

  /** A string is Trim-stable exactly when it neither starts nor ends with whitespace. */
  predicate IsTrimmed(s: string) {
    s == [] || (!IsWhitespace(s[0]) && !IsWhitespace(s[|s| - 1]))
  }

  lemma TrimOfTrimmed(s: string)
    requires IsTrimmed(s)
    ensures Trim(s) == s
  {
  }

  lemma TrimIsTrimmed(s: string)
    ensures IsTrimmed(Trim(s))
  {
    var t := TrimStart(s);
    var r := TrimEnd(t);
    if r != [] {
      HeadOfPrefix(t, r);
    }
  }

  lemma HeadOfPrefix(t: string, r: string)
    requires r != [] && |r| <= |t| && r == t[..|r|]
    ensures r[0] == t[0]
  {
  }

  lemma TrimEmptyIffBlank(s: string)
    ensures Trim(s) == [] <==> IsBlank(s)
  {
    var t := TrimStart(s);
    if t != [] {
      assert !IsWhitespace(t[0]);
      assert TrimEnd(t) != [];
      assert t[0] == s[|s| - |t|];
    }
  }

  // ---------------------------------------------------------------------
  // Searching
  // ---------------------------------------------------------------------

  predicate StartsWith(s: string, p: string) {
    |p| <= |s| && s[..|p|] == p
  }

  predicate EndsWith(s: string, p: string) {
    |p| <= |s| && s[|s| - |p|..] == p
  }

  /** `s.removePrefix(p)`. */
  function RemovePrefix(s: string, p: string): (r: string)
    ensures StartsWith(s, p) ==> p + r == s
    ensures !StartsWith(s, p) ==> r == s
  {
    if StartsWith(s, p) then s[|p|..] else s
  }

  /** `s.removeSuffix(p)`. */
  function RemoveSuffix(s: string, p: string): (r: string)
    ensures EndsWith(s, p) ==> r + p == s
    ensures !EndsWith(s, p) ==> r == s
  {
    if EndsWith(s, p) then s[..|s| - |p|] else s
  }

  /** `s.startsWith(p, ignoreCase = true)`. */
  predicate StartsWithIgnoreCase(s: string, p: string) {
    StartsWith(Lower(s), Lower(p))
  }

  /** `t` occurs in `s` at index `j`. */
  predicate OccursAt(s: string, t: string, j: int) {
    0 <= j && j + |t| <= |s| && s[j..j + |t|] == t
  }

  /** `s.contains(t)`. */
  predicate Contains(s: string, t: string) {
    exists j | 0 <= j <= |s| :: OccursAt(s, t, j)
  }

  /** `s.indexOf(c)`: the first index holding `c`. */
  function FindChar(s: string, c: char): (r: Option<nat>)
    ensures r.Some? ==> r.value < |s| && s[r.value] == c && c !in s[..r.value]
    ensures r.None? <==> c !in s
  {
    FindAny(s, {c})
  }

  /** The first index holding one of `ds` (`indexOfAny`). */
  function FindAny(s: string, ds: set<char>): (r: Option<nat>)
    ensures r.Some? ==> r.value < |s| && s[r.value] in ds && forall i :: 0 <= i < r.value ==> s[i] !in ds
    ensures r.None? <==> forall i :: 0 <= i < |s| ==> s[i] !in ds
  {
    if s == [] then None
    else if s[0] in ds then Some(0)
    else match FindAny(s[1..], ds)
      case None => None
      case Some(k) => Some(k + 1)
  }

  /** `s.indexOf(t, from)`: the first occurrence of `t` at or after `from`. */
  function FindSubFrom(s: string, t: string, from: nat): (r: Option<nat>)
    ensures r.Some? ==> from <= r.value && OccursAt(s, t, r.value)
                        && forall j :: from <= j < r.value ==> !OccursAt(s, t, j)
    ensures r.None? ==> forall j :: from <= j ==> !OccursAt(s, t, j)
    decreases |s| - from
  {
    if from + |t| > |s| then None
    else if s[from..from + |t|] == t then Some(from)
    else FindSubFrom(s, t, from + 1)
  }

  /** `s.indexOf(t)`. */
  function FindSub(s: string, t: string): Option<nat> {
    FindSubFrom(s, t, 0)
  }

  lemma FindSubIffContains(s: string, t: string)
    ensures FindSub(s, t).Some? <==> Contains(s, t)
  {
  }

  /** `s.substringAfter(d, missing)`: what follows the first `d`, or `missing`. */
  function SubstringAfter(s: string, d: string, missing: string): string {
    match FindSub(s, d)
    case Some(k) => s[k + |d|..]
    case None => missing
  }

  /** `s.substringBefore(d, missing)`: what precedes the first `d`, or `missing`. */
  function SubstringBefore(s: string, d: string, missing: string): string {
    match FindSub(s, d)
    case Some(k) => s[..k]
    case None => missing
  }

  // ---------------------------------------------------------------------
  // Split and join
  // ---------------------------------------------------------------------

  /**
   * `s.split(d1, d2, ...)`: cuts at every delimiter and keeps the empty
   * pieces, so there is always one more piece than there are delimiters.
   */
  function SplitAny(s: string, ds: set<char>): (parts: seq<string>)
    ensures |parts| >= 1
    ensures forall i, j :: 0 <= i < |parts| && 0 <= j < |parts[i]| ==> parts[i][j] !in ds
    decreases |s|
  {
    match FindAny(s, ds)
    case None => [s]
    case Some(k) => [s[..k]] + SplitAny(s[k + 1..], ds)
  }

  function Split(s: string, c: char): seq<string> {
    SplitAny(s, {c})
  }

  /** `parts.joinToString(sep)`. */
  function Join(parts: seq<string>, sep: string): string {
    if |parts| == 0 then ""
    else if |parts| == 1 then parts[0]
    else parts[0] + sep + Join(parts[1..], sep)
  }

  /** Splitting what was joined gives back the pieces, when no piece holds the separator. */
  lemma {:induction false} SplitJoin(parts: seq<string>, c: char, ds: set<char>)
    requires |parts| >= 1 && c in ds
    requires forall i, j :: 0 <= i < |parts| && 0 <= j < |parts[i]| ==> parts[i][j] !in ds
    ensures SplitAny(Join(parts, [c]), ds) == parts
  {
    var s := Join(parts, [c]);
    if |parts| == 1 {
      assert FindAny(s, ds).None?;
    } else {
      var rest := Join(parts[1..], [c]);
      assert s == parts[0] + [c] + rest;
      assert forall i :: 0 <= i < |parts[0]| ==> s[i] == parts[0][i];
      assert s[|parts[0]|] == c;
      assert FindAny(s, ds) == Some(|parts[0]|);
      assert s[..|parts[0]|] == parts[0];
      assert s[|parts[0]| + 1..] == rest;
      SplitJoin(parts[1..], c, ds);
    }
  }

  // ---------------------------------------------------------------------
  // Hexadecimal numbers
  // ---------------------------------------------------------------------

  /** `16^n`, the bound of an `n`-digit hexadecimal number. */
  function HexBound(n: nat): (r: nat)
    ensures r >= 1
  {
    if n == 0 then 1 else 16 * HexBound(n - 1)
  }

  predicate AllHex(s: string) {
    forall k :: 0 <= k < |s| ==> IsHexDigit(s[k])
  }

  /** The value of a run of hexadecimal digits, most significant first (`parseLong(s, 16)`). */
  function HexNumber(s: string): (v: nat)
    requires AllHex(s)
    ensures v < HexBound(|s|)
  {
    if s == [] then 0 else HexNumber(s[..|s| - 1]) * 16 + HexValue(s[|s| - 1])
  }

  // ---------------------------------------------------------------------
  // Decimal numbers
  // ---------------------------------------------------------------------

  predicate AllDigits(s: string) {
    forall i :: 0 <= i < |s| ==> IsDigit(s[i])
  }

  /** The value of a run of decimal digits, most significant first. */
  function DigitsValue(s: string): nat
    requires AllDigits(s)
  {
    if s == [] then 0 else DigitsValue(s[..|s| - 1]) * 10 + DigitValue(s[|s| - 1])
  }

  function DigitChar(d: nat): (c: char)
    requires d < 10
    ensures IsDigit(c) && DigitValue(c) == d
  {
    ('0' as int + d) as char
  }

  /** Decimal text of a natural number, without leading zeros. */
  function NatToString(n: nat): (s: string)
    ensures |s| >= 1 && AllDigits(s)
  {
    if n < 10 then [DigitChar(n)] else NatToString(n / 10) + [DigitChar(n % 10)]
  }

  /** Kotlin's `Int.toString()` / `Long.toString()`. */
  function IntToString(n: int): string {
    if n < 0 then "-" + NatToString(-n) else NatToString(n)
  }

  lemma {:induction false} NatToStringValue(n: nat)
    ensures DigitsValue(NatToString(n)) == n
  {
    var s := NatToString(n);
    if n >= 10 {
      NatToStringValue(n / 10);
      assert s[..|s| - 1] == NatToString(n / 10);
    }
  }

  /**
   * `toLongOrNull()` without the range check: an optional `+` or `-` sign
   * followed by at least one decimal digit, and nothing else.
   */
  function ParseDecimal(s: string): Option<int> {
    if s == [] then None
    else if s[0] == '-' || s[0] == '+' then
      if |s| == 1 || !AllDigits(s[1..]) then None
      else
        var v: int := DigitsValue(s[1..]);
        if s[0] == '-' then Some(-v) else Some(v)
    else if AllDigits(s) then Some(DigitsValue(s))
    else None
  }

  /** The Kotlin `Int` range. */
  predicate IsInt32(n: int) { -0x8000_0000 <= n < 0x8000_0000 }

  /** The Kotlin `Long` range. */
  predicate IsInt64(n: int) { -0x8000_0000_0000_0000 <= n < 0x8000_0000_0000_0000 }

  /** `String.toIntOrNull()`. */
  function ToIntOrNull(s: string): (r: Option<int>)
    ensures r.Some? ==> IsInt32(r.value)
  {
    match ParseDecimal(s)
    case Some(n) => if IsInt32(n) then Some(n) else None
    case None => None
  }

  /** `String.toLongOrNull()`. */
  function ToLongOrNull(s: string): (r: Option<int>)
    ensures r.Some? ==> IsInt64(r.value)
  {
    match ParseDecimal(s)
    case Some(n) => if IsInt64(n) then Some(n) else None
    case None => None
  }

  /** Decimal text reads back as the number it was printed from. */
  lemma IntToStringRoundTrip(n: int)
    ensures ParseDecimal(IntToString(n)) == Some(n)
  {
    if n < 0 {
      NatToStringValue(-n);
      assert IntToString(n)[1..] == NatToString(-n);
    } else {
      NatToStringValue(n);
      assert NatToString(n)[0] != '-' && NatToString(n)[0] != '+';
    }
  }

  /** Two's-complement truncation to 32 bits (`Long.toInt()`, `Number.intValue()`). */
  function WrapInt32(n: int): (r: int)
    ensures IsInt32(r)
    ensures IsInt32(n) ==> r == n
  {
    var m := n % 0x1_0000_0000;
    if m >= 0x8000_0000 then m - 0x1_0000_0000 else m
  }

  /** Two's-complement truncation to 64 bits (overflowing `Long` arithmetic). */
  function WrapInt64(n: int): (r: int)
    ensures IsInt64(r)
    ensures IsInt64(n) ==> r == n
  {
    var m := n % 0x1_0000_0000_0000_0000;
    if m >= 0x8000_0000_0000_0000 then m - 0x1_0000_0000_0000_0000 else m
  }
}
