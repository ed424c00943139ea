/**
 * The ASCII part of the Python `str` operations the core relies on:
 * `isdigit`, `int`, `str`, `strip`, `split`, `lower`, `upper`, `title`
 * and the ordering Python uses to compare two strings.
 */
module Text {
  import opened Wrappers

  // ---------- digits ----------

  predicate IsDigit(c: char) {
    '0' <= c <= '9'
  }

  predicate AllDigits(s: string) {
    forall i :: 0 <= i < |s| ==> IsDigit(s[i])
  }

  /** `s.isdigit()`: at least one character and only digits. */
  predicate IsDigits(s: string) {
    |s| > 0 && AllDigits(s)
  }

  function DigitValue(c: char): nat
    requires IsDigit(c)
  {
    c as int - '0' as int
  }

  function DigitChar(d: nat): (c: char)
    requires d < 10
    ensures IsDigit(c) && DigitValue(c) == d
  {
    ('0' as int + d) as char
  }

  /** `int(s)` for a string made of digits (leading zeros allowed, as in Python). */
  function DigitsValue(s: string): nat
    requires AllDigits(s)
  {
    if |s| == 0 then 0 else 10 * DigitsValue(s[..|s| - 1]) + DigitValue(s[|s| - 1])
  }

  /** `str(n)` for a natural number. */
  function NatToString(n: nat): (s: string)
    ensures IsDigits(s)
  {
    if n < 10 then [DigitChar(n)]
    else
      var prefix := NatToString(n / 10);
      var s := prefix + [DigitChar(n % 10)];
      assert forall i :: 0 <= i < |prefix| ==> s[i] == prefix[i];
      s
  }

  /** `str(i)` for any integer. */
  function IntToString(i: int): string {
    if i < 0 then "-" + NatToString(-i) else NatToString(i)
  }

  /** Reading back what `NatToString` wrote gives the number again. */
  lemma {:induction false} NatToStringRoundTrip(n: nat)
    ensures DigitsValue(NatToString(n)) == n
  {
    if n >= 10 {
      NatToStringRoundTrip(n / 10);
      var s := NatToString(n);
      assert s[..|s| - 1] == NatToString(n / 10);
    }
  }

  // ---------- whitespace and trimming ----------

  /** The ASCII characters for which Python's `str.isspace` holds. */
  predicate IsSpace(c: char) {
    9 <= c as int <= 13 || 28 <= c as int <= 32
  }

  predicate IsUnderscore(c: char) {
    c == '_'
  }

  /** Number of leading characters of `s` that `drop` removes. */
  function LeadLen(s: string, drop: char -> bool): (k: nat)
    ensures k <= |s|
    ensures forall i :: 0 <= i < k ==> drop(s[i])
    ensures k < |s| ==> !drop(s[k])
  {
    if |s| == 0 || !drop(s[0]) then 0 else 1 + LeadLen(s[1..], drop)
  }

  /** Number of trailing characters of `s` that `drop` removes. */
  function TrailLen(s: string, drop: char -> bool): (k: nat)
    ensures k <= |s|
    ensures forall i :: |s| - k <= i < |s| ==> drop(s[i])
    ensures k < |s| ==> !drop(s[|s| - 1 - k])
  {
    if |s| == 0 || !drop(s[|s| - 1]) then 0 else 1 + TrailLen(s[..|s| - 1], drop)
  }

  /** `s.strip(chars)`: removes the longest prefix and suffix made of dropped characters. */
  function Trim(s: string, drop: char -> bool): (r: string)
    ensures LeadLen(s, drop) + |r| <= |s|
    ensures r == s[LeadLen(s, drop)..LeadLen(s, drop) + |r|]
    ensures forall i :: 0 <= i < LeadLen(s, drop) ==> drop(s[i])
    ensures forall i :: LeadLen(s, drop) + |r| <= i < |s| ==> drop(s[i])
    ensures |r| > 0 ==> !drop(r[0]) && !drop(r[|r| - 1])
  {
    var a := LeadLen(s, drop);
    var t := s[a..];
    var b := TrailLen(t, drop);
    t[..|t| - b]
  }

  /** Trimming a string whose ends are not dropped changes nothing. */
  lemma TrimKeepsClean(s: string, drop: char -> bool)
    requires |s| > 0 ==> !drop(s[0]) && !drop(s[|s| - 1])
    ensures Trim(s, drop) == s
  {
  }

  /** `s.strip()` */
  function Strip(s: string): string {
    Trim(s, IsSpace)
  }

  /** `s.replace(" ", "")` */
  function RemoveSpaces(s: string): (r: string)
    ensures ' ' !in r
  {
    if |s| == 0 then []
    else if s[0] == ' ' then RemoveSpaces(s[1..])
    else [s[0]] + RemoveSpaces(s[1..])
  }

  /**
   * A prompt asked again until an answer passes `ok`: the position of the first answer
   * that does, or `None` (EOFError) when the input runs out first.
   */
  function FirstWhere<T>(lines: seq<T>, ok: T -> bool): (k: Option<nat>)
    ensures k.None? <==> forall j :: 0 <= j < |lines| ==> !ok(lines[j])
    ensures k.Some? ==> k.value < |lines| && ok(lines[k.value])
    ensures k.Some? ==> forall j :: 0 <= j < k.value ==> !ok(lines[j])
  {
    if |lines| == 0 then None
    else if ok(lines[0]) then Some(0)
    else match FirstWhere(lines[1..], ok)
      case None => None
      case Some(k) => Some(k + 1)
  }

  // ---------- splitting ----------

  function IndexOf(s: string, c: char): (i: nat)
    requires c in s
    ensures i < |s| && s[i] == c && c !in s[..i]
  {
    if s[0] == c then 0 else 1 + IndexOf(s[1..], c)
  }

  /** `s.split(sep)` for a one-character separator; `"".split(",") == [""]`. */
  function Split(s: string, sep: char): (parts: seq<string>)
    ensures |parts| >= 1
    ensures forall k :: 0 <= k < |parts| ==> sep !in parts[k]
    decreases |s|
  {
    if sep !in s then [s]
    else
      var i := IndexOf(s, sep);
      [s[..i]] + Split(s[i + 1..], sep)
  }

  lemma {:induction false} IndexOfAfter(a: string, rest: string, sep: char)
    requires sep !in a && |rest| > 0 && rest[0] == sep
    ensures sep in a + rest && IndexOf(a + rest, sep) == |a|
  {
    assert (a + rest)[|a|] == sep;
    if |a| > 0 {
      IndexOfAfter(a[1..], rest, sep);
      assert (a + rest)[1..] == a[1..] + rest;
    }
  }

  /** Two pieces without the separator, joined by it, split back into those two pieces. */
  lemma SplitTwo(a: string, b: string, sep: char)
    requires sep !in a && sep !in b
    ensures Split(a + [sep] + b, sep) == [a, b]
  {
    var s := a + [sep] + b;
    IndexOfAfter(a, [sep] + b, sep);
    assert s == a + ([sep] + b);
    assert s[..|a|] == a;
    assert s[|a| + 1..] == b;
  }

  /** `sep.join(parts)` */
  function Join(parts: seq<string>, sep: char): string
    requires |parts| >= 1
  {
    if |parts| == 1 then parts[0] else parts[0] + [sep] + Join(parts[1..], sep)
  }

  /** Splitting loses nothing: joining the pieces back gives the input. */
  lemma {:induction false} SplitJoin(s: string, sep: char)
    ensures Join(Split(s, sep), sep) == s
    decreases |s|
  {
    if sep in s {
      var i := IndexOf(s, sep);
      var rest := s[i + 1..];
      SplitJoin(rest, sep);
      var parts := Split(s, sep);
      assert parts[1..] == Split(rest, sep);
      assert s == s[..i] + [sep] + rest;
    }
  }

  // ---------- case ----------

  function LowerChar(c: char): char {
    if 'A' <= c <= 'Z' then (c as int + 32) as char else c
  }

  function UpperChar(c: char): char {
    if 'a' <= c <= 'z' then (c as int - 32) as char else c
  }

  /** `s.lower()` */
  function Lower(s: string): (r: string)
    ensures |r| == |s|
    ensures forall i :: 0 <= i < |s| ==> r[i] == LowerChar(s[i])
  {
    seq(|s|, i requires 0 <= i < |s| => LowerChar(s[i]))
  }

  /** `s.upper()` */
  function Upper(s: string): (r: string)
    ensures |r| == |s|
    ensures forall i :: 0 <= i < |s| ==> r[i] == UpperChar(s[i])
  {
    seq(|s|, i requires 0 <= i < |s| => UpperChar(s[i]))
  }

  /** Upper-casing never produces a lower-case letter. */
  lemma UpperHasNoLowercase(s: string, c: char)
    requires 'a' <= c <= 'z'
    ensures c !in Upper(s)
  {
    var u := Upper(s);
    forall i | 0 <= i < |u|
      ensures u[i] != c
    {
      assert u[i] == UpperChar(s[i]);
    }
  }

  predicate IsCased(c: char) {
    'A' <= c <= 'Z' || 'a' <= c <= 'z'
  }

  /** `s.title()`: a letter is upper-cased after a non-letter and lower-cased after a letter. */
  function TitleFrom(s: string, afterCased: bool): (r: string)
    ensures |r| == |s|
  {
    if |s| == 0 then []
    else
      var c := if afterCased then LowerChar(s[0]) else UpperChar(s[0]);
      [c] + TitleFrom(s[1..], IsCased(s[0]))
  }

  function Title(s: string): string {
    TitleFrom(s, false)
  }

  // ---------- ordering ----------

  /** Python's `a <= b` on strings: lexicographic by code point, a prefix sorts first. */
  predicate StrLe(a: string, b: string) {
    |a| == 0 || (|b| > 0 && (a[0] < b[0] || (a[0] == b[0] && StrLe(a[1..], b[1..]))))
  }

  /** Python's `a < b` on strings. */
  predicate StrLt(a: string, b: string) {
    !StrLe(b, a)
  }

  lemma {:induction false} StrLeTotal(a: string, b: string)
    ensures StrLe(a, b) || StrLe(b, a)
  {
    if |a| > 0 && |b| > 0 && a[0] == b[0] {
      StrLeTotal(a[1..], b[1..]);
    }
  }

  lemma {:induction false} StrLeTrans(a: string, b: string, c: string)
    requires StrLe(a, b) && StrLe(b, c)
    ensures StrLe(a, c)
  {
    if |a| > 0 && a[0] == b[0] && b[0] == c[0] {
      StrLeTrans(a[1..], b[1..], c[1..]);
    }
  }

  lemma {:induction false} StrLeAntisym(a: string, b: string)
    requires StrLe(a, b) && StrLe(b, a)
    ensures a == b
  {
    if |a| > 0 {
      StrLeAntisym(a[1..], b[1..]);
      assert a == [a[0]] + a[1..];
      assert b == [b[0]] + b[1..];
    }
  }

  lemma {:induction false} StrLeRefl(a: string)
    ensures StrLe(a, a)
  {
    if |a| > 0 {
      StrLeRefl(a[1..]);
    }
  }
}
