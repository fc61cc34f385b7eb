/** The JavaScript string operations the scripts rely on, over `seq<char>`:
    the `\s` / `trim()` whitespace set, `startsWith`, `endsWith`, `includes`,
    `indexOf`, `substring(0, n)`, the default `sort()` order on strings and the
    decimal rendering of a positive index. */
module Text {

  /** The characters JavaScript treats as whitespace, both in a regular
      expression's `\s` and in `String.prototype.trim`: the WhiteSpace and
      LineTerminator sets of ECMAScript. */
  predicate IsSpace(c: char) {
    || c == '\t' || c == '\n' || c == '\U{B}' || c == '\U{C}' || c == '\r' || c == ' '
    || c == '\U{A0}' || c == '\U{1680}' || ('\U{2000}' <= c <= '\U{200A}')
    || c == '\U{2028}' || c == '\U{2029}' || c == '\U{202F}' || c == '\U{205F}'
    || c == '\U{3000}' || c == '\U{FEFF}'
  }

  predicate AllSpace(s: string) {
    forall i :: 0 <= i < |s| ==> IsSpace(s[i])
  }

  /** `s.trimStart()`: drops the leading run of whitespace and nothing else. */
  function TrimStart(s: string): (r: string)
    ensures |r| <= |s| && r == s[|s| - |r|..]
    ensures AllSpace(s[..|s| - |r|])
    ensures r == [] || !IsSpace(r[0])
  {
    if s == [] || !IsSpace(s[0]) then s else TrimStart(s[1..])
  }

  /** `s.trimEnd()`: drops the trailing run of whitespace and nothing else. */
  function TrimEnd(s: string): (r: string)
    ensures |r| <= |s| && r == s[..|r|]
    ensures AllSpace(s[|r|..])
    ensures r == [] || !IsSpace(r[|r| - 1])
  {
    if s == [] || !IsSpace(s[|s| - 1]) then s else TrimEnd(s[..|s| - 1])
  }

  /** `s.trim()` */
  function Trim(s: string): string {
    TrimEnd(TrimStart(s))
  }

  /** `r` occurs in `s` at `i` with nothing but whitespace around it. */
  predicate Flanked(s: string, r: string, i: int) {
    0 <= i <= |s| - |r| && s[i..i + |r|] == r && AllSpace(s[..i]) && AllSpace(s[i + |r|..])
  }

  lemma TrimAt(s: string, t: string, r: string, i: nat)
    requires i <= |s| && t == s[i..] && AllSpace(s[..i])
    requires |r| <= |t| && r == t[..|r|] && AllSpace(t[|r|..])
    ensures Flanked(s, r, i)
  {
    assert s[i..i + |r|] == t[..|r|];
    assert s[i + |r|..] == t[|r|..];
  }

  /** `s.trim()` cuts whitespace only at the two ends: the result is a slice
      of `s` flanked by whitespace, and it neither starts nor ends with
      whitespace. */
  lemma TrimShape(s: string)
    ensures exists i :: Flanked(s, Trim(s), i)
    ensures Trim(s) == [] || (!IsSpace(Trim(s)[0]) && !IsSpace(Trim(s)[|Trim(s)| - 1]))
  {
    var t := TrimStart(s);
    var r := TrimEnd(t);
    assert r == Trim(s);
    var i := |s| - |t|;
    TrimAt(s, t, r, i);
    if r != [] {
      assert r[0] == t[0];
    }
  }

  predicate StartsWith(s: string, prefix: string) {
    |prefix| <= |s| && s[..|prefix|] == prefix
  }

  predicate EndsWith(s: string, suffix: string) {
    |suffix| <= |s| && s[|s| - |suffix|..] == suffix
  }

  /** `pat` occurs in `s` starting at index `i`. */
  predicate OccursAt(s: string, pat: string, i: int) {
    0 <= i && i + |pat| <= |s| && s[i..i + |pat|] == pat
  }

  /** `s.indexOf(pat)`: the first index at which `pat` occurs, or -1. */
  function IndexOf(s: string, pat: string): (r: int)
    ensures -1 <= r <= |s|
    ensures r == -1 <==> forall i :: 0 <= i <= |s| ==> !OccursAt(s, pat, i)
    ensures r >= 0 ==> OccursAt(s, pat, r) && forall i :: 0 <= i < r ==> !OccursAt(s, pat, i)
    decreases |s|
  {
    if |s| < |pat| then -1
    else if s[..|pat|] == pat then assert OccursAt(s, pat, 0); 0
    else
      var k := IndexOf(s[1..], pat);
      assert forall i :: 1 <= i <= |s| ==> OccursAt(s, pat, i) == OccursAt(s[1..], pat, i - 1);
      if k < 0 then -1 else assert OccursAt(s, pat, k + 1); k + 1
  }

  /** `s.includes(pat)` */
  predicate Contains(s: string, pat: string) {
    IndexOf(s, pat) >= 0
  }

  /** `s.substring(0, n)` on a string and `s.slice(0, n)` on an array, for
      `n >= 0`. */
  function Take<T>(s: seq<T>, n: nat): seq<T> {
    if |s| <= n then s else s[..n]
  }

  /** The comparison behind the default `Array.prototype.sort()` on strings:
      `a` is a proper prefix of `b`, or `a` has the smaller character at the
      first position where the two differ. */
  predicate Less(a: string, b: string) {
    if a == [] then b != []
    else if b == [] then false
    else if a[0] == b[0] then Less(a[1..], b[1..])
    else a[0] < b[0]
  }

  lemma {:induction false} LessIrreflexive(a: string)
    ensures !Less(a, a)
  {
    if a != [] {
      LessIrreflexive(a[1..]);
    }
  }

  lemma {:induction false} LessAsymmetric(a: string, b: string)
    requires Less(a, b)
    ensures !Less(b, a)
  {
    if a != [] && b != [] && a[0] == b[0] {
      LessAsymmetric(a[1..], b[1..]);
    }
  }

  lemma {:induction false} LessTransitive(a: string, b: string, c: string)
    requires Less(a, b) && Less(b, c)
    ensures Less(a, c)
  {
    if a != [] && a[0] == b[0] && b[0] == c[0] {
      LessTransitive(a[1..], b[1..], c[1..]);
    }
  }

  lemma {:induction false} LessTotal(a: string, b: string)
    ensures a == b || Less(a, b) || Less(b, a)
  {
    if a != [] && b != [] && a[0] == b[0] {
      LessTotal(a[1..], b[1..]);
      if a[1..] == b[1..] {
        assert a == [a[0]] + a[1..] && b == [b[0]] + b[1..];
      }
    }
  }

  predicate IsDigit(c: char) {
    '0' <= c <= '9'
  }

  /** The decimal rendering of `n`, as a template literal prints a number. */
  function Decimal(n: nat): (r: string)
    ensures r != [] && forall i :: 0 <= i < |r| ==> IsDigit(r[i])
  {
    if n < 10 then [('0' as int + n) as char]
    else Decimal(n / 10) + [('0' as int + n % 10) as char]
  }

  /** The value of a string of decimal digits. */
  function DigitsValue(s: string): nat
    requires forall i :: 0 <= i < |s| ==> IsDigit(s[i])
  {
    if s == [] then 0
    else
      assert IsDigit(s[|s| - 1]);
      10 * DigitsValue(s[..|s| - 1]) + (s[|s| - 1] as int - '0' as int)
  }

  /** `Decimal` loses nothing: reading the digits back gives the number. */
  lemma {:induction false} DecimalValue(n: nat)
    ensures DigitsValue(Decimal(n)) == n
  {
    if n >= 10 {
      var d := Decimal(n / 10);
      DecimalValue(n / 10);
      assert (d + [('0' as int + n % 10) as char])[..|d|] == d;
    }
  }
}
