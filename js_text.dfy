/**
 * The JavaScript string built-ins the validator relies on: `startsWith`,
 * `endsWith`, `includes` (through `indexOf`), `trim`, and the character
 * classes `\s` and `.` of its regular expressions.
 *
 * Strings are sequences of Unicode scalar values, where JavaScript uses
 * UTF-16 code units. Every character these checks single out lies in the
 * Basic Multilingual Plane, so both views give the same answers.
 */
module JsText {

  datatype Option<+T> = None | Some(value: T)

  /**
   * ECMAScript LineTerminator: LF, CR, LINE SEPARATOR, PARAGRAPH SEPARATOR.
   * These are the characters that `.` in a regular expression does not match.
   */
  predicate IsLineTerminator(c: char) {
    c == '\n' || c == '\r' || c == '\U{2028}' || c == '\U{2029}'
  }

  /**
   * ECMAScript WhiteSpace or LineTerminator: the class `\s`, and what
   * `String.prototype.trim` removes. This is an approximation by a fixed
   * finite set: the Unicode space separators (category Zs) are listed as
   * current Unicode versions define them, and later additions to Zs are
   * not followed.
   */
  predicate IsWhiteSpace(c: char) {
    || IsLineTerminator(c)
    || c == '\t' || c == '\U{000B}' || c == '\U{000C}' || c == ' '
    || c == '\U{00A0}' || c == '\U{1680}' || ('\U{2000}' <= c <= '\U{200A}')
    || c == '\U{202F}' || c == '\U{205F}' || c == '\U{3000}' || c == '\U{FEFF}'
  }

  /** Every character of `s[i..j]` is whitespace. */
  predicate AllWhiteSpace(s: string, i: int, j: int) {
    forall k :: i <= k < j && 0 <= k < |s| ==> IsWhiteSpace(s[k])
  }

  /** `t` occurs in `s` starting at index `i`. */
  predicate OccursAt(s: string, t: string, i: int) {
    0 <= i && i + |t| <= |s| && s[i..i + |t|] == t
  }

  /** `t` is a substring of `s`. */
  ghost predicate Contains(s: string, t: string) {
    exists i :: OccursAt(s, t, i)
  }

  /** `s.startsWith(prefix)` */
  predicate StartsWith(s: string, prefix: string) {
    |prefix| <= |s| && s[..|prefix|] == prefix
  }

  /** `s.endsWith(suffix)` */
  predicate EndsWith(s: string, suffix: string) {
    |suffix| <= |s| && s[|s| - |suffix|..] == suffix
  }

  /** `s.indexOf(t, from)`, with -1 as None: the first occurrence at or after `from`. */
  function IndexOfFrom(s: string, t: string, from: nat): (r: Option<nat>)
    requires from <= |s|
    decreases |s| - from
    ensures r.Some? ==> from <= r.value && OccursAt(s, t, r.value)
    ensures r.Some? ==> forall k :: from <= k < r.value ==> !OccursAt(s, t, k)
    ensures r.None? ==> forall k :: from <= k ==> !OccursAt(s, t, k)
  {
    if from + |t| > |s| then None
    else if s[from..from + |t|] == t then Some(from)
    else IndexOfFrom(s, t, from + 1)
  }

  /** `s.indexOf(t)`: the first occurrence of `t` in `s`, if any. */
  function IndexOf(s: string, t: string): (r: Option<nat>)
    ensures r.Some? ==> OccursAt(s, t, r.value) && forall k :: 0 <= k < r.value ==> !OccursAt(s, t, k)
    ensures r.None? <==> !Contains(s, t)
  {
    IndexOfFrom(s, t, 0)
  }

  /** `s.includes(t)` */
  function Includes(s: string, t: string): (b: bool)
    ensures b <==> Contains(s, t)
  {
    IndexOf(s, t).Some?
  }

  /** How many whitespace characters `s` has from index `i` on, before the first other one. */
  function WhiteSpaceRun(s: string, i: nat): (n: nat)
    requires i <= |s|
    decreases |s| - i
    ensures i + n <= |s|
    ensures AllWhiteSpace(s, i, i + n)
    ensures i + n == |s| || !IsWhiteSpace(s[i + n])
  {
    if i < |s| && IsWhiteSpace(s[i]) then 1 + WhiteSpaceRun(s, i + 1) else 0
  }

  /** The length of `s[..n]` once its trailing whitespace is dropped. */
  function TrimmedEnd(s: string, n: nat): (m: nat)
    requires n <= |s|
    ensures m <= n
    ensures AllWhiteSpace(s, m, n)
    ensures m == 0 || !IsWhiteSpace(s[m - 1])
  {
    if n > 0 && IsWhiteSpace(s[n - 1]) then TrimmedEnd(s, n - 1) else n
  }

  /** The leading-whitespace half of `s.trim()`. */
  function TrimStart(s: string): (r: string)
    ensures |r| <= |s| && r == s[|s| - |r|..]
    ensures AllWhiteSpace(s, 0, |s| - |r|)
    ensures r == [] || !IsWhiteSpace(r[0])
  {
    s[WhiteSpaceRun(s, 0)..]
  }

  /** The trailing-whitespace half of `s.trim()`. */
  function TrimEnd(s: string): (r: string)
    ensures |r| <= |s| && r == s[..|r|]
    ensures AllWhiteSpace(s, |r|, |s|)
    ensures r == [] || !IsWhiteSpace(r[|r| - 1])
  {
    s[..TrimmedEnd(s, |s|)]
  }

  /** `s.trim()` */
  function Trim(s: string): string {
    TrimEnd(TrimStart(s))
  }

  /** `r` neither starts nor ends with whitespace. */
  ghost predicate IsTrimmed(r: string) {
    r == [] || (!IsWhiteSpace(r[0]) && !IsWhiteSpace(r[|r| - 1]))
  }

  /** `r` is `s` with a whitespace prefix and a whitespace suffix removed, and no more can go. */
  ghost predicate IsTrimOf(s: string, r: string) {
    && IsTrimmed(r)
    && exists i, j :: 0 <= i <= j <= |s| && AllWhiteSpace(s, 0, i) && s[i..j] == r && AllWhiteSpace(s, j, |s|)
  }

  /** `trim` removes whitespace at both ends and nothing else. */
  lemma TrimIsTrimOf(s: string)
    ensures IsTrimOf(s, Trim(s))
  {
    var t := TrimStart(s);
    var r := TrimEnd(t);
    var i := |s| - |t|;
    var j := i + |r|;
    assert s[i..j] == r;
    assert AllWhiteSpace(s, j, |s|) by {
      assert forall k :: j <= k < |s| ==> s[k] == t[k - i];
    }
    if r != [] {
      assert r[0] == t[0];
    }
  }

  /** A whitespace run ends at the first character that is not whitespace, wherever that is shown to be. */
  lemma WhiteSpaceRunStopsAt(s: string, i: nat, k: nat)
    requires i <= k <= |s| && AllWhiteSpace(s, i, k)
    requires k == |s| || !IsWhiteSpace(s[k])
    ensures WhiteSpaceRun(s, i) == k - i
  {
    var n := WhiteSpaceRun(s, i);
    assert i + n < |s| ==> !IsWhiteSpace(s[i + n]);
  }

  /** Dropping trailing whitespace stops after the last character that is not whitespace. */
  lemma TrimmedEndStopsAt(s: string, n: nat, m: nat)
    requires m <= n <= |s| && AllWhiteSpace(s, m, n)
    requires m == 0 || !IsWhiteSpace(s[m - 1])
    ensures TrimmedEnd(s, n) == m
  {
    var e := TrimmedEnd(s, n);
    assert e > 0 ==> !IsWhiteSpace(s[e - 1]);
  }

  /** A string of whitespace only trims to the empty string. */
  lemma TrimAllWhiteSpace(s: string)
    requires AllWhiteSpace(s, 0, |s|)
    ensures Trim(s) == []
  {
    WhiteSpaceRunStopsAt(s, 0, |s|);
  }

  /**
   * Removing the whitespace before `i` and from `j` on, where `s[i]` and
   * `s[j - 1]` are not whitespace, leaves `trim`'s result.
   */
  lemma TrimBetween(s: string, i: nat, j: nat)
    requires i < j <= |s| && AllWhiteSpace(s, 0, i) && AllWhiteSpace(s, j, |s|)
    requires !IsWhiteSpace(s[i]) && !IsWhiteSpace(s[j - 1])
    ensures Trim(s) == s[i..j]
  {
    WhiteSpaceRunStopsAt(s, 0, i);
    var t := s[i..];
    assert AllWhiteSpace(t, j - i, |t|) by {
      assert forall k :: j - i <= k < |t| ==> t[k] == s[k + i];
    }
    assert t[j - i - 1] == s[j - 1];
    TrimmedEndStopsAt(t, |t|, j - i);
    assert t[..j - i] == s[i..j];
  }

  /** The trim of a string is unique: any `r` that `IsTrimOf` admits is `s.trim()`. */
  lemma TrimOfIsTrim(s: string, r: string)
    requires IsTrimOf(s, r)
    ensures r == Trim(s)
  {
    var i, j :| 0 <= i <= j <= |s| && AllWhiteSpace(s, 0, i) && s[i..j] == r && AllWhiteSpace(s, j, |s|);
    if r == [] {
      TrimAllWhiteSpace(s);
    } else {
      assert s[i] == r[0] && s[j - 1] == r[|r| - 1];
      TrimBetween(s, i, j);
    }
  }

  /** Trimming removes only whitespace: every other character of `s` is still in `s.trim()`. */
  lemma TrimKeepsNonWhiteSpace(s: string, k: nat)
    requires k < |s| && !IsWhiteSpace(s[k])
    ensures exists m :: 0 <= m < |Trim(s)| && Trim(s)[m] == s[k]
  {
    var t := TrimStart(s);
    var i := |s| - |t|;
    assert i <= k;
    assert t[k - i] == s[k];
    var r := TrimEnd(t);
    assert k - i < |r|;
    assert Trim(s)[k - i] == s[k];
  }
}
