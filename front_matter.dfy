/**
 * The two regular expressions the validator applies to the text of SKILL.md:
 * the front-matter block `^---\n([\s\S]*?)\n---`, and the field pattern
 * `key:\s*(.+)` used for `name:` and `description:`. Each is written
 * as recursive functions that follow the backtracking order of a JavaScript
 * regular-expression engine, and each is proved against a declarative
 * description of which match that engine reports.
 */
module FrontMatter {
  import opened JsText

  const Opening: string := "---\n"
  const Closing: string := "\n---"

  // ---------------------------------------------------------------------
  // The block: /^---\n([\s\S]*?)\n---/
  // ---------------------------------------------------------------------

  /** `content` begins with `---\n`, then `body`, then `\n---`. */
  predicate OpensWith(content: string, body: string) {
    StartsWith(content, Opening + body + Closing)
  }

  /** `body` is the shortest body with which `content` opens: what the lazy `*?` captures. */
  ghost predicate IsShortestBody(content: string, body: string) {
    OpensWith(content, body) && forall b :: OpensWith(content, b) ==> |body| <= |b|
  }

  /**
   * Group 1 of `content.match(/^---\n([\s\S]*?)\n---/)`. `^` anchors at the
   * start of the text and `[\s\S]` matches every character, so the lazy
   * group ends at the first `\n---` after the opening `---\n`.
   */
  function ExtractFrontMatter(content: string): Option<string> {
    if StartsWith(content, Opening) then
      match IndexOf(content[|Opening|..], Closing)
      case Some(k) => Some(content[|Opening|..|Opening| + k])
      case None => None
    else None
  }

  /** Opening with `body` is the same as finding `\n---` right after it. */
  lemma OpensWithMeans(content: string, body: string)
    ensures OpensWith(content, body) <==>
      && StartsWith(content, Opening)
      && OccursAt(content[4..], Closing, |body|)
      && content[4..4 + |body|] == body
  {
    var whole := Opening + body + Closing;
    if OpensWith(content, body) {
      assert content[..|whole|] == whole;
      assert content[..4] == whole[..4] == Opening;
      assert content[4..][|body|..|body| + 4] == whole[4 + |body|..] == Closing;
      assert content[4..4 + |body|] == whole[4..4 + |body|] == body;
    }
    if && StartsWith(content, Opening)
       && OccursAt(content[4..], Closing, |body|)
       && content[4..4 + |body|] == body
    {
      assert content[4 + |body|..8 + |body|] == content[4..][|body|..|body| + 4];
      assert content[..|whole|] == content[..4] + content[4..4 + |body|] + content[4 + |body|..8 + |body|];
    }
  }

  /** Two bodies with which the same text opens are equal once their lengths are. */
  lemma OpensWithSameLength(content: string, b1: string, b2: string)
    requires OpensWith(content, b1) && OpensWith(content, b2) && |b1| == |b2|
    ensures b1 == b2
  {
    OpensWithMeans(content, b1);
    OpensWithMeans(content, b2);
  }

  /**
   * The extraction yields exactly the shortest body, and fails exactly when
   * no body would do.
   */
  lemma {:induction false} ExtractFrontMatterIsShortest(content: string)
    ensures forall b :: ExtractFrontMatter(content) == Some(b) <==> IsShortestBody(content, b)
    ensures ExtractFrontMatter(content) == None <==> forall b :: !OpensWith(content, b)
  {
    var r := ExtractFrontMatter(content);
    if r.Some? {
      var k := |r.value|;
      OpensWithMeans(content, r.value);
      forall b | OpensWith(content, b) ensures k <= |b| {
        OpensWithMeans(content, b);
      }
      forall b | IsShortestBody(content, b) ensures b == r.value {
        OpensWithSameLength(content, b, r.value);
      }
    } else {
      forall b ensures !OpensWith(content, b) {
        OpensWithMeans(content, b);
      }
    }
  }

  /** The shortest body is unique, so the extraction returns any body that is shortest. */
  lemma ShortestBodyIsExtracted(content: string, body: string)
    requires IsShortestBody(content, body)
    ensures ExtractFrontMatter(content) == Some(body)
  {
    ExtractFrontMatterIsShortest(content);
  }

  /** The lazy match stops at the first closing delimiter, so the body never holds one. */
  lemma FrontMatterHoldsNoClosing(content: string)
    requires ExtractFrontMatter(content).Some?
    ensures !Contains(ExtractFrontMatter(content).value, Closing)
  {
    var rest := content[4..];
    var k := IndexOf(rest, Closing).value;
    var body := ExtractFrontMatter(content).value;
    assert body == rest[..k];
    if Contains(body, Closing) {
      var i :| OccursAt(body, Closing, i);
      assert rest[i..i + 4] == rest[..k][i..i + 4];
      assert OccursAt(rest, Closing, i);
    }
  }

  /** Two occurrences of the closing delimiter never overlap. */
  lemma ClosingsDoNotOverlap(t: string, k: nat, n: nat)
    requires OccursAt(t, Closing, k) && OccursAt(t, Closing, n) && k < n
    ensures k + 4 <= n
  {
    assert t[n] == t[n..n + 4][0];
    assert forall i :: k < i < k + 4 ==> t[i] == t[k..k + 4][i - k];
  }

  /**
   * Conversely, a body with which the text opens and which holds no closing
   * delimiter is the extracted one: the two facts determine the block.
   */
  lemma ExtractFrontMatterUnique(content: string, body: string)
    requires OpensWith(content, body) && !Contains(body, Closing)
    ensures ExtractFrontMatter(content) == Some(body)
  {
    var rest := content[4..];
    OpensWithMeans(content, body);
    assert body == rest[..|body|];
    // No closing delimiter starts inside `body`: either it would lie wholly
    // within it, or it would overlap the one right after it.
    forall i | 0 <= i < |body| ensures !OccursAt(rest, Closing, i) {
      if i + 4 <= |body| {
        assert rest[i..i + 4] == body[i..i + 4];
        assert OccursAt(rest, Closing, i) ==> OccursAt(body, Closing, i);
      } else if OccursAt(rest, Closing, i) {
        ClosingsDoNotOverlap(rest, i, |body|);
      }
    }
    assert IndexOf(rest, Closing) == Some(|body|);
  }

  // ---------------------------------------------------------------------
  // A field: /key:\s*(.+)/
  // ---------------------------------------------------------------------

  /**
   * One way for `key:\s*(.+)` to match `s`: `key` at `p`, `\s*` over
   * `[p + |key|, j)`, and the group `(.+)` over `[j, e)`.
   */
  ghost predicate IsFieldMatch(s: string, key: string, p: int, j: int, e: int) {
    && 0 <= p && p + |key| <= j < e <= |s|
    && s[p..p + |key|] == key
    && (forall i :: p + |key| <= i < j ==> IsWhiteSpace(s[i]))
    && (forall i :: j <= i < e ==> !IsLineTerminator(s[i]))
  }

  /**
   * The match the engine reports: the leftmost start; then, since `\s*` is
   * greedy and gives back one character at a time, the latest start of the
   * group; then, since `.+` is greedy, the longest group.
   */
  ghost predicate IsReportedFieldMatch(s: string, key: string, p: int, j: int, e: int) {
    && IsFieldMatch(s, key, p, j, e)
    && forall p', j', e' :: IsFieldMatch(s, key, p', j', e') ==>
         p < p' || (p == p' && (j' < j || (j' == j && e' <= e)))
  }

  /** `v` is the group 1 of the match the engine reports for `key:\s*(.+)` on `s`. */
  ghost predicate FieldValue(s: string, key: string, v: string) {
    exists p, j, e :: IsReportedFieldMatch(s, key, p, j, e) && v == s[j..e]
  }

  /** Where the reported match lies: the key at `at`, the group over `[start, end)`. */
  datatype FieldMatch = FieldMatch(at: nat, start: nat, end: nat)

  /** How many characters from `j` on `.+` consumes. */
  function LineRun(s: string, j: nat): (n: nat)
    requires j <= |s|
    decreases |s| - j
    ensures j + n <= |s|
    ensures forall k :: j <= k < j + n ==> !IsLineTerminator(s[k])
    ensures j + n == |s| || IsLineTerminator(s[j + n])
  {
    if j < |s| && !IsLineTerminator(s[j]) then 1 + LineRun(s, j + 1) else 0
  }

  /**
   * Backtracking `\s*` from `j` down to `lo`: the first position, counting
   * down, at which `.` can match, i.e. the group can start.
   */
  function GroupStart(s: string, lo: nat, j: nat): (r: Option<nat>)
    requires lo <= j
    decreases j - lo
    ensures r.Some? ==> lo <= r.value <= j && r.value < |s| && !IsLineTerminator(s[r.value])
    ensures r.Some? ==> forall k :: r.value < k <= j && k < |s| ==> IsLineTerminator(s[k])
    ensures r.None? ==> forall k :: lo <= k <= j && k < |s| ==> IsLineTerminator(s[k])
  {
    if j < |s| && !IsLineTerminator(s[j]) then Some(j)
    else if j == lo then None
    else GroupStart(s, lo, j - 1)
  }

  /** The attempt to match `key:\s*(.+)` with the key at `p`. */
  function MatchFieldAt(s: string, key: string, p: nat): Option<FieldMatch> {
    if p + |key| <= |s| && s[p..p + |key|] == key then
      var lo := p + |key|;
      match GroupStart(s, lo, lo + WhiteSpaceRun(s, lo))
      case Some(j) => Some(FieldMatch(p, j, j + LineRun(s, j)))
      case None => None
    else None
  }

  /** Every match with its key at `p` starts its group within the first whitespace run, at a `.` character. */
  lemma GroupStartsInRun(s: string, key: string, p: nat, j: int, e: int)
    requires IsFieldMatch(s, key, p, j, e)
    ensures j <= p + |key| + WhiteSpaceRun(s, p + |key|) && !IsLineTerminator(s[j])
  {
    var lo := p + |key|;
    var w := WhiteSpaceRun(s, lo);
    assert lo + w < |s| ==> !IsWhiteSpace(s[lo + w]);
  }

  /** A group that starts at `j` ends, at the latest, where `.+` stops. */
  lemma GroupEndsAtLineEnd(s: string, key: string, p: nat, j: nat, e: int)
    requires IsFieldMatch(s, key, p, j, e)
    ensures e <= j + LineRun(s, j)
  {
    var d := LineRun(s, j);
    assert j + d < |s| ==> IsLineTerminator(s[j + d]);
  }

  /** The attempt at `p` reports the preferred match with its key at `p`, if there is one. */
  lemma MatchFieldAtIsPreferred(s: string, key: string, p: nat)
    ensures MatchFieldAt(s, key, p).Some? ==>
      var m := MatchFieldAt(s, key, p).value;
      && m.at == p
      && IsFieldMatch(s, key, p, m.start, m.end)
      && forall j, e :: IsFieldMatch(s, key, p, j, e) ==> j < m.start || (j == m.start && e <= m.end)
    ensures MatchFieldAt(s, key, p).None? ==> forall j, e :: !IsFieldMatch(s, key, p, j, e)
  {
    if p + |key| <= |s| && s[p..p + |key|] == key {
      var lo := p + |key|;
      var w := WhiteSpaceRun(s, lo);
      forall j, e | IsFieldMatch(s, key, p, j, e) ensures j <= lo + w && !IsLineTerminator(s[j]) {
        GroupStartsInRun(s, key, p, j, e);
      }
      var g := GroupStart(s, lo, lo + w);
      if g.Some? {
        var j0 := g.value;
        var d := LineRun(s, j0);
        assert IsFieldMatch(s, key, p, j0, j0 + d);
        forall j, e | IsFieldMatch(s, key, p, j, e) ensures j < j0 || (j == j0 && e <= j0 + d) {
          if j == j0 {
            GroupEndsAtLineEnd(s, key, p, j, e);
          }
        }
      }
    }
  }

  /** The engine's scan over start positions `p`, `p + 1`, ... */
  function FindFieldFrom(s: string, key: string, p: nat): (r: Option<FieldMatch>)
    decreases |s| - p
  {
    if |s| <= p then None
    else match MatchFieldAt(s, key, p)
      case Some(m) => Some(m)
      case None => FindFieldFrom(s, key, p + 1)
  }

  /** No match of `key:\s*(.+)` has its key at `from` or later. */
  ghost predicate NoFieldMatchFrom(s: string, key: string, from: int) {
    forall p, j, e :: from <= p ==> !IsFieldMatch(s, key, p, j, e)
  }

  /** `m` is a match with its key at `from` or later, preferred to every other such match. */
  ghost predicate IsPreferredFrom(s: string, key: string, from: int, m: FieldMatch) {
    && from <= m.at
    && IsFieldMatch(s, key, m.at, m.start, m.end)
    && forall p, j, e :: from <= p && IsFieldMatch(s, key, p, j, e) ==>
         m.at < p || (m.at == p && (j < m.start || (j == m.start && e <= m.end)))
  }

  /** When nothing matches at `from`, what holds from `from + 1` on holds from `from` on. */
  lemma SkipUnmatchedPosition(s: string, key: string, from: nat)
    requires forall j, e :: !IsFieldMatch(s, key, from, j, e)
    ensures NoFieldMatchFrom(s, key, from + 1) ==> NoFieldMatchFrom(s, key, from)
    ensures forall m :: IsPreferredFrom(s, key, from + 1, m) ==> IsPreferredFrom(s, key, from, m)
  {
    assert forall p, j, e :: from <= p && IsFieldMatch(s, key, p, j, e) ==> from + 1 <= p;
  }

  /** The scan from `from` reports the preferred match among those starting at `from` or later. */
  lemma {:induction false} FindFieldFromIsReported(s: string, key: string, from: nat)
    ensures FindFieldFrom(s, key, from).Some? ==> IsPreferredFrom(s, key, from, FindFieldFrom(s, key, from).value)
    ensures FindFieldFrom(s, key, from).None? ==> NoFieldMatchFrom(s, key, from)
    decreases |s| - from
  {
    if from < |s| {
      MatchFieldAtIsPreferred(s, key, from);
      if MatchFieldAt(s, key, from).None? {
        assert FindFieldFrom(s, key, from) == FindFieldFrom(s, key, from + 1);
        FindFieldFromIsReported(s, key, from + 1);
        SkipUnmatchedPosition(s, key, from);
      } else {
        assert FindFieldFrom(s, key, from) == MatchFieldAt(s, key, from);
      }
    } else {
      assert FindFieldFrom(s, key, from).None?;
      assert forall p, j, e :: from <= p && IsFieldMatch(s, key, p, j, e) ==> p < |s|;
    }
  }

  /** Group 1 of `s.match(/key:\s*(.+)/)`, or None when there is no match. */
  function MatchField(s: string, key: string): Option<string> {
    FindFieldFromIsReported(s, key, 0);
    match FindFieldFrom(s, key, 0)
    case Some(m) => Some(s[m.start..m.end])
    case None => None
  }

  /** Two reported matches are the same match. */
  lemma ReportedFieldMatchUnique(s: string, key: string, p: int, j: int, e: int, p': int, j': int, e': int)
    requires IsReportedFieldMatch(s, key, p, j, e) && IsReportedFieldMatch(s, key, p', j', e')
    ensures p == p' && j == j' && e == e'
  {
  }

  /**
   * `MatchField` answers with the group of the reported match, exactly, and
   * with None exactly when `key:\s*(.+)` does not match at all.
   */
  lemma MatchFieldIsFieldValue(s: string, key: string)
    ensures MatchField(s, key).None? <==> forall p, j, e :: !IsFieldMatch(s, key, p, j, e)
    ensures forall v :: MatchField(s, key) == Some(v) <==> FieldValue(s, key, v)
  {
    FindFieldFromIsReported(s, key, 0);
    var r := FindFieldFrom(s, key, 0);
    if r.Some? {
      var m := r.value;
      assert IsReportedFieldMatch(s, key, m.at, m.start, m.end);
      forall v | FieldValue(s, key, v) ensures v == s[m.start..m.end] {
        var p, j, e :| IsReportedFieldMatch(s, key, p, j, e) && v == s[j..e];
        ReportedFieldMatchUnique(s, key, p, j, e, m.at, m.start, m.end);
      }
    }
  }

  /**
   * A field value is a non-empty piece of one line, and a value exists only
   * where the key occurs.
   */
  lemma FieldValueIsOneLine(s: string, key: string, v: string)
    requires FieldValue(s, key, v)
    ensures |v| > 0 && forall i :: 0 <= i < |v| ==> !IsLineTerminator(v[i])
    ensures Contains(s, key)
  {
    var p, j, e :| IsReportedFieldMatch(s, key, p, j, e) && v == s[j..e];
    assert OccursAt(s, key, p);
    forall i | 0 <= i < |v| ensures !IsLineTerminator(v[i]) {
      assert v[i] == s[j + i];
    }
  }
}
