/**
 * The naming rule for a skill: the two checks the validator runs on the
 * trimmed `name:` value, and the convention they enforce, hyphen-case:
 * one or more words of lowercase letters and digits joined by single hyphens.
 */
module HyphenCase {
  import opened JsText

  /** A character of the class `[a-z0-9-]`. */
  predicate IsNameChar(c: char) {
    'a' <= c <= 'z' || '0' <= c <= '9' || c == '-'
  }

  /** `/^[a-z0-9-]+$/.test(name)`: the charset check, run first. */
  predicate MatchesNameCharset(name: string) {
    |name| > 0 && forall i :: 0 <= i < |name| ==> IsNameChar(name[i])
  }

  /** `name.startsWith('-') || name.endsWith('-') || name.includes('--')`: the placement check, run second. */
  predicate HasMisplacedHyphen(name: string) {
    StartsWith(name, "-") || EndsWith(name, "-") || Includes(name, "--")
  }

  /** The two checks read character by character. */
  ghost predicate FollowsNameRules(name: string) {
    && MatchesNameCharset(name)
    && name[0] != '-'
    && name[|name| - 1] != '-'
    && forall i :: 0 <= i < |name| - 1 && name[i] == '-' ==> name[i + 1] != '-'
  }

  /** A lowercase letter or a digit. */
  predicate IsWordChar(c: char) {
    'a' <= c <= 'z' || '0' <= c <= '9'
  }

  /** A non-empty run of lowercase letters and digits. */
  predicate IsWord(w: string) {
    |w| > 0 && forall i :: 0 <= i < |w| ==> IsWordChar(w[i])
  }

  ghost predicate AllWords(ws: seq<string>) {
    forall i :: 0 <= i < |ws| ==> IsWord(ws[i])
  }

  /** The words of `ws` with a single hyphen between neighbours. */
  function JoinWithHyphens(ws: seq<string>): string
    requires |ws| > 0
    decreases |ws|
  {
    if |ws| == 1 then ws[0] else ws[0] + "-" + JoinWithHyphens(ws[1..])
  }

  /** Hyphen-case: some non-empty list of words joined by single hyphens. */
  ghost predicate IsHyphenCase(name: string) {
    exists ws :: |ws| > 0 && AllWords(ws) && JoinWithHyphens(ws) == name
  }

  /** The two checks pass exactly when the character-level rules hold. */
  lemma NameChecksMeanRules(name: string)
    ensures MatchesNameCharset(name) && !HasMisplacedHyphen(name) <==> FollowsNameRules(name)
  {
    if |name| > 0 {
      assert StartsWith(name, "-") <==> name[0] == '-' by {
        assert name[..1] == [name[0]];
      }
      assert EndsWith(name, "-") <==> name[|name| - 1] == '-' by {
        assert name[|name| - 1..] == [name[|name| - 1]];
      }
      forall i | 0 <= i < |name| - 1
        ensures OccursAt(name, "--", i) <==> name[i] == '-' && name[i + 1] == '-'
      {
        assert name[i..i + 2] == [name[i], name[i + 1]];
      }
      if Contains(name, "--") {
        var i :| OccursAt(name, "--", i);
        assert name[i] == '-' && name[i + 1] == '-';
      }
    }
  }

  /** Words joined by single hyphens satisfy the character-level rules. */
  lemma {:induction false} JoinedWordsFollowRules(ws: seq<string>)
    requires |ws| > 0 && AllWords(ws)
    ensures FollowsNameRules(JoinWithHyphens(ws))
  {
    var w := ws[0];
    assert IsWord(w);
    if |ws| > 1 {
      var rest := JoinWithHyphens(ws[1..]);
      assert AllWords(ws[1..]) by {
        forall i | 0 <= i < |ws| - 1 ensures IsWord(ws[1..][i]) {
          assert ws[1..][i] == ws[i + 1];
        }
      }
      JoinedWordsFollowRules(ws[1..]);
      var name := w + "-" + rest;
      assert forall i :: 0 <= i < |w| ==> name[i] == w[i];
      assert name[|w|] == '-';
      assert forall i :: |w| < i < |name| ==> name[i] == rest[i - |w| - 1];
      assert MatchesNameCharset(name);
    }
  }

  /**
   * Cuts `name` at every hyphen: the pieces between them, in order.
   */
  function SplitAtHyphens(name: string): (ws: seq<string>)
    ensures |ws| > 0 && JoinWithHyphens(ws) == name
    decreases |name|
  {
    match IndexOf(name, "-")
    case None => [name]
    case Some(k) =>
      var ws := [name[..k]] + SplitAtHyphens(name[k + 1..]);
      assert ws[1..] == SplitAtHyphens(name[k + 1..]);
      assert name[k..k + 1] == "-";
      assert name == name[..k] + "-" + name[k + 1..];
      ws
  }

  /** Under the character-level rules, every piece between hyphens is a word. */
  lemma {:induction false} SplitPiecesAreWords(name: string)
    requires FollowsNameRules(name)
    ensures AllWords(SplitAtHyphens(name))
    decreases |name|
  {
    forall i | 0 <= i < |name| && name[i] == '-' ensures OccursAt(name, "-", i) {
      assert name[i..i + 1] == [name[i]];
    }
    match IndexOf(name, "-")
    case None =>
      assert IsWord(name);
    case Some(k) =>
      var first := name[..k];
      var rest := name[k + 1..];
      forall i | 0 <= i < k ensures IsWordChar(first[i]) {
        assert !OccursAt(name, "-", i);
      }
      assert name[k] == '-' by {
        assert name[k..k + 1] == "-";
      }
      assert FollowsNameRules(rest) by {
        assert forall i :: 0 <= i < |rest| ==> rest[i] == name[k + 1 + i];
      }
      SplitPiecesAreWords(rest);
      var ws := [first] + SplitAtHyphens(rest);
      forall i | 0 <= i < |ws| ensures IsWord(ws[i]) {
        if i > 0 {
          assert ws[i] == SplitAtHyphens(rest)[i - 1];
        }
      }
  }

  /**
   * The charset check and the placement check together accept exactly the
   * hyphen-case names.
   */
  lemma NameChecksMeanHyphenCase(name: string)
    ensures MatchesNameCharset(name) && !HasMisplacedHyphen(name) <==> IsHyphenCase(name)
  {
    NameChecksMeanRules(name);
    if FollowsNameRules(name) {
      SplitPiecesAreWords(name);
      assert IsHyphenCase(name) by {
        var ws := SplitAtHyphens(name);
        assert |ws| > 0 && AllWords(ws) && JoinWithHyphens(ws) == name;
      }
    }
    if IsHyphenCase(name) {
      var ws :| |ws| > 0 && AllWords(ws) && JoinWithHyphens(ws) == name;
      JoinedWordsFollowRules(ws);
    }
  }
}
