/**
 * `validateSkill`: the checks run on a skill's SKILL.md, in their order,
 * each ending the run with a `{valid, message}` verdict on the first failure.
 *
 * Whether SKILL.md exists and whether it can be read are inputs here (a
 * `SkillFile`); the rest is a function of the text of the file.
 */
module QuickValidate {
  import opened JsText
  import opened FrontMatter
  import opened HyphenCase

  /**
   * What looking for `<skill>/SKILL.md` gave: no such file, a read that
   * threw (with the error's message), or the text of the file.
   */
  datatype SkillFile = Missing | Unreadable(reason: string) | Readable(content: string)

  /** The `{valid, message}` object the validator returns. */
  datatype Verdict = Verdict(valid: bool, message: string)

  const NotFoundMessage: string := "SKILL.md not found"
  const ReadErrorPrefix: string := "Could not read SKILL.md: "
  const NoFrontMatterMessage: string := "No YAML frontmatter found"
  const InvalidFormatMessage: string := "Invalid frontmatter format"
  const MissingNameMessage: string := "Missing 'name' in frontmatter"
  const MissingDescriptionMessage: string := "Missing 'description' in frontmatter"
  const AngleBracketMessage: string := "Description cannot contain angle brackets (< or >)"
  const ValidMessage: string := "Skill is valid!"

  function NameCaseMessage(name: string): string {
    "Name '" + name + "' should be hyphen-case (lowercase letters, digits, and hyphens only)"
  }

  function NameHyphenMessage(name: string): string {
    "Name '" + name + "' cannot start/end with hyphen or contain consecutive hyphens"
  }

  function Fail(message: string): Verdict {
    Verdict(false, message)
  }

  /** The checks on the `name:` value: the failure message, if a value is matched and fails one. */
  function CheckName(frontmatter: string): Option<string> {
    match MatchField(frontmatter, "name:")
    case None => None
    case Some(raw) =>
      var name := Trim(raw);
      if !MatchesNameCharset(name) then Some(NameCaseMessage(name))
      else if HasMisplacedHyphen(name) then Some(NameHyphenMessage(name))
      else None
  }

  /** The check on the `description:` value: the failure message, if a value is matched and fails it. */
  function CheckDescription(frontmatter: string): Option<string> {
    match MatchField(frontmatter, "description:")
    case None => None
    case Some(raw) =>
      var description := Trim(raw);
      if Includes(description, "<") || Includes(description, ">") then Some(AngleBracketMessage)
      else None
  }

  /** The checks on the text of SKILL.md, in order. */
  function ValidateContent(content: string): Verdict {
    if !StartsWith(content, "---") then Fail(NoFrontMatterMessage)
    else match ExtractFrontMatter(content)
      case None => Fail(InvalidFormatMessage)
      case Some(frontmatter) =>
        if !Includes(frontmatter, "name:") then Fail(MissingNameMessage)
        else if !Includes(frontmatter, "description:") then Fail(MissingDescriptionMessage)
        else match CheckName(frontmatter)
          case Some(message) => Fail(message)
          case None =>
            match CheckDescription(frontmatter)
            case Some(message) => Fail(message)
            case None => Verdict(true, ValidMessage)
  }

  /** `validateSkill`: the file checks, then the checks on its text. */
  function ValidateSkill(file: SkillFile): Verdict {
    match file
    case Missing => Fail(NotFoundMessage)
    case Unreadable(reason) => Fail(ReadErrorPrefix + reason)
    case Readable(content) => ValidateContent(content)
  }

  // ---------------------------------------------------------------------
  // What a valid SKILL.md is
  // ---------------------------------------------------------------------

  ghost predicate HasAngleBracket(s: string) {
    exists i :: 0 <= i < |s| && (s[i] == '<' || s[i] == '>')
  }

  /**
   * A front-matter body the validator is meant to accept: both keys occur,
   * every `name:` value the field pattern reports trims to a hyphen-case
   * name, and every `description:` value it reports trims to text without
   * angle brackets. Where the pattern reports no value, nothing is asked of it.
   */
  ghost predicate BodyConforms(body: string) {
    && Contains(body, "name:")
    && Contains(body, "description:")
    && (forall v :: FieldValue(body, "name:", v) ==> IsHyphenCase(Trim(v)))
    && (forall v :: FieldValue(body, "description:", v) ==> !HasAngleBracket(Trim(v)))
  }

  /** A SKILL.md that exists, can be read, and whose front-matter block conforms. */
  ghost predicate Conforms(file: SkillFile) {
    file.Readable? && exists body :: IsShortestBody(file.content, body) && BodyConforms(body)
  }

  // ---------------------------------------------------------------------
  // Helpers
  // ---------------------------------------------------------------------

  /** A text that opens with a front-matter block starts with `---`. */
  lemma OpensWithStartsWithDashes(content: string, body: string)
    requires OpensWith(content, body)
    ensures StartsWith(content, "---")
  {
    assert content[..3] == (Opening + body + Closing)[..3];
  }

  /** `includes` of a one-character string finds that character. */
  lemma IncludesChar(s: string, c: char)
    ensures Includes(s, [c]) <==> exists i :: 0 <= i < |s| && s[i] == c
  {
    forall i | 0 <= i < |s| ensures OccursAt(s, [c], i) <==> s[i] == c {
      assert s[i..i + 1] == [s[i]];
    }
  }

  /** Angle brackets are not whitespace, so a text whose trim has none has none itself. */
  lemma TrimmedHasNoAngleBracket(d: string)
    requires !HasAngleBracket(Trim(d))
    ensures forall i :: 0 <= i < |d| ==> d[i] != '<' && d[i] != '>'
  {
    forall k | 0 <= k < |d| ensures d[k] != '<' && d[k] != '>' {
      if d[k] == '<' || d[k] == '>' {
        TrimKeepsNonWhiteSpace(d, k);
      }
    }
  }

  /** The description check fails exactly on a reported value whose trim holds `<` or `>`. */
  lemma CheckDescriptionMeans(frontmatter: string)
    ensures CheckDescription(frontmatter).None? <==>
      forall v :: FieldValue(frontmatter, "description:", v) ==> !HasAngleBracket(Trim(v))
    ensures CheckDescription(frontmatter).Some? ==> CheckDescription(frontmatter).value == AngleBracketMessage
  {
    MatchFieldIsFieldValue(frontmatter, "description:");
    match MatchField(frontmatter, "description:")
    case None =>
    case Some(raw) =>
      IncludesChar(Trim(raw), '<');
      IncludesChar(Trim(raw), '>');
  }

  /** The name checks pass exactly when every reported value trims to a hyphen-case name. */
  lemma CheckNameMeans(frontmatter: string)
    ensures CheckName(frontmatter).None? <==>
      forall v :: FieldValue(frontmatter, "name:", v) ==> IsHyphenCase(Trim(v))
  {
    MatchFieldIsFieldValue(frontmatter, "name:");
    match MatchField(frontmatter, "name:")
    case None =>
    case Some(raw) =>
      NameChecksMeanHyphenCase(Trim(raw));
  }

  /** Once the block is found, the run reaches the key checks with that block. */
  lemma BlockReached(content: string, body: string)
    requires IsShortestBody(content, body)
    ensures StartsWith(content, "---") && ExtractFrontMatter(content) == Some(body)
  {
    OpensWithStartsWithDashes(content, body);
    ShortestBodyIsExtracted(content, body);
  }

  // ---------------------------------------------------------------------
  // The order of the checks: each failure, with every earlier check passed
  // ---------------------------------------------------------------------

  /** A missing or unreadable file is reported before anything else. */
  lemma FileChecksFirst(reason: string)
    ensures ValidateSkill(Missing) == Fail(NotFoundMessage)
    ensures ValidateSkill(Unreadable(reason)) == Fail(ReadErrorPrefix + reason)
  {
  }

  /** Without a leading `---` the verdict is "No YAML frontmatter found", whatever follows. */
  lemma NoDelimiterVerdict(content: string)
    requires !StartsWith(content, "---")
    ensures ValidateSkill(Readable(content)) == Fail(NoFrontMatterMessage)
  {
  }

  /** A text that starts with `---` but opens no `---\n...\n---` block is "Invalid frontmatter format". */
  lemma NoBlockVerdict(content: string)
    requires StartsWith(content, "---")
    requires forall b :: !OpensWith(content, b)
    ensures ValidateSkill(Readable(content)) == Fail(InvalidFormatMessage)
  {
    ExtractFrontMatterIsShortest(content);
  }

  /** A block without `name:` is reported as such, whether or not `description:` is there. */
  lemma MissingNameVerdict(content: string, body: string)
    requires IsShortestBody(content, body)
    requires !Contains(body, "name:")
    ensures ValidateSkill(Readable(content)) == Fail(MissingNameMessage)
  {
    BlockReached(content, body);
  }

  /** With `name:` present, a block without `description:` is reported as such. */
  lemma MissingDescriptionVerdict(content: string, body: string)
    requires IsShortestBody(content, body)
    requires Contains(body, "name:") && !Contains(body, "description:")
    ensures ValidateSkill(Readable(content)) == Fail(MissingDescriptionMessage)
  {
    BlockReached(content, body);
  }

  /**
   * A name value with a character outside `[a-z0-9-]` (or empty after
   * trimming) draws the hyphen-case message, never the placement message:
   * the charset check comes first.
   */
  lemma NameCharsetVerdict(content: string, body: string, v: string)
    requires IsShortestBody(content, body)
    requires Contains(body, "name:") && Contains(body, "description:")
    requires FieldValue(body, "name:", v) && !MatchesNameCharset(Trim(v))
    ensures ValidateSkill(Readable(content)) == Fail(NameCaseMessage(Trim(v)))
  {
    BlockReached(content, body);
    MatchFieldIsFieldValue(body, "name:");
  }

  /** A name value of the right characters with a hyphen at an end or doubled draws the placement message. */
  lemma NamePlacementVerdict(content: string, body: string, v: string)
    requires IsShortestBody(content, body)
    requires Contains(body, "name:") && Contains(body, "description:")
    requires FieldValue(body, "name:", v) && MatchesNameCharset(Trim(v)) && HasMisplacedHyphen(Trim(v))
    ensures ValidateSkill(Readable(content)) == Fail(NameHyphenMessage(Trim(v)))
  {
    BlockReached(content, body);
    MatchFieldIsFieldValue(body, "name:");
  }

  /** With the name acceptable, a description value holding `<` or `>` is reported. */
  lemma AngleBracketVerdict(content: string, body: string, d: string)
    requires IsShortestBody(content, body)
    requires Contains(body, "name:") && Contains(body, "description:")
    requires forall v :: FieldValue(body, "name:", v) ==> IsHyphenCase(Trim(v))
    requires FieldValue(body, "description:", d) && HasAngleBracket(Trim(d))
    ensures ValidateSkill(Readable(content)) == Fail(AngleBracketMessage)
  {
    BlockReached(content, body);
    CheckNameMeans(body);
    CheckDescriptionMeans(body);
  }

  // ---------------------------------------------------------------------
  // Success
  // ---------------------------------------------------------------------

  /** A valid verdict comes from a readable file whose block conforms. */
  lemma ValidMeansConforms(content: string)
    requires ValidateContent(content).valid
    ensures Conforms(Readable(content))
  {
    ExtractFrontMatterIsShortest(content);
    var body := ExtractFrontMatter(content).value;
    CheckNameMeans(body);
    CheckDescriptionMeans(body);
    assert IsShortestBody(content, body) && BodyConforms(body);
  }

  /** A readable file whose shortest block conforms gets a valid verdict. */
  lemma ConformingBodyIsValid(content: string, body: string)
    requires IsShortestBody(content, body) && BodyConforms(body)
    ensures ValidateContent(content).valid
  {
    BlockReached(content, body);
    CheckNameMeans(body);
    CheckDescriptionMeans(body);
  }

  /** The verdict is valid exactly for a SKILL.md that conforms. */
  lemma ValidExactlyWhenConforms(file: SkillFile)
    ensures ValidateSkill(file).valid <==> Conforms(file)
  {
    if file.Readable? {
      if ValidateSkill(file).valid {
        ValidMeansConforms(file.content);
      }
      if Conforms(file) {
        var body :| IsShortestBody(file.content, body) && BodyConforms(body);
        ConformingBodyIsValid(file.content, body);
      }
    }
  }

  /** Both name messages start with `N`. */
  lemma NameMessagesStartWithN(frontmatter: string)
    ensures CheckName(frontmatter).Some? ==> CheckName(frontmatter).value[0] == 'N'
  {
    match MatchField(frontmatter, "name:")
    case None =>
    case Some(raw) =>
      assert NameCaseMessage(Trim(raw))[0] == 'N';
      assert NameHyphenMessage(Trim(raw))[0] == 'N';
  }

  /** "Skill is valid!" is the message of a valid verdict and of no other. */
  lemma ValidMessageOnlyWhenValid(file: SkillFile)
    ensures ValidateSkill(file).valid <==> ValidateSkill(file).message == ValidMessage
  {
    match file
    case Missing =>
    case Unreadable(reason) =>
      assert (ReadErrorPrefix + reason)[0] == 'C';
    case Readable(content) =>
      if StartsWith(content, "---") && ExtractFrontMatter(content).Some? {
        var body := ExtractFrontMatter(content).value;
        NameMessagesStartWithN(body);
        CheckDescriptionMeans(body);
      }
  }

  /**
   * On a valid verdict, every reported name value trims to a name that is
   * non-empty, made of `[a-z0-9-]`, neither starts nor ends with `-`, holds
   * no `--`, and so is words of `[a-z0-9]` joined by single hyphens.
   */
  lemma ValidNameIsHyphenCase(file: SkillFile, body: string, v: string)
    requires ValidateSkill(file).valid && file.Readable?
    requires IsShortestBody(file.content, body) && FieldValue(body, "name:", v)
    ensures var name := Trim(v);
      && |name| > 0
      && (forall i :: 0 <= i < |name| ==> IsNameChar(name[i]))
      && name[0] != '-' && name[|name| - 1] != '-'
      && (forall i :: 0 <= i < |name| - 1 && name[i] == '-' ==> name[i + 1] != '-')
      && IsHyphenCase(name)
  {
    ValidExactlyWhenConforms(file);
    var b :| IsShortestBody(file.content, b) && BodyConforms(b);
    ShortestBodyIsExtracted(file.content, b);
    ShortestBodyIsExtracted(file.content, body);
    NameChecksMeanHyphenCase(Trim(v));
    NameChecksMeanRules(Trim(v));
  }

  /** On a valid verdict, a reported description value trims to text without angle brackets. */
  lemma ValidDescriptionTrimmed(file: SkillFile, body: string, d: string)
    requires ValidateSkill(file).valid && file.Readable?
    requires IsShortestBody(file.content, body) && FieldValue(body, "description:", d)
    ensures !HasAngleBracket(Trim(d))
  {
    ValidExactlyWhenConforms(file);
    var b :| IsShortestBody(file.content, b) && BodyConforms(b);
    ShortestBodyIsExtracted(file.content, b);
    ShortestBodyIsExtracted(file.content, body);
  }

  /**
   * On a valid verdict, a reported description value (one line of the
   * block, after `description:`) holds neither `<` nor `>`, before or after
   * trimming: trimming removes only whitespace.
   */
  lemma ValidDescriptionHasNoAngleBrackets(file: SkillFile, body: string, d: string)
    requires ValidateSkill(file).valid && file.Readable?
    requires IsShortestBody(file.content, body) && FieldValue(body, "description:", d)
    ensures forall i :: 0 <= i < |d| ==> d[i] != '<' && d[i] != '>'
  {
    ValidDescriptionTrimmed(file, body, d);
    TrimmedHasNoAngleBracket(d);
  }
}
