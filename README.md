# Skill front-matter validator, modelled in Dafny

This project models `validateSkill` from the skill-creator's `quick_validate.js`.
That function takes a skill directory and decides whether the `SKILL.md` in it is
well-formed. It runs a fixed chain of checks, and the first check that fails ends
the run with a `{valid: false, message}` verdict:

1. `SKILL.md` exists;
2. it can be read;
3. its text starts with `---`;
4. a front-matter block `^---\n([\s\S]*?)\n---` can be extracted;
5. the block contains `name:`;
6. the block contains `description:`;
7. if `/name:\s*(.+)/` matches, the trimmed value passes the charset check
   `^[a-z0-9-]+$`, then the hyphen-placement check;
8. if `/description:\s*(.+)/` matches, the trimmed value contains no `<` or `>`.

If every check passes, the verdict is `{valid: true, message: "Skill is valid!"}`.

The model is pure, as the source is: the chain is a set of functions over strings.

| module | file | contents |
|---|---|---|
| `JsText` | `js_text.dfy` | The JavaScript built-ins used: `startsWith`, `endsWith`, `indexOf`/`includes`, `trim`, and the classes `\s` and `.`. |
| `FrontMatter` | `front_matter.dfy` | The two regular expressions. Each follows the engine's backtracking order and is proved against a declarative statement of which match the engine reports. |
| `HyphenCase` | `hyphen_case.dfy` | The two name checks. They are proved equivalent to "one or more `[a-z0-9]` words joined by single hyphens". |
| `QuickValidate` | `quick_validate.dfy` | `ValidateSkill`, the order of its verdicts, and what a valid verdict guarantees. |

Details of the regular expressions that the model keeps:

- The block is the shortest body `s` such that the text begins with `"---\n" + s + "\n---"`.
  It never contains `\n---`. It is also the only body that opens the text without containing `\n---`.
- `key:\s*(.+)` reports the match whose key occurrence is leftmost. Among matches at that
  occurrence it takes the latest start of the group, because the greedy `\s*` gives back one
  character at a time, and then the longest group. So `\s*` may cross line breaks
  (`name:\n  foo` yields `foo`). It may also give back a trailing space: a block ending in
  `name: \n` yields the value `" "`, which trims to `""` and fails the charset check.
  If no occurrence can match, the value check is skipped.
- The key tests are substring tests, not line tests. `filename:` satisfies the `name:` test,
  and the name pattern can match inside such a key too.
- `\s` and `trim` use the set of characters that ECMAScript calls WhiteSpace and
  LineTerminator. The space separators (Unicode category Zs) are fixed to the current list.
  This is an approximation: later additions to Zs are not followed. `.` excludes exactly
  LF, CR, U+2028 and U+2029.
- Strings are sequences of Unicode scalar values, while JavaScript uses UTF-16 code units.
  Every character the checks single out is in the Basic Multilingual Plane, so both views
  give the same verdict.

Two points where a plain-words account of the rules ("a line `name:`", "the description
has no `<` or `>`") says more than the code does; the model follows the code. The key
checks are substring tests, not line tests (`quick_validate.js:45`, `:48`). The angle-bracket
check looks only at the first value the pattern reports, which is one line, and not at the
whole description (`:75-79`).

## Model

| member | source | states |
|---|---|---|
| `JsText.IndexOf` | plugins/meta-tools/skills/skill-creator/scripts/quick_validate.js:45 | The index found is an occurrence and no earlier index is one. None is returned exactly when the substring does not occur. |
| `JsText.Includes` | plugins/meta-tools/skills/skill-creator/scripts/quick_validate.js:45-48 | `includes` is true exactly when the substring occurs at some index. |
| `JsText.TrimIsTrimOf` | plugins/meta-tools/skills/skill-creator/scripts/quick_validate.js:55 | `trim` removes a whitespace prefix and a whitespace suffix. What remains neither starts nor ends with whitespace. |
| `JsText.TrimOfIsTrim` | plugins/meta-tools/skills/skill-creator/scripts/quick_validate.js:77 | That characterisation is unique: any string obtained that way equals `trim`'s result. |
| `JsText.TrimBetween` | plugins/meta-tools/skills/skill-creator/scripts/quick_validate.js:55 | Cutting a string at its first non-whitespace character and after its last one gives `trim`'s result. |
| `JsText.TrimKeepsNonWhiteSpace` | plugins/meta-tools/skills/skill-creator/scripts/quick_validate.js:77-79 | Every character that is not whitespace survives the trim. |
| `FrontMatter.ExtractFrontMatterIsShortest` | plugins/meta-tools/skills/skill-creator/scripts/quick_validate.js:37-40 | The extracted block is exactly the shortest `s` such that the text begins `"---\n" + s + "\n---"`. The extraction fails exactly when no such `s` exists. |
| `FrontMatter.ShortestBodyIsExtracted` | plugins/meta-tools/skills/skill-creator/scripts/quick_validate.js:37-42 | Any shortest body is the one extracted, so the shortest body is unique. |
| `FrontMatter.FrontMatterHoldsNoClosing` | plugins/meta-tools/skills/skill-creator/scripts/quick_validate.js:37-42 | The extracted block never contains `\n---`, because the lazy group stops at the first closing delimiter. |
| `FrontMatter.ClosingsDoNotOverlap` | plugins/meta-tools/skills/skill-creator/scripts/quick_validate.js:37 | Two occurrences of `\n---` are at least four characters apart. |
| `FrontMatter.ExtractFrontMatterUnique` | plugins/meta-tools/skills/skill-creator/scripts/quick_validate.js:37-42 | A body that opens the text and contains no `\n---` is the extracted block. |
| `FrontMatter.MatchFieldAtIsPreferred` | plugins/meta-tools/skills/skill-creator/scripts/quick_validate.js:53 | For a fixed key position, the attempt finds the match with the latest group start and then the longest group. It fails exactly when no match exists there. |
| `FrontMatter.FindFieldFromIsReported` | plugins/meta-tools/skills/skill-creator/scripts/quick_validate.js:53 | Scanning start positions finds the leftmost key position that can match, and the preferred match there. It finds nothing exactly when no match exists. |
| `FrontMatter.MatchFieldIsFieldValue` | plugins/meta-tools/skills/skill-creator/scripts/quick_validate.js:53 | `match(/key:\s*(.+)/)` returns group 1 of the reported match and nothing else. It returns null exactly when the pattern cannot match. |
| `FrontMatter.FieldValueIsOneLine` | plugins/meta-tools/skills/skill-creator/scripts/quick_validate.js:75 | A reported value is non-empty, contains no line terminator, and exists only where the key occurs. |
| `HyphenCase.NameChecksMeanRules` | plugins/meta-tools/skills/skill-creator/scripts/quick_validate.js:59-66 | The charset check and the placement check pass exactly when the name is non-empty, made of `[a-z0-9-]`, does not start or end with `-`, and has no `-` followed by `-`. |
| `HyphenCase.JoinedWordsFollowRules` | plugins/meta-tools/skills/skill-creator/scripts/quick_validate.js:57-71 | Words of `[a-z0-9]` joined by single hyphens satisfy those rules. |
| `HyphenCase.SplitPiecesAreWords` | plugins/meta-tools/skills/skill-creator/scripts/quick_validate.js:57-71 | Under those rules, every piece between hyphens is a non-empty `[a-z0-9]` word. |
| `HyphenCase.NameChecksMeanHyphenCase` | plugins/meta-tools/skills/skill-creator/scripts/quick_validate.js:57-71 | Both name checks pass exactly when the name is hyphen-case: one or more `[a-z0-9]` words joined by single hyphens. |
| `QuickValidate.CheckNameMeans` | plugins/meta-tools/skills/skill-creator/scripts/quick_validate.js:53-72 | The name checks raise nothing exactly when every reported `name:` value trims to a hyphen-case name. |
| `QuickValidate.CheckDescriptionMeans` | plugins/meta-tools/skills/skill-creator/scripts/quick_validate.js:75-85 | The description check raises its message exactly when the reported value, trimmed, contains `<` or `>`. |
| `QuickValidate.FileChecksFirst` | plugins/meta-tools/skills/skill-creator/scripts/quick_validate.js:19-29 | A missing file gives "SKILL.md not found". An unreadable file gives "Could not read SKILL.md: " followed by the error's message. |
| `QuickValidate.NoDelimiterVerdict` | plugins/meta-tools/skills/skill-creator/scripts/quick_validate.js:31-33 | Text not starting with `---` gives "No YAML frontmatter found", whatever else it holds. |
| `QuickValidate.NoBlockVerdict` | plugins/meta-tools/skills/skill-creator/scripts/quick_validate.js:37-40 | Text that starts with `---` but opens no block gives "Invalid frontmatter format". |
| `QuickValidate.MissingNameVerdict` | plugins/meta-tools/skills/skill-creator/scripts/quick_validate.js:45-47 | A block without the substring `name:` gives "Missing 'name' in frontmatter", whether or not `description:` is present. |
| `QuickValidate.MissingDescriptionVerdict` | plugins/meta-tools/skills/skill-creator/scripts/quick_validate.js:48-50 | With `name:` present, a block without `description:` gives "Missing 'description' in frontmatter". |
| `QuickValidate.NameCharsetVerdict` | plugins/meta-tools/skills/skill-creator/scripts/quick_validate.js:53-64 | A reported name whose trim has a character outside `[a-z0-9-]`, or is empty, gives the "should be hyphen-case" message quoting that trim. The placement message is never given for it. |
| `QuickValidate.NamePlacementVerdict` | plugins/meta-tools/skills/skill-creator/scripts/quick_validate.js:66-71 | A name of allowed characters that starts or ends with `-`, or contains `--`, gives the placement message quoting it. |
| `QuickValidate.AngleBracketVerdict` | plugins/meta-tools/skills/skill-creator/scripts/quick_validate.js:75-85 | With the name acceptable, a reported description whose trim contains `<` or `>` gives the angle-bracket message. |
| `QuickValidate.ValidExactlyWhenConforms` | plugins/meta-tools/skills/skill-creator/scripts/quick_validate.js:19-87 | The verdict is valid exactly when the file is readable and its shortest block has both keys, every reported name trims to hyphen-case, and every reported description trims to text without angle brackets. |
| `QuickValidate.ValidMeansConforms` | plugins/meta-tools/skills/skill-creator/scripts/quick_validate.js:31-87 | A valid verdict on a text means its shortest block exists and conforms. |
| `QuickValidate.ConformingBodyIsValid` | plugins/meta-tools/skills/skill-creator/scripts/quick_validate.js:31-87 | A text whose shortest block conforms gets a valid verdict. |
| `QuickValidate.ValidMessageOnlyWhenValid` | plugins/meta-tools/skills/skill-creator/scripts/quick_validate.js:87 | "Skill is valid!" is the message exactly of valid verdicts. |
| `QuickValidate.ValidNameIsHyphenCase` | plugins/meta-tools/skills/skill-creator/scripts/quick_validate.js:53-72 | On a valid verdict, a reported name trims to a non-empty `[a-z0-9-]` string with no leading or trailing `-` and no `--`, that is, a hyphen-case name. |
| `QuickValidate.ValidDescriptionTrimmed` | plugins/meta-tools/skills/skill-creator/scripts/quick_validate.js:75-85 | On a valid verdict, a reported description trims to text without angle brackets. |
| `QuickValidate.ValidDescriptionHasNoAngleBrackets` | plugins/meta-tools/skills/skill-creator/scripts/quick_validate.js:75-85 | On a valid verdict, the reported description line contains neither `<` nor `>`, before or after trimming. |

Together, the lemmas from `FileChecksFirst` to `AngleBracketVerdict` give the verdict for
every input: each names the failure assuming all earlier checks passed. No invalid message
equals "Skill is valid!" (`ValidMessageOnlyWhenValid`), so an invalid verdict carries the
message of its earliest failing check and no other.

## Left out

- `package_skill.js` as a whole. It does directory existence and type checks,
  output-directory creation, and the hand-off to the external `archiver` library through
  stream events. It is filesystem plumbing with no logic of its own worth verifying.
- `main` in `quick_validate.js` (lines 90-107): argument count, printing and exit codes.
- `path.resolve`, `path.join`, `fs.existsSync` and `fs.readFileSync` (lines 15-29). Their
  outcome is an input: `SkillFile` is `Missing`, `Unreadable(reason)` or `Readable(content)`.
  The text of the operating-system error is passed through as `reason` and not modelled.
- The `async`/Promise wrapper. The function does no real asynchronous work.
- Unicode-version dependence of `\s` and `trim`: the whitespace set is fixed, as described above.
