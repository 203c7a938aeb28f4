# quackware core utilities, modelled in Dafny

This project models the string, template, array, object and content helpers
of the quackware `core` library:

- the case conversions `camelCase`, `pascalCase`, `snakeCase` and
  `kebabCase`, with their helper `deCap`, and the `...Properties` variants
  that re-key an object;
- `upperFirst`, `lowerFirst`, `eatWhitespace`, `interpolate`, `replace`,
  `stripPrefix` and `stripPrefixProperties`;
- the template tags `dedent` and `quote`;
- `index` over an array, with and without a mapper;
- `pickBy` and `removeNullProperties` over an object;
- `codeBlock` and `wrapInCodeBlock`, which wraps content in a Markdown
  fenced code block through a `dedent` template.

Strings are `seq<char>`. The JavaScript regular expressions are written out
as character predicates (module `Chars`) and as functions over sequences
(module `Text`): `split` on the word separators, `split("\n")` and
`join("\n")`, `trim`, the first and all occurrences of `replace` and
`replaceAll`. A loop in the source is a method with a loop and invariants,
proved equal to a function. The properties are proved about that function.
`Object.entries` and `Object.fromEntries` are sequences of pairs and a fold
into a `map` (module `Entries`). A JavaScript object is a `map<string, _>`.
Every input is a value, so no operation can modify its input: the
`...Properties` mappers, `index`, `pickBy` and `removeNullProperties` build a
new object.

Modules:

| module | file | models |
|---|---|---|
| `Chars` | chars.dfy | the character classes of the regular expressions, `toUpperCase` and `toLowerCase` of one character |
| `Text` | text.dfy | `split`, line splitting and joining, `trim`, `replace` and `replaceAll` on strings |
| `StringUtils` | string_utils.dfy | `upperFirst`, `lowerFirst`, `eatWhitespace`, `replace`, `stripPrefix`, `interpolate` |
| `CaseConversion` | case_conversion.dfy | `deCap`, `camelCase`, `pascalCase` |
| `DelimiterCase` | delimiter_case.dfy | `snakeCase`, `kebabCase` |
| `Entries` | entries.dfy | `Object.fromEntries` over re-keyed entries |
| `PropertyKeys` | properties.dfy | `camelCaseProperties`, `snakeCaseProperties`, `kebabCasePropertes`, `stripPrefixProperties` |
| `Tpls` | tpls.dfy | `dedent`, `quote` |
| `ArrayUtils` | array_utils.dfy | `index` |
| `ObjectUtils` | object_utils.dfy | `pickBy`, `removeNullProperties` |
| `ContentUtils` | content_utils.dfy | `codeBlock`, `wrapInCodeBlock` |

## Model

| member | source | states |
|---|---|---|
| Chars.UpperIdempotent | string-utils.ts:69 | upper-casing one character twice is the same as once |
| Chars.LowerIdempotent | string-utils.ts:76 | lower-casing one character twice is the same as once |
| Chars.FoldOfCaseMapping | string-utils.ts:65-77 | upper- and lower-casing keep a character's case-insensitive identity; upper-casing after lower-casing is plain upper-casing |
| Chars.CaseMappingKeepsSeparators | string-utils.ts:29-30 | case mapping never turns a word separator into a letter, or a letter into a separator |
| Chars.LowerRemovesAsciiUpper | string-utils.ts:36-37 | no ASCII capital survives lower-casing; a capital of `[A-ZÀ-Ü]` is already upper case |
| Chars.LowerCapitalRemovesAsciiUpper | string-utils.ts:32 | lowering the `capitals` class leaves no ASCII capital and keeps separators |
| Text.Split | string-utils.ts:84 | `split(wordSeparators)` yields at least one piece |
| Text.SplitPiecesAreWords | string-utils.ts:84 | no piece of the split holds a word separator |
| Text.SplitKeepsLetters | string-utils.ts:84 | the pieces concatenated are exactly the non-separator characters of the input, in order |
| Text.SplitInnerPiecesNonEmpty | string-utils.ts:84 | only the first and the last piece of the split can be empty |
| Text.SplitJoin | string-utils.ts:144 | splitting non-empty words joined by separators gives the words back |
| Text.SplitLinesHaveNoBreak | tpls.ts:71 | no line of `split("\n")` holds a line break |
| Text.JoinSplitLines | tpls.ts:71-87 | `join("\n")` after `split("\n")` gives the text back |
| Text.SplitJoinLines | tpls.ts:87 | `split("\n")` after `join("\n")` gives back lines without breaks |
| Text.TrimStart | tpls.ts:90 | the leading trim drops a prefix, and what is left does not start with whitespace |
| Text.TrimStartDropsWhitespace | tpls.ts:90 | what the leading trim drops is all whitespace |
| Text.TrimEndDropsWhitespace | tpls.ts:90 | what the trailing trim drops is all whitespace |
| Text.TrimOfPadded | tpls.ts:90 | trimming whitespace-padded text that starts and ends with non-whitespace gives that text |
| Text.LettersOfTrim | string-utils.ts:144 | trimming does not change the non-separator characters |
| Text.FirstOccurrenceIsLeftmost | string-utils.ts:230 | the occurrence `replace` acts on is a match, and no match starts earlier; with no occurrence there is no match anywhere |
| Text.ReplaceAllWithout | string-utils.ts:223 | `replaceAll` of a pattern whose first character is absent changes nothing |
| Text.ReplaceFirstWithout | string-utils.ts:230 | `replace` of a pattern whose first character is absent changes nothing |
| Text.Filter | string-utils.ts:80 | every character kept by a filter satisfies it |
| StringUtils.UpperFirst | string-utils.ts:65-70 | same length; the first character upper-cased and the rest unchanged; the empty string stays empty |
| StringUtils.LowerFirst | string-utils.ts:72-77 | same length; the first character lower-cased and the rest unchanged; the empty string stays empty |
| StringUtils.FirstLetterCase | string-utils.ts:65-77 | both keep the letters up to case; each is idempotent; `upperFirst(lowerFirst(s))` is `upperFirst(s)` |
| StringUtils.EatWhitespace | string-utils.ts:79-81 | no space is left in the result |
| StringUtils.EatWhitespaceFilters | string-utils.ts:79-81 | removing every `" "` keeps exactly the other characters, in order: tabs and line breaks stay |
| StringUtils.ReplaceSpec | string-utils.ts:211-237 | without an occurrence both modes return the target; otherwise the first mode replaces exactly the leftmost occurrence and keeps the text around it |
| StringUtils.ReplaceExample | string-utils.ts:211-237 | the all mode replaces both `${ENV_VAR}` placeholders in a sentence |
| StringUtils.ReplaceBothOccurrences | string-utils.ts:222-228 | the all mode replaces each of two occurrences separated by text without the pattern |
| StringUtils.ReplaceAllAfter | string-utils.ts:222-228 | text before the first occurrence is kept and the all mode continues after the occurrence |
| StringUtils.StripPrefixSpec | string-utils.ts:242-250 | removing the prefix is blind to a leading copy of the prefix; an empty prefix changes nothing |
| StringUtils.StripPrefixExample | string-utils.ts:242-250 | every occurrence is removed, not only the leading one: `"X_PORT_X_"` without `"X_"` is `"PORT_"` |
| StringUtils.Interpolate | string-utils.ts:55-63 | the fold over the entries replaces, for each key in turn, the first `{{key}}` in the string built so far |
| StringUtils.InterpolatedWithoutBraces | string-utils.ts:55-63 | a string without `{` comes back unchanged |
| StringUtils.InterpolateExample | string-utils.ts:48-53 | the example of the doc comment yields `My Name Is curtis, I'm 22 years old`: the capitals of the input are kept |
| StringUtils.InterpolateTwo | string-utils.ts:59-62 | two placeholders in order, with text around them, are both filled |
| StringUtils.InterpolatedStep | string-utils.ts:59-62 | one entry is applied, then the rest, to the string built so far |
| StringUtils.ReplaceFirstAfter | string-utils.ts:60 | `replace` with a string pattern replaces the first occurrence only, keeping the text after it |
| StringUtils.InterpolateFirstOnly | string-utils.ts:60 | a placeholder used twice is filled only the first time |
| StringUtils.InterpolateOnce | string-utils.ts:60 | for any key, a placeholder repeated twice keeps its second copy |
| CaseConversion.DeCapped | string-utils.ts:132-137 | the run keeps its length and its letters up to case |
| CaseConversion.DeCap | string-utils.ts:132-137 | the first letter is upper-cased, the middle lower-cased, and the last lowered only at the end of the word |
| CaseConversion.DeCapRuns | string-utils.ts:108-113 | rewriting the runs of four or more capitals keeps the word's length |
| CaseConversion.DeCapRunsSpec | string-utils.ts:108-113 | the rewrite keeps the letters up to case and the first character |
| CaseConversion.DeCapRunsOfRun | string-utils.ts:108-113 | a maximal run of four or more capitals is replaced by `deCap` of it, ended at the end of the word |
| CaseConversion.DeCapRunsOfShortRun | string-utils.ts:36 | a run of fewer than four capitals is left alone |
| CaseConversion.CamelWord | string-utils.ts:102-118 | the mapped word has the length of the word |
| CaseConversion.CamelWordFolds | string-utils.ts:102-118 | the mapped word keeps the letters up to case |
| CaseConversion.CamelWordSpec | string-utils.ts:106-118 | the first letter is upper-cased after the first word and lower-cased otherwise; a word that is not camel-like is lower-cased after it; a camel-like word keeps its rewritten tail |
| CaseConversion.CamelWords | string-utils.ts:101-119 | each word is mapped, the first without capitalisation |
| CaseConversion.CamelCase | string-utils.ts:97-121 | the loop over the split words computes the camel-cased string |
| CaseConversion.CamelCasedEmpty | string-utils.ts:97-121 | the empty string stays empty |
| CaseConversion.CamelCasedLetters | string-utils.ts:97-121 | the result has no separator and is the input's non-separator characters up to case |
| CaseConversion.CamelCasedFirst | string-utils.ts:115-116 | the first letter is lower-cased, unless the input starts with a separator: the first word is then empty and the first letter is upper-cased |
| CaseConversion.CamelCasedOfWord | string-utils.ts:97-121 | a single word maps to its uncapitalised form |
| CaseConversion.CamelCasedOfTwoWords | string-utils.ts:97-121 | two words around a separator: the first uncapitalised, the second capitalised |
| CaseConversion.CamelCasedOfCapsWords | string-utils.ts:106-118 | all-caps words are lower-cased after their first letter |
| CaseConversion.CamelCaseExample | string-utils.ts:97-121 | `BIG_WORDS` becomes `bigWords` |
| CaseConversion.CamelCasedOfAcronym | string-utils.ts:106-118 | inside a camel-like word, a run of four or more capitals keeps its first and last letter and lowers the middle |
| CaseConversion.CamelCaseAcronymExample | string-utils.ts:106-118 | `fooABCDBar` becomes `fooAbcdBar` |
| CaseConversion.DeCapRunsOfEndingRun | string-utils.ts:111 | a run at the end of the word also lowers its last letter |
| CaseConversion.CamelCaseNotIdempotent | string-utils.ts:97-121 | `a_bCDE` becomes `aBCDE`, which becomes `aBcde`: camel-casing twice differs from once |
| CaseConversion.PascalWords | string-utils.ts:87-93 | each word has its first letter upper-cased |
| CaseConversion.PascalCase | string-utils.ts:83-95 | the loop over the split words computes the Pascal-cased string |
| CaseConversion.PascalCasedEmpty | string-utils.ts:83-95 | the empty string stays empty |
| CaseConversion.PascalCasedLetters | string-utils.ts:83-95 | the result has no separator and is the input's non-separator characters up to case |
| CaseConversion.PascalCasedFirst | string-utils.ts:92 | the first letter is upper-cased |
| CaseConversion.PascalCasedIdempotent | string-utils.ts:83-95 | Pascal-casing twice is the same as once |
| DelimiterCase.LettersOfCapitalRunsSpaced | string-utils.ts:141-143 | spacing out the runs of capitals keeps the other characters and lowers the capitals |
| DelimiterCase.SnakeCasedEmpty | string-utils.ts:139-145 | the empty string stays empty |
| DelimiterCase.SnakeCasedLetters | string-utils.ts:139-145 | the result's non-separator characters are the input's with capitals lowered, and its only separator is `_` |
| DelimiterCase.SnakeCasedLowers | string-utils.ts:139-145 | no ASCII capital is left |
| DelimiterCase.SnakeCasedOfCapitalised | string-utils.ts:139-145 | a capital inside a lower-case word starts a new word after `_` |
| DelimiterCase.SnakeCasedOfAcronym | string-utils.ts:141-143 | a leading run of capitals is lowered as one word, joined to the lower-case letters after it |
| DelimiterCase.SnakeCasedOfLeadingSeparator | string-utils.ts:144 | a leading separator other than whitespace survives the trim and becomes a leading `_` |
| DelimiterCase.SnakeCaseExample | string-utils.ts:139-145 | `bigWords` becomes `big_words` |
| DelimiterCase.SnakeCaseAcronymExample | string-utils.ts:139-145 | `HTTPServer` becomes `httpserver` |
| DelimiterCase.SnakeCaseEdgeExample | string-utils.ts:139-145 | `_a` stays `_a` |
| DelimiterCase.DropLeadingDash | string-utils.ts:168 | `replace(/^-/, "")` gives a suffix of the text, one character shorter exactly when the text starts with `-` and the text itself otherwise |
| DelimiterCase.DropTrailingDash | string-utils.ts:168-169 | `replace(/-\s*$/, "")` gives a prefix of the text; it is shorter exactly when `/-\s*$/` matches, and what it drops is that `-` and the whitespace after it |
| DelimiterCase.KebabCasedWords | string-utils.ts:156-170 | the result is the non-empty pieces of the split joined by `-` |
| DelimiterCase.KebabCasedEmpty | string-utils.ts:156-170 | the empty string stays empty |
| DelimiterCase.KebabCasedEnds | string-utils.ts:168-169 | the result neither starts nor ends with `-`, and its only separator is `-` |
| DelimiterCase.KebabCasedLetters | string-utils.ts:156-170 | the result's non-separator characters are the input's with capitals lowered |
| DelimiterCase.KebabCasedLowers | string-utils.ts:156-170 | no ASCII capital is left |
| DelimiterCase.KebabCasedOfLowerWord | string-utils.ts:156-170 | a lower-case word is unchanged |
| DelimiterCase.KebabCasedOfPascalJoined | string-utils.ts:159-162 | capitalised lower-case words run together come apart into the words joined by `-` |
| DelimiterCase.KebabCasedOfCamelJoined | string-utils.ts:159-162 | a camel-cased join of lower-case words comes apart into the words joined by `-` |
| DelimiterCase.KebabCasedOfAcronym | string-utils.ts:164-167 | a run of capitals before a capitalised word becomes one lower-case word of its own |
| DelimiterCase.KebabCasedOfSeparated | string-utils.ts:168 | a separator other than whitespace between words becomes `-` |
| DelimiterCase.KebabCaseExample | string-utils.ts:156-170 | `fooBarBaz` becomes `foo-bar-baz` |
| DelimiterCase.KebabCaseWordExample | string-utils.ts:156-170 | `foofoofoo` stays `foofoofoo` |
| DelimiterCase.KebabCasePascalExample | string-utils.ts:156-170 | `BarBarBaz` becomes `bar-bar-baz` |
| DelimiterCase.KebabCaseSeparatorExample | string-utils.ts:156-170 | `lo_dashBarBaz` becomes `lo-dash-bar-baz` |
| DelimiterCase.KebabCaseAcronymExample | string-utils.ts:156-170 | `HTTPServer` becomes `http-server` |
| DelimiterCase.KebabCaseBigWordsExample | string-utils.ts:156-170 | `bigWords` becomes `big-words` |
| Entries.Rekeyed | string-utils.ts:128 | the mapped entries keep their order and values, with each key converted |
| Entries.FromEntriesKeys | string-utils.ts:127 | `Object.fromEntries` has exactly the keys of the entries |
| Entries.FromEntriesLastWins | string-utils.ts:127 | the value under a key is that of the last entry with that key |
| Entries.FromEntriesHasLast | string-utils.ts:127 | every key has a last entry that gives its value |
| Entries.MapKeysAll | string-utils.ts:127-128 | the re-keyed object has exactly the converted keys, and a key no later entry maps to keeps its value |
| Entries.MapKeysOfOne | string-utils.ts:127-128 | one entry gives one property under the converted key |
| PropertyKeys.CamelCaseProperties | string-utils.ts:123-130 | the keys are the camel-cased keys; each value sits under its converted key unless a later entry converts to the same key |
| PropertyKeys.SnakeCaseProperties | string-utils.ts:147-154 | the same with snake-cased keys |
| PropertyKeys.KebabCaseProperties | string-utils.ts:172-179 | the same with kebab-cased keys |
| PropertyKeys.StripPrefixProperties | string-utils.ts:255-265 | the same with the prefix removed from each key |
| PropertyKeys.CamelCasePropertiesExample | string-utils.ts:123-130 | `{BIG_WORDS: "are cool"}` becomes `{bigWords: "are cool"}` |
| PropertyKeys.SnakeCasePropertiesExample | string-utils.ts:147-154 | `{bigWords: "are cool"}` becomes `{big_words: "are cool"}` |
| PropertyKeys.KebabCasePropertiesExample | string-utils.ts:172-179 | `{bigWords: "are cool"}` becomes `{"big-words": "are cool"}` |
| PropertyKeys.CamelCasePropertiesCollision | string-utils.ts:127-128 | two different keys, `BIG_WORDS` and `BIG-WORDS`, both convert to `bigWords`, and the later value is kept |
| PropertyKeys.StripPrefixPropertiesExample | string-utils.ts:255-265 | `{X_PORT_X_: "80"}` without `X_` becomes `{PORT_: "80"}` |
| Tpls.DropContinuations | tpls.ts:64 | removing line continuations never lengthens a segment |
| Tpls.DropContinuationsOfPlain | tpls.ts:64 | a segment without a backslash is unchanged |
| Tpls.DropContinuationsOfBreak | tpls.ts:64 | a backslash, a line break and the spaces and tabs after them are removed, and the rest continues |
| Tpls.DropContinuationsOfUnbroken | tpls.ts:64 | a segment in which no backslash is followed by a line break is unchanged |
| Tpls.DropContinuationsAroundBackslash | tpls.ts:64 | a backslash before another character is kept |
| Tpls.CookedOfPlain | tpls.ts:64 | a raw segment without a backslash is used as it is |
| Tpls.CookedOfEscapedBacktick | tpls.ts:64 | an escaped backtick in a raw segment becomes a backtick |
| Tpls.AssembledIgnoresLateValues | tpls.ts:63-69 | values beyond the raw segments are never used |
| Tpls.AssembledOfTwo | tpls.ts:63-69 | two raw segments around a value give the cooked first segment, the value, and the cooked second segment |
| Tpls.AssembledKeepsEscapesInValues | tpls.ts:66-68 | values are inserted without cooking: an escaped backtick in a value stays escaped |
| Tpls.LeadingWhitespace | tpls.ts:74 | the leading run is whitespace, and the character after it is not |
| Tpls.IndentOfMatch | tpls.ts:74-76 | a line has indent `k` exactly when it starts with `k` whitespace characters followed by a non-whitespace one |
| Tpls.IndentOfNone | tpls.ts:74-75 | a line has no indent exactly when it is empty, all whitespace, or starts with a non-whitespace character |
| Tpls.MinIndent | tpls.ts:72-83 | the minimum indent is at least one |
| Tpls.MinIndentIsLeast | tpls.ts:72-83 | there is a minimum indent exactly when some line has an indent; it is the indent of some line and no larger than any line's |
| Tpls.StripLineCutsWhitespace | tpls.ts:85-88 | stripping by the minimum indent only ever removes leading whitespace |
| Tpls.StripLineKeepsRelativeIndent | tpls.ts:87 | a space-led line loses exactly the minimum indent and keeps the rest of its indent |
| Tpls.StripLineKeepsOthers | tpls.ts:87 | a line that does not start with a space is left as it is, even when it starts with a tab |
| Tpls.ReindentedOfUnindented | tpls.ts:85-88 | text without indented lines is unchanged by the strip |
| Tpls.FinishedTrimsFirst | tpls.ts:90 | the trim comes before the unescape: `  a\n ` (escaped break) ends in a real line break |
| Tpls.DedentDocExample | tpls.ts:15-51 | as in the doc comment's example, in small: a block indented by four spaces with one line indented by two more loses the common four, keeps the relative two, and loses its leading and trailing lines |
| Tpls.Dedent | tpls.ts:56-91 | the assembly loop followed by the strip, the trim and the unescape computes the dedented string |
| Tpls.NatToString | tpls.ts:103 | a number is written with decimal digits and no leading zero |
| Tpls.NatToStringValue | tpls.ts:103 | the digits written denote the number |
| Tpls.IntToString | tpls.ts:103 | a negative number is written with a leading minus and only then |
| Tpls.Quote | tpls.ts:93-110 | the two loops compute the quoted string |
| Tpls.AppendPieces | tpls.ts:106-108 | the second loop appends the remaining pieces in order |
| Tpls.QuotedArgsInterleaved | tpls.ts:99-105 | after `n` arguments the text is the first `n + 1` pieces interleaved with the formatted arguments |
| Tpls.QuotedIsInterleaved | tpls.ts:93-110 | with one more piece than arguments, the result is the pieces interleaved with the formatted arguments |
| Tpls.QuotedWithoutArgs | tpls.ts:93-110 | without arguments the result is the concatenation of the pieces |
| Tpls.QuotedString | tpls.ts:100-101 | a string argument is wrapped in double quotes |
| Tpls.QuotedNumber | tpls.ts:103 | a negative number is written as it is, without quotes |
| Tpls.QuotedNumberMissingPiece | tpls.ts:103 | a number argument without a following piece is added to `undefined`, so `NaN` is appended in place of the number |
| Tpls.QuotedMissingPiece | tpls.ts:101 | a string argument without a following piece is followed by `undefined` |
| ArrayUtils.IndexMapped | array.ts:13-22 | the fold over the array computes the index |
| ArrayUtils.Index | array.ts:4-7 | without a mapper each element is stored itself |
| ArrayUtils.IndexedKeys | array.ts:18-21 | the keys of the index are exactly the keys of the elements |
| ArrayUtils.IndexedLastWins | array.ts:19 | the value under a key is the mapped value of the last element with that key |
| ArrayUtils.IndexedValues | array.ts:19 | every value is the mapped value of some element with that key |
| ArrayUtils.IndexedOfEmpty | array.ts:21 | an empty array gives an empty object |
| ArrayUtils.IndexByParityExample | array.ts:13-22 | indexing 1, 2, 3 by parity keeps 3 under `odd` and 2 under `even` |
| ObjectUtils.TruthyIsNotNullish | object.ts:7 | a truthy value is never nullish; the falsy values that are not nullish are `false`, zero, `0n`, `""` and `NaN` |
| ObjectUtils.PickBy | object.ts:4-12 | the result has exactly the keys with truthy values, with those values |
| ObjectUtils.RemoveNullProperties | object.ts:14-18 | the result has exactly the keys whose values are neither `null` nor `undefined`, with those values |
| ObjectUtils.PickedWithinNonNull | object.ts:4-18 | `pickBy` keeps a subset of what `removeNullProperties` keeps; the difference is the falsy values that are not nullish |
| ObjectUtils.PickByAndRemoveNullExample | object.ts:4-18 | `0`, `""` and `false` survive `removeNullProperties` only; `null` survives neither |
| ContentUtils.CodeBlockLanguage | content-utils.ts:19-27 | the language is one of `js`, `ts`, `json`, `txt`; `txt` exactly for content types outside the table; the table's entry otherwise |
| ContentUtils.CodeBlockExamples | content-utils.ts:19-27 | `application/javascript` gives `js`, `application/typescript` gives `ts`, `application/json` gives `json`, `text/html` gives `txt` |
| ContentUtils.CookedOpening | content-utils.ts:12-13 | the escaped backticks of the opening line become a fence |
| ContentUtils.WrapLines | content-utils.ts:12-16 | the assembled template has an empty line, the indented opening fence, the content's lines with the first one indented, the indented closing fence and a line of two spaces |
| ContentUtils.WrapInCodeBlockOfLine | content-utils.ts:9-17 | a one-line content without a backslash comes out verbatim between the opening fence with its language and the closing fence |
| ContentUtils.WrapInCodeBlockExample | content-utils.ts:9-17 | `x` as `application/json` becomes a `json` block holding `x` |
| ContentUtils.WrapInCodeBlockFences | content-utils.ts:9-17 | whatever the content, the result starts with three backticks and the language, and ends with three backticks |
| ContentUtils.WrapInCodeBlockShiftsIndent | content-utils.ts:12-16 | the content `a`, line break, ` b` comes out as a `ts` block in which the first content line and the closing fence keep one space of indent and ` b` loses its own |
| ContentUtils.WrapInCodeBlockMissesFence | content-utils.ts:12-16 | that result differs from the fenced content |
| ContentUtils.WrapInCodeBlockUnescapesContent | content-utils.ts:12-16 | content holding a backslash followed by `n` comes out with a real line break in its place |
| ContentUtils.FencedLines | content-utils.ts:9-17 | the lines of the intended block are the opening fence with its language, the content's lines unchanged, and the closing fence |

## Left out

- `hash` in content-utils.ts (a BLAKE3 digest through Web Crypto) is an asynchronous foreign call and is not part of this model.
- `isUppercase`, `splitLines`, `split` and `enforceExtension` in string-utils.ts are outside the modelled operations. Line splitting appears only as it is used inside `dedent`.
- Case mapping covers ASCII and Latin-1 only: `toUpperCase` and `toLowerCase` of other characters are the identity in the model. So are multi-character mappings such as `ß` to `SS`, and `toLocaleLowerCase` is read as `toLowerCase`. The word-separator class keeps its ranges U+2000–U+206F and U+2E00–U+2E7F.
- StringUtils.Replace: requires a replacement without `$`, because the replacement patterns of `String.prototype.replace` (`$&`, `$1`, `$$` …) are not modelled. The empty search string is modelled as JavaScript handles it: the all mode inserts the replacement before, between and after the characters.
- StringUtils.Interpolate: requires values without `$` for the same reason. The values are strings; `val + ""` of other types is not modelled.
- The entries of an object are taken in the order given. JavaScript's own order puts integer-like keys first in ascending order; that order, prototype keys, getters and symbols are not modelled.
- ObjectUtils.PickBy: `for...in` also visits inherited enumerable keys. The model's object has own keys only, and it visits them in an order it leaves open.
- `JsValue`: numbers are integers, apart from `NaN`, and every object, array and function is one opaque reference. Truthiness is all `pickBy` and `removeNullProperties` look at.
- ObjectUtils.RemoveNullProperties: `filterEntries` of the Deno standard library is not part of this model. It is taken to build a new object of the entries that pass its predicate, values unchanged.
- ArrayUtils.Index: a prototype-less object is a `map`. The TypeScript overloads become two methods.
- ContentUtils.CodeBlock: a content type that names an `Object.prototype` member, such as `toString` or `constructor`, finds that member in the source's table; the model's table holds the three listed entries only.
- Tpls.Quote: requires at least one piece, as every tagged template supplies. Number arguments are integers: the formatting of fractions, exponents, `-0`, `NaN` and `Infinity` is not modelled.
- Tpls.Dedent: the values are strings, and the raw segments are given as text.
- The type-level computations of the source (`CamelCase<T>`, `Replace<…>`, `Interpolate<T, Obj>` …) are not modelled. They only type results; they do not change the values.

## Findings

| source | as written | input that shows it | evidently intended | confidence | as-written member | corrected member |
|---|---|---|---|---|---|---|
| content-utils.ts:9-17 with tpls.ts:72-88 | the content is spliced into an indented template, and `dedent` then strips the smallest indent of any line, content lines included | content `a`, line break, ` b` (any later line indented by less than two spaces, or by a tab) | the content verbatim between the fence lines | not executed; high | ContentUtils.WrapInCodeBlockShiftsIndent, ContentUtils.WrapInCodeBlockMissesFence | ContentUtils.Fenced, ContentUtils.FencedLines |
| content-utils.ts:9-17 with tpls.ts:90 | the final `replace(/\\n/g, "\n")` of `dedent` runs over the interpolated content as well as the template | content `a`, backslash, `n`, `b`, as in the source text of a string literal | the content verbatim between the fence lines, its backslash kept | not executed; high | ContentUtils.WrapInCodeBlockUnescapesContent | ContentUtils.Fenced, ContentUtils.FencedLines |
