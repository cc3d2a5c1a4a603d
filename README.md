# luxon's token parser, modelled in Dafny

This project models the parsing pipeline of luxon's `src/impl/tokenParser.js`.
That pipeline turns a date string into date-time fields by following a
tokenized format. It has four stages:

1. **The token compiler** (`unitForToken`, with the builders `intUnit`, `oneOf`,
   `offset`, `simple` and the `literal` fallback). It maps every format token
   to a *unit*. A unit holds a regular-expression fragment, a deserializer, an
   optional count of extra capturing groups and a literal flag
   (module `TokenUnits`).
2. **The composer** (`buildRegex`). It wraps every fragment in one capturing
   group and concatenates the results in order (module `Composer`). Capturing
   groups in pattern source text are counted by a scanner that follows the
   group syntax of section 22.2 of ECMA-262: a `(` captures unless `?`
   follows it, except that a named group `(?<name>` captures too. A `(`
   inside a character class or after a backslash opens nothing. The scanner
   does not check that a pattern is valid (module `RegexSource`).
3. **The group-cursor walk** (`match`). It is a loop over the units. A cursor
   starts at 1 and advances by `groups + 1` or by 1. Each non-literal unit has
   its slice of the match array deserialized and stored under the first
   letter of its token code (module `Matcher`).
4. **The field assembler** (`dateTimeFromMatches`). It resolves the zone,
   makes the meridiem and era corrections in place on the object `match`
   filled, and projects the letter keys onto field names (module `Assembler`).

`TokenParser` (module `TokenParsing`) chains the four stages in
`explainParse` and `parseDateTime`. Both throw a SyntaxError when a
`RegExp` construction fails. There are three such constructions: a literal's
own text (line 30), a locale's joined names (line 11), and the composite
pattern that `input.match` compiles (line 139). Which texts are valid patterns
is a parameter of the engine (`Engine.compiles`), and `ExplainOutcome` states
when the call throws.

A JavaScript plain object is modelled as its list of own properties in
insertion order (module `JsObjects`). That is the order `Object.keys` returns
here, because every key is a letter. The order decides which of two keys that
map to the same field wins the projection. The imperative parts keep their
form:
- `match` is a method with a `while` loop over the handlers;
- `dateTimeFromMatches` updates a `JsObject` in place;
- `TokenParser` is a class.

Each imperative part is proved against a function of its inputs
(`Walk`/`MatchSpec`, `Corrected`/`Project`/`ResolveZone`, `ExplainOutcome`),
and the lemmas state what the source promises about those functions.

The central invariant concerns the composite pattern. When every fragment
opens the number of groups its unit declares, the composite has exactly as
many capturing groups as `match` consumes. Unit `k` then reads group
`1 + (groups of units 0..k-1)` onward (`GroupsAgree`). Every unit the compiler
produces meets that condition (`UnitForTokenAccounted`), as long as two
conditions hold. The locale's names must contain no pattern syntax
(`PlainLocale`). Every literal token's text must open no group of its own
(`GroupFreeLiterals`). The source uses literal text unescaped, so the second
condition is needed: a literal such as "(x)" breaks the agreement (see
Findings). With the literal text escaped, the agreement holds for every
token list (`EscapedGroupsAgree`).

## Model

| member | source | states |
|---|---|---|
| `TokenUnits.IntUnit` | src/impl/tokenParser.js:6-8 | definition of `intUnit`: the given fragment, an integer deserializer with the given post-processing, no `groups`, not literal |
| `TokenUnits.Join` | src/impl/tokenParser.js:11 | definition of the `join` that builds a name table's fragment: the names in order, with the alternation bar between each two |
| `TokenUnits.OneOfUnit` | src/impl/tokenParser.js:10-12 | definition of `oneOf`: the joined names as fragment, a name-index deserializer counted from `startIndex`, no `groups`, not literal |
| `TokenUnits.OffsetUnit` | src/impl/tokenParser.js:14-16 | definition of `offset`: the given fragment, the `signedOffset` deserializer, the given `groups` count, not literal |
| `TokenUnits.SimpleUnit` | src/impl/tokenParser.js:18-20 | definition of `simple`: the given fragment, a deserializer that returns the first group, not literal |
| `TokenUnits.LiteralUnit` | src/impl/tokenParser.js:30 | definition of `literal` as written: the token's text itself as fragment, a deserializer that returns the first group, the literal flag set |
| `TokenUnits.EscapedLiteralUnit` | src/impl/tokenParser.js:30 | definition of the literal fallback as evidently intended: the token's text with the syntax characters escaped |
| `TokenUnits.Unitate` | src/impl/tokenParser.js:31-128 | definition of `unitate`: a literal token gives the literal fallback; each of the 38 codes gives the builder and the fragment the switch names; any other code gives the literal fallback |
| `TokenUnits.UnitForToken` | src/impl/tokenParser.js:22-132 | the unit carries the input token; it is literal exactly when the token is marked literal or its code is not one of the 38 recognised codes; a literal unit's fragment is the token's own text, unescaped, as `RegExp(t.val)` takes it (whether that text compiles is decided in `TokenParsing.ExplainOutcome`); only offset units declare `groups`, and they declare 2 |
| `TokenUnits.KindByLetter` | src/impl/tokenParser.js:36-127 | for a recognised code, the deserializer follows the first letter: `y`/`k` are integers, `G`/`a` are name indices from 0, `M`/`L`/`E` are integers or name indices from 1, `Z` exactly gives offsets, `z` exactly gives zone names, and only `yy`/`kk` go through `untruncateYear` |
| `TokenUnits.CompileAll` | src/impl/tokenParser.js:233 | definition of `tokens.map(t => unitForToken(t, loc))`: one unit per token, in token order, each being `unitForToken` of its token |
| `TokenUnits.UnitForTokenEscaped` | src/impl/tokenParser.js:30 | the compiler with the literal fallback escaped: literal exactly when the source's unit is, with the escaped literal fallback; every code unit is the source's |
| `TokenUnits.CompileAllEscaped` | src/impl/tokenParser.js:233 | one escaped-compiler unit per token, in token order |
| `TokenUnits.At` | src/impl/tokenParser.js:7-19 | the destructured group is defined exactly when the slice reaches that index and the group took part in the match |
| `TokenUnits.DigitPrefix` | src/impl/tokenParser.js:7 | the digits `parseInt` reads: an all-digit prefix of the text that stops at the first non-digit, and the whole text when it is all digits |
| `TokenUnits.ParseInt` | src/impl/tokenParser.js:7 | `parseInt(s, 10)` gives a number or NaN; NaN exactly when the group is missing, empty or does not start with a digit; an all-digit text gives its decimal value |
| `TokenUnits.ParseIntRoundTrip` | src/impl/tokenParser.js:7 | the decimal numeral of any `n`, zero-padded to any width, parses back to `n` |
| `TokenUnits.IndexOf` | src/impl/tokenParser.js:11 | `strings.indexOf(s)` is -1 exactly when `s` is undefined or not a name; otherwise it is the first position holding `s` |
| `TokenUnits.Deserialize` | src/impl/tokenParser.js:6-20 | integer units give `parseInt` of the first group, a number or NaN, when there is no post-processing, and `untruncateYear` of that same result, NaN included, for `yy` and `kk`; name units give an index plus start, from `start - 1` up to `start` plus the number of names, less one; literal and simple units give the first group; offset units give `signedOffset` of groups 1 and 2 |
| `TokenUnits.OneOfIndex` | src/impl/tokenParser.js:10-12 | with distinct names, a match of `names[i]` deserializes to `i + start` |
| `RegexSource.Escape` | src/impl/tokenParser.js:30 | the escaped text starts with a backslash or a character that is not pattern syntax |
| `RegexSource.UnescapeEscape` | src/impl/tokenParser.js:30 | escaping loses nothing: unescaping the escaped text gives the text back |
| `RegexSource.EscapeScan` | src/impl/tokenParser.js:30 | escaped text opens no capturing group and can be wrapped in a group as is |
| `RegexSource.WrapScan` | src/impl/tokenParser.js:135 | wrapping a fragment in `(`…`)` adds exactly one capturing group to its own |
| `RegexSource.ScanConcat` | src/impl/tokenParser.js:135 | the group count of a concatenation is the sum of the counts of its parts, when the second part does not start with `?` |
| `RegexSource.NamedGroupCaptures` | src/impl/tokenParser.js:135 | a named group `(?<n>…)` counts as one capturing group; `(?:…)` counts as none |
| `RegexSource.LookbehindsDoNotCapture` | src/impl/tokenParser.js:135 | the lookbehinds `(?<=…)` and `(?<!…)` count as no group |
| `RegexSource.LookaheadsDoNotCapture` | src/impl/tokenParser.js:135 | the lookaheads `(?=…)` and `(?!…)` count as no group, nor does a `(` inside a character class or after a backslash |
| `Composer.Compose` | src/impl/tokenParser.js:135 | definition of the `reduce`: the fragments in order, each wrapped in one capturing group, concatenated onto the empty string |
| `Composer.BuildRegex` | src/impl/tokenParser.js:134-136 | gives the units back unchanged; the composite is, around every unit `k`, the composite of the units before it, then unit `k`'s fragment in one group, then the composite of the units after it |
| `Composer.ComposeAppend` | src/impl/tokenParser.js:135 | composing is a homomorphism over concatenation of unit lists |
| `Composer.ComposeCaptures` | src/impl/tokenParser.js:134-136 | the composite opens one group per unit plus the groups the fragments open themselves |
| `Matcher.Match` | src/impl/tokenParser.js:138-158 | the loop fills the object `Walk` describes when the pattern matched, and leaves `{}` when it did not |
| `Matcher.Consumed` | src/impl/tokenParser.js:147 | every unit advances the cursor by at least one group |
| `Matcher.Slice` | src/impl/tokenParser.js:149 | `matches.slice(lo, hi)` is the sub-array when the bounds are in range, and is never longer than the array |
| `Matcher.Key` | src/impl/tokenParser.js:149 | definition of `h.token.val[0]` as a property key: the first character of the token code |
| `Matcher.StartStep` | src/impl/tokenParser.js:143-151 | the cursor before unit `k + 1` is the cursor before unit `k` plus what unit `k` consumes |
| `Matcher.WalkStep` | src/impl/tokenParser.js:144-152 | one loop iteration: a literal unit leaves the object as it is; any other unit assigns its deserialized slice under its key; the cursor advances by the unit's consumption |
| `Matcher.Walk` | src/impl/tokenParser.js:143-153 | definition of the object the loop fills: after the units so far, the last one stores its deserialized slice under its key unless it is literal |
| `Matcher.MatchSpec` | src/impl/tokenParser.js:138-158 | definition of `match`: the walk of the match array when the pattern matched, `{}` when it did not |
| `Matcher.WalkFrom` | src/impl/tokenParser.js:143-153 | definition of the rest of the loop: the units from `k` on, applied in order to what the units before `k` filled |
| `Matcher.WalkFromRest` | src/impl/tokenParser.js:143-153 | running the rest of the loop from any unit `k`, on what the first `k` units filled, gives the whole walk |
| `Matcher.WalkLookupStep` | src/impl/tokenParser.js:148-150 | after the last unit, its key holds its value when it stores, and every other key reads as before |
| `Matcher.WalkHasKey` | src/impl/tokenParser.js:144-150 | the filled object has key `k` exactly when some non-literal unit's token starts with `k` |
| `Matcher.WalkValue` | src/impl/tokenParser.js:144-150 | the value under `k` is the one the last unit storing under `k` deserializes: the later unit wins |
| `Matcher.WalkDistinct` | src/impl/tokenParser.js:142-150 | the filled object never holds a key twice |
| `Matcher.SliceIsGroupRun` | src/impl/tokenParser.js:143-151 | when the match array has one entry per consumed group plus group 0, unit `k`'s slice is exactly the run from its cursor to the next unit's cursor, of length `groups + 1` or 1 |
| `Matcher.UnitForTokenConsumes` | src/impl/tokenParser.js:14-16 | a compiled offset unit consumes 3 groups and every other unit, literal or not, consumes 1 |
| `Matcher.JoinPlain` | src/impl/tokenParser.js:11 | joining syntax-free names with the alternation bar gives syntax-free text |
| `Matcher.JoinAccounted` | src/impl/tokenParser.js:11 | a name-list unit over syntax-free names opens no group of its own, as it declares |
| `Matcher.DigitFragments` | src/impl/tokenParser.js:23-29 | the seven digit fragments open no capturing group |
| `Matcher.OffsetFragments` | src/impl/tokenParser.js:118-120 | both offset fragments open exactly two capturing groups; the `(?:` group does not count |
| `Matcher.ZoneNameFragment` | src/impl/tokenParser.js:124 | the zone-name fragment opens no capturing group; it has an escaped slash and character classes |
| `Matcher.UnitForTokenAccounted` | src/impl/tokenParser.js:22-132 | every unit the compiler gives opens exactly the groups it declares, when the locale's names are syntax-free and, for a token that compiles to a literal, its text opens no group and can be wrapped |
| `Matcher.AccountedSum` | src/impl/tokenParser.js:134-151 | for such units, the total consumption is one per unit plus the groups the fragments open |
| `Matcher.GroupsAgree` | src/impl/tokenParser.js:134-151 | for such units, the composite opens exactly as many groups as `match` consumes, and the groups opened before unit `k`, plus group 0's slot, equal unit `k`'s cursor |
| `Matcher.CompiledGroupsAgree` | src/impl/tokenParser.js:233-235 | the same agreement for every compiled token list over a syntax-free locale whose literal texts open no group |
| `Matcher.EscapedLiteralUnitAccounted` | src/impl/tokenParser.js:30 | the escaped literal fallback opens no group, whatever the text, as its missing `groups` declares |
| `Matcher.EscapedGroupsAgree` | src/impl/tokenParser.js:30 | with the literal fallback escaped, the composite opens exactly the groups `match` consumes, unit by unit, for every token list over a syntax-free locale |
| `Matcher.UnescapedLiteralMisreads` | src/impl/tokenParser.js:30 | with the source's compiler, the literal "(x)" before "yyyy" composes to a pattern with 3 groups while `match` consumes 2; the year reads the literal's inner group and comes out NaN |
| `Matcher.EscapedLiteralReadsOwnGroup` | src/impl/tokenParser.js:30 | with the escaped compiler, the same format has 2 groups, and the year reads its own group, 2021 |
| `Matcher.YearUnit` | src/impl/tokenParser.js:43-44 | `yyyy` compiles to a four-digit integer unit with no post-processing |
| `Matcher.CompiledValuesNumeric` | src/impl/tokenParser.js:148-149 | every key but `y`, `k`, `Z` and `z` holds a number or NaN in the filled object |
| `JsObjects.Add12` | src/impl/tokenParser.js:203 | definition of `+= 12`: adds 12 to a number, gives NaN for NaN or undefined, and appends "12" to a string |
| `JsObjects.Negate` | src/impl/tokenParser.js:207 | definition of unary minus: negates a number, negates a string's numeric value (NaN when the string is not numeric), NaN otherwise |
| `JsObjects.GroupValue` | src/impl/tokenParser.js:19 | a captured group is returned as a string, and as undefined exactly when it did not take part |
| `JsObjects.Lookup` | src/impl/tokenParser.js:194-207 | definition of a property read: the value stored under the key, or nothing when the key is not an own property |
| `JsObjects.Assign` | src/impl/tokenParser.js:149 | definition of `obj[k] = v`: the value replaces the one under `k` in place, or `k` is added last |
| `JsObjects.LookupKeys` | src/impl/tokenParser.js:194-196 | a property read finds a value exactly when the key is among the object's own keys |
| `JsObjects.LookupAssign` | src/impl/tokenParser.js:149 | after `obj[k] = v`, `k` reads `v` and every other key reads as before |
| `JsObjects.AssignKeys` | src/impl/tokenParser.js:210 | an assignment keeps key order: an existing key stays in place, a new key goes last |
| `JsObjects.AssignKeepsDistinct` | src/impl/tokenParser.js:149 | an assignment never duplicates a key |
| `JsObjects.JsObject.Put` | src/impl/tokenParser.js:203 | an in-place property write is the assignment on the object's entries |
| `JsObjects.JsObject.constructor` | src/impl/tokenParser.js:142 | the object starts with the given entries |
| `Assembler.ToField` | src/impl/tokenParser.js:161-191 | the hour field comes from exactly `h` and `H`, month from exactly `L` and `M`, weekday from exactly `E` and `c`; `G`, `a`, `Z` and `z` map to no field |
| `Assembler.FieldCollisions` | src/impl/tokenParser.js:161-191 | two different keys share a field only as `h`/`H`, `L`/`M` or `E`/`c` |
| `Assembler.ResolveZone` | src/impl/tokenParser.js:193-200 | a fixed offset exactly when `Z` is defined, even if `z` is defined too, built from `Z`'s value; otherwise a named zone exactly when `z` is defined, built from `z`'s value; otherwise no zone |
| `Assembler.DateTimeFromMatches` | src/impl/tokenParser.js:160-220 | the object is left corrected in place; the fields are the projection of the corrected object; the zone comes from the object before the correction |
| `Assembler.AfterMeridiem` | src/impl/tokenParser.js:202-204 | definition of the meridiem step: `h` gains 12 when it is defined and `a` is 1 |
| `Assembler.Corrected` | src/impl/tokenParser.js:202-208 | definition of both steps: the meridiem step, then the era step, which negates `y` when `G` is 0 and `y` is truthy |
| `Assembler.Project` | src/impl/tokenParser.js:210-217 | definition of the `reduce` over `Object.keys`: each key that maps to a field writes its value there, in key order |
| `Assembler.AfterMeridiemLookup` | src/impl/tokenParser.js:202-204 | after the meridiem step only `h` may change, by `+ 12`, and only when `h` is defined and `a` is 1 |
| `Assembler.CorrectedLookup` | src/impl/tokenParser.js:202-208 | after both steps, `h` is `h + 12` exactly when `h` is defined and `a === 1`; `y` is `-y` exactly when `G === 0` and `y` is truthy; every other key, `H` included, is unchanged |
| `Assembler.CorrectedKeys` | src/impl/tokenParser.js:202-208 | the corrections add no key and keep the key order |
| `Assembler.ZoneUnaffectedByCorrection` | src/impl/tokenParser.js:193-208 | resolving the zone after the corrections gives the same zone |
| `Assembler.MeridiemHour` | src/impl/tokenParser.js:202-204 | a numeric hour gains 12 exactly when the meridiem index is 1 |
| `Assembler.EraYear` | src/impl/tokenParser.js:206-208 | a numeric year is negated exactly when the era index is 0 and the year is not 0 |
| `Assembler.ProjectDomain` | src/impl/tokenParser.js:210-217 | a field is present exactly when some key maps to it |
| `Assembler.ProjectValue` | src/impl/tokenParser.js:210-217 | a field holds the value of the last key in key order that maps to it, copied unchanged |
| `Assembler.ProjectSingleKey` | src/impl/tokenParser.js:210-217 | a field that only one key can feed is present exactly when that key is, with that key's value |
| `TokenParsing.TokenParser.constructor` | src/impl/tokenParser.js:227-229 | the parser keeps the locale it is given |
| `TokenParsing.Explain` | src/impl/tokenParser.js:231-239 | definition of the explanation a call returns when nothing throws: the composite pattern, the object `match` filled after the in-place corrections, its projection onto fields, and the zone |
| `TokenParsing.ExplainOutcome` | src/impl/tokenParser.js:231-239 | definition of how `explainParse` ends: it throws when a fragment built from text (a literal's text or a joined name table) or the composite is rejected by the engine's syntax check (the constructions of lines 30, 11 and 139), and returns `Explain` otherwise |
| `TokenParsing.TokenParser.ExplainParse` | src/impl/tokenParser.js:231-239 | returns exactly what `ExplainOutcome` says: it throws when a literal's text, a joined name table or the composite is not a valid pattern, and otherwise returns the explanation the four stages give |
| `TokenParsing.TokenParser.ParseDateTime` | src/impl/tokenParser.js:241-244 | throws exactly when `explainParse` throws; otherwise returns the fields and the zone of its explanation |
| `TokenParsing.ExplainThrowsOnLiteral` | src/impl/tokenParser.js:30 | a token that compiles to a literal whose text is not a valid pattern, such as "(", makes `explainParse` throw |
| `TokenParsing.ExplainReturns` | src/impl/tokenParser.js:231-239 | when every text-built fragment and the composite compile, `explainParse` returns the explanation |
| `TokenParsing.DottedDatePattern` | src/impl/tokenParser.js:30 | the format `dd.MM.yyyy` composes to `(\d\d)(.)(\d\d)(.)(\d{4})`: the literal dots are unescaped, so each matches any character |
| `TokenParsing.DottedDateFragments` | src/impl/tokenParser.js:22-132 | the five tokens of `dd.MM.yyyy` compile to the fragments `\d\d`, `.`, `\d\d`, `.` and `\d{4}` |
| `TokenParsing.StoresIff` | src/impl/tokenParser.js:148 | a compiled unit stores under `c` exactly when its token is a recognised, non-literal code starting with `c` |
| `TokenParsing.LastValue` | src/impl/tokenParser.js:144-151 | the value under `c` is what the last token storing under `c` deserializes |
| `TokenParsing.HasValue` | src/impl/tokenParser.js:144-151 | the filled object has key `c` exactly when some token stores under `c` |
| `TokenParsing.WalkKeysAreLetters` | src/impl/tokenParser.js:149 | every key of the filled object is one of the 17 code letters |
| `TokenParsing.CorrectedKeysAreLetters` | src/impl/tokenParser.js:202-210 | the corrected object has distinct keys, all of them code letters |
| `TokenParsing.ExplainParts` | src/impl/tokenParser.js:231-238 | on a match, the explanation holds the composite pattern, the corrected object, its projection and the zone of the filled object |
| `TokenParsing.ExplainNoMatch` | src/impl/tokenParser.js:155-157 | with no match, the explanation holds an empty object, no fields and no zone |
| `TokenParsing.PlainFieldLetterUnique` | src/impl/tokenParser.js:161-191 | among the code letters, only `c` itself maps to the field of a single-letter field key |
| `TokenParsing.PlainFieldFromObject` | src/impl/tokenParser.js:210-217 | a field fed by one letter only is present exactly when that letter's key is, with its value |
| `TokenParsing.ExplainPlainField` | src/impl/tokenParser.js:231-238 | milliseconds, seconds, minutes, day, ordinal, week number, week year and weekday are present exactly when some token stores them |
| `TokenParsing.ExplainPlainFieldValue` | src/impl/tokenParser.js:231-238 | such a field holds what the last token storing it deserializes from its own slice |
| `TokenParsing.YearField` | src/impl/tokenParser.js:179-180 | the year field is the value under `y` |
| `TokenParsing.HourField` | src/impl/tokenParser.js:169-171 | with only one of `h`/`H` present, the hour is that key's value |
| `TokenParsing.ExplainYear` | src/impl/tokenParser.js:206-217 | the year is the last year token's value, negated, with strings converted to numbers, exactly when the era index is 0 and the year is truthy; a `yyyy` token's value is a number or NaN |
| `TokenParsing.ExplainTwelveHour` | src/impl/tokenParser.js:202-204 | with `h` and no `H`, the hour is the last `h` token's value, plus 12 exactly when the meridiem index is 1 |
| `TokenParsing.ExplainTwentyFourHour` | src/impl/tokenParser.js:169-171 | with `H` and no `h`, the hour is the last `H` token's value, never adjusted by the meridiem |
| `TokenParsing.ExplainOffsetZone` | src/impl/tokenParser.js:194-195 | a defined `Z` offset makes the zone the fixed offset `signedOffset` gives for its hour and minute groups |
| `TokenParsing.ExplainNamedZone` | src/impl/tokenParser.js:196-197 | with no `Z` token, a matched `z` group makes the zone the named zone of that text |
| `TokenParsing.ExplainNoZone` | src/impl/tokenParser.js:198-199 | with neither a `Z` nor a `z` token, there is no zone |

## Left out

- The regular-expression engine: it is a parameter (`Engine`). Its `run` stands for `input.match(regex)`, a function from the input and the pattern source to the match array or `None`. Its `compiles` stands for the syntax check `RegExp` makes; which texts are valid patterns is not modelled, and the model states only that a call throws exactly when a text-built fragment or the composite fails that check. Matching semantics, unanchored search and the lazy `{2}?` quantifiers of `oneToThree`/`twoToFour` are not modelled. The model relates the pattern's group count to the groups `match` consumes, not to what matches.
- `RegExp(...)` object construction and `.source`: a fragment is kept as its pattern source text, and the normalisation `.source` applies (an empty pattern becomes `(?:)`, for instance) is not modelled.
- `Formatter.parseFormat`, the tokenizer: the parser takes the token list as given.
- The locale's name tables: they are fields of a `Locale` value. `UnitForTokenAccounted` and `CompiledGroupsAgree` require names with no pattern syntax in them (`PlainLocale`), because a name with a group in it would open groups no unit declares. For the same reason they require literal texts that open no group (`GroupFreeLiterals`); `EscapedGroupsAgree` needs only `PlainLocale`.
- `Util.untruncateYear` and `Util.signedOffset`: their definitions are not part of this model; they are uninterpreted function parameters (`Externals`). `untruncateYear` takes any value, NaN included, as the source passes it whatever `parseInt` gave.
- The string-to-number conversion that unary minus applies to a string (section 7.1.4.1.1 of ECMA-262, StringToNumber) is a parameter too (`Externals.toNumber`), giving a number or NaN.
- `FixedOffsetZone` and `IANAZone`: the zone is kept as the value its constructor is given.
- `parseInt` is modelled as reading the leading decimal digits; leading white space, signs and other radixes do not arise from the digit fragments and are not modelled.
- Numbers are unbounded integers, so floating point, `-0` and overflow are not modelled.
- `Object.defineProperty` in the constructor: the locale is a `const` field of the class.
- The `[null, null]` branch of `explainParse`: `match` returns an object, which is truthy, even when the pattern does not match, so that branch cannot run. The model always runs the assembler, as the code does.
- The lemmas named `Explain…` describe the explanation a call returns when nothing throws; `ExplainReturns` states when that is.
- Key order of plain objects: JavaScript lists integer-like keys first. Every key in this pipeline is a single letter, or "undefined" for an empty token code, so insertion order is the order `Object.keys` gives.
- `TokenParsing.ExplainOffsetZone` covers the case where `signedOffset` gives a defined value for the matched groups; when it gives `undefined`, the zone falls through to `z`, as `Assembler.ResolveZone` states.

Where the code departs from the behaviour its design describes, the model follows the code:
- A literal's text is described as matched verbatim, but the code uses it unescaped as pattern source (see Findings).
- The meridiem correction applies only to `h`, never to `H`, and only when `a === 1`.
- The era correction also needs the year to be truthy, so a year of 0 or NaN is not negated.
- The projection table maps `c` to the weekday, but no code stores under `c`.

## Findings

| source | as written | input that shows it | evidently intended | confidence | as-written member | corrected member |
|---|---|---|---|---|---|---|
| src/impl/tokenParser.js:30 | the literal fallback uses the token's text as pattern source (`RegExp(t.val)`) without escaping it, so a literal holding `(` opens capturing groups no unit declares, and every later unit reads the wrong group; a literal that is not a valid pattern makes the call throw a SyntaxError; a literal `.` matches any character | a literal "(x)" followed by `yyyy` composes to `((x))(\d{4})`, which has 3 groups while `match` consumes 2; on "x2021" the match array is `["x2021", "x", "x", "2021"]` and the year reads "x", giving NaN; a literal the syntax check rejects, such as "(", throws (`TokenParsing.ExplainThrowsOnLiteral`); `dd.MM.yyyy` composes to `(\d\d)(.)(\d\d)(.)(\d{4})` (`TokenParsing.DottedDatePattern`) | the literal's text is matched verbatim, with the syntax characters escaped, so that it opens no group, never throws and the year reads 2021 | not executed | `Matcher.UnescapedLiteralMisreads` | `Matcher.EscapedLiteralReadsOwnGroup` |
