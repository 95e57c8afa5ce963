# bitcoin-conf parser, modelled in Dafny

This project models the core of `bitcoin-conf`, a library that reads Bitcoin Core's
`bitcoin.conf` format:

- `castToValue` turns the text of a value into a typed value;
- `createParseLine` turns one `name = value` line into a one-entry configuration for the current
  section, with `network.name` dot notation in the top section;
- `parseBitcoinConf` walks the lines of a text. It strips comments and whitespace, switches
  section on `[main]`, `[test]` and `[regtest]` headers, merges every assignment into the
  accumulated configuration, and re-raises any failure with its 1-based line number and the
  line as read;
- `findOption` looks an option up in the option catalog and applies the section scoping rules.

Modules, in dependency order:

- `Results`: `Option` and `Result`; a thrown JavaScript `Error` is a `Result` failure.
- `Text`: `indexOf`, slicing at a first occurrence, `trim`, `split('\n')` and decimal rendering,
  over `seq<char>`.
- `Errors`: the failures and their message texts.
- `Options`: sections, network names, the catalog entry, and `findOption`.
- `Values`: typed values and `castToValue`.
- `Merge`: the section-keyed configuration and the merge policy.
- `Lines`: `createParseLine` (`ParseLine`, `Resolve`) and what one line of a text does
  (`InterpretLine`, with the method `ReadLine` that computes it step by step).
- `LineWalk`: the walk over the lines, for any meaning of a line.
- `Parse`: `parseBitcoinConf`. The method `ParseBitcoinConf` holds the loop with its two
  updated variables, the accumulator and the section cursor. It is proved equal to the
  functional `ParseText`, whose properties are lemmas.
- `ParseExamples`: single lines from the repository's tests.

The option catalog (`BITCOIN_CONFIG_OPTIONS`) is a parameter of every operation; its contents
are not part of this model. A parsed configuration is a map from section (`Top`, `Main`,
`Test`, `Regtest`) to a map from option name to value.

Where the repository's tests expect behaviour the code does not have, the code is followed:

- An unknown option fails the parse; it is not kept as a string.
- A dotted name outside the top section is looked up whole, so it fails as an unknown option.
  It does not raise an "only allowed in top" error.
- `parseBitcoinConf` calls `findOption` without a section, so no section-scoping error is
  raised while parsing.
- An `rpcpassword` line with a comment is not rejected.

## Model

| member | source | states |
|---|---|---|
| Text.IndexOf | src/parse.ts:29 | `indexOf` gives -1 exactly when the character is absent; otherwise it gives a position holding it, with none of it earlier |
| Text.BeforeAfterIndexOf | src/parse.ts:29-37 | slicing before and after the position `indexOf` reports gives the text before and after the first occurrence, and the whole text when there is none |
| Text.FirstOccurrenceIndex | src/parse.ts:39-44 | in `a + c + b` with no `c` in `a`, `indexOf` finds position `|a|`, with `a` before it and `b` after it |
| Text.BeforeAfterJoin | src/parse.ts:33-37 | the text before the first occurrence, the separator, and the text after it rebuild the original text |
| Text.TrimEnds | src/parse.ts:78 | `trim` never lengthens a text; its result neither starts nor ends with whitespace, and is empty exactly when the text was all whitespace |
| Text.TrimOfPadded | src/parse.ts:78 | trimming removes exactly the whitespace padding around an unpadded text |
| Text.TrimIdempotent | src/parse.ts:78 | trimming twice is trimming once |
| Text.SplitLines | src/parse.ts:67 | `split('\n')` gives at least one line, none holding a newline, and joining them with newlines rebuilds the text |
| Text.SplitJoin | src/parse.ts:67 | splitting a join of newline-free lines gives the lines back |
| Text.DecimalRoundTrip | src/parse.ts:94 | the decimal rendering of a line number reads back as that number |
| Errors.ParseErrorMessageLocates | src/parse.ts:93-95 | a re-raised message starts with `Parse error: ` and ends with the line as read; just before the line sit the digits of the line number, which read back as that number |
| Options.CastToNetworkName | src/parse.ts:43 | a network name is exactly `main`, `test` or `regtest`, never `top`; any other text fails, naming that text |
| Options.NetworkNameRoundTrip | src/parse.ts:85-87 | every network section is reached from its own name |
| Options.FindOption | src/util.ts:15-39 | an unknown name fails; on success the result is the queried name with its catalog entry; with no section nothing else is checked; with any section, `top` included, a top-only option fails; in `main`, an option barred from main fails; in `test` and `regtest` only top-only options fail; it succeeds exactly when none of these failures applies |
| Options.ScopingOnlyRestricts | src/util.ts:27-34 | a lookup that succeeds with a section gives the same answer as the lookup without one |
| Options.NetworkScoping | src/util.ts:31-33 | `test` and `regtest` are scoped alike; anything allowed in `main` is allowed in them |
| Options.TopRejectsTopOnlyOption | src/util.ts:27-30 | as written, a top-only option fails when the section given is `top` |
| Options.FindOptionInScope | src/util.ts:27-33 | corrected lookup: succeeds exactly for a catalog name that is not top-only in a network section and not barred from `main` in `main` |
| Options.InScopeAgreesOffTop | src/util.ts:27-33 | the corrected lookup agrees with the written one without a section and in every network section |
| Values.ToNumber | src/parse.ts:18-20 | the number cast reads an unsigned digit string as its decimal value, and otherwise either gives an integer or keeps the text unevaluated |
| Values.NumberRoundTrip | src/parse.ts:19 | every integer written in decimal casts back to itself |
| Values.CastToValue | src/parse.ts:7-24 | the cast value has the declared type; a string is kept as is, a list wraps it as one element, a boolean is true exactly for `1`, a number is the number cast |
| Values.BooleanCastExamples | src/parse.ts:15-17 | `1` casts to true; the empty text, `0` and `true` cast to false |
| Values.EmptyNumberIsZero | src/parse.ts:18-20 | an empty number text casts to 0 |
| Merge.MergeValues | src/__tests__/index.test.ts:101-127 | merging one option's values: an absent side takes the other (so the first assignment is stored as is); two lists concatenate, earlier first; otherwise the earlier value stays |
| Merge.MergeEntries | src/__tests__/index.test.ts:101-127 | within a section, every option is merged by that policy |
| Merge.MergeConfigs | src/parse.ts:92 | the merge holds the sections of both sides, and each (section, option) pair is merged by that policy |
| Merge.MergeAllSnoc | src/parse.ts:92 | merging one more fragment into the accumulated merge is the merge of the longer run |
| Merge.MergePreservesWellTyped | src/parse.ts:92 | merging two well-typed configurations gives a well-typed one |
| Merge.MergeAllCollects | src/parse.ts:92 | after merging a run of fragments, each (section, option) holds the policy applied to the values the fragments assign it, in order |
| Merge.CombineFirstWins | src/__tests__/index.test.ts:101-120 | for a run of values whose first is not a list, the result is the first value |
| Merge.CombineAppends | src/__tests__/index.test.ts:122-127 | for a run of lists, the result is every element of every list, in order |
| Merge.FlattenSingletons | src/__tests__/index.test.ts:122-127 | one-element lists flatten to one element per list, in order |
| Merge.OccurrencesTyped | src/parse.ts:92 | in well-typed fragments, every value given to an option has the option's declared type |
| Merge.MergeAllWellTyped | src/parse.ts:92 | the merge of well-typed fragments is well typed |
| Lines.SingleAssignsCast | src/parse.ts:46 | a one-entry configuration holding a catalog option's cast value assigns that cast |
| Lines.AssignsCastIsLineFragment | src/parse.ts:46-60 | what one line assigns is exactly one section holding exactly one option; it is well typed, and any list in it has one element |
| Lines.ParseLine | src/parse.ts:26-37 | no `=` fails with `MissingEquals`; an empty trimmed name before the first `=` fails with `EmptyOptionName`; otherwise the trimmed texts around the first `=` are resolved in the context |
| Lines.Resolve | src/parse.ts:38-60 | the result assigns one catalog option the value text cast to its type; outside top, its only section is the context; it lands in `top` only when the context is `top` |
| Lines.SplitAtFirstEquals | src/parse.ts:33-37 | the line is split at its first `=`: the name is the trimmed text before it, and the value is the trimmed rest, which may hold more `=` |
| Lines.PlainNameInContext | src/parse.ts:48-60 | a dot-free name in top, or any name elsewhere, lands in the current section with its cast value; a name not in the catalog fails as unknown |
| Lines.DotNotationInTop | src/parse.ts:38-46 | in top, `net.name` puts `name` in the network section `net`, not in `top` |
| Lines.DotNotationUnknownOption | src/parse.ts:44-45 | in top, `net.name` with a valid network prefix and a `name` missing from the catalog fails as unknown, naming `name` |
| Lines.DotNotationNeedsNetwork | src/parse.ts:42-43 | in top, a prefix before the first `.` that is not a network name fails with that prefix |
| Lines.CommentIsDropped | src/parse.ts:71-78 | everything from the first `#` on is dropped before trimming |
| Lines.InterpretLine | src/parse.ts:69-92 | a failing line fails with an inner error, never an already re-raised one |
| Lines.InterpretLineEffects | src/parse.ts:80-92 | a line is blank exactly when nothing is left after dropping the comment and trimming; a header is a bracketed line naming a network section, never `top`; any other line succeeds exactly when `createParseLine` does, carrying its one-entry result |
| Lines.ParseLineFragment | src/parse.ts:26-61 | a line that parses gives one section holding one well-typed option |
| Lines.ReadLine | src/parse.ts:69-92 | the step-by-step reading of a line gives what `InterpretLine` states |
| LineWalk.Walk | src/parse.ts:67-96 | a failed walk reports a parse error at a 1-based line number within the text, together with that line as read |
| LineWalk.FailurePersists | src/parse.ts:93-95 | once a line fails, no later line changes the outcome |
| LineWalk.FailureIsFirstBadLine | src/parse.ts:93-95 | the reported line is the first that fails: every earlier line went through, and the reported line fails with the inner error in the section the earlier lines left |
| LineWalk.BlankLinesAreSkipped | src/parse.ts:80-82 | lines that are blank in every section leave the walk at its start |
| Parse.RunIsWalk | src/parse.ts:64-98 | the parse walk is the generic walk with `InterpretLine` as the step |
| Parse.RunErrorLocates | src/parse.ts:93-95 | a failed parse reports a parse error at a 1-based line number within the text, together with that line as read |
| Parse.RunFailurePersists | src/parse.ts:93-95 | once a line fails, no later line changes the parse's outcome |
| Parse.RunFailureIsFirstBadLine | src/parse.ts:93-95 | the reported line is the first bad line, and it fails with the reported inner error in the section left by the lines before it |
| Parse.RunFragments | src/parse.ts:92 | every fragment the parse collects is one section holding one well-typed option |
| Parse.ParseTextWellTyped | src/parse.ts:64-98 | every value a successful parse yields belongs to a catalog option and has its declared type |
| Parse.BlankLineChangesNothing | src/parse.ts:80-82 | a blank or comment-only line leaves the parse state unchanged |
| Parse.HeaderLine | src/parse.ts:85-89 | a header line switches to the network it names and keeps what was collected, or fails, tagged with its line, when it names no network |
| Parse.HeaderSwitchesContext | src/parse.ts:85-89 | `[main]`, `[test]` or `[regtest]` switches the section for later lines and adds nothing |
| Parse.AssignmentLine | src/parse.ts:91-92 | any other non-blank line is parsed in the current section; its fragment is collected, or the parse fails, tagged with the line |
| Parse.BlankTextIsEmpty | src/parse.ts:64-98 | a text made only of blank and comment lines parses to the empty state in `top` |
| Parse.ScalarOptionKeepsFirst | src/__tests__/index.test.ts:101-120 | a string, number or boolean option keeps the value of the first line that assigns it, in each section |
| Parse.ListOptionCollectsAll | src/__tests__/index.test.ts:122-127 | a list option collects one element per assigning line, in line order |
| Parse.OccurrencesSingleton | src/__tests__/index.test.ts:122-127 | every value the lines give a list option is a one-element list |
| Parse.RunPrefixStep | src/parse.ts:67-92 | the parse of one more line is the previous state changed by that line's effect alone |
| Parse.ParseBitcoinConf | src/parse.ts:64-98 | the loop's result is the parse of the text; a success is well typed, and a failure is a parse error naming one of the text's lines |
| ParseExamples.EmptyNameExample | src/__tests__/index.test.ts:218-224 | `=foo` fails with an empty option name |
| ParseExamples.MissingEqualsExample | src/__tests__/index.test.ts:194-200 | a line with no `=` fails |
| ParseExamples.BadSectionExample | src/__tests__/index.test.ts:210-216 | `foo` is not a network name |
| ParseExamples.UnknownOptionExample | src/util.ts:22-24 | `foo=bar` fails as an unknown option, as the code has it |
| ParseExamples.DotInSectionExample | src/parse.ts:55-57 | in `[main]`, `test.rpcuser` fails as an unknown option, as the code has it |
| ParseExamples.SectionRulesNotAppliedExample | src/parse.ts:55-60 | in `[main]`, an option barred from `main` is accepted, because parsing looks options up without a section |

## Left out

- `toAbsolute` (src/util.ts:5-13): path normalisation that depends on the operating system and the default data directory.
- File reading and writing, `includeconf` composition, network selection and `withDefaults`: their code is not part of this model.
- The merge module is not part of this model. `Merge.MergeConfigs` follows the policy the tests state: lists append, other values keep the first.
- `Values.ToNumber`: JavaScript's floating-point `Number(str)` is modelled only for the empty text and optionally signed decimal integers, and even there exactly: digit strings beyond 2^53 are not rounded to the nearest double (`Number("9007199254740993")` is 9007199254740992 in JavaScript), and `-0` gives the integer 0 rather than negative zero. Any other text is kept unevaluated as `NumText`.
- `Text.IsWhitespace`: `trim` removes the common whitespace characters here, not every Unicode space separator, and not the line terminators U+2028 and U+2029, which JavaScript's `trim` also removes.
- `Errors.Message`: the network-name message lives in a file that is not part of this model. Its text here has only the shape the tests look for.
- The `castToValue` default branch (an unknown type name): the type-name datatype has exactly four cases, so it cannot be reached.
- The catalog's contents (the option table): every operation takes the catalog as a parameter.
- Tests whose behaviour the code does not have: the `rpcpassword` comment error, the "only allowed in top" dot-notation error, section-scoping errors while parsing, and unknown options kept as strings. The model follows the code; see `ParseExamples`.
- Whole-text examples from the tests are stated only line by line (`ParseExamples`). The multi-line behaviour they show is covered by the general lemmas in `Parse`.

## Findings

| source | as written | input that shows it | evidently intended | confidence | as-written member | corrected member |
|---|---|---|---|---|---|---|
| src/util.ts:27-30 | any section argument, `top` included, triggers the top-only check | `findOption(name, 'top')` for an option flagged `onlyAllowedInTop` fails with "must be at the top level" | a top-only option is accepted in `top` and refused in the network sections | low: `createParseLine` (src/parse.ts:45,50,57) never passes a section; not executed | Options.TopRejectsTopOnlyOption | Options.FindOptionInScope |
