# A verified model of procmail-rs

This project models the parts of procmail-rs in which a fast, bounded or
incremental algorithm has to agree with a simple meaning, and proves that it
does: shell expansion, mboxrd mailboxes, RFC 2047 header fields, message
ingestion, fan-out delivery with its variable store, and the checking of rc
files. `dafny verify dfyconfig.toml` checks everything.

Bytes are integers from 0 to 255 and byte strings are sequences of them. A loop
of the program is a method with a loop, proved equal to a specification
function; an object that is updated in place is a class; the theorems are then
about the specification functions. Files, clocks, locks, regular expressions,
commands and other code outside the modelled files are parameters: every
theorem holds for all answers they may give.

## How the project is laid out

- `Bytes`, `PhysicalLines`, `Utf8`: bytes, lines and characters.
- `ShellPattern`, `ShellNfa`, `ShellRemoval`, `ShellQuote`: glob patterns with a
  declarative matching relation and their compiler; the state-array automaton;
  removal of prefixes and suffixes; quoting.
- `ShellGlob`, `ShellGlobLaws`, `ShellTransforms`: what the text of a pattern stands
  for, and what removal and case changes write.
- `ShellExpression`, `ShellEval`, `ShellMeaning`, `ShellLimits`, `ShellEvaluator`:
  expressions, the bounded evaluator, its meaning without limits, its limits,
  and the evaluator as loops. `ShellUsage`: when evaluation succeeds.
- `ShellBind`, `ShellBindTheorems`, `ShellBindMeaning`, `ShellBinder`, `ShellAnalysis`,
  `ShellReferences`: partial evaluation of expressions and the static analysis.
  `ShellBindSuccess`, `ShellSummary`: when binding succeeds, and what exactly the
  analysis reports.
- `Mbox`, `MboxFraming`, `MboxWriter`, `MboxAppend`, `StreamQuote`, `CivilDate`:
  mailbox records, whole mailboxes, the record writer, appends that fail at any
  step, the streaming quoter, dates.
- `Base64`, `EncodedWord`, `HeaderValue`, `HeaderExtract`, `HeaderRoundTrip`,
  `HeaderAscii`: encoded-words, generated fields, extraction and round trips.
  `Utf8Codes`, `QSpelling`, `MixedText`: UTF-8 as code points, every spelling of a
  Q word, and values that mix words and plain text.
- `IngestSpec`, `Ingest`, `IngestBody`, `FoldNormalize`: reading a message.
- `Fanout`, `FanoutRun`, `RuntimeState`, `Runtime`, `Publication`: delivery to many
  sinks, runtime variables, and what is reported about a delivery.
- `RcCheck`, `RcSuccess`: checking included rc files, which assignments they see,
  and when it succeeds.
- `EarlyDecision`, `ConditionEffects`, `MatchValues`, `RecipePhases`,
  `RecipeConditions`, `RecipeAcceptance`: conditions decided from the header alone,
  what conditions answer and do to the variables, and recipes decided in two phases.

## Where the code does not do what one might expect

Each of these is stated as a lemma with the exact condition, or with a
counterexample and a condition under which the property holds.

- `${X:=w}` writes nothing when X already has a value
  (`ShellMeaning.AssignWritesDefaultOnlyWhenEmpty`).
- `${X:?w}` with X set but empty is an error when evaluated and an empty literal
  when bound (`ShellBindTheorems.RequiredParameterBinding`,
  `ShellBindMeaning.BindingPreservesMeaningExactly`).
- The analysis takes available names to be set, the others to stay unset, and a
  known name to stay as empty or not empty as it is. If any of these fails of the
  names in play, and some name in play is unset, a condition over them misses a
  variable unreported (`ShellReferences.ConditionsNeverMissExactly`).
- `${#R}` on a runtime-only name is fixed when it is bound
  (`ShellBindTheorems.StaleLength`).
- The streaming quoter and the record writer differ exactly on lines with more
  than 1024 `>` before `From ` (`StreamQuote.QuotersAgreeExactly`).
- A value whose first encoded-word does not fit on the line of the name reads
  back with one space before it (`HeaderRoundTrip.EncodedRoundTrip`).
- An ASCII value that contains `=?` or starts with a blank does not read back
  (`HeaderAscii.AsciiRoundTrip`).
- The trace date wraps around once its year needs more than 32 bits
  (`CivilDate.TraceIsExact`).
- A recipe decided in two phases need not behave as its conditions do in order
  (`RecipeConditions.PhasesAgreeExactly`, `RecipeAcceptance.AcceptanceAgreesExactly`,
  `RecipeAcceptance.ReadBeforeWritten`).
- Fold normalization is complete only because the reader ends a header at its
  first empty line (`FoldNormalize.IncompleteWithoutReader`).

## Model

| member | source | states |
|---|---|---|
| `ShellPattern.MatchesAppend` | src/config/shell_pattern.rs:41-62 | A pattern split in two matches a string exactly when the string splits into parts matched by the halves; the basis of the declarative matching relation |
| `ShellPattern.MatchesReverse` | src/config/shell_pattern.rs:64-86 | Reversed tokens match the reversed string exactly when the tokens match the string, so searching suffixes backwards is sound |
| `ShellPattern.MergeStarsKeepsMeaning` | src/config/shell_pattern.rs:204-243 | Collapsing runs of `*` changes no match |
| `ShellPattern.ParseClass` | src/config/shell_pattern.rs:245-282 | The bracket-class loops read exactly the specified class: negation, a leading `]`, escapes, ranges, and no class when it is not closed |
| `ShellPattern.Tokenize` | src/config/shell_pattern.rs:204-243 | The token loop yields the specified tokens with star runs merged |
| `ShellGlob.EveryPatternIsWritten` | src/config/shell_pattern.rs:204-282 | Every pattern text consists of elements: `*`, `?`, ordinary and escaped bytes, bracket classes of single bytes and ranges, an opening bracket that starts no class, a last backslash |
| `ShellGlob.PatternMeans` | src/config/shell_pattern.rs:204-282 | The compiled pattern matches exactly the strings that its elements stand for one after another: `*` any string, `?` any byte, a class the bytes it lists or the others, everything else itself |
| `ShellGlobLaws.SingleByteAlone` | src/config/shell_pattern.rs:217-226 | `*` alone matches every string, `?` alone every single byte, an ordinary byte itself |
| `ShellGlobLaws.WildcardBetween` | src/config/shell_pattern.rs:217-226 | Between other elements `*` takes any number of bytes and `?` exactly one |
| `ShellGlobLaws.RangeAlone` | src/config/shell_pattern.rs:245-282 | `[x-y]` matches exactly the bytes from x to y, `[!x-y]` and `[^x-y]` exactly the others |
| `ShellNfa.StepExact` | src/config/shell_pattern.rs:150-202 | After one byte, the closed state array holds exactly the states reachable by some match of the input read so far: the automaton neither loses nor invents a match |
| `ShellNfa.InitialExact` | src/config/shell_pattern.rs:150-162 | The same for the closed initial states |
| `ShellNfa.CloseStars` | src/config/shell_pattern.rs:196-202 | One pass from left to right is a complete star closure |
| `ShellNfa.Advance` | src/config/shell_pattern.rs:163-194 | One step over the two arrays keeps the states exact |
| `ShellNfa.MatchingEndpoint` | src/config/shell_pattern.rs:150-194 | The endpoint returned is the shortest or longest prefix that matches, and none exactly when no prefix matches |
| `ShellRemoval.CutIsUnique` | src/config/shell_pattern.rs:64-86 | At most one cut is the shortest (longest) matching prefix or suffix |
| `ShellRemoval.EndpointIsCut` | src/config/shell_pattern.rs:64-86 | A forward or reversed endpoint is the shortest or longest matching prefix or suffix in terms of the declarative relation |
| `ShellRemoval.Remove` | src/config/shell_pattern.rs:64-86 | Removal strips exactly that prefix or suffix, leaves the value alone when nothing matches, and fails exactly when the step estimate is over the limit |
| `ShellRemoval.CheckSteps` | src/config/shell_pattern.rs:132-148 | With saturating addition and checked multiplication of machine words, a pattern is refused exactly when the exact number of steps is over the ceiling, and the error names that number, cut off at the largest word |
| `ShellRemoval.MachineStepsAreExact` | src/config/shell_pattern.rs:139-141 | Saturation and overflow neither hide nor invent an estimate over the ceiling |
| `ShellRemoval.TransformMatchingBytes` | src/config/shell_pattern.rs:88-120 | A byte is transformed exactly when the pattern matches it as a one-byte string and it is the first, or all are wanted |
| `ShellTransforms.PrefixRemovalWrites` | src/config/shell_eval.rs:231-250 | `#` takes away the shortest start of the value that the pattern matches and `##` the longest, and nothing when no start matches; they fail only for long values and patterns |
| `ShellTransforms.SuffixRemovalWrites` | src/config/shell_eval.rs:231-250 | The same for `%` and `%%` at the end |
| `ShellTransforms.CaseChangeWrites` | src/config/shell_eval.rs:217-229 | `^^` turns exactly the small letters that match into capitals, `,,` capitals into small letters, `^` and `,` only a first one |
| `ShellTransforms.CutAfter` | src/config/shell_eval.rs:231-250 | `${X#*c}` goes on after the first c, `${X##*c}` after the last |
| `ShellTransforms.CutBefore` | src/config/shell_eval.rs:231-250 | `${X%c*}` ends before the last c, `${X%%c*}` before the first |
| `ShellTransforms.StepsAreFew` | src/config/shell_pattern.rs:132-148 | A pattern is charged at most one step for each of its bytes and each position, so short ones are never too complex |
| `ShellQuote.QuotedTokensAt` | src/config/shell_eval.rs:257-276 | A quoted value inside a larger pattern is read as literals, and the next token starts right after it |
| `ShellQuote.QuotedMatchesItself` | src/config/shell_eval.rs:257-276 | A quoted value used as a pattern matches that value and nothing else |
| `ShellEvaluator.EvaluateAt` | src/config/shell_eval.rs:65-215 | The evaluation loop computes the specified output, depth, staged assignments and errors |
| `ShellEvaluator.QuotePatternBytes` | src/config/shell_eval.rs:257-276 | The quoting loop writes the quoted form, or fails exactly when it does not fit |
| `ShellEvaluator.EvaluateSelection` | src/config/shell_eval.rs:139-204 | The default, alternate, assign and error forms select and evaluate their word as specified |
| `ShellEvaluator.EvaluateTransform` | src/config/shell_eval.rs:102-138 | Length, removal and case forms compute their pattern first, then transform the value |
| `ShellMeaning.EvalComputes` | src/config/shell_eval.rs:54-215 | Under every limit and nesting, evaluation yields the meaning of the expression without limits, its error, or a limit error |
| `ShellUsage.EvaluationSucceedsExactly` | src/config/shell_eval.rs:54-215 | Evaluation gives the meaning, value or error, exactly when the largest output on the way, the nesting of the words that run and the depths charged are within their bounds, and otherwise fails for a bound that is exceeded |
| `ShellUsage.ShallowWordsSucceed` | src/config/shell_eval.rs:65-74 | Where depth is not counted, words nested at most 32 deep never fail for depth |
| `ShellMeaning.AssignWritesDefaultOnlyWhenEmpty` | src/config/mod.rs:1019-1031 | `${X:=w}` and `${X:-w}` fail together, and otherwise write the same exactly when X is unset or empty |
| `ShellLimits.EvalFits` | src/config/shell_eval.rs:54-215 | The output fits its limit and every staged value fits the limit of the whole evaluation |
| `ShellLimits.EvalMonotone` | src/config/shell_eval.rs:54-215 | What evaluation decides under a limit, other than that it is too small, it decides identically under every larger limit |
| `ShellLimits.StagedAssign` | src/config/shell_eval.rs:168-190 | Staging keeps one bounded entry for every name |
| `ShellLimits.AssignThenRead` | src/config/shell_eval.rs:88-99 | A staged value is what later parts of the expression read |
| `ShellBind.SameNamesMeaning` | src/config/expand.rs:1990-2069 | An expression means the same under value tables that agree on the names it mentions |
| `ShellBindTheorems.BindingPreservesEvaluation` | src/config/expand.rs:1990-2123 | If binding succeeds, every successful evaluation of the original is matched byte for byte by the bound form under the same limit, whatever the runtime-only variables hold by then, at no greater depth; provided the names of the expression that binding resolves, and those that transforms read, have kept their values |
| `ShellBindSuccess.BindingSucceedsExactly` | src/config/expand.rs:1990-2069 | Binding succeeds exactly when no part that selection reaches is a command or a regex quote, every resolved name that is used has a value, every transform can be evaluated, and the words reached nest at most 32 deep; otherwise it fails for the first of these that does not hold |
| `ShellBindSuccess.TransformBindsExactly` | src/config/expand.rs:2003-2013 | A transform can be evaluated when bound exactly when it means a text, stages nothing, and keeps to LINEBUF, the value limit and the depth bounds |
| `ShellBindSuccess.OperatorIsKept` | src/config/expand.rs:2071-2123 | A runtime-only parameter keeps its operator and gets its word bound, and fails only with it |
| `ShellBindMeaning.BindingPreservesMeaning` | src/config/expand.rs:1990-2123 | Where no `:?` stands on a resolved name that is set to the empty string, bound form and original have the same meaning, errors included |
| `ShellBindMeaning.BindingPreservesMeaningExactly` | src/config/expand.rs:1990-2123 | Bound form and original have the same meaning exactly when the original does not fail for a resolved parameter that is required and empty |
| `ShellBindTheorems.RequiredParameterBinding` | src/config/expand.rs:2036-2049 | For `${X:?w}`, original and bound form succeed together exactly when X is not set to the empty string |
| `ShellBindTheorems.StaleLength` | src/config/expand.rs:1990-2069 | A length bound early is right exactly when the length has not changed |
| `ShellBinder.BindStaticExpression` | src/config/expand.rs:1990-2069 | The binding loop, which appends to a list of parts, computes the specified bound expression or error |
| `ShellBinder.BindParameterOperation` | src/config/expand.rs:2071-2123 | The operation of a runtime-only parameter is bound word by word |
| `ShellAnalysis.AnalyzeExpression` | src/config/expand.rs:1807-1978 | The accumulating loop computes the specified analysis |
| `ShellAnalysis.AnalysisPredicts` | src/config/expand.rs:1807-1978 | For a self-contained expression the reported missing reference is the one its meaning fails on, and there is none when it succeeds |
| `ShellSummary.AnalysisIsExact` | src/config/expand.rs:1807-1978 | Each flag is set exactly when a part that may run calls for it, and each reported reference is the first one that lacks a value in the order of evaluation |
| `ShellAnalysis.AnalysisIsSound` | src/config/expand.rs:1709-1729 | Evaluating a self-contained expression over the known values never meets an unsupported part, misses only the reported reference, and misses nothing when none is reported |
| `ShellAnalysis.StaticConditionIsFixed` | src/config/expand.rs:1807-1978 | An expression the analysis calls static means the same in any two deliveries that give those of its names that delivery cannot change their known values |
| `ShellReferences.PathsNeverMiss` | src/config/expand.rs:1958-1960 | A path with no reported reference and no runtime part never misses a variable over the known values, at any limit |
| `ShellReferences.ConditionsNeverMiss` | src/config/expand.rs:1954-1956 | The evaluator, at any limit and in any context, misses no variable in a condition with no reported reference when the delivery bears the analysis out for the names the condition mentions: available ones are set, the others are not, and known ones are empty exactly when they were |
| `ShellReferences.ConditionsNeverMissExactly` | src/config/expand.rs:1807-1956 | For any names in play and any delivery: no condition over them with no reported reference misses a variable exactly when the available ones are those that are set and the known ones are empty exactly when they were, or when all of them are set |
| `ShellReferences.SomeStoreStays` | src/runtime.rs:241-266 | For every analysis and any finite number of names there is a finite variable store that bears the analysis out |
| `ShellReferences.EmptiedNameMisses` | src/config/expand.rs:1832-1836 | If a known name turns out empty, `${X:-$m}` is not reported and misses `m` |
| `ShellReferences.FilledNameMisses` | src/config/expand.rs:1832-1836 | If a known empty name turns out filled, `${X:+$m}` is not reported and misses `m` |
| `ShellReferences.SurpriseNameMisses` | src/config/expand.rs:1832-1836 | If a name that is not available is set, `${X+$m}` is not reported and misses `m` |
| `ShellReferences.UnsetNameMisses` | src/config/expand.rs:1175-1200 | If an available name is unset at delivery, `$X` is not reported and misses X |
| `Mbox.QuoteLineRoundTrip` | src/delivery/mbox.rs:356-401 | Quoting a line and removing one `>` from every `>+From ` line gives the line back, and no quoted line starts a message |
| `Mbox.QuoteTextAppendLF` | src/delivery/mbox.rs:344-418 | Adding the separator after quoting is the same as quoting the text with it |
| `Mbox.TrailerIsLeast` | src/delivery/mbox.rs:403-417 | The fewest LFs are added with which the message ends in an empty line, or, when endings are preserved, in a whole line |
| `MboxWriter.EndsWithIsSuffix` | src/message.rs:41-48 | Comparing from the back across two pieces decides whether the joined message has the suffix |
| `MboxWriter.NextLine` | src/delivery/mbox.rs:356-401 | Cutting a line off a message in two pieces cuts the first line of the joined message |
| `MboxWriter.WriteRecord` | src/delivery/mbox.rs:344-418 | Wherever the message is cut in two, the writer receives the same record, or exactly the part of it that it had room for |
| `MboxFraming.HistoryLines` | src/delivery/mbox.rs:344-418 | The lines of a whole history of records make up the mailbox and read back as its entries |
| `MboxFraming.MailboxReadsBack` | src/delivery/mbox.rs:344-418 | After any history of appends, in either ending mode, reading the mailbox gives back exactly the postmarks and the messages in order, each with at most two LFs after it |
| `MboxFraming.TrailerEndsLine` | src/delivery/mbox.rs:403-417 | Every record ends a line, with at most two LFs added |
| `MboxAppend.Rollback` | src/delivery/mbox.rs:436-449 | The file is cut back to its old length when truncation succeeds, and success needs truncation, seek and sync |
| `MboxAppend.Append` | src/delivery/mbox.rs:214-280 | Success and published errors leave the old content plus one full record, other errors without a rollback failure leave the old content, a rollback failure is Internal; the outcome names the first step that fails and whether the file could be cut back |
| `MboxAppend.IntactAfter` | src/delivery/mbox.rs:214-311 | Every attempt without a rollback failure keeps the mailbox a concatenation of whole records |
| `MboxAppend.RunAttempts` | src/delivery/mbox.rs:214-311 | After any run of attempts without a rollback failure, on a mailbox of whole records, the mailbox reads back as the messages that were there followed by exactly the visible deliveries |
| `StreamQuote.StreamBody` | src/bin/formail-rs.rs:356-452 | For every chunking, the output is each line with the prefix exactly when it is at most 1024 `>` and `From ` |
| `StreamQuote.QuotersAgreeExactly` | src/bin/formail-rs.rs:368-451 | With the prefix `>`, streaming and record quoting agree exactly when no such line has more than 1024 `>` |
| `CivilDate.CivilIsExact` | src/delivery/mbox.rs:451-467 | Every day number in range becomes a valid Gregorian date whose day count is that number |
| `CivilDate.EpochDate` | src/delivery/mbox.rs:451-467 | Day 0 is 1 January 1970 |
| `CivilDate.CivilFollowsCalendar` | src/delivery/mbox.rs:451-467 | Consecutive days are consecutive dates of the calendar |
| `CivilDate.DayNumberInjective` | src/delivery/mbox.rs:451-467 | Two valid dates with the same day count are the same date |
| `CivilDate.WideTraceIsExact` | src/trace.rs:208-223 | Before the year is cut to 32 bits, the separately written conversion is exact on all integers |
| `CivilDate.TraceIsExact` | src/trace.rs:208-225 | The trace date is right exactly for the days whose year fits in 32 bits, given as a range of days |
| `CivilDate.ConversionsAgree` | src/trace.rs:208-225 | Both conversions give the same date exactly up to the last of those days |
| `Base64.RoundTrip` | src/header_value.rs:377-395 | Decoding the encoding of any byte string gives it back |
| `Base64.BlockIsNumber` | src/header_value.rs:377-395 | Four letters and three bytes are the same number, to base 64 in the order `A` to `Z`, `a` to `z`, `0` to `9`, `+`, `/`, and to base 256 (section 4 of RFC 4648) |
| `Base64.DecodeIsCanonical` | src/header_value.rs:133-170 | Only encodings decode: padding and unused bits are checked |
| `Base64.AppendBase64` | src/header_value.rs:377-395 | The chunk loop appends the encoding |
| `Base64.DecodeBase64` | src/header_value.rs:133-170 | The block loop decodes, or fails, as specified |
| `Utf8.SplitText` | src/header_value.rs:337-341 | Cutting text at a character boundary leaves text on both sides |
| `Utf8Codes.Utf8IsExactlyEncodings` | src/header_value.rs:225-229 | Well-formed UTF-8 is exactly what encodes a sequence of code points other than surrogates (section 3 of RFC 3629) |
| `Utf8Codes.TextIsExactlyEncodings` | src/header_value.rs:247-259 | Text is exactly what encodes code points none of which is a control other than TAB |
| `Utf8Codes.Latin1Encodes` | src/header_value.rs:236-242 | ISO-8859-1 bytes are transcoded to the code points with their numbers |
| `EncodedWord.QRoundTrip` | src/header_value.rs:183-214 | The `=XX` form of every byte string decodes to it |
| `QSpelling.DecodesExactlySpellings` | src/header_value.rs:183-223 | A text decodes to some bytes exactly when it spells each of them as `=XX` in either hexadecimal case, as itself when printable and neither `=` nor `_`, or as `_` for a space |
| `QSpelling.QWordIsRead` | src/header_value.rs:95-131 | A Q word of at most 75 bytes, in any spelling and with charset and encoding in any letter case, is read up to its end and gives its bytes in its charset |
| `QSpelling.WordTextIsRead` | src/header_value.rs:112-131 | The parts of a word give a text exactly when none is empty, the text holds no `?`, the encoding is B or Q and undoes it, and the bytes are text in a known charset |
| `EncodedWord.DecodeQ` | src/header_value.rs:183-214 | The Q loop decodes, or fails, as specified |
| `EncodedWord.Latin1IsUtf8` | src/header_value.rs:236-243 | Every Latin-1 text transcodes to well-formed UTF-8 |
| `EncodedWord.DecodeWord` | src/header_value.rs:95-131 | A word is found, bounded to 75 bytes, split, decoded and transcoded as specified, with the program's errors |
| `EncodedWord.DecodePiece` | src/header_value.rs:68-87 | One round of the decoding loop: a word, elided blanks between words, or plain text up to the next word |
| `EncodedWord.DecodePieces` | src/header_value.rs:59-89 | However pieces are read, the loop joins them, keeps the limit and stops at the first error |
| `MixedText.MixedTextDecodes` | src/header_value.rs:59-89 | Words and plain text in any order decode to the values of the words and the text between, except that blanks between two words count for nothing; too long exactly over the limit |
| `MixedText.WordIsSegment` | src/header_value.rs:95-131 | Every delimited word of at most 75 bytes that gives a text is such a word, whatever follows it |
| `EncodedWord.DecodedValueIsText` | src/header_value.rs:247-259 | Whatever the input, a decoded value is well-formed text without control characters and within the limit |
| `HeaderValue.CanonicalKeepsName` | src/header_value.rs:397-407 | A canonical name differs from the name in letter case only |
| `HeaderValue.CanonicalLetters` | src/header_value.rs:397-407 | The first letter and every letter after a hyphen become capitals, all others small |
| `HeaderValue.ChunksJoin` | src/header_value.rs:333-341 | Chunks are whole characters, never over 45 bytes, and joined are the value |
| `HeaderValue.ValidateGenerated` | src/header_value.rs:261-288 | A value is refused exactly when it holds a control character other than TAB, encoded exactly when it is not ASCII, and too long exactly over 998 bytes |
| `HeaderValue.SerializeRfc2047` | src/header_value.rs:320-367 | The chunking and folding loop writes the specified field |
| `HeaderValue.SerializeGenerated` | src/header_value.rs:290-318 | Every well-formed value is refused or serialized as specified |
| `HeaderExtract.UnfoldValue` | src/header_edit.rs:404-428 | The unfolding loop joins the contents of the lines with one space, and fails exactly when the result is over the limit |
| `HeaderExtract.ExtractDecoded` | src/header_edit.rs:384-402 | Extraction is unfolding, then decoding |
| `HeaderExtract.ValueOfField` | src/header_edit/storage.rs:972-982 | The value of a generated field is what was written after its colon |
| `HeaderExtract.FieldWithoutColon` | src/header_edit/storage.rs:972-982 | A field whose first line has no colon has no value |
| `HeaderRoundTrip.EncodedRoundTrip` | src/header_value.rs:320-367 | Extracting a generated field gives back the value, after one space exactly when the first word was folded, or reports the unfolded words as too long exactly when they are |
| `HeaderRoundTrip.ShortValuesFit` | src/header_edit.rs:404-428 | No value of up to 37000 bytes is too long to read back |
| `HeaderRoundTrip.EncodedFieldLines` | src/header_value.rs:320-367 | The physical lines of a generated field, one by one |
| `HeaderRoundTrip.EncodedLinesAreShort` | src/header_value.rs:320-367 | Every encoded-word has at most 75 bytes and every line holding one at most 76 (section 2 of RFC 2047) |
| `HeaderAscii.AsciiRoundTrip` | src/header_value.rs:301-318 | An ASCII value reads back as written exactly when it starts with no blank and holds no `=?` |
| `HeaderAscii.DecodedShrinks` | src/header_value.rs:59-89 | Decoding to ASCII never lengthens a value and shortens it when `=?` occurs |
| `IngestSpec.HeaderIsShortest` | src/message.rs:196-235 | The header is the shortest prefix through an empty line, else the whole input |
| `IngestSpec.HeaderFitsMeans` | src/message.rs:196-235 | Checking line by line accepts exactly the headers whose every line, every field and whole size keep their limits |
| `IngestSpec.AcceptsMeans` | src/message.rs:493-577 | A message is accepted exactly when all five limits hold of it |
| `Ingest.ReadHeaderLine` | src/message.rs:493-539 | For every chunking, a line is read exactly when it keeps three limits, and an error names a limit the whole line exceeds |
| `Ingest.ReadHeaders` | src/message.rs:196-235 | For every chunking, the header read is that prefix; success and failure depend only on the joined input; an error names a limit the input exceeds |
| `IngestBody.ReadBody` | src/message.rs:541-577 | In all three modes the body is accepted exactly within its limits, retained and written in full |
| `IngestBody.ReadMessage` | src/message.rs:189-194 | The message is retained exactly when the input is accepted, and is the input |
| `IngestBody.TeeMessage` | src/message.rs:331-356 | Retained and copied: accepts the same inputs when the writer takes them, and writes the input |
| `IngestBody.StreamMessage` | src/message.rs:358-381 | Only copied: accepts the same inputs, writes the same bytes, reports their number |
| `FoldNormalize.NormalizeFolded` | src/message.rs:388-412 | The copying loop replaces each folding LF, with the CR before it, by one space, and returns nothing exactly when there is no fold |
| `FoldNormalize.FoldBetween` | src/message.rs:388-412 | Nothing changes before the first fold, whose line ending becomes one space, and what follows is treated alike |
| `FoldNormalize.NoFoldsNormal` | src/message.rs:388-412 | A header without folds is left alone |
| `FoldNormalize.NormalSize` | src/message.rs:388-412 | The result is never longer |
| `FoldNormalize.FoldsLeft` | src/message.rs:388-412 | A fold is left exactly where an empty line came before a continuation |
| `FoldNormalize.NormalizedIsComplete` | src/message.rs:196-235 | On every header the reader returns no fold is left, so normalizing again finds nothing |
| `FoldNormalize.IncompleteWithoutReader` | src/message.rs:388-412 | A header with an empty line inside keeps a fold |
| `Fanout.EachEndsOnce` | src/delivery.rs:374-382 | Aborting, dropping or committing ends each sink exactly once |
| `Fanout.PendingFanout.WriteAll` | src/delivery.rs:416-428 | A write reaches the sinks in order up to the first that fails, whose index is kept |
| `Fanout.PendingFanout.AbortAll` | src/delivery.rs:374-382 | Every sink is aborted, last first, and failures are counted |
| `FanoutRun.Receive` | src/delivery.rs:295-371 | A validated fan-out results exactly when the message was complete and every sink and the staging writer took all of it; then all hold the same message; otherwise every sink is aborted |
| `FanoutRun.ValidatedFanout.AppendBytes` | src/delivery.rs:459-491 | The new sinks join with the whole message exactly when the count and every write allow it; otherwise every sink of both fan-outs is aborted |
| `FanoutRun.ValidatedFanout.Commit` | src/delivery.rs:493-521 | Sinks up to the first refusal are committed, the rest aborted; the report is that prefix and the failing sink exactly when it became visible |
| `FanoutRun.ReportIsWhatIsVisible` | src/delivery.rs:493-521 | The report names exactly the folders in which something became visible, in order |
| `FanoutRun.Deliver` | src/delivery.rs:273-538 | Over every run, each sink is committed, aborted or dropped exactly once, and none is committed unless all hold the same complete message |
| `RuntimeState.ParseDecimal` | src/runtime.rs:301-327 | A number is read back from its digits, with a plus sign or without |
| `RuntimeState.AssignmentIsRead` | src/runtime.rs:220-266 | An assigned name reads back, bytes that are not UTF-8 to byte lookup only, a removed one not at all; `-` reads LASTFOLDER, and `$`, `?` and `_` are never assigned |
| `RuntimeState.UnassignedReads` | src/runtime.rs:220-266 | Where nothing is assigned `#` is 0, and the arguments 1 to 256 are empty |
| `RuntimeState.ShiftedArgument` | src/runtime.rs:301-327 | Which argument each number names after a shift |
| `RuntimeState.TwoShifts` | src/runtime.rs:301-327 | Two shifts are one by their sum exactly when the arguments beyond 256 that the second one reaches agree |
| `RuntimeState.TwoShiftsWithinLimit` | src/runtime.rs:301-327 | With at most 256 arguments, which the program starts with and keeps to, they always are, and the count stays within 256 |
| `RuntimeState.ShiftsBeyondLimit` | src/runtime.rs:301-327 | The limit is needed: the shift alone would not compose with 258 arguments, a number the program refuses (src/config/arguments.rs:23) |
| `Runtime.RuntimeVariables.Fork` | src/runtime.rs:112-129 | Both branches see what was seen before |
| `Runtime.RuntimeVariables.Find` | src/runtime.rs:401-413 | Walking down the layers finds what the flat map holds |
| `Runtime.RuntimeVariables.Get` | src/runtime.rs:220-266 | Text and byte lookup agree with the flat map, special names and defaults included |
| `Runtime.RuntimeVariables.VisibleValues` | src/runtime.rs:415-428 | The merged map is the flat map |
| `Runtime.RuntimeVariables.ShiftPositionals` | src/runtime.rs:301-327 | Shifting in place is the specified shift of the flat map |
| `Runtime.RunHistory` | src/runtime.rs:112-155 | Any history of assignments, removals, shifts and forks over any tree of branches leaves every branch as a private flat map would be |
| `Runtime.BranchesAreSeparate` | src/runtime.rs:112-129 | Operations on other branches never reach a branch |
| `Publication.ApplyPublication` | src/delivery_runtime/publication.rs:106-165 | A step may be handled exactly when nothing became visible and the failed destination is known; success counts the visible folders and sets LASTFOLDER to the last; published destinations, LASTFOLDER and a known failed destination are recorded in order |
| `Publication.CommitDelivery` | src/delivery_runtime/publication.rs:184-215 | From commit to report: a handleable step made nothing visible; a success published every sink, recorded each one, and set LASTFOLDER to the last visible folder |
| `RcCheck.Check` | src/rc_file.rs:291-387 | Checking ends on every file system, with at most 32 files and 4 MiB read and at most 128 warnings kept |
| `RcCheck.Load` | src/rc_file.rs:114-177 | A file is loaded only within depth 16, counts as one file, and stays within the byte budget |
| `RcSuccess.CheckSucceedsExactly` | src/rc_file.rs:291-387 | Checking succeeds exactly when what the statements lead to comes to an end, all its files can be read and parsed, and their number, sizes and nesting are within the limits; it then ends in the state of that run |
| `RcCheck.EffectsAre` | src/rc_file.rs:300-309 | An assignment stores a value that is known, and leaves its name without one when it is unset or not known before delivery |
| `RcCheck.ChecksEndInScope` | src/rc_file.rs:291-387 | Every successful check, of any mixture of statements, ends in the state made by the assignments visible in its scope carried out one after another: its own, and those of included files in their place; none of a block, none after a switch that is taken |
| `RcCheck.OnlyVisibleAssignmentsShow` | src/rc_file.rs:363-384 | A name that no visible assignment names keeps its value |
| `RcCheck.BlocksDoNotReachOut` | src/rc_file.rs:374-384 | Replacing what blocks hold by anything else does not change the state a successful check ends in |
| `RcCheck.ClosedStatementsKeepState` | src/rc_file.rs:363-384 | Blocks, switches and other recipes alone change nothing |
| `RcCheck.CyclesAreRefused` | src/rc_file.rs:114-127 | Files that include or switch to one another in a circle of any length, at the top level or inside blocks, with no switch before, are never accepted, whatever else they do |
| `RcCheck.RcFileLoader.LoadConfig` | src/rc_file.rs:114-228 | The loader's counters follow the specification, on failures too |
| `RcCheck.RcFileLoader.CheckStatements` | src/rc_file.rs:291-387 | The recursive loop follows the specification |
| `RecipePhases.MatchHeaders` | src/eval/header.rs:705-732 | The header loop goes on past a condition that waits, ends at the first that fails, and leaves the specified verdict, answers and variables |
| `RecipePhases.MatchResumed` | src/eval/header.rs:734-761 | The resuming loop asks only what has no answer yet |
| `RecipePhases.MatchComplete` | src/eval.rs:186-205 | The loop over the whole message asks in order until one fails |
| `RecipePhases.QuietSwapsAreFree` | src/eval/header.rs:705-761 | Header phase and resumption give the answer, the variables and the error of in-order evaluation when whatever moves forward neither fails nor writes, and whatever it moves past neither fails nor reads nor writes |
| `RecipePhases.CommutingSwapsAccept` | src/eval/header.rs:705-761 | They accept the same messages with the same variables when what changes places commutes |
| `RecipeConditions.PhasesAgreeExactly` | src/eval/header.rs:705-761 | For all conditions of given kinds that reach the header phase, header phase and resumption agree with in-order evaluation on every message and all variables within the value limit exactly when no condition the header may decide follows one that may wait, unless the first is silent and the second neither fails nor writes |
| `RecipeConditions.ClashesDiffer` | src/eval/header.rs:705-761 | Wherever in a list two conditions clash in this sense, some conditions of these kinds tell the two ways apart on a message, with variables the program can hold |
| `RecipeAcceptance.IndependentPhasesAccept` | src/eval/header.rs:705-761 | A recipe accepts the same messages with the same variables either way when no later decided condition reads or writes what an earlier waiting one writes |
| `RecipeAcceptance.DependentPairsDiffer` | src/eval/header.rs:705-761 | Wherever in a list without program conditions two are not independent in this sense, some conditions of these kinds are not accepted alike on a message, with variables the program can hold |
| `RecipeAcceptance.AcceptanceAgreesExactly` | src/eval/header.rs:705-761 | Given the kinds of the conditions of a list without program conditions, which of them capture and which read a MATCH name, both ways accept the same messages with the same variables exactly when no two are dependent |
| `RecipeAcceptance.ReadBeforeWritten` | src/eval/header.rs:705-761 | A body condition that captures MATCH1 and a later one that reads it are accepted in order and rejected in two phases |
| `EarlyDecision.SizesAreDecidedAtOnce` | src/eval/condition.rs:523-536 | Size conditions are decided from the header exactly when no body could change the answer |
| `EarlyDecision.NoMatchIsLeft` | src/eval/condition.rs:763-823 | A failed or negated match leaves no MATCH value |
| `MatchValues.MatchedValuesAre` | src/eval/condition.rs:763-810 | After a match that is not negated MATCH holds the input from the last marker that took part to the end of the match, or keeps its value when none did; MATCHk holds the k-th capture, empty when it took no part, and names beyond the captures hold nothing |
| `MatchValues.MatchIsStoredExactly` | src/eval/condition.rs:783-821 | A match is stored exactly when all that is stored is UTF-8 and at most 64 KiB together |
| `MatchValues.AnswersAre` | src/eval/condition.rs:541-640 | Each kind of condition answers whether its expression is found in the header, the body, both, a variable or an item, or how the sizes compare; negated, the opposite |
| `MatchValues.AnswersExist` | src/eval/condition.rs:541-640 | Without captures only a malformed item before any match, a variable over the limit, unreadable parts and a program give no answer |
| `MatchValues.StoredIsRead` | src/eval/condition.rs:728-748 | Each value a multipart condition stores is read back, unless a later one has its name |
| `ConditionEffects.WritesElsewhere` | src/eval/condition.rs:763-823 | Whatever the condition, evaluating it changes no variable other than MATCH and its numbered forms |
| `ConditionEffects.StaysBounded` | src/eval/condition.rs:763-823 | Whatever the condition, values within the limit stay within it |

## Left out

- Machine integers: sizes, counts and depths are unbounded except where the program's own arithmetic matters (the pattern step estimate, the range and the year of the date conversions, the parsed argument count); overflow errors of sizes cannot arise here, and the trace conversion's 64-bit sum is taken not to overflow.
- Variable lookups and commands in shell evaluation are functions of their arguments: a command that answers differently when run twice with the same text is not modelled.
- Transforms are evaluated when they are bound: the binding theorems ask that the names they read, runtime-only ones included, have kept their values, and `ShellBindTheorems.StaleLength` shows what happens otherwise.
- Parsing of rc files and expressions, recipe flags, diagnostics: expressions and statements are given parsed.
- Regular expressions: an arbitrary function from bytes to capture groups. What the parts of a multipart message yield is an arbitrary function of the message, and the condition that a shell-expanded one turns into, which is then evaluated like any other, an arbitrary function of the variables.
- Which recipes reach the header phase: plans with shell-expanded or program conditions skip it altogether (src/eval/condition.rs:256-341, src/eval/header.rs:178), which `RecipeConditions.PhasesAgreeExactly` respects and the lemmas of `RecipeAcceptance`, which allow shell-expanded conditions, do not need; and gates, actions and nested blocks around the conditions of one recipe are not modelled.
- Structured address, identifier and keyword fields are an arbitrary function from a header to a list of items.
- File descriptors, locks, memory maps, directory syncs, Maildir naming and child processes: every call succeeds or fails as a parameter says.
- A writer that fails is one that takes a given number of bytes and no more; flushing is not modelled.
- Error texts, operating-system error kinds and source locations of errors.
- `PublicationTracker` and the delivery drivers: settled by reading one branch.
- EncodedWord.DecodePieces: the loop takes the reader of pieces as a parameter; the reader the program uses is EncodedWord.PieceAt, which EncodedWord.DecodePiece computes.
- HeaderRoundTrip.EncodedRoundTrip: names hold no colon and no LF, as every header field name does.
- IngestBody.ReadBody: a call that neither retains nor writes the body, which the program never makes, is excluded.
