# Verified text algorithms of casqt

casqt is the trimmed Qt core that this WinCE port of WebKit builds on. This project models its four algorithmic text
components in Dafny and proves what they compute:

- **Punycode** (`qurl.cpp`): the encoder of RFC 3492 with its 32-bit arithmetic and overflow exits, against the
  decoder of section 6.2 of the same RFC.
- **Unicode normalization** (`qchar.cpp`, called from `qstring.cpp`): the three in-place loops that decompose, order
  and compose a string, against recursive decomposition, stable ordering of combining marks and the composition
  algorithm of section 3.11 of the Unicode Standard; when they undo one another, and the corrections made before them.
- **String search** (`qstringmatcher.cpp`): the Boyer-Moore style loop and the matcher class that caches its skip
  table, against "the least index at which the pattern occurs".
- **UTF-8 and UTF-16 converters** (`qutfcodec.cpp`): encoders and decoders that carry partial characters from call to
  call, against section 3 of RFC 3629 and against a single call on all the data.

## How it is built

A string is a `seq<Unit>` of 16-bit units; `Unit`, `Byte` and `Uint32` are subset types, so that every value the
source keeps in such a variable is proved to fit. Loops stay loops with the source's variables and exits, sometimes
with one turn as a method of its own; each is tied by its `ensures` to a function or predicate that has no loop, and
the main results are lemmas about those. `QStringMatcher` and `ConverterState` are classes whose methods change their
fields.

| file | contents |
|---|---|
| `Units.dfy`, `Utf16Text.dfy`, `Arithmetic.dfy` | units and surrogates, code points of UTF-16 text, division facts |
| `Punycode.dfy`, `PunycodeSpelling.dfy` | the decoder of RFC 3492; what an encoder has to write, step by step |
| `PunycodeEncoder.dfy`, `PunycodeSamples.dfy` | the encoder; labels and what they become |
| `StringMatcher.dfy`, `CaseFolding.dfy`, `QString.dfy` | skip table, search, matcher class; what ignoring case compares; editing of strings |
| `UnicodeTables.dfy` | property tables as functions, Hangul arithmetic, the table lookups |
| `Decompose.dfy`, `DecomposeLoop.dfy` | recursive decomposition and what the loop writes; the loop |
| `DecompositionLoss.dfy`, `LoopResult.dfy` | when the loop decomposes recursively; what holds of its result even then when it does not |
| `CanonicalOrder.dfy`, `CanonicalOrderLoop.dfy` | canonical reordering of code points; the loop |
| `Compose.dfy` | the composing loop |
| `Soundness.dfy`, `HangulText.dfy` | what is asked of the tables; syllables and jamo |
| `Recomposition.dfy`, `CompositionLoss.dfy`, `TailLoss.dfy` | ligatures taken apart again; strays and newer characters; lost tails |
| `Normalize.dfy`, `FormStability.dfy` | the forms with recursive decomposition, and when they undo one another |
| `Corrections.dfy`, `NormalizationCall.dfy` | corrections for older versions; the whole call |
| `MappingsUsed.dfy`, `PrecomposedText.dfy` | which mappings are made; which ligatures are made, and which come back |
| `CallRoundTrip.dfy`, `CallUndone.dfy`, `CallExamples.dfy` | normalizing twice; when the call undoes composition; texts at which it fails |
| `Converter.dfy`, `Utf8.dfy`, `Utf8Codec.dfy`, `Utf8RoundTrip.dfy`, `Utf8Calls.dfy` | converter state; UTF-8 |
| `Utf8Malformed.dfy` | the form of RFC 3629; ill-formed text and bytes that are not UTF-8 |
| `Utf16Codec.dfy`, `Utf16Reading.dfy` | UTF-16; what a fresh decoder reads |

The generated Unicode tables are function-valued fields of `UnicodeData`. What a result needs of them is a
precondition that is stated once and named: `WellFounded` (following replacements never returns to the same code
point), `Tidy` (no replacement begins with a low surrogate), `WellFormed` (replacements have no unpaired surrogates),
`NoneEmpty` (nor are they empty), `SurrogatesAreStarters` and `SurrogatesArePlain` (unpaired surrogates have class 0
and no mapping), `ComposingTables` (surrogates and supplementary marks are in no ligature, whatever their lower 16
bits are; a ligature and the first of its parts are starters), `PairsDecompose` (a table ligature is decomposed to the
two units that combine to it) and `SoundHangul` (jamo and syllables are starters, jamo do not decompose, all syllables
came with one version, no table ligature ends in a leading consonant). `Sound` is all of these; it says nothing about
versions, so that results which need no more hold for every version, the `Unicode_3_2` of `qurl.cpp` included.
`KnowsParts` (a version that knows a table ligature knows its parts) holds of the repository's tables for every
version from 3.0 on. `PairsAreReached` (no table ligature ends behind U+30FF or is one of two jamo) and `PartsCompose`
(the second part of a table ligature is not canonically decomposed, the first only if it is a table ligature) hold of
them in every version. `FoldsScalars` and `AllKeepHalf` (case folding stays within scalar values and the high half of
a pair) hold of the case-folding column.

`FormD` and `FormC` are the decomposed and the composed form with recursive decomposition in the place of the
decomposing loop, and the ordering and composing loops as they are. `CallD` and `CallC` are what all three loops
leave: what the source computes.

## What came out differently from the documentation

- **Decomposition loses text.** `QString::replace(pos, len, unicode, size)` does not look at `len`: it removes `size`
  units (qstring.cpp:177-181). So a replacement that is longer than its code point goes over what stands behind it,
  and a pair that one unit replaces leaves its low surrogate behind. `DecompositionLoss.LossExample` and
  `LeftoverExample` show it, and `CallExamples.HangulIsLost` what it costs Hangul: U+AC00 U+AC00 becomes U+1100 U+1161
  U+1161. `DecompositionLoss.LoopDecomposesExactly` says exactly which texts are decomposed as they should be.
- **Normalizing twice is not normalizing once.** U+0041 U+0301 U+0062 is composed to U+00C1 U+0062, and that, composed
  again, to U+00C1 (`CallExamples.TwiceExample`). `CallRoundTrip.CallCStaysExactly` says which texts are left alone.
  Decomposing twice, on the other hand, is always decomposing once (`NormalizationCall.CallDStays`).
- **Composition is hardly ever undone.** Decomposing what the composing loop returns gives back a decomposed and
  ordered text only if nothing in it combines but the last two code points, or the jamo of a last syllable, and to
  something that the version knows (`CallUndone.CallUndoesCompositionExactly`).
- **It would not always be undone if decomposition were recursive**, as it is meant, either, for three reasons and for
  no other (`Normalize.CompositionUndoneByOrderingExactly`). `ligatureHelper` accepts U+11A7 and U+11C3 as trailing
  consonants, so that an open syllable followed by either is not restored (`HangulText.StrayExample`). A mark that
  combined past a supplementary mark at the end of the text stays in front of it, as in U+0061 U+1D165 U+0301
  (`Normalize.TailExample`). And `composeHelper` takes no version: with `Unicode_3_2`, U+1B05 U+1B35 are composed to
  U+1B06, which that version does not decompose (`CallExamples.NewerExample`). But then composed forms would be
  stable, as long as nothing newer combines (`FormStability.FormsAreStable`).
- **A mark may be cut in half**: in the code itself U+0061 U+1D165 U+0301 does not come back with its marks exchanged,
  but as U+0061 U+0301 U+DD65 (`CallExamples.HalfExample`).
- **The last code point may escape ordering**, and so a tail is lost: when it, or the one in front of it, is a
  surrogate pair, `canonicalOrderHelper` does not compare the two. `CanonicalOrderLoop.LoopOrdersExactly` says when
  that shows.
- **Not every ligature comes back in forms KD and KC**, even with recursive decomposition: U+1E9B does not, because
  its first part, U+017F, has a compatibility mapping (`PrecomposedText.LongSExample`).
  `PrecomposedText.ComesBackExactly` says which do; in forms D and C all do (`LigaturesComeBack`).
- **Corrections for older versions work only from one supplementary code point to another**, because both are always
  written as two surrogates (`Corrections.CorrectsExactly`). Of the six entries only that of U+2F868 works: U+F951
  stays, and U+2F874, for one, becomes U+D7D7 U+DF33 (`Corrections.CorrectionsWorkExactly` and `CorrectionExample`).
- **Ligature lookup cuts code points to 16 bits.** `composeHelper` passes a 32-bit code point to a 16-bit parameter,
  and a pair that combines would lose only its low surrogate. `Compose.ComposeHelper` models both.
- **The UTF-8 encoder never writes its replacement byte**: the byte is stored but the cursor does not move. The unit
  after an unpaired high surrogate is dropped with it, whatever it is.
- **The UTF-8 encoder is not RFC 3629 for U+10FE01..U+10FEFF**, which it writes as one raw byte, and the decoder
  replaces U+FFFE and U+FFFF; `Utf8RoundTrip.RoundTripExactly` says exactly which strings survive.
- **The UTF-8 encoder may write one byte more than three for each unit**, when it completes a surrogate that it
  carried; `Utf8RoundTrip.EncoderBounded` says exactly when.
- **The UTF-8 decoder skips a byte-order mark at the head of any call until it has skipped one, and only when more
  than three bytes arrive together.** The header of the empty string comes back as U+FEFF
  (`Utf8Calls.EmptyStringExample`), and a mark inside the data is skipped or not as the data is cut
  (`Utf8Calls.MarkExample`). `Utf8Calls.CutExactly` and `Utf8Calls.FreshRoundTripExactly` give the exact conditions.
- **A UTF-16 decoder with a fixed byte order keeps a byte-order mark that a cut separates from the start**;
  `Utf16Codec.FixedSplitExactly` gives the exact condition.
- **The Punycode encoder takes surrogates one by one**, so that the decoder returns the label's code points exactly
  when it has no surrogate pair (`PunycodeEncoder.ToPunycode`).
- **The second overflow exit of `toPunycode` is dead**: `delta` never wraps to 0. The proof of `Visit` shows it.
- **Without a header, a string that begins with U+FEFF or U+FFFE does not come back from a detecting UTF-16 decoder
  that expects one**; all others do, in the host's order (`Utf16Reading.HeadlessExactly`).
- **A search that ignores case does not find U+0451 for U+0401**, nor do thirteen other Cyrillic letters find their
  capitals: U+0451 shares a table record with U+03F1, and so folds to U+0421 (`CaseFolding.SharedRecordExample`).
- **An empty matcher does match**, at every start position inside the string, although its documentation says that it
  matches nothing (`StringMatcher.EmptyNeedle`).

## Model

Source paths begin with `wincewebkit/3rdparty/casqt/`. What `qstring.cpp` does is described by its lines in the third
column; the second names its declarations.

| member | source | states |
|---|---|---|
| `PunycodeEncoder.ToPunycode` | wincewebkit/3rdparty/casqt/qurl.cpp:2103-2179 | All-ASCII labels come back unchanged. Any other label comes back empty exactly when it overflows, and otherwise as "xn--" plus text that the RFC 3492 decoder turns back into the label, unit by unit; those are its code points exactly when it has no surrogate pair. The bytes are those that the simple procedure writes, which steps through all code points and positions one by one |
| `PunycodeEncoder.ShortInputsFit` | wincewebkit/3rdparty/casqt/qurl.cpp:2147-2161 | For labels of at most 32766 units the distance never exceeds 65536*(L+1) < 2^31, so nothing overflows |
| `PunycodeEncoder.Sweep` | wincewebkit/3rdparty/casqt/qurl.cpp:2136-2173 | The outer loop succeeds exactly when no distance overflows; its digits are then those of the simple procedure, and the decoder run over them yields the whole input |
| `PunycodeEncoder.Round` | wincewebkit/3rdparty/casqt/qurl.cpp:2136-2173 | One round keeps the encoder in step with the decoder (n, delta, bias, h), raises h, or stops because the input overflows |
| `PunycodeEncoder.PassAndStep` | wincewebkit/3rdparty/casqt/qurl.cpp:2152-2172 | The pass for the value found and the two increments behind it lead to the head of the next round |
| `PunycodeEncoder.Pass` | wincewebkit/3rdparty/casqt/qurl.cpp:2154-2169 | One pass emits an integer for every unit equal to n and ends with the decoder in step; delta is then the number of smaller units after the last n |
| `PunycodeEncoder.Visit` | wincewebkit/3rdparty/casqt/qurl.cpp:2154-2169 | The effect of one input unit on output, delta, bias and h, with the decoder kept in step; delta cannot wrap |
| `PunycodeEncoder.InStepEmit` | wincewebkit/3rdparty/casqt/qurl.cpp:2166-2168 | Emitting delta is one decoder insertion of n at its place between what was held before and after |
| `PunycodeEncoder.InStepSkip` | wincewebkit/3rdparty/casqt/qurl.cpp:2158-2162 | Passing a smaller unit moves the decoder's position by one, passing a larger one not at all |
| `PunycodeEncoder.InStepRaise` | wincewebkit/3rdparty/casqt/qurl.cpp:2146-2151 | Raising n to the next value costs (m - n) * (h + 1) decoder steps |
| `PunycodeEncoder.InStepWrap` | wincewebkit/3rdparty/casqt/qurl.cpp:2171-2172 | The end of a pass for n is the decoder's position 0 at n + 1, and the pass has raised h |
| `PunycodeEncoder.Advance` | wincewebkit/3rdparty/casqt/qurl.cpp:2146-2151 | The division-based overflow check succeeds exactly when the distance fits 31 bits, and no product in it wraps |
| `PunycodeEncoder.LeastFrom` | wincewebkit/3rdparty/casqt/qurl.cpp:2139-2144 | Finds the least unit not below n |
| `PunycodeEncoder.CopyBasic` | wincewebkit/3rdparty/casqt/qurl.cpp:2115-2120 | Copies exactly the units below 0x80, in order |
| `PunycodeEncoder.AppendEncode` | wincewebkit/3rdparty/casqt/qurl.cpp:2071-2093 | Appends the digits of delta, adapts the bias with the damping of the first insertion, resets delta and counts |
| `PunycodeEncoder.AppendDigits` | wincewebkit/3rdparty/casqt/qurl.cpp:2071-2089 | The digit loop ends, no variable leaves 32 bits, and it writes the variable-length form of delta |
| `PunycodeEncoder.AdaptBias` | wincewebkit/3rdparty/casqt/qurl.cpp:2054-2064 | In 32-bit arithmetic, bias adaptation agrees with section 6.1 of RFC 3492 over unbounded integers |
| `Punycode.AdaptExactly` | wincewebkit/3rdparty/casqt/qurl.cpp:2054-2064 | Without its loop: with d the delta divided by 700 the first time and by 2 otherwise, plus that divided by the number of code points, the bias is 36*j + 36*e/(e+38), where j is the least exponent for which e = d/35^j is at most 455 |
| `Punycode.LeastShiftIsUnique` | wincewebkit/3rdparty/casqt/qurl.cpp:2059-2061 | There is only one such exponent |
| `Punycode.ThresholdExactly` | wincewebkit/3rdparty/casqt/qurl.cpp:2081 | The threshold is the distance of the position from the bias, within 1 and 26 |
| `PunycodeSpelling.SpelledSkips` | wincewebkit/3rdparty/casqt/qurl.cpp:2139-2151 | Skipping all values that do not occur at once comes to the same as stepping through each of them |
| `PunycodeSpelling.SpelledIsLower` | wincewebkit/3rdparty/casqt/qurl.cpp:2066-2069 | All digits of a label are a..z and 0..9 |
| `PunycodeSamples.NextWritten` | wincewebkit/3rdparty/casqt/qurl.cpp:2136-2173 | From one unit written to the next, the delta is the number of smaller units behind the one, plus (m - n - 1) * (h + 1) + 1, plus the number of smaller units in front of the other |
| `PunycodeSamples.UmlautSample` | wincewebkit/3rdparty/casqt/qurl.cpp:2103-2179 | U+00E4 U+00F6 becomes "xn--4ca0b" |
| `PunycodeSamples.SenseiSample` | wincewebkit/3rdparty/casqt/qurl.cpp:2103-2179 | Sample (L) of section 7.1 of RFC 3492, with two basic and six other code points, becomes "xn--3B-ww4c5e180e575a65lsy2b" |
| `Punycode.DecodeEncodedInt` | wincewebkit/3rdparty/casqt/qurl.cpp:2071-2089 | Unique decodability: for every value, bias and weight the decoder reads the digits back, and only those, whatever follows |
| `Punycode.EncodeIntStopsAtLast` | wincewebkit/3rdparty/casqt/qurl.cpp:2078-2089 | Only the last digit is below its threshold |
| `Punycode.EncodeDigit` | wincewebkit/3rdparty/casqt/qurl.cpp:2066-2069 | Digits 0..35 become a..z and 0..9, in lower case, that decode to the same value and are never the delimiter |
| `Punycode.DecodeRunSnoc` | wincewebkit/3rdparty/casqt/qurl.cpp:2166-2168 | A decoder run followed by one more encoded integer is that run followed by one insertion |
| `Punycode.DecodeParts` | wincewebkit/3rdparty/casqt/qurl.cpp:2115-2132 | Basic units, delimiter and digits decode to the run of the digits from the basic units |
| `Utf16Text.UnitsAreCodePoints` | wincewebkit/3rdparty/casqt/qurl.cpp:2103-2179 | The units of a text are its code points exactly when no high surrogate is followed by a low one: where encoding units is encoding code points |
| `StringMatcher.BmFind` | wincewebkit/3rdparty/casqt/qstringmatcher.cpp:103-161 | Returns the least j >= index at which the needle occurs in the folded or plain haystack, else -1, the empty needle included; all reads stay inside |
| `StringMatcher.BmInitSkiptable` | wincewebkit/3rdparty/casqt/qstringmatcher.cpp:81-101 | Every entry is the distance from the needle's end to the last key with that low byte, or its length |
| `StringMatcher.SkipTableIsUnique` | wincewebkit/3rdparty/casqt/qstringmatcher.cpp:81-101 | One table meets that description |
| `StringMatcher.TryAlignment` | wincewebkit/3rdparty/casqt/qstringmatcher.cpp:113-131 | Each alignment is a match, or it is left by a shift of at least 1 that passes over no occurrence |
| `StringMatcher.MismatchShift` | wincewebkit/3rdparty/casqt/qstringmatcher.cpp:124-131 | Behind a partial match the shift is at least 1 and passes over no occurrence, whether the key that differs is foreign to the needle or not |
| `StringMatcher.MatchBackwards` | wincewebkit/3rdparty/casqt/qstringmatcher.cpp:117-123 | Matches all keys exactly when the needle occurs at this alignment |
| `StringMatcher.ShiftBySkip` | wincewebkit/3rdparty/casqt/qstringmatcher.cpp:114-134 | No occurrence starts between the old alignment and the one that the table entry leads to |
| `StringMatcher.ShiftPastForeign` | wincewebkit/3rdparty/casqt/qstringmatcher.cpp:127-128 | No occurrence starts before the key whose low byte is foreign to the needle |
| `StringMatcher.ShiftAfterMismatch` | wincewebkit/3rdparty/casqt/qstringmatcher.cpp:127-130 | Shifting past a foreign key, or by one, skips no occurrence |
| `StringMatcher.EmptyNeedle` | wincewebkit/3rdparty/casqt/qstringmatcher.cpp:106-107 | An empty needle is found at the start position, or nowhere if that lies outside |
| `StringMatcher.FirstOccurrenceIsUnique` | wincewebkit/3rdparty/casqt/qstringmatcher.cpp:269-276 | The specification admits one answer, so cached and one-shot search agree |
| `CaseFolding.PlainKeys` | wincewebkit/3rdparty/casqt/qstringmatcher.cpp:112-133 | What a search that minds case compares are the units |
| `CaseFolding.KeysAreFoldedText` | wincewebkit/3rdparty/casqt/qchar.cpp:696-702 | What a search that ignores case compares is the text of the folded code points c + caseFoldDiff, surrogate pairs included |
| `CaseFolding.PointKeysExactly` | wincewebkit/3rdparty/casqt/qchar.cpp:696-702 | For one code point it is so exactly if folding a pair keeps its high surrogate, and folding any other gives no pair |
| `CaseFolding.OccursWhereFolded` | wincewebkit/3rdparty/casqt/qstringmatcher.cpp:134-159 | A needle occurs exactly where its folded text stands in the folded text |
| `CaseFolding.FindOneAnother` | wincewebkit/3rdparty/casqt/qstringmatcher.cpp:134-159 | Two code points find one another exactly when they have the same folded form |
| `CaseFolding.CaseVariants` | wincewebkit/3rdparty/casqt/qstringmatcher.cpp:134-159 | If v is folded to itself, v and all that are folded to it find one another, and no others do |
| `CaseFolding.FoldingExample` | wincewebkit/3rdparty/casqt/qchar.cpp:696-702 | U+0041 finds U+0061, and U+10400 finds U+10428 |
| `CaseFolding.SharedRecordExample` | wincewebkit/3rdparty/casqt/qunicodetables.cpp:3611 | With the differences of the table, U+0401 and U+0451 do not find one another |
| `StringMatcher.FindStringBoyerMoore` | wincewebkit/3rdparty/casqt/qstringmatcher.cpp:299-309 | One-shot search: least occurrence at or after the clamped offset |
| `StringMatcher.QStringMatcher.Empty` | wincewebkit/3rdparty/casqt/qstringmatcher.cpp:189-193 | The zero-filled table is the right one for the empty pattern |
| `StringMatcher.QStringMatcher.constructor` | wincewebkit/3rdparty/casqt/qstringmatcher.cpp:201-205 | The table matches pattern and flag |
| `StringMatcher.QStringMatcher.Copy` | wincewebkit/3rdparty/casqt/qstringmatcher.cpp:210-214 | Same pattern, flag and search, in a table of its own |
| `StringMatcher.QStringMatcher.Assign` | wincewebkit/3rdparty/casqt/qstringmatcher.cpp:226-232 | Takes over pattern, flag and table; both matchers stay consistent, also on self-assignment |
| `StringMatcher.QStringMatcher.SetPattern` | wincewebkit/3rdparty/casqt/qstringmatcher.cpp:240-244 | New pattern, same flag, table in step |
| `StringMatcher.QStringMatcher.SetCaseSensitivity` | wincewebkit/3rdparty/casqt/qstringmatcher.cpp:252-258 | New flag, same pattern, table in step, also when the call returns early |
| `StringMatcher.QStringMatcher.IndexIn` | wincewebkit/3rdparty/casqt/qstringmatcher.cpp:269-276 | The cached table finds what a fresh search for the current pattern and flag finds |
| `QString.Replace` | wincewebkit/3rdparty/casqt/qstring.h:416 | Replacing by position (qstring.cpp:177-181) inserts the new units and removes as many, whatever length is passed |
| `QString.ReplaceAll` | wincewebkit/3rdparty/casqt/qstring.h:417 | Replacing a string by one of the same length (qstring.cpp:183-248) finds its occurrences with the matcher and replaces those that a scan from the left meets, which never overlap |
| `DecomposeLoop.DecomposeHelper` | wincewebkit/3rdparty/casqt/qchar.cpp:925-959 | The right-to-left loop ends for every well-founded table. On well-formed text it leaves the recursive decomposition of every code point exactly when the replacements fit, and otherwise something is missing or cut in half; on any text without an unpaired high surrogate nothing that it leaves has a replacement |
| `DecomposeLoop.StepReplaces` | wincewebkit/3rdparty/casqt/qchar.cpp:951-955 | Replacing and moving the cursor behind the replacement does not change the outcome and lowers the number of looks still due |
| `DecomposeLoop.StepKeeps` | wincewebkit/3rdparty/casqt/qchar.cpp:943-949 | Neither does leaving a code point |
| `DecompositionLoss.LoopDecomposesExactly` | wincewebkit/3rdparty/casqt/qchar.cpp:925-959 | On every well-formed text the loop leaves the recursive decomposition of every code point if and only if each code point but the last decomposes to as many units as it has, on the way as well as in the end, and the last to no fewer; otherwise something is missing or a low surrogate is left without its high one |
| `DecompositionLoss.LossExample` | wincewebkit/3rdparty/casqt/qchar.cpp:951-955 | U+00C1 U+0062 becomes U+0041 U+0301, without the U+0062 |
| `DecompositionLoss.LeftoverExample` | wincewebkit/3rdparty/casqt/qchar.cpp:951-955 | U+2F800 becomes U+4E3D with a low surrogate behind it |
| `LoopResult.WrittenIsPlain` | wincewebkit/3rdparty/casqt/qchar.cpp:925-959 | Whatever the loop loses, nothing is left that has a replacement: the halves of pairs that it leaves have none |
| `LoopResult.GrowingMisfitIsShorter` | wincewebkit/3rdparty/casqt/qchar.cpp:951-955 | Where replacements are never shorter than what they replace, the loop never writes more units than recursive decomposition, and fewer wherever a replacement does not fit |
| `DecomposeLoop.PreviousPoint` | wincewebkit/3rdparty/casqt/qchar.cpp:935-942 | Steps back over one code point, a surrogate pair as one |
| `Decompose.ExpandAllIsFull` | wincewebkit/3rdparty/casqt/qchar.cpp:925-959 | Nothing in a recursive decomposition has a replacement any more |
| `Decompose.PointsOfDecomposed` | wincewebkit/3rdparty/casqt/qchar.cpp:925-959 | The recursive decomposition of well-formed text is well-formed: its code points are those of the decompositions of its code points |
| `Decompose.FullyDecomposedStays` | wincewebkit/3rdparty/casqt/qchar.cpp:925-959 | Decomposing again changes nothing |
| `Decompose.CanonicalFirst` | wincewebkit/3rdparty/casqt/qchar.cpp:943-949 | Canonical decomposition, or that of an older version, may come first: compatibility decomposition of what it leaves is that of the original |
| `MappingsUsed.ReplacedExactly` | wincewebkit/3rdparty/casqt/qchar.cpp:943-949 | Replaced is exactly what the version knows and what is a syllable or has a mapping, in forms D and C one with tag Canonical; it is replaced by its jamo or by the units of the mapping |
| `MappingsUsed.DecomposedByTable` | wincewebkit/3rdparty/casqt/qchar.cpp:943-955 | Recursive decomposition puts the decomposition of these units in its place, and leaves every other code point where it is |
| `MappingsUsed.MappedAreGone` | wincewebkit/3rdparty/casqt/qchar.cpp:925-959 | In what the first two loops leave, whatever they lose, no such code point is left; and the decomposing loop leaves a text alone exactly when it has none |
| `MappingsUsed.DecomposedStaysExactly` | wincewebkit/3rdparty/casqt/qchar.cpp:925-1098 | The first two loops leave a text alone exactly when it has none and is in the order of the ordering loop |
| `MappingsUsed.ComposedAreLigatures` | wincewebkit/3rdparty/casqt/qchar.cpp:925-1098 | In what all three loops leave, only ligatures can be decomposed again; in form KC nothing has a compatibility mapping that the version knows |
| `MappingsUsed.SquareExample` | wincewebkit/3rdparty/casqt/qchar.cpp:943-949 | U+00B2, whose mapping has tag 9, becomes U+0032 in forms KD and KC and stays in forms D and C |
| `CanonicalOrderLoop.CanonicalOrderHelper` | wincewebkit/3rdparty/casqt/qchar.cpp:1032-1098 | On every UTF-16 text the loop ends with exactly `LoopOrder`: stable canonical order, except that a last code point behind or in a surrogate pair is left |
| `CanonicalOrderLoop.LoopOrdersExactly` | wincewebkit/3rdparty/casqt/qchar.cpp:1041-1057 | The result is the canonical order unless the last code point has a smaller non-zero class than the one that belongs last and one of the two is a surrogate pair, and only then |
| `CanonicalOrderLoop.LoopOrderStays` | wincewebkit/3rdparty/casqt/qchar.cpp:1032-1098 | Going over any text once more changes nothing |
| `CanonicalOrderLoop.FixedExactly` | wincewebkit/3rdparty/casqt/qchar.cpp:1032-1098 | The loop leaves a text alone if and only if it is in order, or all but its last code point is and that one is skipped |
| `CanonicalOrderLoop.PairsAsStarters` | wincewebkit/3rdparty/casqt/qchar.cpp:1032-1098 | Where all surrogate pairs are starters the result is the canonical order |
| `CanonicalOrderLoop.Turn` | wincewebkit/3rdparty/casqt/qchar.cpp:1038-1096 | Each turn lowers the weight of the disorder or moves on, and keeps the text a reordering that is ordered up to the cursor |
| `CanonicalOrderLoop.OutOfOrder` | wincewebkit/3rdparty/casqt/qchar.cpp:1050-1090 | Whatever the loop exchanges are two whole neighbouring code points, and no pair when they are the last two |
| `CanonicalOrderLoop.ExchangeAndStepBack` | wincewebkit/3rdparty/casqt/qchar.cpp:1072-1090 | The exchange of units is an exchange of code points, also for pairs, and the step back lands where order is known |
| `CanonicalOrderLoop.ExchangeLast` | wincewebkit/3rdparty/casqt/qchar.cpp:1072-1090 | An exchange of the last two puts the greatest of their run at the end for good |
| `CanonicalOrderLoop.JumpOverStarter` | wincewebkit/3rdparty/casqt/qchar.cpp:1063-1066 | Jumping behind a starter skips nothing that is out of order |
| `CanonicalOrderLoop.StopAtPair` | wincewebkit/3rdparty/casqt/qchar.cpp:1041-1049 | Where the loop breaks, all but the last code point is in order |
| `CanonicalOrder.CanonicalIsTheOrderedReordering` | wincewebkit/3rdparty/casqt/qchar.cpp:1032-1098 | The stable order is the one reordering that is ordered: nothing passes a starter or its own class |
| `CanonicalOrder.OrderedReorderingUnique` | wincewebkit/3rdparty/casqt/qchar.cpp:1032-1098 | Two ordered reorderings of one another are equal |
| `CanonicalOrder.CanonicalPermutes` | wincewebkit/3rdparty/casqt/qchar.cpp:1032-1098 | Ordering is a permutation |
| `CanonicalOrder.CanonicalKeepsStarters` | wincewebkit/3rdparty/casqt/qchar.cpp:1063-1066 | Starters keep their indices |
| `CanonicalOrder.ExchangeLowersWeight` | wincewebkit/3rdparty/casqt/qchar.cpp:1072-1090 | Every exchange lowers the termination measure |
| `Compose.ComposeHelper` | wincewebkit/3rdparty/casqt/qchar.cpp:993-1029 | On every UTF-16 text the loop that writes over the starter and removes a unit computes the fold `Composed`, surrogate pairs and their 16-bit lookup included |
| `Compose.WriteAndRemove` | wincewebkit/3rdparty/casqt/qchar.cpp:1014-1021 | Overwriting the starter and removing one unit is one step of the fold |
| `Compose.LeavePoint` | wincewebkit/3rdparty/casqt/qchar.cpp:1022-1026 | So is leaving the code point, with the new starter and class |
| `Compose.ComposedAsPoints` | wincewebkit/3rdparty/casqt/qchar.cpp:993-1029 | On every text without an unpaired high surrogate, whatever it begins with, the loop composes code points: what it reads, overwrites and removes in units is one step on code points |
| `Compose.ComposedIsStandard` | wincewebkit/3rdparty/casqt/qchar.cpp:993-1029 | On well-formed, canonically ordered text the loop's two variables decide exactly what "blocked" in section 3.11 of the Unicode Standard decides: loop and Standard compose alike |
| `Compose.BlockedWhen` | wincewebkit/3rdparty/casqt/qchar.cpp:1014 | The loop's adjacency-or-greater-class check is the negation of "blocked" |
| `PrecomposedText.LigatureExactly` | wincewebkit/3rdparty/casqt/qchar.cpp:962-991 | Two units combine exactly if they are leading consonant and vowel, open syllable and one of U+11A7..U+11C3, or in the ligature map; and to what the formula or the map says |
| `PrecomposedText.SyllableExactly` | wincewebkit/3rdparty/casqt/qchar.cpp:444-451 | The jamo of a syllable are those that the formula of section 3.12 of the Unicode Standard makes it of |
| `PrecomposedText.SyllableExample` | wincewebkit/3rdparty/casqt/qchar.cpp:444-451 | U+D4DB is decomposed to U+1111 U+1171 U+11B6, as in that section |
| `PrecomposedText.PairIsComposed` | wincewebkit/3rdparty/casqt/qchar.cpp:980-1029 | Two code points that the map combines are composed to its ligature |
| `PrecomposedText.ComesBackExactly` | wincewebkit/3rdparty/casqt/qchar.cpp:993-1029 | A code point comes back when its recursive decomposition is composed if and only if it is not decomposed, is a syllable, or is a ligature whose first part comes back and whose second part is not decomposed |
| `PrecomposedText.LigaturesComeBack` | wincewebkit/3rdparty/casqt/qchar.cpp:993-1029 | In forms D and C, in every version, every ligature of the map comes back |
| `PrecomposedText.PrecomposedRoundTrip` | wincewebkit/3rdparty/casqt/qchar.cpp:993-1029 | So does any text of such code points, whatever the form, if each begins with a starter that combines with nothing in front of it |
| `PrecomposedText.KanaExample` | wincewebkit/3rdparty/casqt/qchar.cpp:980-989 | U+304B U+3099 is what U+304C is decomposed to, and is composed to it |
| `PrecomposedText.LongSExample` | wincewebkit/3rdparty/casqt/qchar.cpp:993-1029 | U+1E9B does not come back in forms KD and KC |
| `Soundness.LigatureDecomposes` | wincewebkit/3rdparty/casqt/qchar.cpp:962-991 | Apart from the two stray units every ligature that the version knows, Hangul or table, decomposes to what its parts decompose to |
| `Recomposition.CombineReorders` | wincewebkit/3rdparty/casqt/qchar.cpp:1014-1021 | Decomposing after a ligature step that the version knows is a canonical reordering of appending the mark |
| `CompositionLoss.CompositionUndoneExactly` | wincewebkit/3rdparty/casqt/qchar.cpp:993-1029 | On fully decomposed text in canonical order, recursive decomposition and canonical order undo composition if and only if no leading consonant and vowel are followed by U+11A7 or U+11C3, and nothing combines beyond what the version knows |
| `CompositionLoss.StrayShortens` | wincewebkit/3rdparty/casqt/qchar.cpp:972-978 | After a stray unit the recursive decomposition is shorter than the input, whatever follows |
| `CompositionLoss.OutdatedShows` | wincewebkit/3rdparty/casqt/qchar.cpp:1014-1021 | Whatever combines to a character newer than the version, or past a mark newer than it, leaves a text that neither canonical order nor the ordering loop turns back into the input |
| `HangulText.StrayExample` | wincewebkit/3rdparty/casqt/qchar.cpp:972-978 | For every open syllable that the version knows, its jamo followed by U+11A7 compose to what decomposes to the jamo: the unit is lost |
| `HangulText.HangulRoundTrip` | wincewebkit/3rdparty/casqt/qchar.cpp:962-978 | In every version, every string of precomposed syllables is restored by composing its recursive decomposition |
| `HangulText.SyllableOfJamo` | wincewebkit/3rdparty/casqt/qchar.cpp:444-451 | The L, V, T arithmetic of decomposition and composition are inverse |
| `TailLoss.TailLostExactly` | wincewebkit/3rdparty/casqt/qchar.cpp:993-1029 | On text that begins with a starter, for every version: what composition leaves ends in a supplementary mark of lower class than the last code point of the input, and so escapes the ordering loop, if and only if in the input a supplementary mark of lower class is followed only by code points that combine |
| `TailLoss.LostTailHasNoStarter` | wincewebkit/3rdparty/casqt/qchar.cpp:1014 | No starter follows a mark at which a tail is lost |
| `Normalize.PointsOfFormD` | wincewebkit/3rdparty/casqt/qchar.cpp:1032-1098 | What the ordering loop makes of the recursive decomposition of a well-formed text is the text of the ordered decompositions of its code points |
| `Normalize.FormDStays` | wincewebkit/3rdparty/casqt/qchar.cpp:1032-1098 | With recursive decomposition, decomposing and ordering a well-formed text twice is doing it once, whatever it begins with; `NormalizationCall.CallDStays` says the same of the code |
| `Normalize.CompositionUndoneByOrderingExactly` | wincewebkit/3rdparty/casqt/qchar.cpp:993-1098 | For every well-formed text that does not begin with a mark: recursive decomposition and the ordering loop give back what the composing loop was given if and only if it is fully decomposed, the ordering loop leaves it alone, it has no stray, nothing in it combines beyond the version, and it loses no tail |
| `Normalize.BasicTailIsKept` | wincewebkit/3rdparty/casqt/qchar.cpp:1041-1057 | Without a supplementary mark behind the last starter, as in all text of the Basic Multilingual Plane, no tail is lost |
| `Normalize.KnownStaysKnown` | wincewebkit/3rdparty/casqt/qchar.cpp:993-1029 | If a version that knows two characters knows their ligature, composing text of characters that it knows never goes beyond it |
| `Normalize.TailExample` | wincewebkit/3rdparty/casqt/qchar.cpp:993-1098 | U+0061 U+1D165 U+0301 is composed to U+00E1 U+1D165, and recursive decomposition and the ordering loop make U+0061 U+0301 U+1D165 of that; what the code makes of it is in `CallExamples.HalfExample` |
| `Normalize.MarksComeBackExchanged` | wincewebkit/3rdparty/casqt/qchar.cpp:993-1098 | With recursive decomposition it is so for every starter, supplementary mark and mark of higher class that combines with the starter |
| `FormStability.FormsExactly` | wincewebkit/3rdparty/casqt/qchar.cpp:993-1098 | With recursive decomposition, the decomposed form of a composed form is that of the original string if and only if that form has no stray, stays within the version and loses no tail, whatever the ordering loop has left out of order |
| `FormStability.FormsAreStable` | wincewebkit/3rdparty/casqt/qchar.cpp:993-1098 | With recursive decomposition, composing a composed form again does not change it, strays and lost tails included, as long as nothing combines beyond the version |
| `FormStability.FormsAgree` | wincewebkit/3rdparty/casqt/qchar.cpp:993-1098 | With recursive decomposition, strings whose decomposed forms have no stray, stay within the version and lose no tail have equal composed forms exactly when they have equal decomposed forms |
| `FormStability.RestoredRecomposes` | wincewebkit/3rdparty/casqt/qchar.cpp:993-1098 | Whatever a decomposed form composes to within the version, strays and lost tails included, recursive decomposition, ordering and composing make the same of that |
| `Corrections.Correct` | wincewebkit/3rdparty/casqt/qunicodetables.cpp:7947-7962 | The loop over the corrections (qstring.cpp:420-434) makes, one after the other, those that are newer than the version asked for |
| `Corrections.CorrectsExactly` | wincewebkit/3rdparty/casqt/qstring.h:233-238 | In a well-formed text that contains its code point, a correction puts the old mapping in its place if and only if both are supplementary |
| `Corrections.CorrectedIsMapped` | wincewebkit/3rdparty/casqt/qstring.h:233-238 | The whole loop over corrections of supplementary code points, one after another on what the ones before have written, replaces every code point that is newly corrected by what is written for its mapping, and nothing else |
| `Corrections.CorrectedExactly` | wincewebkit/3rdparty/casqt/qunicodetables.cpp:7953-7962 | The six entries, on every well-formed text and for every version: the first does nothing, the others each write what they write |
| `Corrections.CorrectionsWorkExactly` | wincewebkit/3rdparty/casqt/qunicodetables.cpp:7953-7962 | The loop over the six entries gives what the table says if and only if the text has none of the five code points, U+2F868 apart, that the version asks to be corrected |
| `Corrections.CorrectionExample` | wincewebkit/3rdparty/casqt/qunicodetables.cpp:7953-7962 | U+F951 stays as it is, and U+2F874 becomes U+D7D7 U+DF33 |
| `Corrections.BasicNotFound` | wincewebkit/3rdparty/casqt/qstring.h:233-238 | A correction of a code point of the Basic Multilingual Plane changes no well-formed text |
| `NormalizationCall.Normalized` | wincewebkit/3rdparty/casqt/qstring.h:429-430 | The call (qstring.cpp:417-445) makes the corrections for the version and computes the form that its mode asks for, as the three loops leave it |
| `NormalizationCall.CallIsFormExactly` | wincewebkit/3rdparty/casqt/qchar.cpp:925-1098 | What the first two loops leave of a well-formed text is the decomposed form with recursive decomposition if and only if the decomposing loop loses nothing |
| `NormalizationCall.CallDStays` | wincewebkit/3rdparty/casqt/qchar.cpp:925-1098 | The first two loops, gone over any text without an unpaired high surrogate a second time, change nothing, also where the decomposing one has lost something, in every version |
| `CallRoundTrip.CallCStaysExactly` | wincewebkit/3rdparty/casqt/qchar.cpp:925-1098 | The three loops leave a text alone if and only if it would be its own composed form with recursive decomposition, and decomposing it loses nothing; every text without an unpaired high surrogate, every version |
| `CallRoundTrip.CallTwiceExactly` | wincewebkit/3rdparty/casqt/qchar.cpp:925-1098 | So for what the call has returned: normalizing it again changes nothing under exactly that condition |
| `CallRoundTrip.CallTwiceWithinVersion` | wincewebkit/3rdparty/casqt/qchar.cpp:925-1098 | Where nothing combines beyond the version, that decomposing it loses nothing is all that it takes |
| `CallUndone.CallUndoesCompositionExactly` | wincewebkit/3rdparty/casqt/qchar.cpp:925-1098 | The first two loops give back what the composing loop was given if and only if it is fully decomposed, the ordering loop leaves it alone, and nothing in it combines, or only the last two code points, or only the last three, a leading consonant, vowel and trailing consonant, and what they make has a replacement in the version; every text without an unpaired high surrogate, every version |
| `CallUndone.CallFormsExactly` | wincewebkit/3rdparty/casqt/qchar.cpp:925-1098 | So the call decomposes a composed string to what it decomposes the string itself to under exactly that condition on the latter |
| `CallUndone.CallsAgree` | wincewebkit/3rdparty/casqt/qchar.cpp:925-1098 | Strings that meet it have the same composed form exactly when they have the same decomposed form |
| `CallExamples.TwiceExample` | wincewebkit/3rdparty/casqt/qchar.cpp:925-1098 | U+0041 U+0301 U+0062 becomes U+00C1 U+0062, and that becomes U+00C1 |
| `CallExamples.HalfExample` | wincewebkit/3rdparty/casqt/qchar.cpp:925-1098 | U+0061 U+1D165 U+0301, composed and decomposed again, becomes U+0061 U+0301 U+DD65 |
| `CallExamples.NewerExample` | wincewebkit/3rdparty/casqt/qchar.cpp:993-1029 | In a version older than they are, U+1B05 U+1B35 are decomposed and ordered, and are composed to U+1B06, which that version does not decompose |
| `CallExamples.NewerKeepsPlace` | wincewebkit/3rdparty/casqt/qchar.cpp:1059-1070 | Whatever its class, a character newer than the version keeps its place |
| `CallExamples.TwoMarksExactly` | wincewebkit/3rdparty/casqt/qchar.cpp:1059-1090 | Two marks behind a starter are exchanged exactly when the version knows both and the first is of higher class |
| `CallExamples.NewerMarkExample` | wincewebkit/3rdparty/casqt/qchar.cpp:1059-1090 | U+0061 U+0358 U+0323 is put in order in versions that know U+0358, and left alone in older ones |
| `CallExamples.HangulIsLost` | wincewebkit/3rdparty/casqt/qchar.cpp:951-955 | Text of syllables without trailing consonants, of any length, is decomposed to one leading consonant and all the vowels |
| `CallExamples.HangulExample` | wincewebkit/3rdparty/casqt/qchar.cpp:925-1098 | U+AC00 U+AC00 is decomposed to U+1100 U+1161 U+1161 and composed to U+AC00 U+1161 |
| `Utf8Codec.ConvertFromUnicode` | wincewebkit/3rdparty/casqt/qutfcodec.cpp:54-143 | The unit loop is the fold over units from the carried surrogate; header, count and pending surrogate go to the state |
| `Utf8Codec.WritePoint` | wincewebkit/3rdparty/casqt/qutfcodec.cpp:106-129 | Writes one to four bytes of RFC 3629, or the one raw byte |
| `Utf8Malformed.FormExactly` | wincewebkit/3rdparty/casqt/qutfcodec.cpp:106-129 | The bytes of a code point are the only ones that the table in section 3 of RFC 3629 has for it |
| `Utf8Malformed.FormExamples` | wincewebkit/3rdparty/casqt/qutfcodec.cpp:106-129 | The bytes of characters from the examples of section 7 of RFC 3629, and of the header |
| `Utf8Malformed.EncodesSurveyed` | wincewebkit/3rdparty/casqt/qutfcodec.cpp:82-105 | What is written, counted and carried for any text: an unpaired low surrogate is dropped, and an unpaired high one together with the unit behind it, each of which counts once |
| `Utf8Malformed.NothingDroppedExactly` | wincewebkit/3rdparty/casqt/qutfcodec.cpp:82-105 | Nothing is counted and nothing carried exactly for text without unpaired surrogates |
| `Utf8Malformed.UnpairedExample` | wincewebkit/3rdparty/casqt/qutfcodec.cpp:82-105 | U+DC00 U+0061 is written as 61, and U+D800 U+0061 U+0062 as 62 |
| `Utf8RoundTrip.EncoderIsSplitIndependent` | wincewebkit/3rdparty/casqt/qutfcodec.cpp:54-143 | Encoding pieces, well-formed or not, through one state gives the bytes, the one header, the count and the pending surrogate of a single call |
| `Utf8RoundTrip.EncoderBounded` | wincewebkit/3rdparty/casqt/qutfcodec.cpp:57-68 | Three bytes for each unit are enough, save for one more, exactly when a carried surrogate is completed by the first unit and all that follow take three bytes |
| `Utf8Codec.ConvertToUnicode` | wincewebkit/3rdparty/casqt/qutfcodec.cpp:145-257 | The rewinding loop ends, goes back to each lead at most once in ascending order, and computes a scan that has no rewinding, of all but a mark at the head of the call; pending sequence, header flag and error count go to the state |
| `Utf8Codec.DecodeLoop` | wincewebkit/3rdparty/casqt/qutfcodec.cpp:179-247 | The byte loop against the scan, from any carried sequence, malformed input included |
| `Utf8Codec.DecodeByte` | wincewebkit/3rdparty/casqt/qutfcodec.cpp:180-239 | One byte keeps the loop on the way to the scan's result and advances the sequence being read, also when it rewinds |
| `Utf8Codec.TrackBroken` | wincewebkit/3rdparty/casqt/qutfcodec.cpp:209-215 | Rewinding to the byte after the lead is what the scan does on a broken sequence |
| `Utf8Malformed.WholeSequence` | wincewebkit/3rdparty/casqt/qutfcodec.cpp:184-208 | A lead byte with all its followers is read as the code point whose form they are, and replaced by one character if they are the form of none that may appear |
| `Utf8Malformed.BrokenSequence` | wincewebkit/3rdparty/casqt/qutfcodec.cpp:209-215 | A sequence that breaks off is replaced byte by byte, and what breaks it is read afresh |
| `Utf8Malformed.SingleByte` | wincewebkit/3rdparty/casqt/qutfcodec.cpp:216-239 | A byte below 80 is a character; one that cannot lead, or follows nothing, is replaced |
| `Utf8Malformed.UnfinishedSequence` | wincewebkit/3rdparty/casqt/qutfcodec.cpp:240-256 | A sequence that is not finished at the end writes nothing, and the state holds exactly its bytes |
| `Utf8Malformed.ReplacedExample` | wincewebkit/3rdparty/casqt/qutfcodec.cpp:235-238 | FF is read as U+FFFD, or as U+0000 with the flag ConvertInvalidToNull |
| `Utf8Malformed.BrokenExample` | wincewebkit/3rdparty/casqt/qutfcodec.cpp:209-215 | E2 82 41 is read as U+FFFD U+FFFD U+0041 |
| `Utf8Malformed.RejectedExample` | wincewebkit/3rdparty/casqt/qutfcodec.cpp:184-208 | C0 80 and ED A0 80 are read as U+FFFD |
| `Utf8RoundTrip.ChunkBounded` | wincewebkit/3rdparty/casqt/qutfcodec.cpp:174-177 | A chunk writes at most one unit for each byte, and one more when a sequence was carried over |
| `Utf8RoundTrip.ScansAreSplitIndependent` | wincewebkit/3rdparty/casqt/qutfcodec.cpp:145-257 | With IgnoreHeader set: cuts never decide whether there are errors; without errors the units and the pending sequence do not depend on them |
| `Utf8RoundTrip.ChunkIsShaped` | wincewebkit/3rdparty/casqt/qutfcodec.cpp:240-256 | Whatever bytes come, malformed or not, what is left pending is one to three bytes of one sequence: its length, least value and the bits read fit together |
| `Utf8RoundTrip.DecodesExactly` | wincewebkit/3rdparty/casqt/qutfcodec.cpp:145-257 | Bytes are read as s without error if and only if they are the RFC 3629 form of s and s is well-formed and free of U+FFFE and U+FFFF: no overlong form, surrogate or excess value passes |
| `Utf8RoundTrip.FoldIsInjective` | wincewebkit/3rdparty/casqt/qutfcodec.cpp:179-247 | From the same state, different bytes without an error give different text or leave something different pending |
| `Utf8RoundTrip.RoundTripExactly` | wincewebkit/3rdparty/casqt/qutfcodec.cpp:54-257 | With IgnoreHeader set on both sides: encoded, cut anywhere and decoded, s comes back with nothing pending or invalid if and only if it is well-formed without U+FFFE, U+FFFF and U+10FE01..U+10FEFF |
| `Utf8RoundTrip.RawIsShorter` | wincewebkit/3rdparty/casqt/qutfcodec.cpp:114-117 | The encoder's output is the RFC 3629 form exactly when no raw byte is written, and shorter otherwise |
| `Utf8Calls.CutExactly` | wincewebkit/3rdparty/casqt/qutfcodec.cpp:145-257 | For bytes that one call reads without an error, from any state that a decoder can come to, cutting them into calls makes no difference if and only if a header has been seen, or no call finds a mark at its head and the data has none, or both do and only marks stand in front of the one that is skipped |
| `Utf8Calls.FreshRoundTripExactly` | wincewebkit/3rdparty/casqt/qutfcodec.cpp:54-257 | What a fresh encoder writes for s, header included, is read back by a fresh decoder, cut anywhere, if and only if s is not empty, is one of those that survive, and the cut is harmless |
| `Utf8Calls.HeadlessRoundTripExactly` | wincewebkit/3rdparty/casqt/qutfcodec.cpp:54-257 | The same of calls with IgnoreHeader set, where neither emptiness nor cuts matter |
| `Utf8Calls.EmptyStringExample` | wincewebkit/3rdparty/casqt/qutfcodec.cpp:73-77 | The header of the empty string is read as U+FEFF |
| `Utf8Calls.MarkExample` | wincewebkit/3rdparty/casqt/qutfcodec.cpp:164-170 | The calls [61], [EF BB BF 62] give U+0061 U+0062, the one call [61 EF BB BF 62] gives U+0061 U+FEFF U+0062, and there is no error |
| `Utf16Codec.ConvertToUnicode` | wincewebkit/3rdparty/casqt/qutfcodec.cpp:316-391 | The call against the byte-by-byte reader, with byte order, odd byte and header flag carried in the state |
| `Utf16Codec.DecodeLoop` | wincewebkit/3rdparty/casqt/qutfcodec.cpp:337-375 | The byte loop against the reader |
| `Utf16Reading.ReadsExactly` | wincewebkit/3rdparty/casqt/qutfcodec.cpp:316-391 | What a fresh decoder makes of any bytes: the first two settle the order, that of the mark they are or else the host's; that mark is dropped, and all other bytes are read two by two in that order; an odd one is carried |
| `Utf16Reading.HeadlessExactly` | wincewebkit/3rdparty/casqt/qutfcodec.cpp:345-361 | Under detection, a string written without a header in the host's order comes back exactly when it begins with neither U+FEFF nor U+FFFE, and the order settled is then the host's |
| `Utf16Reading.HeadlessFixedExactly` | wincewebkit/3rdparty/casqt/qutfcodec.cpp:316-391 | With a fixed order it comes back exactly when it does not begin with U+FEFF |
| `Utf16Reading.OrderExample` | wincewebkit/3rdparty/casqt/qutfcodec.cpp:345-361 | U+0061 is 00 61 or 61 00, and is read from either, without a mark on a host of that order and with a mark on the other |
| `Utf16Codec.DetectingIsSplitIndependent` | wincewebkit/3rdparty/casqt/qutfcodec.cpp:316-391 | A detecting decoder fed in pieces writes the same units and ends in the same state, wherever the cuts fall |
| `Utf16Codec.FixedSplitExactly` | wincewebkit/3rdparty/casqt/qutfcodec.cpp:316-391 | With a fixed byte order a cut is harmless if and only if no header is expected, the first piece completes a unit, or the first unit is no mark |
| `Utf16Codec.ConvertFromUnicode` | wincewebkit/3rdparty/casqt/qutfcodec.cpp:272-314 | Header unless suppressed, then two bytes for each unit in the right order; the rest of the state is untouched |
| `Utf16Codec.RoundTrip` | wincewebkit/3rdparty/casqt/qutfcodec.cpp:272-391 | Every string comes back, in every byte order, with or without header |
| `Utf16Codec.RoundTripInPieces` | wincewebkit/3rdparty/casqt/qutfcodec.cpp:272-391 | Under detection also when the bytes are cut anywhere |

## Left out

- Normalize.CompositionUndoneByOrderingExactly: about recursive decomposition, on well-formed text that does not begin
  with a mark, and for versions that know the parts of the table ligatures they know, as all from 3.0 on do; what the
  code does, without any of this, is exact in `CallUndone.CallUndoesCompositionExactly`.
- CompositionLoss.CompositionUndoneExactly: for the same texts and versions.
- FormStability.FormsExactly: for the same texts and versions, as `FormStability.FormsAgree` is.
- FormStability.FormsAreStable: for the same texts and versions, and one way only where something combines beyond the
  version: a form may then be stable or not.
- CallRoundTrip.CallTwiceWithinVersion: for well-formed forms that do not begin with a mark;
  `CallRoundTrip.CallTwiceExactly` asks nothing of the kind.
- NormalizationCall.CallDStays: for text without unpaired high surrogates, as are all the results about the call; an
  unpaired low one, which the loops themselves leave, does no harm.
- DecompositionLoss.LoopDecomposesExactly: stated for well-formed text and for replacements that are not empty; of
  other text `DecomposeLoop.DecomposeHelper` says what the turns of the loop write, one after the other.
- Compose.ComposedIsStandard: stated for well-formed, ordered texts that begin with a starter; what the loop does with
  any other is exact in `Compose.ComposeHelper`.
- CanonicalOrderLoop.CanonicalOrderHelper: assumes that lone surrogates have combining class 0, as in the tables.
- DecomposeLoop.DecomposeHelper: assumes a table that is well-founded and tidy, as described above; on a table that is
  not well-founded the loop does not end.
- QString.ReplaceAll: the branch for strings of equal length only, which is the one that the corrections take; each
  puts two units in the place of two.
- Utf8RoundTrip.ScansAreSplitIndependent: for malformed data only the presence of errors is independent of the cuts; a
  sequence that is broken behind a cut is replaced differently, because the state does not keep its bytes.
- Utf8Calls.CutExactly: for data that one call reads without an error, for the same reason.
- PunycodeEncoder.ToPunycode: labels of more than 2^31 - 1 units, which `int` lengths exclude, are not modelled.
- StringMatcher.BmFind: the two copies of the loop, on units and on folded units, appear as one; address arithmetic
  beyond the end of the haystack, and offsets that would overflow it, are not modelled.
- Utf8Codec.ConvertToUnicode: the invalid-character count is unbounded here.
- Storage: reference counts, capacity, reallocation and terminators of `QString` and `QByteArray`; results are
  sequences.
- The contents of the Unicode property, decomposition, ligature and case-folding tables.
- Nameprep and the splitting of domain names into labels in `qurl.cpp`: filters over tables.
- UTF-32, and the EUC-KR, EUC-JP, Shift-JIS, ISO-2022-JP, ISCII and TSCII converters: byte arithmetic and table
  lookups.
- Host byte order is a parameter; the byte order of the machine is not otherwise modelled.
