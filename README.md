# English tutor: a verified model of its deterministic core

This project is a Dafny model of the logic inside an English-tutoring web app.
Learners type a Korean sentence and their English translation. A backend
corrects the English, through a language model when an API key is configured
and through a rule-based fallback otherwise. A dashboard shows a word-level
diff between the learner's sentence and the correction, plus summary
statistics over the saved history.

The model covers three pieces.

- **The diff aligner** (`createDiff` in the dashboard), in `diff.dfy`.
  - Both sentences are split on whitespace. Tokens are compared lower-cased and emitted in their original case.
  - Two cursors walk the token streams. On a mismatch the aligner looks up to two tokens ahead, on the corrected side first and then on the user's side. If neither window holds a match, the pair is marked `changed`.
  - `Diff.Step` is one iteration of the source's loop and `Diff.Walk` is the whole loop as a recursive function.
  - `Diff.CreateDiff` is the loop itself, a `while` with the two bounded `for` searches. It is proved to compute `Walk`.
  - The properties are proved about `Walk`: every token is kept, in order; each tag appears only on its own side; `same` and `changed` come in pairs.
- **The dashboard statistics** (`calculateStats`), in `stats.dfy`: the week count, the tag-frequency table, the most-used tag and the capped rate.
- **The correction service**, in `corrector.dfy`.
  - It holds the four local rules: name capitalisation, the article rule, the explanations, the vocabulary and the category tags.
  - It holds the normalisation of a parsed model reply, and the choice in `correctEnglish` between the model's result and the local one.
  - JavaScript's string primitives the rules rely on are in `js_strings.dfy`: `split(/\s+/)`, `trim`, `includes`, `replace` with a string pattern (first occurrence only) and `replace(/\bw\b/gi, …)` (every case-insensitive whole word, left to right).
- **The submission form** (`EnglishTutor`), in `tutor.dfy`.
  - The trimmed-input guard, the request, the failure messages and the capped history prepend.
  - A class `TutorPage` whose methods `HandleSubmit` and `HandleReset` update the page state as the handlers do.

Behaviour of the code that the model makes explicit:

- `split(/\s+/)` keeps empty leading and trailing fields. An empty sentence is one empty token, so the diff of two empty sentences is one `same` pair of empty texts. The model follows the code here.
- The article rule (lines 134-136 of the service) does fire.
  - In "xlondon snack" the word "london" is glued to a letter, so it is not a whole word and the capitalisation leaves it.
  - The rule then turns the text into "xa London snack" (`CorrectorProperties.ArticleRuleFires`).
- `improveEnglishLocal` is not idempotent. Its output can still contain a bare "london snack", which a second run rewrites again (`CorrectorProperties.ImproveNotIdempotent`).
- The most-used tag is the *last* key, in insertion order, among those with maximal count. This follows from the strict `>` in the reduce.
- The diff is not symmetric. Swapping the two sentences can change which tokens pair up, because the corrected side's window is searched first.

## Model

| member | source | states |
|---|---|---|
| JsStrings.Lower | frontend/src/components/Dashboard.tsx:47-48 | lower-casing keeps the length and lowers each ASCII capital, leaving every other character as it is |
| JsStrings.IsSpace | frontend/src/components/Dashboard.tsx:47-50 | the characters JavaScript's `\s` matches: ASCII space, tab, line feed, carriage return, vertical tab, form feed, the Unicode space separators, the line and paragraph separators and the byte-order mark |
| JsStrings.FirstSpace | frontend/src/components/Dashboard.tsx:47-50 | the end of the current field: no whitespace before it, whitespace at it unless the text ends |
| JsStrings.SkipSpaces | frontend/src/components/Dashboard.tsx:47-50 | the end of a whitespace run (also where `trim` starts): only whitespace before it, none at it |
| JsStrings.Split | frontend/src/components/Dashboard.tsx:47-50 | splitting on `\s+` always yields at least one field, the empty text included |
| JsStrings.SplitFieldsHaveNoSpace | frontend/src/components/Dashboard.tsx:47-50 | no field of the split contains whitespace |
| JsStrings.SpaceScanIgnoresCase | frontend/src/components/Dashboard.tsx:47-50 | lower-casing moves no field boundary |
| JsStrings.SplitLower | frontend/src/components/Dashboard.tsx:47-50 | the fields of the lower-cased sentence are the lower-cased fields of the sentence, so comparison keys and displayed texts line up one to one |
| JsStrings.SplitStepLower | frontend/src/components/Dashboard.tsx:47-50 | one field off the front of a sentence, for the sentence and its lower-cased copy alike |
| JsStrings.JoinSplit | frontend/src/components/Dashboard.tsx:162 | joining the fields with single spaces restores any sentence whose whitespace is single plain spaces |
| JsStrings.SplitJoin | frontend/src/components/Dashboard.tsx:47-50 | splitting a single-spaced join of whitespace-free tokens gives the tokens back |
| JsStrings.TrimEndIndex | frontend/src/components/EnglishTutor.tsx:57 | trim's end: only whitespace after it, none just before it |
| JsStrings.Trim | frontend/src/components/EnglishTutor.tsx:57 | the trimmed text is a slice of the text with only whitespace cut from either end; it is empty exactly when the text is all whitespace, and otherwise starts and ends with a non-space |
| JsStrings.IndexOfFrom | backend/src/services/geminiService.ts:134-135 | the first position at or after `from` where the pattern occurs, or -1 when it occurs nowhere from there |
| JsStrings.Includes | backend/src/services/geminiService.ts:134 | `includes` holds exactly when some position holds an occurrence |
| JsStrings.ReplaceFirst | backend/src/services/geminiService.ts:135 | replace with a string pattern: unchanged without an occurrence, otherwise the first occurrence alone is replaced |
| JsStrings.ScanNoMatch | backend/src/services/geminiService.ts:129-132 | a global replace with no marked position left copies the rest unchanged |
| JsStrings.ScanFirstMatch | backend/src/services/geminiService.ts:129-132 | a global replace copies up to the first match, writes the replacement and resumes after the match |
| JsStrings.ScanLength | backend/src/services/geminiService.ts:129-132 | a same-length replacement keeps the length |
| JsStrings.ScanGrows | backend/src/services/geminiService.ts:129-132 | a replacement at least as long as the word never shortens the text |
| JsStrings.ScanCovers | backend/src/services/geminiService.ts:129-132 | at a match not overlapped by an earlier one, the output holds the replacement |
| JsStrings.WordAt | backend/src/services/geminiService.ts:129 | `\bw\b` with the `i` flag matches at a position: the word is there ignoring case, with no word character just before or just after it |
| JsStrings.ReplaceWords | backend/src/services/geminiService.ts:129-132 | `replace(/\bw\b/gi, rep)`: the left-to-right global replace over the whole-word marks of the original text |
| JsStrings.ScanKeeps | backend/src/services/geminiService.ts:129-132 | a character inside no match is copied to the same place |
| JsStrings.ScanFixed | backend/src/services/geminiService.ts:129-132 | when every match already reads as its replacement, the replace changes nothing |
| JsStrings.WordMarks | backend/src/services/geminiService.ts:129-132 | the marked positions are exactly the starts of case-insensitive whole-word occurrences |
| JsStrings.ReplaceWordsNoMatch | backend/src/services/geminiService.ts:129-132 | no whole-word occurrence from `p` on: the rest is copied unchanged |
| JsStrings.ReplaceWordsFirstMatch | backend/src/services/geminiService.ts:129-132 | the first whole-word occurrence is replaced and the scan resumes after it |
| JsStrings.ReplaceWordsGrows | backend/src/services/geminiService.ts:129-132 | the capitalisations never shorten the sentence |
| JsStrings.WholeWordsDisjoint | backend/src/services/geminiService.ts:129-132 | two whole-word occurrences of a word made of word characters never overlap |
| JsStrings.ReplaceWordsMeaning | backend/src/services/geminiService.ts:129 | for a same-length replacement, every whole-word occurrence becomes the replacement, every other character is kept, and the length is kept |
| JsStrings.ReplaceWordsFixed | backend/src/services/geminiService.ts:129-132 | capitalising text whose occurrences are already capitalised changes nothing |
| JsStrings.ContainsWordFrom | backend/src/services/geminiService.ts:244 | the `\bw\b` test holds exactly when a whole-word occurrence exists |
| JsStrings.NatToString | frontend/src/components/EnglishTutor.tsx:88 | `toString` of a number gives decimal digits denoting that number |
| Diff.WindowEnd | frontend/src/components/Dashboard.tsx:73 | the window end is `min(from + 3, length)` |
| Diff.Seek | frontend/src/components/Dashboard.tsx:73-74 | the first position in the window holding the key, or the window end when none does |
| Diff.Step | frontend/src/components/Dashboard.tsx:59-109 | each iteration stays in bounds and advances at least one cursor, by at most three tokens each: the loop terminates |
| Diff.StepSame | frontend/src/components/Dashboard.tsx:65-69 | equal keys emit one `same` pair and advance both cursors |
| Diff.StepTargetResync | frontend/src/components/Dashboard.tsx:73-85 | a match in the corrected window emits the skipped corrected tokens as `added`, then a `same` pair, and moves past the match |
| Diff.StepSourceResync | frontend/src/components/Dashboard.tsx:87-101 | with no corrected-side match, a match in the user's window emits the skipped user tokens as `removed`, then a `same` pair |
| Diff.StepChanged | frontend/src/components/Dashboard.tsx:103-108 | with neither window matching, one `changed` pair is emitted |
| Diff.StepTexts | frontend/src/components/Dashboard.tsx:59-108 | an iteration emits exactly the tokens its cursors pass over, in order |
| Diff.StepPlacement | frontend/src/components/Dashboard.tsx:59-108 | an iteration never puts `added` on the user's side or `removed` on the corrected side |
| Diff.StepPairs | frontend/src/components/Dashboard.tsx:59-108 | the `same` and `changed` entries of an iteration pair up across the two sides |
| Diff.StepExhausted | frontend/src/components/Dashboard.tsx:59-64 | once a side is exhausted, each iteration emits one token of the other side as `added` or `removed` |
| Diff.StepPrefersTarget | frontend/src/components/Dashboard.tsx:73-87 | when the corrected window holds a match, the corrected side wins: the user's side emits one `same` entry |
| Diff.StepChangedOnlyWithoutMatch | frontend/src/components/Dashboard.tsx:73-108 | a `changed` pair is emitted only when neither lookahead window contains a match |
| Diff.Walk | frontend/src/components/Dashboard.tsx:58-111 | the remaining tokens of each side appear in order; the tags sit on their own sides and `same`/`changed` pair up |
| Diff.WalkStep | frontend/src/components/Dashboard.tsx:58-111 | the loop is one iteration followed by the loop from the new cursors |
| Diff.DiffOf | frontend/src/components/Dashboard.tsx:46-114 | the texts of each side are exactly the split tokens; the tags sit on their own sides and `same`/`changed` pair up |
| Diff.FindInWindow | frontend/src/components/Dashboard.tsx:73-74 | the bounded `for` search finds the first match in the window, and reports whether there is one |
| Diff.AppendRun | frontend/src/components/Dashboard.tsx:75-77 | the inner `for` pushes the skipped tokens, in order, with one tag |
| Diff.Resync | frontend/src/components/Dashboard.tsx:70-109 | the mismatch branch does what one `Step` on a mismatch says |
| Diff.Align | frontend/src/components/Dashboard.tsx:52-113 | the `while` loop over the keyed tokens produces the two outputs `Walk` describes |
| Diff.CreateDiff | frontend/src/components/Dashboard.tsx:46-114 | the method's outputs keep every token in order, place the tags on their own sides and pair `same`/`changed` |
| DiffProperties.WalkUserExhausted | frontend/src/components/Dashboard.tsx:59-61 | once the user's tokens run out, all remaining corrected tokens are `added` |
| DiffProperties.WalkCorrectedExhausted | frontend/src/components/Dashboard.tsx:62-64 | once the corrected tokens run out, all remaining user tokens are `removed` |
| DiffProperties.WalkIdentical | frontend/src/components/Dashboard.tsx:65-69 | equal key streams give `same` everywhere |
| DiffProperties.DiffOfEqualIgnoringCase | frontend/src/components/Dashboard.tsx:47-69 | sentences equal up to ASCII case give an all-`same` diff in their original case |
| DiffProperties.RenderedDiffRestoresText | frontend/src/components/Dashboard.tsx:162 | the space-joined texts of each side reproduce a single-spaced sentence |
| DiffProperties.Count | frontend/src/components/Dashboard.tsx:41 | a tag's count is zero exactly when the tag is absent |
| DiffProperties.CountInPairs | frontend/src/components/Dashboard.tsx:66-67 | the `same` and `changed` entries are all among the paired entries |
| DiffProperties.CountMatched | frontend/src/components/Dashboard.tsx:66-105 | matched sequences carry each tag equally often |
| DiffProperties.DiffOfBalanced | frontend/src/components/Dashboard.tsx:59-108 | both sides have as many `same` entries as each other, and as many `changed` entries |
| DiffProperties.CountTotal | frontend/src/components/Dashboard.tsx:41 | every entry carries exactly one of the four tags |
| DiffExample.WalkSame | frontend/src/components/Dashboard.tsx:65-69 | a matching pair heads the rest of the walk |
| DiffExample.ExampleFromSchool | frontend/src/components/Dashboard.tsx:73-85 | "school" against "to school" resyncs on the corrected side: `added:to`, `same:school` |
| DiffExample.ExampleFromGo | frontend/src/components/Dashboard.tsx:58-111 | the walk from "go" gives `same:go`, then the resync |
| DiffExample.ExampleWalk | frontend/src/components/Dashboard.tsx:58-111 | the full walk over the example's tokens |
| DiffExample.ExampleUserTokens | frontend/src/components/Dashboard.tsx:49 | "i go school" splits into its three words |
| DiffExample.ExampleCorrectedTokens | frontend/src/components/Dashboard.tsx:50 | "I go to school" splits into its four words |
| DiffExample.ExampleCorrectedKeys | frontend/src/components/Dashboard.tsx:48 | the lower-cased correction splits into its four keys |
| DiffExample.WorkedExample | frontend/src/components/Dashboard.tsx:46-114 | `createDiff("i go school", "I go to school")` gives `[same:i, same:go, same:school]` and `[same:I, same:go, added:to, same:school]` |
| DiffExample.CrossedFirstStep | frontend/src/components/Dashboard.tsx:73-85 | on two distinct lower-case words in crossed order, the first mismatch finds the user's word one token ahead on the corrected side |
| DiffExample.CrossedWalk | frontend/src/components/Dashboard.tsx:58-111 | crossed words give `[same:x, removed:y]` and `[added:y, same:x]` |
| DiffExample.CrossedTokens | frontend/src/components/Dashboard.tsx:47-50 | "a b" and "b a" split into their two words |
| DiffExample.CrossedDiff | frontend/src/components/Dashboard.tsx:46-114 | the diff of two single-spaced lower-case sentences with crossed words |
| DiffExample.SwapIsNotMirror | frontend/src/components/Dashboard.tsx:46-114 | `createDiff("a b", "b a")` and `createDiff("b a", "a b")` are not mirror images: the first corrected entry is `added` one way, the first user entry is `same`, not `removed`, the other |
| Stats.Bump | frontend/src/components/Dashboard.tsx:210-212 | `acc[cat] = (acc[cat] \|\| 0) + 1`: the count goes up by one, and a new key goes to the end of the key order |
| Stats.TallyFrom | frontend/src/components/Dashboard.tsx:210-213 | the counting reduce keeps the table well formed: keys distinct and exactly the counted ones |
| Stats.Tally | frontend/src/components/Dashboard.tsx:210-213 | the table built from the empty object is well formed |
| Stats.AllTags | frontend/src/components/Dashboard.tsx:209 | a tag is among the flattened tags exactly when some history item carries it |
| Stats.TallyFromCounts | frontend/src/components/Dashboard.tsx:209-213 | after counting, each key's count is its earlier count plus its number of occurrences |
| Stats.BumpAt | frontend/src/components/Dashboard.tsx:211 | one increment changes only the counted key's entry |
| Stats.TallyCounts | frontend/src/components/Dashboard.tsx:209-213 | the table's keys are exactly the tags, and each count is the tag's multiplicity |
| Stats.Pick | frontend/src/components/Dashboard.tsx:216 | the reducer keeps the accumulator only when its count is strictly greater |
| Stats.MostUsedFrom | frontend/src/components/Dashboard.tsx:215-217 | the reduce yields the initial value or one of the keys |
| Stats.MostUsed | frontend/src/components/Dashboard.tsx:215-217 | with no keys the result is '일상대화' |
| Stats.ReduceStateStep | frontend/src/components/Dashboard.tsx:215-217 | each reduce step keeps the accumulator the last maximal key of the prefix seen so far |
| Stats.ReduceStateKeep | frontend/src/components/Dashboard.tsx:216 | a strictly larger accumulator stays the last maximal key |
| Stats.ReduceStateTake | frontend/src/components/Dashboard.tsx:216 | a key at least as large as the accumulator becomes the last maximal key |
| Stats.MostUsedFromState | frontend/src/components/Dashboard.tsx:215-217 | the completed reduce ends in the last maximal key of all keys |
| Stats.MostUsedIsLastMaximal | frontend/src/components/Dashboard.tsx:215-217 | '일상대화' for an empty table, otherwise a key of maximal count that no later key ties |
| Stats.CountSince | frontend/src/components/Dashboard.tsx:205-207 | the week count is at most the history length; it is the whole length exactly when every item is recent, and zero exactly when none is |
| Stats.CountSinceAppend | frontend/src/components/Dashboard.tsx:205-207 | the filtered count of a concatenation is the sum of the counts |
| Stats.CountSinceMonotone | frontend/src/components/Dashboard.tsx:203-207 | a later cut-off never counts more items |
| Stats.ImprovementRate | frontend/src/components/Dashboard.tsx:223 | the rate is at most 95, zero without history, and below the cap it is the floor of the percentage |
| Stats.CalculateStats | frontend/src/components/Dashboard.tsx:201-225 | the total is the history length; the week count is the number of items from the last seven days, at most the total; the rate is the capped weekly share, at most 95; the most-used category is the one picked from the tally of all tags |
| Stats.LastMaximalUses | frontend/src/components/Dashboard.tsx:209-217 | a last maximal key of the tag table is a tag used at least as often as any other |
| Stats.MostUsedCategoryCounts | frontend/src/components/Dashboard.tsx:209-217 | the most-used category is '일상대화' without tags, otherwise a tag of maximal count, the last such key in insertion order |
| Corrector.CapitaliseNames | backend/src/services/geminiService.ts:129-132 | the four whole-word capitalisations never shorten the sentence |
| Corrector.AddArticle | backend/src/services/geminiService.ts:134-136 | the article rule inserts exactly two characters when it fires and otherwise leaves the text alone |
| Corrector.NeedsArticle | backend/src/services/geminiService.ts:134 | "london snack" occurs, and neither "a london snack" nor "the london snack" does |
| Corrector.CapitaliseBuyer | backend/src/services/geminiService.ts:141-143 | the buyer rule never changes the length |
| Corrector.ImproveEnglishLocal | backend/src/services/geminiService.ts:126-146 | the local correction never shortens the sentence |
| Corrector.NoteText | backend/src/services/geminiService.ts:153-170 | every explanation is a non-empty message |
| Corrector.Fired | backend/src/services/geminiService.ts:151-167 | a note is given exactly when it is one of the rules and its condition holds |
| Corrector.FiredAscending | backend/src/services/geminiService.ts:151-167 | the notes come in the order the rules run |
| Corrector.AnalyzeCorrectionsLocal | backend/src/services/geminiService.ts:148-174 | between one and four notes in rule order; each rule's note present exactly when its condition holds; an unchanged sentence gives exactly "Good job!", which appears only alone |
| Corrector.NoteTexts | backend/src/services/geminiService.ts:148-174 | one message per note, in order |
| Corrector.NoteTextInjective | backend/src/services/geminiService.ts:153-170 | different notes have different messages |
| Corrector.NoteInitials | backend/src/services/geminiService.ts:153-170 | the first two characters of each message |
| Corrector.EntryRanks | backend/src/services/geminiService.ts:179-201 | the three vocabulary entries are distinct and ranked snack, bought, London |
| Corrector.ThreePicks | backend/src/services/geminiService.ts:177-203 | three conditional pushes give at most three entries, each present exactly when its condition holds, in push order |
| Corrector.ExtractVocabularyLocal | backend/src/services/geminiService.ts:176-204 | at most three entries, in the order snack, bought, London, each present exactly when its substring trigger holds |
| Corrector.CategorizeSentenceLocal | backend/src/services/geminiService.ts:206-249 | one or two tags; the first follows the priority chain IT/기술, 비즈니스, 음식, 쇼핑, 여행, else 일상대화; a second tag is present exactly when a past-tense cue is found, and it is 과거시제 |
| Corrector.AboutTechnology | backend/src/services/geminiService.ts:211-215 | some technology keyword occurs in the lower-cased Korean or English |
| Corrector.AboutBusiness | backend/src/services/geminiService.ts:219-220 | some business keyword occurs in the lower-cased Korean or English |
| Corrector.AboutFood | backend/src/services/geminiService.ts:224-225 | some food keyword occurs in the lower-cased Korean or English |
| Corrector.AboutShopping | backend/src/services/geminiService.ts:229-230 | some shopping keyword occurs in the lower-cased Korean or English |
| Corrector.AboutTravel | backend/src/services/geminiService.ts:234-235 | some travel keyword occurs in the lower-cased Korean or English |
| Corrector.Topic | backend/src/services/geminiService.ts:211-241 | the first tag: the first topic of the `else if` chain whose test holds, else 일상대화 |
| Corrector.InPastTense | backend/src/services/geminiService.ts:243-244 | a Korean past ending, "ed" anywhere in the English, or one of was, were, had, did as a whole word |
| Corrector.LocalCorrection | backend/src/services/geminiService.ts:113-123 | the local result's sentence is `improveEnglishLocal`'s, its explanations are the analysis of that sentence, its vocabulary is the local extraction (at most three entries) and its tags the local categorisation (one or two) |
| Corrector.OrDefault | backend/src/services/geminiService.ts:61 | `x \|\| d`: the field when it is a non-empty string, the default otherwise |
| Corrector.MapVocab | backend/src/services/geminiService.ts:63-67 | each vocabulary element maps to one entry, in order |
| Corrector.NormalizeReply | backend/src/services/geminiService.ts:60-69 | exactly one tag, defaulting to '기타'; a missing or empty correction falls back to the user's English; non-arrays become empty lists; each vocabulary field defaults to ''; a null element is a failure |
| Corrector.CorrectWithModel | backend/src/services/geminiService.ts:57-97 | the normalised reply when there is one, the local result on every failure |
| Corrector.KeyUsable | backend/src/services/geminiService.ts:102 | a key is configured and is not blank after trimming |
| Corrector.Accepted | backend/src/services/geminiService.ts:106 | the first explanation is not the service-error notice (an empty list passes, as `undefined` differs from the notice) |
| Corrector.CorrectEnglish | backend/src/services/geminiService.ts:101-124 | without a usable key the local result; with one, the model path's result when it is not led by the service-error notice and the local result when it is; so never a result led by that notice |
| Corrector.NoteNotServiceError | backend/src/services/geminiService.ts:106 | no local explanation equals the service-error notice |
| Corrector.LocalAccepted | backend/src/services/geminiService.ts:106-123 | the local result always passes the service-error check |
| CorrectorProperties.ImproveIgnoresKorean | backend/src/services/geminiService.ts:126-146 | the local correction does not depend on the Korean sentence |
| CorrectorProperties.ImproveLeavesCleanText | backend/src/services/geminiService.ts:129-143 | a sentence with no name to capitalise and no rule trigger comes back unchanged |
| CorrectorProperties.CapitaliseNamesClean | backend/src/services/geminiService.ts:129-132 | without whole-word names the capitalisations change nothing |
| CorrectorProperties.WordAtStart | backend/src/services/geminiService.ts:129 | a whole-word occurrence starts with the word's first letter in either case, after a non-word character |
| CorrectorProperties.NoWholeWordByStarts | backend/src/services/geminiService.ts:129 | ruling out each candidate first letter rules out the word |
| CorrectorProperties.GluedHasNoName | backend/src/services/geminiService.ts:129-132 | after a word character, "london snack" holds none of the four capitalised names as a whole word |
| CorrectorProperties.PieceHasNoName | backend/src/services/geminiService.ts:129-132 | the glued and underscore-led pieces hold no name as a whole word, and the article-fixed piece holds none but "london" |
| CorrectorProperties.TailHasNoNames | backend/src/services/geminiService.ts:129-132 | "_london snack" holds none of the four names as a whole word |
| CorrectorProperties.FixedHasOnlyLondon | backend/src/services/geminiService.ts:129 | in "xa London snack" the only whole-word "london" starts at position 3 |
| CorrectorProperties.GluedFindsSnack | backend/src/services/geminiService.ts:134-135 | the first "london snack" of "xlondon snack" is at position 1 |
| CorrectorProperties.GluedNeedsArticle | backend/src/services/geminiService.ts:134 | the article rule's condition holds for "xlondon snack" |
| CorrectorProperties.GluedGetsArticle | backend/src/services/geminiService.ts:134-136 | the article rule turns "xlondon snack" into "xa London snack" |
| CorrectorProperties.ArticleRuleFires | backend/src/services/geminiService.ts:126-146 | the local correction of "xlondon snack" is "xa London snack": the article rule can fire |
| CorrectorProperties.WordAtAppend | backend/src/services/geminiService.ts:129 | a whole word in a concatenation lies in one of its halves when the joint starts with a letter foreign to the word |
| CorrectorProperties.NoWholeWordAppend | backend/src/services/geminiService.ts:129 | such a concatenation has no whole word when neither half has one |
| CorrectorProperties.SubstringAtAppend | backend/src/services/geminiService.ts:134 | an occurrence in a concatenation lies in one half when the joint character is foreign to the pattern |
| CorrectorProperties.NotIncludedAppend | backend/src/services/geminiService.ts:134 | such a concatenation includes the pattern only when one half does |
| CorrectorProperties.FoundAt | backend/src/services/geminiService.ts:135 | the first occurrence is found where it starts when no earlier character begins the pattern |
| CorrectorProperties.TwiceHasNoNames | backend/src/services/geminiService.ts:129-132 | the two-snack example has no whole-word name to capitalise |
| CorrectorProperties.TwiceGetsOneArticle | backend/src/services/geminiService.ts:134-136 | the article rule fixes only the first of its two bare "london snack"s |
| CorrectorProperties.FirstRun | backend/src/services/geminiService.ts:126-146 | the first correction of the two-snack example |
| CorrectorProperties.OnceKeepsLondon | backend/src/services/geminiService.ts:129 | capitalising the once-corrected text changes nothing |
| CorrectorProperties.OnceKeepsOtherNames | backend/src/services/geminiService.ts:130-132 | the once-corrected text holds no other whole-word name |
| CorrectorProperties.OnceIncludesSnack | backend/src/services/geminiService.ts:134 | the once-corrected text still includes a bare "london snack" |
| CorrectorProperties.OnceLacksArticles | backend/src/services/geminiService.ts:134 | the once-corrected text includes neither "a london snack" nor "the london snack" |
| CorrectorProperties.OnceStillNeedsArticle | backend/src/services/geminiService.ts:134 | the once-corrected text still meets the article rule's condition |
| CorrectorProperties.ImproveNotIdempotent | backend/src/services/geminiService.ts:129-143 | a second correction of the once-corrected example grows it by two more characters, so correcting twice differs from correcting once |
| Tutor.Validate | frontend/src/components/EnglishTutor.tsx:57-68 | fails, with the missing-input message, exactly when either trimmed field is empty; otherwise the request carries both fields trimmed |
| Tutor.PrependCapped | frontend/src/components/EnglishTutor.tsx:98 | the new item first, then the old history in order, cut to `min(100, old + 1)` items |
| Tutor.FailureMessage | frontend/src/components/EnglishTutor.tsx:79-106 | a `TypeError` mentioning fetch gives the cannot-connect message; every other failure the prefixed message, an HTTP error with its status and body |
| Tutor.HistoryEntry | frontend/src/components/EnglishTutor.tsx:87-95 | the saved item carries the trimmed inputs, the delivered sentence and tags, and the submission time |
| Tutor.TutorPage.constructor | frontend/src/components/EnglishTutor.tsx:46-50 | empty inputs, no result, no error, not loading, over the saved history |
| Tutor.TutorPage.Edit | frontend/src/components/EnglishTutor.tsx:46-47 | typing changes only the two inputs |
| Tutor.TutorPage.HandleSubmit | frontend/src/components/EnglishTutor.tsx:54-110 | blank input: the error is set, nothing is sent and nothing else changes; otherwise the trimmed request is sent, loading ends, a delivered result is shown and prepended to the history, and a failure sets its message and leaves the history alone |
| Tutor.TutorPage.HandleReset | frontend/src/components/EnglishTutor.tsx:112-117 | both inputs, the result and the error are cleared; loading and the history are kept |
| Tutor.HistoryStaysBounded | frontend/src/components/EnglishTutor.tsx:98 | the history holds between 1 and 100 items after a prepend; below the cap it is exactly the item followed by the old history |

## Left out

- Rendering: the React and MUI layout, the tag-to-style switch of the diff view and the dashboard's other components are not modelled. Only the space separator of the diff view is.
- The network:
  - The tutor page's `fetch` is the `Outcome` parameter of `HandleSubmit`.
  - The language-model call, its prompt and the regular expression that extracts the JSON object are the `ModelOutcome` parameter. Their outcomes are a failed call, a reply without JSON, or the parsed object.
- The clock: `Date.now()`, `new Date()` and `toISOString()` are parameters, and timestamps are integers of milliseconds.
- Storage: `localStorage` and the JSON round trip of the history are the `history` field of `TutorPage`. That round trip turns the `Date` timestamp into a string and back.
- Speech synthesis, audio playback, the dashboard's history sort, clearing the history and `aiService.ts` are not modelled. These are I/O or code outside the correction path.
- The Express server and its routes are not part of this model.
- Stats.ImprovementRate: it uses exact integer division. The source computes `(thisWeek / total) * 100` in floating point, which can fall just below an integer: 29/100*100 floors to 28, where the model gives 29.
- Stats.Bump: every tag is an ordinary key of the tally. The source's tally starts from `{}`, so a tag naming an `Object.prototype` member breaks it. For "constructor" or "toString", `acc[cat] || 0` reads the inherited function and the count becomes a string. A "__proto__" tag is never counted. Tags are free text from the language model, so such tags can occur.
- Stats.MostUsed: for the same reason, a tag such as "constructor" can win in the source because every `>` against its string count is false; the model compares numbers only. With tags ["A", "A", "constructor"] the source picks "constructor" and the model "A".
- Stats.MostUsed: it takes keys in insertion order. `Object.keys` lists integer-like keys first, in numeric order, which is not modelled.
- JsStrings.Lower: only ASCII letters are lowered. The full Unicode `toLowerCase` of other scripts is not modelled; Hangul has no case, so the Korean keywords are unaffected.
- JsStrings.Split: strings are sequences of Unicode scalar values; JavaScript's UTF-16 code units and surrogate pairs are not modelled.
- Corrector.CapitaliseNames: its own contract states only that the text never shrinks.
  - Each same-length capitalisation ("london", "chuchu", "seattle") is described fully by `JsStrings.ReplaceWordsMeaning`.
  - "newyork" becoming "New York" changes the length. It is described only step by step, by `ReplaceWordsFirstMatch` and `ReplaceWordsNoMatch`.
  - No single statement about all four rewrites together is proved.
- Corrector.CapitaliseBuyer: the rule at lines 141-143 can never fire, since "chuchu" inside "snack that chuchu bought" is already a whole word capitalised at line 130. This is not proved.
- Corrector.ImproveEnglishLocal: idempotence does not hold and is not claimed. `CorrectorProperties.ImproveNotIdempotent` exhibits a sentence whose second correction differs from the first.
- Corrector.NormalizeReply: reply fields are taken to be strings, string arrays or absent. Truthy non-string values (numbers, objects) passed through `||` and the elements of `improvements` are not modelled.
- Tutor.HistoryEntry: one clock reading `now` stands for both `Date.now()` (the id) and the later `new Date()` (the timestamp), and the ISO date is a separate parameter. In the source the three readings can differ by a few milliseconds.
- Tutor.TutorPage.HandleSubmit: the asynchronous interleaving is collapsed into one atomic update. The intermediate `loading = true` render and a second submission during the request are not modelled.
- The diff's symmetry under swapping the two sentences does not hold and is not claimed; `DiffExample.SwapIsNotMirror` shows a pair for which it fails.
