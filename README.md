# Page summary, concept highlighting and quiz: a verified model

This project models, in Dafny, the algorithmic core of a browser extension
that reads a web page, condenses its text for a summarizer, mines "concept"
terms from the summary, highlights the first occurrence of each concept in
the page, and turns a language model's JSON reply into a four-question quiz.

The model has one module per concern:

- `Chars` — JavaScript whitespace (`\s`, `trim`), ASCII word classes, ASCII
  `toLowerCase`, `trim`, `join`, and run collapsing (`replace(/x+/g, " ")`).
- `OrderedMaps` — a JavaScript `Map` as an association list in insertion
  order. The stable sorts that rank concepts break ties by this order.
- `TextNormalize` — `normalize` (sidepanel.js, quiz.js) and `normalizeText`
  (content-script.js). The three are textual copies, and one function serves
  all three.
- `Condense` — `splitSentences` and `condenseFast`, shared by sidepanel.js and
  quiz.js. The loop is a method, specified by a step function over the loop
  state.
- `Concepts` — the stop lists, `tokenizeLower`, `countWordFreq`,
  `wordsAreMostlyStop`, `cleanTerm`, `appearsInPage`, `scoreCandidates` and
  `topByScore`.
- `Mining` — the four candidate scanners of `extractKeyConceptsFromSummary`:
  bold, code, Title-Case, and bigram/trigram counts.
- `Backfill` — `ensureMinConcepts`.
- `Highlight` — `escapeRx`, the `norm` of content-script.js, the
  whole-word alternation matcher, `highlightTerms`, `unhighlightAll` and the
  `HIGHLIGHT_CONCEPTS` handler, on a page body modelled as a sequence of
  nodes.
- `Quiz` — `safeParseJSON` over an abstract `JSON.parse`, the question
  normalisation of `generateQuiz`, the URL gate of `extractFromPage`, and the
  popup's `QUIZ`/`SCORE` state.

Regular expressions are written as explicit scanners over characters. Each
scanner follows the engine's leftmost-first, lazy or greedy choice. The
line lengths 25 and 90, the candidate scores 6, 5, 4 and 3, the backfill
minimum 6 with its frequency 2 and word length 5, and the extractor's 12
are named constants; the key length 4, the gram-word length 3 and the
answer range 0..3 are written where they are used. The 8000-character cap
is the `charCap` parameter of `condenseFast`, which both callers pass
(sidepanel.js:354, quiz.js:204). The stop-word ratio `stop / n >= 0.5` is
written as `2 * stop >= n`.

The page body is a flat sequence of nodes in document order:
`Text(value, parent)`, `Mark(text, concept, parent)` for a `mark.psh-mark`,
and `Opening(parent, child)` where the element `child` starts inside
`parent`. An `Element` carries an identity, its tag name, whether it lies
inside a `mark.psh-mark` (`closest`), and whether its computed `display` is
`none`. Two text nodes of one parent are DOM siblings exactly when they are
neighbours in the sequence. The subtree of an element is found by following
the openings in document order, and `parent.normalize()` merges the
neighbouring text nodes of every element of that subtree and drops its
empty ones.

Which occurrence gets the mark is stated over `Hit(at, text)`, a match
placed at its offset in the body's text content. `ReportedHits` lists every
match `rx.exec` reports in the collected nodes, in walk order, as if the
loops never stopped early. `FirstHits` keeps the first hit of each `norm`.
Hits are compared by their lower-cased text, which for a match of a wanted
term is its `norm` (`Highlight.HitsShape`).

## Model

| member | source | states |
|---|---|---|
| `TextNormalize.NormalizeShape` | sidepanel.js:118-126 | `normalize` leaves no `\r`, no U+00A0, no tab, no run of two blanks, no blank right after a newline, no three newlines in a row, and no whitespace at either end |
| `TextNormalize.NormalizeFixpoint` | content-script.js:26 | text already in that canonical form passes through `normalizeText` (the same chain) unchanged |
| `TextNormalize.NormalizeIdempotent` | quiz.js:33-36 | applying `normalize` twice gives the same result as applying it once |
| `TextNormalize.RemoveCarriageReturns` | sidepanel.js:120 | the result holds no `\r`, adds no character, and is the input itself when there was no `\r` |
| `TextNormalize.ReplaceNbsp` | sidepanel.js:121 | each U+00A0 becomes a space, everything else is kept in place |
| `Chars.TrimSpec` | sidepanel.js:125 | `trim` gives a trimmed slice of its input and leaves a trimmed string alone |
| `Chars.CollapseRunsFixpoint` | sidepanel.js:122 | collapsing runs changes nothing in text that has no two neighbouring run characters |
| `Chars.SplitRunsJoin` | sidepanel.js:134 | splitting on newline runs and joining the pieces with one newline gives the runs-collapsed text |
| `Condense.FirstSentenceIsPrefix` | sidepanel.js:127-132 | the first `splitSentences` piece of a trimmed line is a non-empty prefix of it: the whole line when there is no `[.!?]` + whitespace + opener boundary, otherwise the text up to and including the first such mark |
| `Condense.Lines` | sidepanel.js:134 | every candidate line is non-empty, trimmed, and holds no newline |
| `Condense.Condensed` | sidepanel.js:150-152 | the output of `condenseFast` is never longer than `charCap`, for every input and every cap |
| `Condense.CondenseFast` | sidepanel.js:133-153 | the loop with its `dedup` set, `keep` list and early break computes `Condensed(raw, charCap)`, whose length is at most `charCap` |
| `Condense.Remember` | quiz.js:46-48 | a line is pushed and its key added exactly when the key is not yet in the set |
| `Condense.StepKeys` | sidepanel.js:138-148 | one pass keeps the dedup set equal to the keys of the kept lines, never drops a key, and holds the key of every line of at least 25 characters it examines |
| `Condense.ScanComplete` | sidepanel.js:137-149 | every line of at least 25 characters that the loop reaches before its break has its heading or sentence key among the kept lines' keys: kept then or earlier |
| `Condense.KeptLinesComplete` | sidepanel.js:133-149 | the same for `condenseFast`: each reached line of at least 25 characters is represented by a kept line with its key |
| `Condense.ScanBreak` | sidepanel.js:145-148 | the loop stops before the last line only right after a non-heading line of at least 25 characters whose joined kept text reached the cap |
| `Condense.KeptLinesBreak` | sidepanel.js:145-148 | the same for `condenseFast`, from the first line |
| `Condense.ScanHeadingsIgnoreCap` | sidepanel.js:138-144 | headings and short lines never stop the loop: on such lines every line is reached and the cap does not change what is kept, so only the final slice bounds the length |
| `Condense.KeptLinesOrigin` | quiz.js:40-52 | every kept line comes from a normalized line of at least 25 characters: the line itself if it is a heading, its first sentence otherwise |
| `Condense.KeptLinesDistinct` | sidepanel.js:141-147 | no two kept headings share a lowercase text, and no two kept first sentences share a lowercase text |
| `Condense.ScanExtends` | sidepanel.js:137-149 | each pass of the loop only appends to `keep` and keeps the dedup keys pairwise different |
| `Concepts.ListedIn` | sidepanel.js:164-172 | membership in the `STOP` and `TITLE_SINGLE_BAN` lists is membership in the listed words |
| `Concepts.Tokens` | sidepanel.js:174 | every token of `tokenizeLower` matches `[a-z][a-z0-9-]+` |
| `Concepts.TokensJoin` | sidepanel.js:174 | tokenizing tokens joined by spaces gives the tokens back |
| `Concepts.CountWordFreq` | sidepanel.js:175 | the loop filling the `Map` computes `Counts(tokens)` |
| `Concepts.CountsGet` | sidepanel.js:175 | the count stored for a token is its number of occurrences |
| `Concepts.CountsDistinct` | sidepanel.js:175 | the frequency map holds each token once |
| `Concepts.MostlyStopWord` | sidepanel.js:176-180 | a term without whitespace is "mostly stop words" exactly when its lowercase form is a stop word |
| `Concepts.CleanTermIsClean` | sidepanel.js:181-183 | `cleanTerm` leaves only word characters, hyphens and single inner spaces, trimmed |
| `Concepts.CleanTermIdempotent` | sidepanel.js:181-183 | cleaning a cleaned term changes nothing |
| `Concepts.ScoreCandidates` | sidepanel.js:192-205 | the loop updating `seen` computes `Scored(cands, pageFreq, pageRaw)` |
| `Concepts.ScoredSpec` | sidepanel.js:192-205 | the keys are distinct; a key survives exactly when it is the cleaned form of some candidate and is at least 4 long, not a lowercase stop word, fewer than half stop words, and present in the page (a phrase as a case-insensitive whole-word match, a single word counted at least twice); its value is the largest score offered for it |
| `Concepts.SortByRankSpec` | sidepanel.js:208 | the sort is a permutation, ordered by score then key length, both descending, and keeps the map order among equals (stable) |
| `Concepts.TopByScore` | sidepanel.js:206-211 | `topByScore` returns exactly `min(max, size)` keys |
| `Concepts.TopByScoreSpec` | sidepanel.js:206-211 | the keys returned are the first `max` of a stable ranking of all entries, and no entry left out outranks one returned |
| `Mining.SpansBodies` | sidepanel.js:224-233 | every bold or code body found is non-empty and holds no delimiter character |
| `Mining.SpansWrap` | sidepanel.js:224-226 | a body wrapped in `**` (or backticks) is found whole |
| `Mining.CollectSpans` | sidepanel.js:225-233 | the `regex.exec` loop pushes each non-empty cleaned body at the fixed score: 6 for bold, 5 for code |
| `Mining.SpanCandsScores` | sidepanel.js:226 | every span candidate is a non-empty cleaned body carrying the scanner's score |
| `Mining.FindTitleLeftmost` | sidepanel.js:236-237 | the Title-Case scan finds the leftmost match from `lastIndex` |
| `Mining.TitleGroupShape` | sidepanel.js:236 | a Title-Case group starts with a capital letter, ends with a lowercase letter not followed by another letter, and holds only letters and whitespace |
| `Mining.CollectTitles` | sidepanel.js:237-242 | the Title-Case loop pushes one candidate per group, in order, dropping banned single words |
| `Mining.TitleCandsScores` | sidepanel.js:238-241 | a Title-Case candidate scores 4 when it has two or three words and 3 when it has one, and a banned word never appears alone |
| `Mining.CountGrams` | sidepanel.js:245-260 | the two index loops count every bigram, then every trigram, of non-stop tokens of at least 3 characters |
| `Mining.CollectGrams` | sidepanel.js:262-266 | one candidate per gram, in map order, at its gram score |
| `Mining.GramCandsScores` | sidepanel.js:262-266 | candidate i is gram i of the count map, in map order, with the score `base + min(freq, 3) - penalty` |
| `Mining.IngPenaltyFirstWord` | sidepanel.js:263 | the `-ing` penalty applies exactly when the gram's first word is longer than three characters and ends in "ing" |
| `Mining.ExtractKeyConcepts` | sidepanel.js:214-270 | the extractor computes `KeyConcepts(summary, pageText, max)` from the four scanners, scoring and ranking |
| `Mining.KeyConceptsSpec` | sidepanel.js:214-270 | at most `max` concepts, pairwise different, each the cleaned form of a candidate and passing every filter of `scoreCandidates` |
| `Mining.TopScoredSpec` | sidepanel.js:268-269 | the same, for any candidate list |
| `Backfill.EnsureMinConcepts` | sidepanel.js:275-307 | the method computes `EnsureMin(concepts, pageText, min)` |
| `Backfill.EnsureMinSpec` | sidepanel.js:275-307 | input returned unchanged when it already has `min` distinct lowercase forms; otherwise it only appends bigrams first, then single words, each from the page pool, never a case-insensitive duplicate, never past `min`, and short of `min` only when the pool is exhausted |
| `Backfill.PoolSpec` | sidepanel.js:281-297 | a backfill candidate is lowercase and is either a bigram counted at least twice, or a non-stop word of at least 5 characters counted at least twice |
| `Backfill.PoolComplete` | sidepanel.js:281-299 | the converse of PoolSpec: every bigram counted at least twice and every non-stop word of at least 5 characters counted at least twice is in the pool; the bigrams come first, each part ordered by count, then length, both descending |
| `Backfill.FrequentBigramsComplete` | sidepanel.js:288-297 | every bigram counted at least twice is offered, ordered by count, then length |
| `Backfill.SinglesComplete` | sidepanel.js:279-285 | every non-stop word of at least 5 characters counted at least twice is offered, ordered by count, then length |
| `Backfill.RankedKeysSpec` | sidepanel.js:282-285 | filter, sort and key map give the keys of a stable ranking of exactly the entries that pass the filter, ties kept in map order |
| `Backfill.RankedCountsSpec` | sidepanel.js:282-297 | over a count map a token is ranked exactly when it passes the filter with its occurrence count, and ranked tokens come by count, then length |
| `Backfill.EnsureMinExhausts` | sidepanel.js:275-307 | when the result stays short of `min`, every bigram counted at least twice and every qualifying word is already among its lowercase forms |
| `Backfill.SummaryConcepts` | sidepanel.js:374-375 | the side panel's concepts are the twelve best extracted from the summary, topped up from the page to six |
| `Backfill.SummaryConceptsSpec` | sidepanel.js:374-375 | the result begins with at most twelve extracted concepts and is exactly those when they hold six lowercase forms; otherwise page terms are added up to six and no further |
| `Backfill.BackfillFresh` | sidepanel.js:299-305 | each appended term is a pool candidate, was not held before, and is appended once |
| `Backfill.BackfillCount` | sidepanel.js:300 | appending never takes the distinct count past `min`, and it stays short of `min` only when every pool term is already held |
| `Highlight.NormShape` | content-script.js:61 | `norm` yields lowercase text with single inner spaces and no outer whitespace |
| `Highlight.NormFixpoint` | content-script.js:61 | `norm` leaves a normalized term unchanged |
| `Highlight.EscapeRxLiteral` | content-script.js:45 | the escaped term has no live regex metacharacter and stands for exactly the term |
| `Highlight.FoundShape` | content-script.js:71-72 | a match found is a whole-word occurrence, equal up to ASCII case, of the alternative it reports, and no alternative listed earlier matches at that position |
| `Highlight.FindMatchLeftmost` | content-script.js:98 | no alternative matches between the scan position and the match found |
| `Highlight.FirstOriginalByNorm` | content-script.js:62-67 | the `forEach` loop builds `FirstByNorm(terms)` |
| `Highlight.FirstByNormSpec` | content-script.js:62-68 | each non-blank `norm` of a requested term is a wanted key mapped to the first term with that `norm`; nothing else is a key |
| `Highlight.WantedDistinct` | content-script.js:68 | the wanted keys are pairwise different |
| `Highlight.RewriteTextNode` | content-script.js:92-125 | the `while (rx.exec)` loop for one text node builds exactly the fragment `RewriteText` describes, including the early break |
| `Highlight.RewriteTextText` | content-script.js:103-125 | the fragment's pieces spell the node's original text, early break included |
| `Highlight.RewriteTextMarks` | content-script.js:105-117 | within a fragment each new mark is for a wanted term not yet marked, once, with the first-seen display form as its concept |
| `Highlight.CollectNodes` | content-script.js:77-89 | the walker collects, in document order, exactly the accepted text nodes |
| `Highlight.AcceptedFromSpec` | content-script.js:78-85 | a node is collected exactly when it is a text node whose immediate parent is not SCRIPT, STYLE, NOSCRIPT, IFRAME, CODE, PRE or MARK, does not lie in a `mark.psh-mark`, is displayed, and has a match |
| `Highlight.RewriteBody` | content-script.js:91-129 | the loop over the collected nodes replaces each by its fragment and stops once every wanted term is marked |
| `Highlight.BlocksKeepRejected` | content-script.js:76-84 | a node the walker rejects is left exactly as it was |
| `Highlight.BlocksRest` | content-script.js:122-128 | once every wanted term is marked, or no later node is accepted, the rest of the body is left as it is |
| `Highlight.HighlightedText` | content-script.js:57-130 | highlighting keeps the body's text content; an empty or all-blank term list leaves the body untouched |
| `Highlight.HighlightedMarks` | content-script.js:74-117 | on a body without marks, each wanted term gets at most one mark, so no more marks than distinct terms; each mark's concept is the first term given with that `norm` |
| `Highlight.HitsShape` | content-script.js:98-105 | the matches `rx.exec` reports in one text node come in increasing order within the node, and each one lower-cased is a wanted term and equals its `norm` |
| `Highlight.FirstHitsSpec` | content-script.js:105-117 | the hits the `alreadyHighlighted` test lets through keep their order and are exactly those whose norm is neither marked before nor the norm of an earlier hit |
| `Highlight.FirstHitsKeys` | content-script.js:105-110 | every norm among the hits ends up in `alreadyHighlighted`, through its first hit |
| `Highlight.RewriteTextFirsts` | content-script.js:96-125 | the fragment for one text node marks exactly the first reported match of each term not marked before, at the offset where `rx.exec` reported it, and records every reported term; the early break changes nothing, since it comes only once every wanted term is marked |
| `Highlight.BlocksFirsts` | content-script.js:91-129 | over the collected nodes, the marks placed are exactly the first reported match of each term not yet marked, in walk order |
| `Highlight.HighlightedFirsts` | content-script.js:57-130 | on a body without marks, the marks are exactly the first reported match of each `norm`, in walk order, each at the page offset where it was reported |
| `Highlight.HighlightedFirstOccurrence` | content-script.js:98-117 | on a body without marks, a reported match is wrapped in a mark exactly when no earlier reported match has the same `norm`; every mark is a reported match; every term reported anywhere ends up marked |
| `Highlight.Page.HighlightTerms` | content-script.js:57-130 | the body becomes `Highlighted(old body, terms)` |
| `Highlight.SubtreeSpec` | content-script.js:53 | the subtree `normalize()` works on holds the element, only elements opened inside it, and every element opened under one already in it |
| `Highlight.NormalizeSubtreeSpec` | content-script.js:53 | `parent.normalize()` keeps the text, marks and elements, and leaves no empty text node and no two neighbouring text nodes of any one element in the parent's whole subtree |
| `Highlight.NormalizeInSpec` | content-script.js:53 | the same for any set of elements |
| `Highlight.UnmarkFirstSpec` | content-script.js:50-53 | one turn replaces a mark by its text, keeps the text content and the elements, removes exactly one mark, and leaves the parent's subtree normal, so the freed text joins its neighbours |
| `Highlight.UnhighlightedSpec` | content-script.js:47-55 | `unhighlightAll` leaves no mark, keeps the text content and the elements, and changes nothing in a body without marks |
| `Highlight.UnhighlightJoinsNestedText` | content-script.js:47-55 | clearing the mark of `<p><mark>foo</mark> <b>foo bar</b></p>`, where an earlier highlight left `<b>`'s text as the two nodes `foo` and ` bar`, gives `<p>foo <b>foo bar</b></p>` with one text node in `<b>`, because `normalize()` covers the whole subtree |
| `Highlight.Page.UnhighlightAll` | content-script.js:47-55 | the body becomes `Unhighlighted(old body)` |
| `Highlight.HandlerSpec` | content-script.js:134-139 | clear-then-highlight keeps the text content, never leaves two marks for one term, and places at most as many marks as terms, whatever marks the body held before |
| `Highlight.Page.HandleHighlightConcepts` | content-script.js:133-145 | the handler clears, highlights, and reports the number of marks, which is at most the number of terms |
| `Quiz.FirstParsedSpec` | quiz.js:59-68 | trying attempts in order yields the first that parses, and nothing only when none does |
| `Quiz.SafeParseFirst` | quiz.js:59-68 | `safeParseJSON` tries the whole reply, then the first fenced block, then the `{`…`}` slice, and returns the first that parses |
| `Quiz.SafeParseSpec` | quiz.js:59-68 | a reply that parses is returned as is; `null` comes back exactly when all three attempts fail |
| `Quiz.FenceRoundTrip` | quiz.js:61 | a body written between "```json" and a line break and "```" is recovered |
| `Quiz.FenceBodyAt` | quiz.js:61 | the fenced body is the text between the first fence (with its optional `json` and whitespace) and the next fence |
| `Quiz.BraceRoundTrip` | quiz.js:63-65 | text before the first `{` and after the last `}` is cut away |
| `Quiz.FirstIndexOf` | quiz.js:63 | `indexOf` finds the first occurrence, and none when there is none |
| `Quiz.LastIndexOf` | quiz.js:63 | `lastIndexOf` finds the last occurrence, and none when there is none |
| `Quiz.NormalizeAnswerSpec` | quiz.js:272 | the answer is in 0..3: an integer is clamped to the nearer end, anything else becomes 0 |
| `Quiz.ToStrSpec` | quiz.js:270-273 | `String(v)` throws a `TypeError` exactly for an object with its own `toString` key, or an array holding such a value; a string converts to itself |
| `Quiz.Str` | quiz.js:270 | `String(x || "")` gives a string itself back, and throws exactly when `x` is a value that makes `String` throw |
| `Quiz.TextField` | quiz.js:270-273 | a text field converts and trims, throws exactly when its conversion throws, and is empty when missing |
| `Quiz.OptionsField` | quiz.js:271 | the options are at most four trimmed strings, empty when not an array, and the field throws exactly when one of the first four options makes `String` throw |
| `Quiz.OptionTexts` | quiz.js:271 | the first four options are converted and trimmed; the conversion fails exactly when one of them makes `String` throw |
| `Quiz.NormalizeQuestionSpec` | quiz.js:269-274 | building a question throws exactly for `null` or a field whose conversion throws; otherwise text, explanation and options are trimmed, at most four options are kept, the answer is in 0..3 |
| `Quiz.ReadyHead` | quiz.js:266-275 | questions none of which throws give at most as many questions, each well formed, each the normalisation of one offered that passes the filter |
| `Quiz.RetainMembers` | quiz.js:275 | the filter keeps exactly the questions with non-empty text and four options, never adds one, and keeps a list that passes it whole |
| `Quiz.RetainAppend` | quiz.js:275 | the filter keeps the input order |
| `Quiz.NormalizeQuizSpec` | quiz.js:260-275 | no quiz exactly when `questions` is missing or empty; a `TypeError` exactly when `questions` is not an array or one of its first four throws; otherwise at most four questions, no more than offered, each well formed, and each the normalisation of one of the first four offered |
| `Quiz.ToStringKeyThrows` | quiz.js:266-285 | a question whose text is an object with its own `toString` key makes the normalisation throw, so the old quiz is kept |
| `Quiz.EncodedQuiz` | quiz.js:218-275 | a reply following the schema, with one to four well-formed questions, gives exactly those questions: nothing padded, nothing changed |
| `Quiz.GateOf` | quiz.js:88-109 | with a tab, a restricted URL (`chrome://`, `edge://`, `about:`, `chrome-extension://`, `chromewebstore://`) is refused; extraction happens only after injection into a `file://` or `http(s)://` page; any other URL is unsupported |
| `Quiz.GateSpec` | quiz.js:93-106 | a restricted URL never reaches extraction; extraction happens exactly for an injectable `file://` or web URL; every other non-injection failure switches to custom input |
| `Quiz.TotalOf` | quiz.js:395-397 | the displayed total is always 1 to 4: the number of questions when there are one to four, and 4 when there are none or more than four |
| `Quiz.QuizPopup.constructor` | quiz.js:152-153 | `QUIZ` starts as `null` and `SCORE` as 0 |
| `Quiz.QuizPopup.Generate` | quiz.js:158-286 | the score and the marked cards are cleared at once; `QUIZ` is replaced only when the reply normalises to a quiz, and is otherwise kept |
| `Quiz.QuizPopup.Reset` | quiz.js:288-293 | `QUIZ` becomes `null` and the score 0 |
| `Quiz.QuizPopup.Click` | quiz.js:353-393 | a click is ignored when no cards are shown, the question does not exist, or its card is already marked; otherwise the card is marked and the score rises by 1 exactly when the chosen index is the answer; `QUIZ` is unchanged |
| `Quiz.ScoreBound` | quiz.js:362-377 | the score never exceeds the number of answered questions, which never exceeds the number of questions, at most four |

## Left out

- Chrome messaging, tab queries, content-script injection, the side panel and popup openers (background.js) are not modelled: they are host I/O. `ensureContentScript` succeeding is the input flag `injected` of `Quiz.GateOf`.
- The summarizer and language-model sessions, the prompts, multimodal `append` and `explainConcept` are external services. Their reply is an input (`reply` of `Quiz.QuizPopup.Generate`).
- `withTimeout` is a timer race: concurrency and timing, not modelled.
- `JSON.parse` is the abstract partial function `parse`. `String(number)` is the text each `JNum` carries.
- `getComputedStyle(p).display === "none"` is the `hidden` flag of an element, and `p.closest("mark.psh-mark")` is its `insideMark` flag.
- `chooseMainRoot`, `stripBoilerplate`, the 60,000-character cap of page extraction, and the concept-click relay are DOM plumbing, not modelled.
- The UI is not modelled: `renderQuiz` DOM building, explanations, status text, the segmented style chooser and the concept history chips. The popup's cards are the `answered` set and the `shown` flag.
- Case folding is ASCII only, and `\b` and `\w` are ASCII. Lengths count Unicode scalar values rather than UTF-16 code units, so text outside the Basic Multilingual Plane is measured differently from JavaScript.
- `(s || "")` on a missing string is not modelled: every text input is a string.
- `Backfill.EnsureMinConcepts`: returns the extended sequence instead of pushing into the caller's array; the only caller uses the returned value, so aliasing of that array is not modelled.
- `Highlight.Page.HighlightTerms`: the document tree is the flat node sequence above; `replaceChild` of a fragment is the splice of its pieces in place of the text node.
- A `TypeError` thrown while normalising is the `Failed` outcome, after which `QUIZ` is kept. It is thrown by a non-array `questions` that has a length, by a `null` among the first four questions, and by `String` on an object with its own `toString` key or an array holding one (in the text, the first four options or the explanation). The error message is not modelled.
- `Highlight.UnhighlightedSpec`: states no mark left, the text content and the elements kept, but not that every former mark's parent ends normal. Each turn's merge is `Highlight.UnmarkFirstSpec`. Carrying it to the end would need an invariant about the tree shape that the flat sequence does not record: later turns act on other subtrees.
