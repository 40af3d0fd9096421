# detect-unfair-terms: retrieval and text-reduction core in Dafny

This project models the decision logic of a browser extension that checks the
terms and conditions a user is asked to accept. Before a terms text goes to a
generative-text service, the extension's background script does three things:

- it shortens each clause text (`summarizeTerms`);
- for each shortened text, it retrieves the most relevant clauses of a small
  legal knowledge base (`loadLawKB`, `detectTermsCategory`,
  `calculateRelevance`, `searchRelevantLaws`);
- it merges the retrieved clauses by id.

When the reply comes back, it strips the reply down to its JSON text. The
popup then picks a view from the tab's badge and the stored analysis, labels
each recommendation, and says how long ago the analysis was made.

Modules, one per part of the source:

- `Wrappers`: `Option`.
- `JsText`: the JavaScript string operations the code relies on. These are the
  `\s` character class, ASCII `toLowerCase`, `includes`, `indexOf`,
  `lastIndexOf`, `trim`, `split(/\s+/)`, and a same-line `a.*b` match.
- `LawKnowledge`: the clause record and the lazily loaded knowledge-base
  cache. The cache is a class with the two module fields `lawKB` and
  `lawKBLoaded`.
- `Category`: `detectTermsCategory` as a first-match-wins rule table.
- `Scoring`: `calculateRelevance`. The function `Relevance` is the
  specification; `AccumulateScore` and `CalculateRelevance` are the
  accumulating loops, proved equal to it.
- `Ranking`: the stable descending sort by score. The function `SortDesc` is
  the specification; `SortByScoreDesc` is an in-place insertion sort on an
  array, proved equal to it.
- `Retrieval`: `searchRelevantLaws`. It scores, sorts, keeps positive scores
  and takes `limit`. `Retrieve` is the specification. The lemmas say what it
  guarantees: it is bounded, positive, ordered, stable on ties, and complete
  up to the cut-off.
- `Whitespace`: the two regular-expression replaces at the end of
  `summarizeTerms`.
- `Summary`: the rest of `summarizeTerms`. That is the paragraph split,
  the keyword filter, the fallback prefix, and the blocks it returns.
- `Merge`: the `Map` keyed by clause id that de-duplicates the retrieved
  clauses.
- `ReplyText`: the fence stripping and JSON-start search on the reply.
- `Popup`: the view choice, the recommendation lookups and the
  `formatTimestamp` buckets.

Three behaviours of the code that the model keeps as they are:

- The knowledge-base load has no single-flight guard. It is a flag checked
  before an `await`.
- A long text reduced to its keyword paragraphs is not bounded by 3000
  characters. Only the fallback branch is. `Summary.ReducedLength` states the
  bound that does hold.
- A knowledge-base file holding `null` leaves the flag set and the cache
  `null`. The log line then throws inside the `try`, so the call returns `[]`.

## Model

| member | source | states |
|---|---|---|
| LawKnowledge.LawKnowledgeBase.constructor | background.js:7-8 | The cache starts empty (`lawKB` is null) and not loaded. |
| LawKnowledge.LawKnowledgeBase.Load | background.js:11-24 | Once loaded, it returns the cached value and changes nothing. A successful read caches the records, sets the flag and returns them. A `null` file sets the flag, caches null and returns `[]`. A failed read returns `[]` and leaves the flag clear, so the next call retries. A cached clause set always comes with the flag set. |
| Category.Category.Name | background.js:79-82 | The detector only ever returns one of `privacy`, `marketing`, `third-party`, `terms`. |
| Category.FirstFiring | background.js:79-82 | The index of the first rule that fires: no earlier rule fires, and the one at the index does. |
| Category.DetectTermsCategory | background.js:77-83 | Each of the four results holds exactly when its rule fires and no earlier rule does. `terms` holds exactly when no rule fires. |
| Category.PrivacyWinsOverMarketing | background.js:79-80 | A text containing "개인정보" is `privacy`, whatever marketing words it also holds. |
| Category.HyphenatedThirdPartyIsTerms | background.js:81 | An example: the text "third-party", hyphenated, fires no rule and falls through to `terms`, because the rule's keyword is "third party" with a space. |
| Scoring.PatternNeedsItsWords | background.js:58-67 | A rule pattern matches only a text that holds its words: both words for `a.*b\|b.*a`, one of the listed words for `w1\|w2`. |
| Scoring.LawRulesDisjoint | background.js:58-64 | No clause id is listed by two of the five rules. |
| Scoring.TitleHits | background.js:41-46 | Title tokens longer than two characters found in the text, counted with repetition; at most the number of tokens. |
| Scoring.KeyTermHits | background.js:49-55 | Key terms found in both snippet and text; at most the number of key terms. |
| Scoring.RuleHits | background.js:58-70 | Rules that match the text and list the id; at most the number of rules. |
| Scoring.CountTitleHits | background.js:41-46 | The `forEach` over the title tokens adds exactly 10 points per token longer than two characters that the text contains. |
| Scoring.CountKeyTermHits | background.js:49-55 | The `forEach` over the 16 key terms adds exactly 5 points per term found in both the snippet and the text. |
| Scoring.CountRuleHits | background.js:66-70 | The `forEach` over the rules adds exactly 20 points per rule whose pattern matches the text and whose list holds the id. |
| Scoring.BaseScore | background.js:28-70 | A matching category alone gives at least 30 points. The score is 0 exactly when the category does not match and no title token, key term or rule hits. |
| Scoring.EffectiveWeight | background.js:73 | `weight \|\| 1.0`: a missing weight and a weight of 0 both give 1.0, so the factor is never 0. A non-zero weight is used as given. A non-negative weight gives a positive factor. |
| Scoring.ScaledZero | background.js:73 | Scaling by `weight \|\| 1.0` gives 0 only for a score of 0; without a weight the score is kept as it is. |
| Scoring.Relevance | background.js:27-74 | Without a weight the relevance is the base score. It is 0 exactly when the base score is 0. |
| Scoring.AccumulateScore | background.js:28-70 | The three accumulating loops yield exactly the base score: 30 for a matching category, plus 10 per hit title token, 5 per shared key term, and 20 per fired rule listing the id. |
| Scoring.CalculateRelevance | background.js:27-74 | The result is the base score times `weight \|\| 1.0`. |
| Scoring.RelevanceNonNegative | background.js:27-74 | With a missing or non-negative weight, the relevance is at least 0. It is positive exactly when the base score is. |
| Scoring.DisjointRulesHitAtMostOnce | background.js:58-70 | When no id is listed by two rules, at most one rule fires for a clause. |
| Scoring.RuleBonusZeroOrTwenty | background.js:58-70 | The five id lists are disjoint, so a clause's rule bonus is 0 or 20. |
| Scoring.CategoryBonusNeedsExactName | background.js:35-38 | A clause whose raw category is not one of the four detector names never earns the category bonus. |
| Scoring.BaseScoreBound | background.js:27-70 | The base score is at most 30 + 10·(title tokens) + 5·16 + 20. |
| Ranking.Ties | background.js:104 | The entries of a given score, in order; never longer than the input. |
| Ranking.InsertPermutes | background.js:104 | Inserting one entry adds exactly that entry to the multiset. |
| Ranking.InsertKeepsOrder | background.js:104 | Inserting into a non-increasing sequence keeps it non-increasing. |
| Ranking.SortDesc | background.js:104 | The sorted sequence is a permutation of the input and non-increasing by score. |
| Ranking.SortDescStable | background.js:104 | For every score, the entries with that score keep their input order. |
| Ranking.InsertAt | background.js:104 | Insertion puts the entry after every entry of equal or higher score and before the lower ones. |
| Ranking.InsertInto | background.js:104 | One step of the in-place sort: the first i+1 cells become the insertion of cell i into the sorted prefix, and the rest is untouched. |
| Ranking.SortByScoreDesc | background.js:103-104 | The array, sorted in place, equals the stable descending sort of its old contents. |
| Retrieval.ScoreAll | background.js:97-100 | Every entry carries the score of its own clause, and the clauses are the knowledge base, in order. |
| Retrieval.Positive | background.js:105 | The filter never lengthens the sequence. |
| Retrieval.PositiveIsFilter | background.js:105 | An entry is kept exactly when it is in the input and its score is above 0. |
| Retrieval.Take | background.js:106 | `slice(0, limit)` is a prefix of length `limit`, or the whole sequence when it is shorter. |
| Retrieval.Laws | background.js:107 | One clause per entry, the entry's own, in order. |
| Retrieval.TopBy | background.js:103-107 | The pipeline returns at most `limit` clauses and never more than the knowledge base holds. |
| Retrieval.Retrieve | background.js:97-107 | Retrieval by relevance returns at most `limit` clauses and never more than the knowledge base holds. |
| Retrieval.PositiveIsPrefix | background.js:105 | On a sorted sequence, keeping scores above 0 keeps a prefix. Everything in it is positive, and nothing after it is. |
| Retrieval.TopBounded | background.js:103-107 | At most `limit` clauses. Each is in the knowledge base, with a positive score. |
| Retrieval.TopOrdered | background.js:103-107 | The returned clauses come in non-increasing score order. |
| Retrieval.TopComplete | background.js:103-107 | When fewer than `limit` come back, every clause with a positive score is among them. |
| Retrieval.TopCutoff | background.js:103-107 | No clause left out scores higher than a returned one. |
| Retrieval.TopStable | background.js:103-107 | For every score, the returned clauses with that score are a prefix of the knowledge base's clauses with that score, in order. |
| Retrieval.TopEmpty | background.js:91-94 | An empty knowledge base or a limit of 0 gives nothing. |
| Retrieval.RetrieveBounded | background.js:86-107 | Retrieval by relevance returns at most `limit` clauses of the knowledge base, each with positive relevance. |
| Retrieval.RetrieveOrdered | background.js:103-107 | The clauses come in non-increasing order of relevance. |
| Retrieval.RetrieveCutoff | background.js:103-107 | No omitted clause is more relevant than a returned one. |
| Retrieval.RetrieveComplete | background.js:103-107 | A short answer holds every clause with positive relevance. |
| Retrieval.RetrieveStable | background.js:103-107 | Clauses of equal relevance keep their knowledge-base order. |
| Retrieval.ScoreClauses | background.js:97-100 | A new array pairing each clause with its relevance, in knowledge-base order. |
| Retrieval.SearchRelevantLaws | background.js:86-112 | It loads the cache if needed, with the same state changes as `Load`. With no knowledge base it returns `[]`. Otherwise it returns exactly `Retrieve` of the text, the cached clauses and the limit. |
| Whitespace.NlRun | background.js:167 | The length of the run of newlines at the front. |
| Whitespace.CollapseNewlines | background.js:167 | `\n{3,}` → `\n\n` never lengthens the text and keeps a first character that is not a newline. |
| Whitespace.CollapseNewlinesLeavesPairs | background.js:167 | After the first replace no three newlines in a row remain. |
| Whitespace.CollapseWhitespace | background.js:167 | `\s{2,}` → space never lengthens the text. It keeps whether the text starts with whitespace, and leaves no two neighbouring whitespace characters. |
| Whitespace.CollapseKeepsContent | background.js:167 | Collapsing keeps every non-whitespace character, in order. |
| Whitespace.CollapseIdempotent | background.js:167 | Collapsing twice is the same as once. |
| Whitespace.Normalize | background.js:167 | The two replaces together never lengthen the text. |
| Whitespace.NewlinePassRedundant | background.js:167 | The `\n{3,}` pass makes no difference: the whole normalisation equals the `\s{2,}` pass alone. |
| Whitespace.NormalizeSingleSpaced | background.js:167 | After normalisation no two neighbouring characters are whitespace, so no `\n\n` paragraph break survives. |
| Whitespace.NormalizeIdempotent | background.js:167 | Normalising twice is the same as once. |
| Whitespace.NormalizeKeepsContent | background.js:167 | The normalisation keeps every non-whitespace character, in order. |
| Summary.BreakAt | background.js:149 | The position of the first `\n\n`, with no blank line before it. |
| Summary.Paragraphs | background.js:149 | `split(/\n\n+/)` gives at least one piece, and no piece holds a blank line. |
| Summary.ParagraphsRoundTrip | background.js:149 | The text is exactly its pieces with one separator between neighbours, each separator a run of two or more newlines. No piece holds a blank line, a piece before a separator does not end with a newline, a piece after one does not start with a newline, and no piece between two separators is empty, so each separator is a whole run of newlines. |
| Summary.Important | background.js:150-154 | The filter never keeps more paragraphs than it was given. |
| Summary.ImportantIsFilter | background.js:150-154 | A paragraph is kept exactly when it holds a section keyword and is longer than 50 characters. |
| Summary.ImportantSnoc | background.js:150-154 | The kept paragraphs grow one paragraph at a time, as the loop pushes. |
| Summary.JoinInterleaves | background.js:158 | `join` puts exactly one separator between neighbouring parts and adds nothing else. |
| Summary.Reduced | background.js:139 | A text of at most 3000 characters is left as it is before normalisation. |
| Summary.ParagraphsJoinShorter | background.js:149-158 | Re-joining the paragraphs with `\n\n` never lengthens the text. |
| Summary.ImportantJoinShorter | background.js:150-158 | Joining only the kept paragraphs never gives more than joining all of them. |
| Summary.ReducedLength | background.js:139-164 | The reduction is at most as long as the input, or exactly 3000 characters plus the marker. |
| Summary.ReducedLongText | background.js:139-164 | A text over 3000 characters becomes exactly its important paragraphs, all of them and no others, joined by `\n\n` in their order. With none, it becomes its first 3000 characters followed by the marker. |
| Summary.SummarizedShape | background.js:139-167 | The summary is no longer than the input or the fallback, and it is single-spaced. |
| Summary.ShortTextOnlyNormalized | background.js:139-167 | A text of at most 3000 characters is only normalised, so it loses only whitespace. |
| Summary.SummarizedStable | background.js:139-167 | Summarising a short text twice is the same as once. |
| Summary.ReduceText | background.js:136-167 | The push loop and the reassignments of `text` yield exactly the specified summary. |
| Summary.KindOf | background.js:171 | An absent or empty feature type reads as `unknown`; any other type is kept. |
| Summary.SummarizeTerms | background.js:134-176 | One block per clause, in order. Each block has index position+1, its kind, its `isRequired` flag and its summarised text. |
| Merge.SetEntry | background.js:198 | `set` keeps the existing keys in their order. |
| Merge.SetEntryEffect | background.js:198 | After `set` the id holds the clause and every other entry is kept. The id joins the keys only when it is new, and a well-formed map stays well-formed. |
| Merge.MergeAll | background.js:193-199 | Each id is a key once, and the keys are exactly the entries. |
| Merge.MergeAllKeys | background.js:193-199 | An id is a key exactly when some retrieved clause carries it. |
| Merge.MergeAllLastWins | background.js:197-199 | Each id holds the last clause set under it. |
| Merge.MergeAllFirstAppearance | background.js:193-202 | Keys come in the order in which their ids first appear. |
| Merge.Values | background.js:202 | One value per key, each an entry of the map. |
| Merge.ValuesCoverEntries | background.js:202 | For a well-formed map every entry is among the values. |
| Merge.ValuesFromInput | background.js:202 | Every value of the map is one of the clauses set into it. |
| Merge.CollectedLawsRelevant | background.js:193-202 | Every collected clause is in the knowledge base and is relevant to some block. |
| Merge.MergeAllAppend | background.js:195-199 | Merging two runs of clauses is merging the first, then setting the second into the result. |
| Merge.LawMap.constructor | background.js:193 | `new Map()` is empty. |
| Merge.LawMap.Set | background.js:198 | `set` appends a new id and replaces the value of an existing one without moving its key. |
| Merge.SetAll | background.js:197-199 | The map afterwards is the old map with the block's clauses set into it one by one, in order. |
| Merge.CollectUniqueLaws | background.js:193-202 | The loop over the blocks yields the merge's values in key order. |
| ReplyText.StripFence | background.js:333-346 | A text that does not open with three backticks is unchanged. The result is always one stretch of the text. |
| ReplyText.JsonStartPos | background.js:355-361 | The first `[` or `{`, or -1 exactly when there is neither. |
| ReplyText.SkipToJson | background.js:352-365 | The result is always an ending of the text. |
| ReplyText.SkipToJsonFindsStart | background.js:352-365 | With a `[` or `{` present, the result is the text from the first of them on. With neither, the text is unchanged. |
| ReplyText.StripFenceRoundTrip | background.js:333-346 | A fenced reply (three backticks, a language tag, a newline, the body, three backticks) yields exactly its body. |
| ReplyText.ExtractFromFencedReply | background.js:330-365 | A JSON text that starts with `[` or `{`, wrapped in a code fence with whitespace around it, comes out of the clean-up exactly as it was. |
| ReplyText.ExtractFromBareReply | background.js:330-365 | A JSON text that starts with `[` or `{`, with only whitespace around it, comes out exactly as it was. |
| JsText.Lower | background.js:29-31 | Same length, each character lowercased on its own (ASCII letters only). |
| JsText.LowerLeavesNoCapitals | background.js:29-31 | No capital `A`–`Z` remains; characters outside `A`–`Z` are kept; each capital becomes its small letter; lowercasing twice equals lowercasing once. |
| JsText.ContainsAt | background.js:43 | `includes` holds exactly when the word occurs at some position. |
| JsText.OrderedOnLineAt | background.js:59-60 | `/a.*b/` matches exactly when `a` occurs at some position and `b` occurs at or after its end with no line terminator in between. |
| JsText.OrderedOnLineContainsBoth | background.js:59-60 | A text that `/a.*b/` matches contains both words. |
| JsText.Trim | background.js:330 | `trim` removes only whitespace: the text is whitespace, then the result, then whitespace. The result neither starts nor ends with whitespace, and it is empty exactly when the text is all whitespace. |
| JsText.TrimOf | background.js:330 | Whitespace on both sides of a text that neither starts nor ends with whitespace is exactly what `trim` removes. |
| JsText.IndexOfChar | background.js:336 | `indexOf`: -1 exactly when absent; otherwise the first occurrence. |
| JsText.LastIndexOf | background.js:342 | `lastIndexOf`: -1, or an occurrence with no later one. |
| JsText.SplitOnWhitespace | background.js:41 | `split(/\s+/)` gives at least one token. No token holds whitespace, and only the first and last can be empty; the first is non-empty when the text starts with a non-space. |
| JsText.SplitOnWhitespaceRoundTrip | background.js:41 | The text is exactly its tokens with a non-empty run of whitespace between neighbours. |
| Popup.ChooseView | popup.js:27-80 | The popup closes exactly when there is neither an analysis nor a badge. It shows analyzing exactly for the analyzing badges, and the error view exactly for an error badge without an error analysis. It shows no data exactly when there is no analysis, the badge is not analyzing or error, and a done badge's second read also finds nothing. Results show the stored analysis, or the second read's result for a done badge. |
| Popup.RetryOnlyForMissingDoneResult | popup.js:37-60 | The second read matters only for a done badge with nothing stored. |
| Popup.StoredAnalysisShown | popup.js:37-80 | A stored analysis is shown for every badge except the analyzing and error ones. |
| Popup.Lookup | popup.js:305-321 | An own table entry is used. Any other key falls back. |
| Popup.RecommendationText | popup.js:305-312 | Always one of the three labels. Accept and reject labels exactly for those inputs; everything else, `undefined` included, is caution. |
| Popup.RecommendationIcon | popup.js:314-321 | Always one of the three icons, with the same accept/reject/caution split. |
| Popup.TextAndIconAgree | popup.js:305-321 | Label and icon always name the same recommendation. |
| Popup.PropertyRead | popup.js:311 | An own entry wins. An inherited member answers only under its own name, and any other key reads as `undefined`. |
| Popup.RecommendationTextAsWritten | popup.js:305-312 | As written, the label is never falsy. A string result is one of the three labels; anything else is a member inherited under the recommendation's own name. |
| Popup.RecommendationIconAsWritten | popup.js:314-321 | As written, the icon is never falsy. A string result is one of the three icons; anything else is a member inherited under the recommendation's own name. |
| Popup.InheritedMemberEscapesFallback | popup.js:305-321 | Read as written, "constructor" yields the inherited `Object` function; the corrected lookup gives the caution entry. |
| Popup.AsWrittenAgreesElsewhere | popup.js:305-321 | Apart from the inherited member names, the as-written and corrected lookups agree. |
| Popup.MinutesBetween | popup.js:326 | The floored minute difference d satisfies d·60000 ≤ Δ < (d+1)·60000. |
| Popup.TimestampBucket | popup.js:328-332 | "just now" iff d < 1, which includes future times. Minutes iff 1 ≤ d < 60, showing d. Hours iff 60 ≤ d < 1440, showing ⌊d/60⌋, which lies in 1..23. The date otherwise. |

## Left out

- The read of `law_kb.json` and its parsing (background.js:15-16). The model takes the outcome as a parameter: records, `null`, or a failure. A file holding JSON other than an array or `null` is not modelled.
- The generative-text request, the response checks, `JSON.parse` and the prompt text (background.js:205-323, 366-387). These are network I/O and a foreign parser.
- The empty-reply check at background.js:320-323. It throws before the extraction, so `ReplyText` assumes a reply is there.
- Messaging, badge, notification and storage calls (background.js:114-131, 388-472), and all DOM work in popup.js. These are browser plumbing.
- Interleaving of `async` calls. Calls are modelled one after another; the code has no guard against two concurrent first loads.
- LawKnowledge.LawKnowledgeBase.Load: the success branch does not model a `null` entry inside the records or a result without `length`.
- Scoring.CalculateRelevance: `score * weight` is exact real arithmetic. Floating-point rounding, `NaN` and non-numeric weights are not modelled.
- JsText.Lower: only ASCII `A`–`Z` are lowercased. Full Unicode `toLowerCase` is not modelled. The knowledge-base keywords are Korean or ASCII, and Korean has no case.
- The `/i` flag of the five patterns is not modelled. Every rule keyword is Korean, so case does not matter.
- The regular expressions are written out as explicit predicates rather than run by a regex engine. Strings are sequences of code points, whereas JavaScript counts UTF-16 units, so `length > 3000`, `substring(0, 3000)`, `length > 50` and `keyword.length > 2` (background.js:43) differ for characters outside the Basic Multilingual Plane.
- Retrieval.SearchRelevantLaws: `limit` is a `nat`. The default of 5, a negative limit and the log of `scoredLaws[0]?.score` are not modelled.
- Ranking.SortByScoreDesc: it models the comparator `b.score - a.score` as the stable sort JavaScript specifies. A `NaN` score, which makes the comparator inconsistent, is not modelled.
- Summary.SummarizeTerms: `isRequired` is a boolean. Other values the page may put there are passed through by the source and are not modelled. `term.features?.type` is modelled as an optional string.
- The `lowerCategory` value at background.js:32 is computed and never read, so it is not computed here.
- Popup.TimestampBucket: it models the choice of wording from the minute difference. `new Date`, the current clock and the `toLocaleString` date text are not modelled; the clock readings are parameters of `Popup.MinutesBetween`.
- Popup.ChooseView: the `setTimeout` second storage read is a parameter holding what that read finds.
- Popup.RecommendationText and Popup.RecommendationIcon: a recommendation that is not a string (a number, an object) is not modelled; only strings and `undefined` are.

## Findings

| source | as written | input that shows it | evidently intended | confidence | as-written member | corrected member |
|---|---|---|---|---|---|---|
| popup.js:305-321 | `texts[recommendation] \|\| '⚡ 주의'` reads an object literal, so a key naming an inherited `Object.prototype` member finds that member, which is truthy | recommendation `"constructor"` yields the `Object` function instead of a label or an icon | every key other than accept, caution and reject gives the caution label and icon | not executed | Popup.InheritedMemberEscapesFallback | Popup.RecommendationText |
