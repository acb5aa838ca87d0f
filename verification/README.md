# Clinical-trial criteria extraction, modelled in Dafny

This project models the criteria-extraction core of the clinvara protocol tool.
The tool reads a clinical-trial protocol and produces two lists of eligibility
criteria, inclusion and exclusion. Each criterion is a record
`{id, text, type: "text"}`, with ids `INC1, INC2, …` and `EXC1, EXC2, …`.
Three strategies produce candidate lists, and a consensus merger combines them:

- **Heuristic** (`utils/criteria_utils.py`, module `Heuristic` in `heuristic.dfy`).
  - It finds the "inclusion criteria" and "exclusion criteria" spans by
    case-insensitive heading search.
  - When both spans are empty, it falls back to an "eligibility criteria" /
    "eligible criteria" section, split at its first "exclusion criteria".
  - It turns each block into criteria. When the block has list-marker lines,
    those lines are kept and cleaned. Otherwise the block is split into
    sentences and those longer than six characters are kept.
- **OCR**: the same heuristic, applied to the text an OCR engine returns.
  That text is an input of the model.
- **Language model** (`utils/criteria_llm.py`, module `LlmExtraction` in `llm.dfy`).
  - The hosted call is an input: a parsed `{inclusion, exclusion}` object on
    success, or a failure standing for any exception.
  - The model covers the blank-text guard, the failure-to-empty degradation
    and the normalisation of the returned items.
- **Consensus** (`utils/criteria_consensus.py`, modules `Provenance`, `Ranking`
  and `Consensus`).
  - Candidates are visited LLM first (weight 3), then OCR (2), then heuristic (1).
  - Blank candidates are skipped.
  - A candidate whose lower-cased similarity ratio against an accepted text
    reaches 0.80 is dropped.
  - The accepted entries are stably sorted by weight and renumbered.

Shared pieces:
- `Results` (`results.dfy`): `Option` and `Result`.
- `Text` (`text.dfy`): Python's `strip`, ASCII lower-casing, case-insensitive
  search and decimal rendering of ids.
- `Criteria` (`criterion.dfy`): the criterion record and dense numbering.

### How the source is rendered

- Each fixed regular expression is a hand-written scanner over `seq<char>`.
  - `re.split(r'\r?\n')` splits at every line feed, and a carriage return just
    before a line feed goes with the separator.
  - `$` without `re.M` matches at the end of the text or just before a final
    line feed.
  - The lazy span group ends at the first place where its lookahead succeeds.
- The similarity ratio of `difflib.SequenceMatcher` is taken over an abstract
  match count `M(a, b)`, a function parameter `Matcher`.
  - `ratio >= 0.80` is decided in integers as `5·M >= 2·(|a| + |b|)`.
    Two empty strings have ratio 1.
  - The argument order is the code's: the new text first, the accepted text second.
- The merger's nested loops are a left fold, `Consensus.Accept`.
  `Consensus.AcceptAll` and `Consensus.ScanForDuplicate` are the loops as written,
  proved equal to the fold.

## Model

| member | source | states |
|---|---|---|
| Text.Trim | utils/criteria_utils.py:6 | `str.strip`: the result has no leading or trailing whitespace, and it is empty exactly when the input is all whitespace |
| Text.TrimIsInnerSlice | utils/criteria_utils.py:6 | the stripped text is a contiguous piece of the input, and only whitespace was cut on either side |
| Text.TrimOfTrimmed | utils/criteria_utils.py:19 | stripping an already stripped string changes nothing |
| Text.Lower | utils/criteria_consensus.py:21 | lower-casing keeps the length and lowers each character in place |
| Text.Find | utils/criteria_utils.py:57-58 | case-insensitive search returns the leftmost occurrence of any of the patterns, and none exactly when no position matches |
| Text.FirstOccurrenceUnique | utils/criteria_utils.py:69 | the leftmost occurrence is unique |
| Text.SkipWhile | utils/criteria_utils.py:57 | a greedy run such as `[:\s\n]*` ends at the first character outside the class |
| Text.NatToString | utils/criteria_utils.py:36 | `f"{i}"` is a non-empty digit string with no leading zero |
| Text.ParseNatToString | utils/criteria_utils.py:36 | reading the rendered number back gives the number: the decimal rendering round-trips |
| Text.NatToStringInjective | utils/criteria_utils.py:36 | distinct numbers render differently |
| Criteria.NumberedIdInjective | utils/criteria_utils.py:36 | `f"{prefix}{i}"` ids of distinct positions differ |
| Criteria.Numbered | utils/criteria_utils.py:33-39 | criteria built from a text list have ids `prefix1..prefixN` in order, type "text", and the given texts |
| Criteria.NumberedListIdsUnique | utils/criteria_utils.py:33-39 | a densely numbered list has pairwise distinct ids |
| Heuristic.CleanLine | utils/criteria_utils.py:5-6 | `_clean_line` removes the maximal prefix of marker characters, then strips, so the result has no leading or trailing whitespace |
| Heuristic.CleanLineDropsMarkers | utils/criteria_utils.py:5-6 | markers followed by text that does not start with a marker clean to the stripped text, so "1." cleans to "" |
| Heuristic.SplitLf | utils/criteria_utils.py:19 | splitting at line feeds gives at least one piece, and no piece contains a line feed |
| Heuristic.JoinSplitLf | utils/criteria_utils.py:19 | splitting at line feeds loses nothing: joining the pieces back with "\n" restores the text |
| Heuristic.SplitLines | utils/criteria_utils.py:19 | `re.split(r'\r?\n')` gives one line for each piece between line feeds; every piece but the last loses one trailing carriage return if it has one, and is otherwise kept unchanged |
| Heuristic.NonBlank | utils/criteria_utils.py:19 | the kept lines are non-empty and stripped |
| Heuristic.NonBlankIsFilter | utils/criteria_utils.py:19 | keeping the non-blank lines is an order-preserving filter: it distributes over concatenation, and one line contributes its stripped form exactly when that is non-empty |
| Heuristic.NonBlankKeeps | utils/criteria_utils.py:19 | every line that is not blank survives, stripped |
| Heuristic.NonBlankOrigin | utils/criteria_utils.py:19 | every kept line is the stripped form of one of the split pieces |
| Heuristic.MarkerLines | utils/criteria_utils.py:23-25 | the kept lines all start with a marker and come from the input; the result is empty exactly when no line starts with a marker |
| Heuristic.MarkerLinesIsFilter | utils/criteria_utils.py:23-25 | keeping the marker lines is an order-preserving filter: it distributes over concatenation, and one line is kept exactly when it starts with a marker |
| Heuristic.SelectedMarkerLines | utils/criteria_utils.py:19-25 | the marker lines of a block are, in order and once each, the stripped split pieces that start with a marker: the selection distributes over concatenation of the pieces, and one piece contributes its stripped form exactly when that starts with a marker |
| Heuristic.MarkerLinesExist | utils/criteria_utils.py:19-28 | marker lines are found exactly when some stripped line of the block starts with a marker |
| Heuristic.FirstBreak | utils/criteria_utils.py:29 | the sentence-split search finds the leftmost whitespace run after `.`, `?` or `!`, or reports that there is none |
| Heuristic.SplitSentences | utils/criteria_utils.py:29 | the sentence split yields at least one piece; no piece contains a break; every piece but the last ends in `.`, `?` or `!` |
| Heuristic.SentenceGapsAreRuns | utils/criteria_utils.py:29 | there is one cut fewer than pieces; each cut removes a non-empty whitespace run, taken whole, so no later piece starts with whitespace |
| Heuristic.SplitSentencesRoundTrip | utils/criteria_utils.py:29 | putting the removed whitespace runs back between the pieces restores the block |
| Heuristic.BlankIsOneSentence | utils/criteria_utils.py:29 | a blank block is not cut at all |
| Heuristic.LongSentences | utils/criteria_utils.py:30 | every kept sentence is stripped and longer than six characters |
| Heuristic.LongSentencesIsFilter | utils/criteria_utils.py:30 | keeping the long sentences is an order-preserving filter: it distributes over concatenation, and one piece contributes its stripped form exactly when that is longer than six characters |
| Heuristic.LongSentenceKeeps | utils/criteria_utils.py:30 | every piece longer than six characters once stripped survives |
| Heuristic.LongSentenceOrigin | utils/criteria_utils.py:30 | every kept sentence is the stripped form of one of the pieces |
| Heuristic.CleanAll | utils/criteria_utils.py:23-25 | each kept marker line is replaced by its cleaned form, in order |
| Heuristic.ParseBlock | utils/criteria_utils.py:9-40 | a blank block gives `[]`; the output ids are `prefix1..prefixN` in order and every item has type "text" |
| Heuristic.ParseBlockKeepsMarkerLines | utils/criteria_utils.py:19-25 | with a marker line present, item `i` is the `i`-th marker line of the split, stripped pieces (the selection `SelectedMarkerLines` characterises), cleaned and possibly empty, and there is no other item |
| Heuristic.ParseBlockFallsBackToSentences | utils/criteria_utils.py:28-30 | without marker lines, the items are exactly the sentence pieces longer than six characters once stripped: as many, in the same order, each holding its stripped piece; every item is a stripped sentence of the block, and every long sentence is an item |
| Heuristic.ParseBlockIsSentenceList | utils/criteria_utils.py:15-40 | a block without marker lines, blank or not, parses to its long sentences numbered from 1 |
| Heuristic.BlankHasNoMarkerLine | utils/criteria_utils.py:15-16 | a blank block has no marker line |
| Heuristic.SplitLfOfBlank | utils/criteria_utils.py:19 | a blank text splits into blank pieces |
| Heuristic.AllLinesBlank | utils/criteria_utils.py:19 | every line of a blank block strips to the empty string |
| Heuristic.SectionEnd | utils/criteria_utils.py:57-58 | the lazy group stops at the first position where the other heading follows with a colon or whitespace, or where `$` matches |
| Heuristic.LocateSection | utils/criteria_utils.py:57-58 | there is no match exactly when the heading never occurs; a match starts after the first occurrence of the heading and its run of colons and whitespace, and ends where the lookahead first succeeds |
| Heuristic.SectionBlock | utils/criteria_utils.py:57-61 | the block is stripped, and it is empty when the heading never occurs |
| Heuristic.SectionBlockIsSpan | utils/criteria_utils.py:57-61 | the block is the stripped text from the end of the colon and whitespace run after the first heading up to the first place where the other heading, followed by a colon or whitespace, or `$` matches |
| Heuristic.EligibilitySplit | utils/criteria_utils.py:63-72 | both parts are stripped; without an eligibility heading both blocks stay empty |
| Heuristic.EligibilityAlternativesExclusive | utils/criteria_utils.py:65 | "eligibility criteria" and "eligible criteria" never both occur at one position |
| Heuristic.EligibilitySplitCuts | utils/criteria_utils.py:65-72 | the split cuts the text after the first eligibility heading, whichever spelling it is, and after the colon and whitespace run that follows it |
| Heuristic.SplitAtExclusion | utils/criteria_utils.py:69-72 | with no "exclusion criteria", the whole stripped content is inclusion and exclusion is empty; otherwise the text is cut at the first occurrence, with the heading itself dropped |
| Heuristic.ExtractFromText | utils/criteria_utils.py:43-77 | a blank text gives `([], [])`; inclusion ids are `INC1..` and exclusion ids `EXC1..`, all of type "text" |
| Heuristic.BlockOfBlankIsEmpty | utils/criteria_utils.py:60-61 | a blank text has empty heading blocks |
| Heuristic.HeadingBlocks | utils/criteria_utils.py:57-72 | both blocks handed to the block parser are stripped |
| Heuristic.InclusionSpanIsParsed | utils/criteria_utils.py:53-74 | when the span after the first inclusion heading, up to the first exclusion heading or the end, is not blank, the inclusion criteria are that span stripped and parsed, whatever the exclusion span holds |
| Heuristic.ExclusionSpanIsParsed | utils/criteria_utils.py:53-75 | when the span after the first exclusion heading, up to the first inclusion heading or the end, is not blank, the exclusion criteria are that span stripped and parsed |
| Heuristic.EligibilityFallbackIsParsed | utils/criteria_utils.py:53-75 | when both heading blocks are empty and an eligibility heading occurs, the text after it and its colon and whitespace run is cut at its first "exclusion criteria" and the two parts are parsed into inclusion and exclusion criteria |
| Heuristic.NothingUnderGivesEmptyBlock | utils/criteria_utils.py:57-61 | a heading that does not occur, or whose span is blank, gives an empty block |
| Heuristic.InclusionOnlyHasNoExclusion | utils/criteria_utils.py:53-75 | a non-blank inclusion span with the exclusion heading absent, or followed by a blank span, yields that span parsed and no exclusion criteria; the eligibility split is not used |
| Heuristic.ExclusionOnlyHasNoInclusion | utils/criteria_utils.py:53-75 | a non-blank exclusion span with the inclusion heading absent, or followed by a blank span, yields no inclusion criteria and that span parsed |
| Heuristic.NothingUnderHeadingsNoCriteria | utils/criteria_utils.py:53-75 | when each heading is absent or followed by a blank span and no eligibility heading occurs, the text yields no criteria |
| Heuristic.NoHeadingsNoCriteria | utils/criteria_utils.py:53-77 | a text with none of the headings yields no criteria |
| LlmExtraction.ItemId | utils/criteria_llm.py:58 | the id is never empty; a non-empty own id is kept; otherwise the id is `prefix` plus the position |
| LlmExtraction.NormalizeItems | utils/criteria_llm.py:48-60 | one item per input item, in order, none dropped; each text is the stripped input text, with a missing text becoming ""; the id is the item's own non-empty id or else `prefix` plus the 1-based position; the type is "text" |
| LlmExtraction.NormalizeNumbersIdlessItems | utils/criteria_llm.py:58 | items without ids come out numbered `prefix1..prefixN` |
| LlmExtraction.NormalizeIdempotent | utils/criteria_llm.py:48-60 | normalising the output again returns it unchanged |
| LlmExtraction.ExtractViaLlm | utils/criteria_llm.py:72-109 | blank text or a failed call gives `([], [])`; on success each list is the normalisation of the returned items under its key, prefixed `INC` or `EXC`, an absent key giving `[]` |
| LlmExtraction.BlankTextIgnoresResponse | utils/criteria_llm.py:72-74 | for blank text the outcome of the hosted call is never consulted |
| Ranking.Insert | utils/criteria_consensus.py:63 | insertion adds exactly one element |
| Ranking.InsertPermutes | utils/criteria_consensus.py:63 | insertion adds the element to the multiset and nothing else |
| Ranking.InsertKeepsOrder | utils/criteria_consensus.py:63 | inserting into a list of non-increasing weight keeps it non-increasing |
| Ranking.InsertKeepsWeightOrder | utils/criteria_consensus.py:63 | the new element goes after every entry of equal weight |
| Ranking.SortByWeight | utils/criteria_consensus.py:63 | the sort keeps the length |
| Ranking.SortOrdersByWeight | utils/criteria_consensus.py:63 | `sort(key=weight, reverse=True)` yields a permutation in non-increasing weight |
| Ranking.SortIsStable | utils/criteria_consensus.py:63 | the sort is stable: the entries of any one weight keep their relative order |
| Ranking.SortedIsFixpoint | utils/criteria_consensus.py:63 | a list already in non-increasing weight is left exactly as it is |
| Consensus.Similar | utils/criteria_consensus.py:16-55 | two empty texts are similar; the exact 0.80 threshold is stated by `SimilarMeansRatio`, and texts equal up to case by `EqualIgnoringCaseIsSimilar` |
| Consensus.SimilarMeansRatio | utils/criteria_consensus.py:16-55 | the similarity test holds exactly when the lower-cased pair is empty or `2·M / (|a| + |b|) >= 0.80` over the reals |
| Consensus.EqualIgnoringCaseIsSimilar | utils/criteria_consensus.py:16-55 | texts equal up to case always reach the 0.80 threshold, since both sides are lower-cased and a string matches itself in full |
| Consensus.Tagged | utils/criteria_consensus.py:47-48 | each item of a source list becomes one candidate carrying that source, in list order |
| Consensus.Candidates | utils/criteria_consensus.py:41-48 | every item of the three lists is visited once |
| Consensus.CandidateAt | utils/criteria_consensus.py:41-48 | the visiting order is all LLM items, then all OCR items, then all heuristic items, each list in its own order |
| Consensus.CandidatesByDecreasingWeight | utils/criteria_consensus.py:41-48 | candidates are visited in non-increasing weight |
| Consensus.ScanForDuplicate | utils/criteria_consensus.py:53-57 | the scan reports a duplicate exactly when the new text reaches the threshold against some accepted text |
| Consensus.Step | utils/criteria_consensus.py:49-60 | one iteration leaves `used` unchanged or appends the candidate's entry |
| Consensus.Accept | utils/criteria_consensus.py:47-60 | `used` is no longer than the candidate list, and each entry has a non-empty stripped text and the weight of its source |
| Consensus.StepKeepsDissimilar | utils/criteria_consensus.py:53-60 | one loop iteration keeps every accepted text below the threshold against each text accepted before it |
| Consensus.AcceptNeverKeepsSimilar | utils/criteria_consensus.py:53-60 | every accepted text scores below 0.80 against each text accepted before it |
| Consensus.AcceptAll | utils/criteria_consensus.py:47-60 | the nested loops as written compute exactly the fold `Accept` |
| Consensus.AcceptPrefix | utils/criteria_consensus.py:47-60 | visiting more candidates only appends to `used` and never removes or reorders an entry |
| Consensus.AcceptOrigin | utils/criteria_consensus.py:49-60 | every accepted entry is the stripped text, weight and source of a visited candidate |
| Consensus.AcceptWeightsAtLeast | utils/criteria_consensus.py:41-60 | no accepted entry is lighter than the lightest candidate |
| Consensus.AcceptKeepsOrder | utils/criteria_consensus.py:41-60 | because candidates arrive in non-increasing weight, `used` is built in non-increasing weight |
| Consensus.AcceptCovers | utils/criteria_consensus.py:49-60 | every non-blank candidate is either kept, or dropped because of a similar text accepted earlier, among the entries accepted before it, whose weight is at least its own |
| Consensus.EarlierEntryWeighsMore | utils/criteria_consensus.py:41-60 | when candidates come in non-increasing weight, every entry accepted before a candidate weighs at least as much as that candidate |
| Consensus.CoveredByEarlier | utils/criteria_consensus.py:47-60 | a candidate similar to an entry accepted before it is covered in the final list by that same entry, of at least its weight |
| Consensus.AppendedWhenNew | utils/criteria_consensus.py:47-60 | a non-blank candidate dissimilar to every entry accepted before it ends up in the accepted list with its stripped text, weight and source |
| Consensus.Renumber | utils/criteria_consensus.py:66-74 | entries get ids `prefix1..prefixN` in list order and type "text", and keep their text, source and weight |
| Consensus.SortLeavesAcceptedOrder | utils/criteria_consensus.py:41-63 | the stable sort never moves an entry of `used` |
| Consensus.MergeLists | utils/criteria_consensus.py:28-76 | output length at most the total input length, so empty inputs give `[]`; ids `prefix1..prefixN` and type "text"; non-empty stripped texts carrying their source's weight; all weight-3 entries before weight-2 before weight-1; no text at or above the threshold against an earlier one |
| Consensus.MergeIsRenumberedAccept | utils/criteria_consensus.py:60-74 | the merge output is the accepted list, in acceptance order, renumbered |
| Consensus.AcceptedFromInputs | utils/criteria_consensus.py:47-60 | every accepted text is the stripped text of an item of the list its source names |
| Consensus.MergeOrigin | utils/criteria_consensus.py:49-72 | every output text is the stripped text of an item of the list its source names |
| Consensus.AbsentSourceContributesNothing | utils/criteria_consensus.py:41-60 | a source with an empty list contributes no output entry |
| Consensus.AcceptCoversInputs | utils/criteria_consensus.py:47-60 | every non-blank input item is accepted with its own source, or is shadowed by a similar accepted text of at least its weight |
| Consensus.MergeCovers | utils/criteria_consensus.py:47-76 | every non-blank input item appears in the output with its own source, or the output holds a similar text of at least its weight; a lower-weight item never displaces a higher-weight one |
| Consensus.LlmEntriesComeFirst | utils/criteria_consensus.py:41-63 | merging the LLM list alone gives a prefix of the full merge, so OCR and heuristic items only ever add entries after the LLM ones |
| Consensus.NoCaseInsensitiveRepeats | utils/criteria_consensus.py:21-55 | no two output texts are equal up to case |
| Consensus.OcrLists | utils/criteria_consensus.py:106-113 | no OCR text gives two empty lists; otherwise the OCR text goes through the same heuristic extraction as the main text, so the lists are numbered `INC1..` and `EXC1..` |
| Consensus.ExtractAllCriteria | utils/criteria_consensus.py:83-130 | inclusion ids are `INC1..` and exclusion ids `EXC1..`; a blank text with no OCR text gives `([], [])` |
| Consensus.NoOcrTextNoOcrEntries | utils/criteria_consensus.py:106-113 | without OCR text, no output entry is sourced from OCR |
| Consensus.FailedLlmNoLlmEntries | utils/criteria_consensus.py:116-123 | when the hosted call fails, no output entry is sourced from the LLM |
| Consensus.AllListsAreMerged | utils/criteria_consensus.py:100-123 | every non-blank item that the heuristic, OCR or LLM extraction of either section produces reaches that section's output: with its own source, or through a similar output text of at least its weight |
| Consensus.MergedListReaches | utils/criteria_consensus.py:41-76 | every non-blank item of the three lists of one section reaches the merged list: with its own source, or through a similar text of at least its weight |
| Consensus.SectionsStaySeparate | utils/criteria_consensus.py:122-123 | inclusion entries come only from the three inclusion lists and exclusion entries only from the three exclusion lists |

## Left out

- Unicode: `str.strip`, `\s`, `\d` and `re.I` are modelled on ASCII only.
  - Whitespace is space, `\t`, `\n`, `\v`, `\f`, `\r` and `\x1c`–`\x1f`.
  - Case folding and digits are ASCII.
  - Python's non-ASCII whitespace, digits and case pairs are not modelled.
- Consensus.Similar: the ratio is compared exactly, in integers.
  - Python computes `2.0*M/T` in floating point. The two agree whenever `|a| + |b|` is below about 10^15 characters.
  - Only one property of SequenceMatcher is assumed, and only by `NoCaseInsensitiveRepeats` and `EqualIgnoringCaseIsSimilar`: a string matches itself in full, `M(x, x) = |x|`.
  - The longest-block recursion and the autojunk heuristic are not modelled.
- Consensus.ExtractAllCriteria:
  - The imported `extract_criteria_heuristic` is not defined in `utils/criteria_utils.py`, so it is modelled by `extract_criteria_from_text` (`Heuristic.ExtractFromText`).
  - The OCR text is an input. `utils/criteria_ocr.py` is not part of this model: it covers PDF rasterisation and the PaddleOCR and EasyOCR engines.
  - `if not text: text = ""` guards against `None`. The model's text is always a string, so the guard changes nothing.
- LlmExtraction.ExtractViaLlm: the hosted call, prompt and schema are not modelled.
  - This covers `client.responses.parse`, the prompt text and `_build_schema`.
  - The outcome of the call is an input. Every exception, including a response that is not an object, is the `Failure` case.
- LlmExtraction.NormalizeItems: non-string JSON values are not modelled.
  - Such values are numbers, booleans or `null` in `text` or `id`, which Python would pass through `str(...)` or the `or`.
  - Under the strict schema both fields are required strings. A missing key is modelled.
- `extract_criteria` in `utils/criteria_utils.py` (lines 80-146) is not modelled. It is an OpenAI chat call with JSON parsing and code-fence stripping.
- Logging is not modelled. It has no effect on results.
- The user-interface pages, CSV export and the metrics page are outside the extraction core and not modelled.
