# Comment-quality linter core, modelled in Dafny

The repository is a TSLint rule set that classifies source comments (task,
annotation, licence, commented-out code), rates their quality against the
code they describe, and demands comments where code is complex.  It also
has a small Python script that evaluates a survey of where developers
expect comments.  This project models the deterministic core of both:

- `Evaluate` — the survey script: tokenising answer cells, dropping
  inexperienced respondents, tallying the named lines per question, looking
  up the predicted lines, and formatting chart coordinates.
- `Utils` — the helpers: `createRange`, `trimTrailingSpace`, the
  sorted-merge `getIntersection`, `splitIntoNormalizedWords`, `flatten` and
  `capitalize`.
- `SourceComments` — the multi-part `SourceComment`: its parts, complete
  text, sanitized text and sanitized lines with their source positions.
- `SourceMaps` — merging the file's comments on consecutive lines into
  source comments, and the line index the map keeps.
- `TaskCommentMatchers`, `AnnotationMatchers`, `LicenseMatchers` — the
  three line and comment classifiers.
- `CommentQuality` — the quality scale, the early-return ladder of
  `evaluateQuality`, the removal of code lines, the word-overlap rating and
  the JSDoc parameter counters.
- `QualityWalker` — the walker's fragments: fence detection for escaped
  code, filtering of code lines, the map of required comments, and the
  search for the most complex line that lacks a comment.
- `NestingLevels` and `CyclomaticComplexity` — the two metric collectors,
  over an abstract syntax tree.

`Wrappers` (Option and Result) and `Strings` (split, join, number
rendering, character classes) are shared helpers.

Where the source changes state in place, the model does as well: classes
with `modifies` clauses (`SourceComment`, `SourceMap`, `LicenseMatcher`,
`EvaluationResult`, `CommentRequirements`, `LineQueue`,
`NestingLevelCollector`, `CyclomaticComplexityCollector`) and methods with
loops.  Most such methods are proved equal to a specification function, with
the properties the source promises proved about that function; the others
state their new state directly, or only part of it, as the table below says
row by row.

Inputs that the TypeScript compiler, tslint or regular-expression engines
compute become parameters:
- the comment-start stripping regex is a `strip` function, assumed only to
  add no line breaks;
- tslint's enable/disable regex is an `isDirective` predicate;
- licence-regex match counts come from a `countMatches` function;
- the enclosing node and quality-comment lookup of `requireCommentForLine`
  is a `lineInfo` function;
- a node's ancestor start lines arrive as a sequence;
- the syntax tree under a function is a small `Node` datatype.

## Model

| member | source | states |
|---|---|---|
| Evaluate.StripWhitespace | project/evaluation/script/evaluate.py:48 | the result is no longer than the cell and holds no whitespace character |
| Evaluate.StripWhitespaceAppend | project/evaluation/script/evaluate.py:48 | removing whitespace distributes over concatenation |
| Evaluate.StripWhitespaceKeeps | project/evaluation/script/evaluate.py:48 | a cell without whitespace is left as it is |
| Evaluate.Tokenise | project/evaluation/script/evaluate.py:48 | a cell yields at least one token and no token contains a comma |
| Evaluate.TokensHaveNoWhitespace | project/evaluation/script/evaluate.py:48 | no token contains whitespace |
| Evaluate.BlankCellIsEmptySelection | project/evaluation/script/evaluate.py:48 | a blank or whitespace-only cell yields exactly the one token "" |
| Evaluate.TokensRejoin | project/evaluation/script/evaluate.py:48 | joining the tokens with commas gives back the cell without its whitespace |
| Evaluate.Accepted | project/evaluation/script/evaluate.py:42-45 | no accepted row is skipped by the experience filter, all of them reach the last column when the rows are readable, and without the filter every row is accepted |
| Evaluate.AcceptedFromInput | project/evaluation/script/evaluate.py:42-45 | every accepted row is a row of the input |
| Evaluate.AcceptedSingle | project/evaluation/script/evaluate.py:43-45 | a single row is accepted exactly when the filter does not skip it |
| Evaluate.AcceptedAppend | project/evaluation/script/evaluate.py:42-45 | the rows accepted from two runs of rows are those of the first run followed by those of the second, so the accepted rows are exactly the unskipped rows in their order |
| Evaluate.AcceptedKeeps | project/evaluation/script/evaluate.py:42-45 | every row the filter does not skip is accepted |
| Evaluate.QuestionsInRange | project/evaluation/script/evaluate.py:13-18 | every question column lies within the row length the script reads, and the last column is a question's |
| Evaluate.BlankRowFails | project/evaluation/script/evaluate.py:42-48 | a blank line of the file (an empty row) stops the row loop with an index error, wherever it appears |
| Evaluate.AddRow | project/evaluation/script/evaluate.py:46-50 | fails with an index error exactly when a question's column lies past the row; otherwise every question's list grows by the row's tokens for that question (a fresh list when absent) and other lists stay |
| Evaluate.CollectAnswers | project/evaluation/script/evaluate.py:42-51 | the row loop fails with an index error exactly when some row is too short for a column it reads; otherwise it builds exactly the per-question token lists of the accepted rows |
| Evaluate.ListsOfAt | project/evaluation/script/evaluate.py:46-50 | a question's list is the concatenation of its column's tokens over the accepted rows |
| Evaluate.ListsOfKeys | project/evaluation/script/evaluate.py:46-50 | every question has a list once a row has been accepted, none before |
| Evaluate.TallyCounts | project/evaluation/script/evaluate.py:53-58 | the tally has one key per distinct token, mapped to its number of occurrences |
| Evaluate.TallyTotal | project/evaluation/script/evaluate.py:53-58 | the counts of a tally sum to the number of tokens, so repeats count twice |
| Evaluate.GroupAnswers | project/evaluation/script/evaluate.py:53-58 | every question's list is replaced by its tally, and no question is added or lost |
| Evaluate.MatchedComplete | project/evaluation/script/evaluate.py:64-66 | every predicted line appears with its tally, or 0 when nobody named it, and nothing else appears |
| Evaluate.MatchPredictions | project/evaluation/script/evaluate.py:60-67 | succeeds iff every predicted question has answers, otherwise fails naming a missing question (the KeyError); on success each question maps to its matched lines |
| Evaluate.CoordinateParts | project/evaluation/script/evaluate.py:95 | a coordinate is "(line,count)" and reads back as the line and the count |
| Evaluate.ChartValues | project/evaluation/script/evaluate.py:92-95 | one coordinate per line, in the given order, each with that line's count |
| Evaluate.ValueTextLines | project/evaluation/script/evaluate.py:96 | the joined values are one text line per value, every line after the first indented by 16 spaces |
| Evaluate.XCoordinatesRoundTrip | project/evaluation/script/evaluate.py:89 | splitting the x-coordinates at commas gives back the sorted lines |
| Evaluate.QuestionKeyInjective | project/evaluation/script/evaluate.py:25-26 | distinct question numbers give distinct question names |
| Evaluate.QuestionNamesSpec | project/evaluation/script/evaluate.py:25-26 | "Question k" maps to "qk" and "Question k+10" to "markedk" for k in 1..10 |
| Evaluate.QuestionNamesOnly | project/evaluation/script/evaluate.py:25-26 | every caption in the table is "Question x" for some x in 1..20 |
| Utils.CreateRange | project/utils.ts:10-12 | the range has end - start + 1 elements, none when end < start |
| Utils.CreateRangeMembers | project/utils.ts:10-12 | element k is start + k, and x is in the range iff start <= x <= end |
| Utils.TrimTrailingSpace | project/utils.ts:69-71 | the result is a prefix of the input, does not end in whitespace, and only whitespace was cut |
| Utils.TrimTrailingSpaceIdempotent | project/utils.ts:69-71 | trimming twice is trimming once |
| Utils.GetIntersectionAsWritten | project/utils.ts:78-94 | the merge loop as written (pushing `first[o]`) computes the as-written specification |
| Utils.IntersectionAsWrittenWrong | project/utils.ts:83-84 | on ["a","b"] and ["b"] the as-written loop yields ["a"] where the common element is "b" |
| Utils.IntersectionLengthsAgree | project/utils.ts:78-94 | the as-written and corrected loops produce results of the same length |
| Utils.GetIntersection | project/utils.ts:78-94 | the corrected merge loop computes the intersection specification, no longer than either input |
| Utils.IntersectionCommon | project/utils.ts:78-94 | for strictly sorted inputs the result holds exactly the common elements and is strictly sorted |
| Utils.IntersectionSize | project/utils.ts:78-94 | for strictly sorted inputs both versions' length is the number of common elements |
| Utils.SeparatePairsKeepsText | project/utils.ts:102-105 | inserting the camel-case separators only adds spaces: with the spaces taken out, the text is unchanged |
| Utils.SeparateAcronymsKeepsText | project/utils.ts:105 | splitting an acronym from the following word only adds spaces: with the spaces taken out, the text is unchanged |
| Utils.SplitAtBreaks | project/utils.ts:107 | no piece contains whitespace, '.', '-' or '_' |
| Utils.SplitAtBreaksRoundTrip | project/utils.ts:107 | there is one piece more than there are break characters, and putting the break characters back between the pieces gives the text back |
| Utils.StripPunctuation | project/utils.ts:108 | the result keeps only characters of the word that are not basic-Latin punctuation |
| Utils.StripPunctuationAppend | project/utils.ts:108 | stripping distributes over concatenation |
| Utils.StripPunctuationChar | project/utils.ts:108 | a punctuation character is removed and any other character is kept, so with the distribution every other character survives in order |
| Utils.StripPunctuationKeeps | project/utils.ts:108 | a word without punctuation is unchanged |
| Utils.CleanWords | project/utils.ts:108-109 | the words are exactly the non-empty stripped pieces |
| Utils.Dedupe | project/utils.ts:102 | the set conversion keeps every word once and adds none |
| Utils.DedupeKeepsFirstOccurrenceOrder | project/utils.ts:102 | the kept words come in the order of their first occurrence, which with the contract of `Dedupe` fixes the result |
| Utils.SplitIntoNormalizedWords | project/utils.ts:101-110 | the words are non-empty, pairwise distinct, made of lower-case word characters, and exactly the cleaned pieces of the separated, lower-cased text |
| Utils.SplitIntoNormalizedWordsOrder | project/utils.ts:101-110 | the words come in the order of their first occurrence among the cleaned pieces |
| Utils.CleanWordsAreWordChars | project/utils.ts:106-109 | once the text has no upper-case ASCII letter, no cleaned word holds a break character, basic-Latin punctuation or an upper-case ASCII letter |
| Utils.Flatten | project/utils.ts:112-114 | an element is in the result iff it is in one of the inner arrays |
| Utils.FlattenAppend | project/utils.ts:112-114 | flattening distributes over concatenation, so the result is the inner arrays in order |
| Utils.Capitalize | project/utils.ts:116-118 | same length, first character not lower-case, the rest not upper-case, each character equal to the input's ignoring case |
| Utils.CapitalizeIdempotent | project/utils.ts:116-118 | capitalizing twice is capitalizing once |
| SourceComments.LineClassifications | project/annotationMatcher.ts:20-26 | the three result shapes of a line classifier: empty iff nothing matched, whole-comment iff every line matched, otherwise the matched lines |
| SourceComments.CompleteComment | project/sourceComment.ts:20-26 | the complete comment starts at the first part's pos and ends at the last part's end |
| SourceComments.CompleteCommentLines | project/sourceComment.ts:21 | the lines of the complete text are the parts' lines, part after part |
| SourceComments.SanitizedCommentText | project/sourceComment.ts:38-42 | pos and end are the complete comment's; only the text is stripped |
| SourceComments.PartLines | project/sourceComment.ts:45-58 | a part yields one line per line of its stripped text, never more than its raw lines |
| SourceComments.PartLineSpansRawLine | project/sourceComment.ts:47-56 | line i spans exactly raw line i of the part, and its text is stripped line i |
| SourceComments.NextLineStart | project/sourceComment.ts:55-56 | each line starts one position after the end of the line before it |
| SourceComments.LinesCoverPart | project/sourceComment.ts:47-56 | without stripping, the first line starts at the part's pos and the last ends at the part's end of text |
| SourceComments.SourceComment.constructor | project/sourceComment.ts:12-14 | a new comment has exactly one part, with CR LF normalised; the classification list the model adds (see "Left out") starts empty |
| SourceComments.SourceComment.AddPart | project/sourceComment.ts:16-18 | one part is appended, with CR LF normalised; earlier parts stay |
| SourceComments.SourceComment.GetCommentParts | project/sourceComment.ts:63-65 | returns the parts, of which there is at least one |
| SourceComments.SourceComment.GetCompleteComment | project/sourceComment.ts:20-26 | the texts joined by line breaks, computed by a loop |
| SourceComments.SourceComment.GetSanitizedCommentText | project/sourceComment.ts:38-42 | the complete comment with stripped text |
| SourceComments.SourceComment.GetSanitizedCommentLines | project/sourceComment.ts:44-61 | the per-part line lists concatenated in part order |
| SourceComments.SanitizeLines | project/sourceComment.ts:46-58 | the running-position loop produces the specified lines of one part |
| Strings.NormalizeLineEnds | project/sourceComment.ts:17 | replacing CR LF by LF keeps the number of line breaks and leaves text without CR unchanged |
| Strings.NormalizeLineEndsDropsCrBeforeLf | project/sourceComment.ts:17 | the result is the text with exactly each CR that stands right before an LF removed, and every other character kept in order |
| SourceMaps.PartOf | project/sourceMap.ts:32-34 | a comment becomes a part with its range and normalised text |
| SourceMaps.Merge | project/sourceMap.ts:27-37 | the previous end line is the last comment's end line (-1 before any); there are groups iff there were comments; no group is empty |
| SourceMaps.FirstCommentOpensGroup | project/sourceMap.ts:31-32 | the first comment always opens a group |
| SourceMaps.MergeFates | project/sourceMap.ts:31-34 | every group starts with a comment that opens a group and continues with comments on each next line |
| SourceMaps.MergeKeeps | project/sourceMap.ts:31-34 | the groups, in order, hold exactly the comments that are not dropped |
| SourceMaps.DroppedMovesEndLine | project/sourceMap.ts:31-36 | a comment starting on or before the previous end line is dropped, but the end line moves to its end |
| SourceMaps.MergeParts | project/sourceMap.ts:32-34 | each group's source comment holds the parts of the group's comments |
| SourceMaps.MergeComment | project/sourceMap.ts:31-35 | one comment either opens a fresh source comment, joins the last one, or is dropped, as the merge step says |
| SourceMaps.GetMergedComments | project/sourceMap.ts:24-39 | one fresh, distinct source comment per group, with that group's parts |
| SourceMaps.ItemsByLineSpec | project/sourceMap.ts:11-20 | a line has an entry iff some item starts on it, and the entry lists those items in order |
| SourceMaps.SourceMap.AddNodeToMap | project/sourceMap.ts:11-18 | the item is appended to its line's list (created when absent); other lines stay |
| SourceMaps.SourceMap.AddAllToMap | project/sourceMap.ts:19-21 | adding items one after another extends the index by each in turn |
| SourceMaps.ItemsByLineAppend | project/sourceMap.ts:19-21 | adding the children and then the merged comments gives the index of both together |
| SourceMaps.SourceMap.constructor | project/sourceMap.ts:9-22 | the line index holds the top-level nodes followed by one merged comment per group; each comment is new and distinct from the others, holds its group's parts and has no classifications |
| TaskCommentMatchers.TestTaskRegexCorrect | project/taskCommentMatcher.ts:12-13 | the hand-written matcher agrees with the regex: optional leading whitespace, a keyword ignoring case, then ':', '\|' or whitespace |
| TaskCommentMatchers.GluedKeywordIsNoTask | project/test/taskCommentMatcherTest.ts:49-55 | "hacking …" is not a task |
| TaskCommentMatchers.LowerCaseKeywordIsTask | project/taskCommentMatcher.ts:13 | each keyword in lower case followed by a space is a task |
| TaskCommentMatchers.Scan | project/taskCommentMatcher.ts:20-30 | only line indices below the scanned count are marked |
| TaskCommentMatchers.ScanOpen | project/taskCommentMatcher.ts:21-28 | a task is open after a line iff one was started and no later line ended in "." |
| TaskCommentMatchers.ScanMarked | project/taskCommentMatcher.ts:21-28 | a line is marked iff it matches the keyword regex or a task is open before it |
| TaskCommentMatchers.ScanIncreasing | project/taskCommentMatcher.ts:25 | the marked indices are strictly increasing |
| TaskCommentMatchers.KeywordLineMarked | project/taskCommentMatcher.ts:21-25 | a line matching the regex is always marked |
| TaskCommentMatchers.NothingMarkedIffNoKeyword | project/taskCommentMatcher.ts:31-33 | nothing is marked iff no line matches the regex |
| TaskCommentMatchers.TaskRunsThroughPeriod | project/test/taskCommentMatcherTest.ts:39-47 | marking runs through the line ending in "." and stops after it |
| TaskCommentMatchers.Classify | project/taskCommentMatcher.ts:16-38 | classifies the comment's sanitized lines by the three-way task rule |
| TaskCommentMatchers.ClassifyLines | project/taskCommentMatcher.ts:18-37 | the forEach loop with its open-task flag computes the task classification |
| AnnotationMatchers.MatchingSpec | project/annotationMatcher.ts:15-19 | a line index is listed iff its line satisfies the directive predicate, in increasing order |
| AnnotationMatchers.AllMatchIffFull | project/annotationMatcher.ts:23 | every line is listed iff every line matches |
| AnnotationMatchers.NoDirectiveIffNothing | project/annotationMatcher.ts:15-22 | no line is listed iff no line of the comment is a directive |
| AnnotationMatchers.AllDirectivesIffWhole | project/annotationMatcher.ts:15-26 | every line is listed iff every line of the comment is a directive |
| AnnotationMatchers.AnnotationShapes | project/annotationMatcher.ts:12-27 | at most one classification, always Annotation; empty iff no line matches; whole-comment iff there are lines and all match |
| AnnotationMatchers.Classify | project/annotationMatcher.ts:12-27 | classifies the comment's sanitized lines by the annotation rule |
| AnnotationMatchers.ClassifyLines | project/annotationMatcher.ts:13-26 | the forEach loop collecting matched lines computes the annotation classification |
| LicenseMatchers.MatchResult | project/licenseMatcher.ts:14-15 | `match` gives null for no matches, else the match list of that length |
| LicenseMatchers.LicenseRule | project/licenseMatcher.ts:16-18 | a licence iff at least one general match and (a specific match or two general matches) |
| LicenseMatchers.NoGeneralNoLicense | project/licenseMatcher.ts:16 | without general matches it is never a licence |
| LicenseMatchers.LicenseThresholds | project/licenseMatcher.ts:16-18 | one general match alone is not a licence; with one specific match, or two general ones, it is |
| LicenseMatchers.LicenseMatcher.constructor | project/licenseMatcher.ts:9-10 | both regex caches start empty, so every filled cache will hold the expression its getter builds |
| LicenseMatchers.LicenseMatcher.GetOrBuildCustomLicenseRegexp | project/licenseMatcher.ts:24-30 | builds the alternation of the custom parts on first use, then returns the cached regex, which is always that alternation |
| LicenseMatchers.LicenseMatcher.GetOrBuildGeneralLicenseRegexp | project/licenseMatcher.ts:32-38 | builds the general regex on first use, then returns the cached one, which is always the general pattern |
| LicenseMatchers.LicenseMatcher.GettersAreIdempotent | project/licenseMatcher.ts:24-38 | calling each getter twice returns the same regex |
| LicenseMatchers.LicenseMatcher.Annotate | project/licenseMatcher.ts:12-22 | both caches end up holding their expressions; exactly one Copyright classification is appended iff the comment is a licence by the counts of the custom alternation and the general pattern, otherwise the list is unchanged |
| LicenseMatchers.AnnotateWithNewMatcher | project/licenseMatcher.ts:12-22 | a new matcher's annotation decides by the alternation of the given parts and by the general pattern |
| CommentQuality.Increased | project/commentQualityEvaluator.ts:22-24 | one step up, never past High; unchanged only at High |
| CommentQuality.Decreased | project/commentQualityEvaluator.ts:26-28 | one step down, never below Unhelpful; Unknown becomes Unhelpful |
| CommentQuality.StepsUndo | project/commentQualityEvaluator.ts:22-28 | inside the scale, a step up and a step down undo each other |
| CommentQuality.EvaluationResult.constructor | project/commentQualityEvaluator.ts:20 | the result holds the given quality and reasons |
| CommentQuality.EvaluationResult.IncreaseQuality | project/commentQualityEvaluator.ts:22-24 | the quality becomes the increased quality |
| CommentQuality.EvaluationResult.DecreaseQuality | project/commentQualityEvaluator.ts:26-28 | the quality becomes the decreased quality |
| CommentQuality.EvaluateQuality | project/commentQualityEvaluator.ts:45-79 | a whole-comment Task, Annotation or Unknown gives Unknown; otherwise whole-comment Code gives Unhelpful with one reason; otherwise the next node picks declaration or inline assessment, and without one the result is Unknown with no reasons |
| CommentQuality.SpliceSpec | project/commentQualityEvaluator.ts:184 | the line at the index goes and every other line keeps its order; an index past the end changes nothing |
| CommentQuality.KeptSplice | project/commentQualityEvaluator.ts:183-185 | splicing one more line equals keeping all lines but one more index |
| CommentQuality.RemovedAscending | project/commentQualityEvaluator.ts:183-185 | for ascending in-range indices, the reverse splice loop removes exactly the listed lines |
| CommentQuality.CodeClassifications | project/commentQualityEvaluator.ts:177 | exactly the Code classifications are kept |
| CommentQuality.FilterCodeLines | project/commentQualityEvaluator.ts:176-189 | the loop computes the filtered text |
| CommentQuality.FilteredTextKeepsOtherLines | project/commentQualityEvaluator.ts:176-189 | without Code classifications the text is unchanged; otherwise exactly the listed lines go and the others stay in order |
| CommentQuality.NoRelationIffDisjoint | project/commentQualityEvaluator.ts:295-304 | the "no relation" decrease happens iff both word lists are non-empty and share no word |
| CommentQuality.CoveragesAreShares | project/commentQualityEvaluator.ts:295-297 | with a common word, both coverages lie in (0, 1] |
| CommentQuality.RepeatingTheNameIsTooMuch | project/commentQualityEvaluator.ts:306-310 | a comment that only repeats the name's words is rated too much overlap |
| CommentQuality.EvaluateContentOverlap | project/commentQualityEvaluator.ts:281-313 | exactly one adjustment: decrease without comment words; Unknown with a reason without name words; decrease with a reason on no overlap or too much; otherwise increase |
| CommentQuality.ParameterAssessment | project/commentQualityEvaluator.ts:212-221 | a parameter's rating carries at most one reason |
| CommentQuality.RepeatingTheParameterNameIsLow | project/commentQualityEvaluator.ts:212-221 | a parameter comment that only repeats the name's words is Low, with the overlap reason followed by ": " and the parameter's name |
| CommentQuality.AssessParamCommentQuality | project/commentQualityEvaluator.ts:212-221 | a fresh result starting at Medium, adjusted with the parameter threshold, with the name appended to the last reason below Medium |
| CommentQuality.JSDocScan | project/commentQualityEvaluator.ts:233-254 | every parameter is counted and at most that many are commented |
| CommentQuality.JSDocCounts | project/commentQualityEvaluator.ts:237-244 | the commented count is the number of described parameters, and each undescribed one adds a reason |
| CommentQuality.NoParametersNoChange | project/commentQualityEvaluator.ts:257 | without parameters nothing changes |
| CommentQuality.AllUndescribed | project/commentQualityEvaluator.ts:237-243 | with n undescribed parameters the quality drops n steps, then two more at the end (never below Unhelpful) |
| CommentQuality.AllDescribedWell | project/commentQualityEvaluator.ts:244-261 | with n parameters all rated High the distance is -n and the final quality goes one step up |
| CommentQuality.AssessParameter | project/commentQualityEvaluator.ts:233-254 | one parameter moves the counters, quality and reasons on as the loop specification's step |
| CommentQuality.AssessJSDocComment | project/commentQualityEvaluator.ts:211-267 | the parameter loop and the final adjustment compute the specified quality and reasons |
| QualityWalker.TickRun | project/highCommentQualityWalkerV2.ts:157 | the length of the run of backticks at a position |
| QualityWalker.PlainRun | project/highCommentQualityWalkerV2.ts:157 | the length of the run of non-backticks at a position |
| QualityWalker.FenceEndAtLongest | project/highCommentQualityWalkerV2.ts:157-158 | the fence found at a position matches the fence pattern and is the longest match there |
| QualityWalker.NextFenceLeftmost | project/highCommentQualityWalkerV2.ts:158-162 | the next match starts at the leftmost position from which the pattern matches |
| QualityWalker.Fences | project/highCommentQualityWalkerV2.ts:158-162 | each successive match starts at or after the search position and lies in the text |
| QualityWalker.FencesOrdered | project/highCommentQualityWalkerV2.ts:158-162 | each match ends before the next one starts, as `lastIndex` moves past every match |
| QualityWalker.IsEscapedCode | project/highCommentQualityWalkerV2.ts:155-165 | true iff the position is within the comment and some fence starting at or before it contains the code text |
| QualityWalker.FencedCodeIsEscaped | project/test/highCommentQualityWalkerTest.ts:52-81 | code wrapped in a fence is escaped |
| QualityWalker.FenceAfterCodeDoesNotEscape | project/highCommentQualityWalkerV2.ts:160 | code at a position with no backtick at or before it is not escaped, whatever fences follow |
| QualityWalker.FencesStartWithTick | project/highCommentQualityWalkerV2.ts:157-162 | every fence match starts with a backtick |
| QualityWalker.UnescapedLinesMembers | project/highCommentQualityWalkerV2.ts:141-150 | a line stays iff it is a listed code line that no fence escapes |
| QualityWalker.UnescapedIsSubsequence | project/highCommentQualityWalkerV2.ts:141-150 | the result is an order-preserving subsequence of the listed lines |
| QualityWalker.DropEscaped | project/highCommentQualityWalkerV2.ts:140-150 | the splice loop over a copy computes the unescaped lines |
| QualityWalker.GetUnescapedCodeLines | project/highCommentQualityWalkerV2.ts:94-153 | fails unless the classification is Code with a line list; otherwise yields the unescaped lines |
| QualityWalker.MessageOrDefault | project/highCommentQualityWalkerV2.ts:457 | the default message is used iff the message is missing or empty (or is the default) |
| QualityWalker.RequireSpec | project/highCommentQualityWalkerV2.ts:413-469 | true iff there is an enclosing node, no quality comment, and no earlier requirement on the line; the message is appended to the line's list (created when absent); other lines stay |
| QualityWalker.RequireGrows | project/highCommentQualityWalkerV2.ts:455-468 | a requirement never removes a line or a message |
| QualityWalker.MaxIndex | project/highCommentQualityWalkerV2.ts:393 | the dequeued entry has the highest complexity |
| QualityWalker.RemoveAt | project/highCommentQualityWalkerV2.ts:393 | dequeuing removes exactly that one entry |
| QualityWalker.LineQueue.Dequeue | project/highCommentQualityWalkerV2.ts:393 | nothing from an empty queue; otherwise the most complex entry, removed from the queue |
| QualityWalker.Enforce | project/highCommentQualityWalkerV2.ts:385-404 | returns false iff the complexity is below the threshold |
| QualityWalker.FallbackTakesHighest | project/highCommentQualityWalkerV2.ts:392-401 | the loop only removes entries from the queue, and every removed entry is at least as complex as every one left |
| QualityWalker.EnforceGrows | project/highCommentQualityWalkerV2.ts:385-404 | enforcing never removes a requirement and only shrinks the queue |
| QualityWalker.FallbackStopsBelowThreshold | project/highCommentQualityWalkerV2.ts:394-396 | when no entry reaches the line threshold, no requirement is added |
| QualityWalker.CommentRequirements.constructor | project/highCommentQualityWalkerV2.ts:40 | no line requires a comment yet |
| QualityWalker.CommentRequirements.RequireCommentForLine | project/highCommentQualityWalkerV2.ts:413-469 | updates the map and returns as the requirement rule says |
| QualityWalker.CommentRequirements.FindCommentRequirementLocation | project/highCommentQualityWalkerV2.ts:392-399 | stops on an empty queue or a line below the threshold; otherwise requires a comment on the most complex line |
| QualityWalker.CommentRequirements.EnforceCommentRequirementForSection | project/highCommentQualityWalkerV2.ts:385-404 | the section method with its dequeue loop computes the specified result, map and queue |
| NestingLevels.FirstRecorded | project/nestingLevelCollector.ts:16-23 | the climb stops at the first recorded ancestor line or at the root |
| NestingLevels.VisitSpec | project/nestingLevelCollector.ts:10-28 | non-nodes and recorded lines change nothing; otherwise exactly the node's line is added and other entries stay |
| NestingLevels.UnrecordedChainDepth | project/nestingLevelCollector.ts:16-26 | with nothing recorded, the level is the number of steps to the root |
| NestingLevels.ChildOfRecordedParent | project/nestingLevelCollector.ts:16-26 | below a recorded parent, the level is the parent's plus one |
| NestingLevels.LevelThroughParent | project/nestingLevelCollector.ts:16-26 | an unrecorded node lies one level below what its parent's chain yields |
| NestingLevels.NestingLevelCollector.constructor | project/nestingLevelCollector.ts:8 | the table starts empty |
| NestingLevels.NestingLevelCollector.VisitNode | project/nestingLevelCollector.ts:10-28 | the climbing loop computes the specified table, and the node's line is recorded afterwards |
| NestingLevels.NestingLevelCollector.GetNestingLevel | project/nestingLevelCollector.ts:30-32 | a level iff the line was recorded |
| CyclomaticComplexity.CalcAddsCount | project/cyclomaticComplexityCollector.ts:29-47 | the traversal raises the running counter by exactly the subtree's increasing nodes, nested functions excluded, and restores it around a function |
| CyclomaticComplexity.FunctionBodyComplexity | project/cyclomaticComplexityCollector.ts:31-36 | a function's body is recorded as 1 plus its increasing nodes, nested functions excluded |
| CyclomaticComplexity.BlockComplexity | project/cyclomaticComplexityCollector.ts:41-45 | a block is recorded as the increasing nodes it contains, and at least 1 |
| CyclomaticComplexity.CalcKeepsPositive | project/cyclomaticComplexityCollector.ts:33-44 | every recorded complexity is at least 1 |
| CyclomaticComplexity.IfWithOrExample | project/cyclomaticComplexityCollector.ts:26-68 | `if (a \|\| b) {}` in a function records 3 for the body and 1 for the inner block |
| CyclomaticComplexity.CyclomaticComplexityCollector.constructor | project/cyclomaticComplexityCollector.ts:8 | the table starts empty |
| CyclomaticComplexity.CyclomaticComplexityCollector.VisitNode | project/cyclomaticComplexityCollector.ts:10-15 | only function-scope boundaries start a calculation; anything else changes nothing |
| CyclomaticComplexity.CyclomaticComplexityCollector.CalculateCyclomaticComplexity | project/cyclomaticComplexityCollector.ts:26-49 | the table becomes the traversal's table, starting from a counter of 0 |
| CyclomaticComplexity.CyclomaticComplexityCollector.Calculate | project/cyclomaticComplexityCollector.ts:29-47 | the recursive closure with its saved counter computes the specified table and counter |
| CyclomaticComplexity.CyclomaticComplexityCollector.GetComplexity | project/cyclomaticComplexityCollector.ts:21-23 | a complexity iff the node was recorded |

## Left out

- File, CSV and JSON input, the chart template and the output file in `evaluate.py` (lines 29-41, 69-88, 97-100): I/O.  Rows and predictions arrive as values.
- `natural_keys` is not part of this model.  The caller passes the lines already in natural order; the model requires only that they enumerate the keys.
- `calculate_agreement` and `match_predicitons` are exercised by `evaluate_test.py` but defined in no file of this model.  Their rules cannot be recovered from the test vectors alone.
- Whitespace classes are fixed character predicates.  `Strings.IsPyWhitespace` is the six ASCII whitespace characters of a Python 2 byte-string pattern.  `Strings.IsJsWhitespace` adds the Unicode space separators and line terminators of a JavaScript pattern, as listed there; no Unicode database is consulted.
- Strings are sequences of characters, not UTF-16 code units.  Lengths and positions agree only for text within the BMP.
- `Utils.SplitIntoNormalizedWords`: the regex replacements are modelled as character-level passes.  The `toLowerCase` step covers ASCII letters only, as the source's own comment says it works only for ASCII.
- Utils.Capitalize: maps ASCII letters only.  JavaScript's `toUpperCase` and `toLowerCase` apply the full Unicode case mapping, which can also change the length ("ß" becomes "SS"); that is not modelled.
- `isNode`, `isStatement`, `isDeclaration`, `isJSDocTag` and `isCodeInLine` in `utils.ts`: they inspect compiler nodes.
- `stripCommentStartTokens`: the regex is the `strip` parameter, assumed only to create no line breaks.
- `SourceComment.inspect`: a debug printer.
- Source-comment positions: the shown `SourceComment` has no `pos` of its own.  The source map keys a merged comment at its first comment's start line.  Where `getUnescapedCodeLines` subtracts `comment.pos` (line 144), the model uses the position of the sanitized complete comment, which is its first part's `pos`.
- `classifications` and `jsDoc` on a source comment: `sourceComment.ts` declares neither, yet `licenseMatcher.ts` and the classifiers push to `comment.classifications`, and the quality evaluator and the walker read `.jsDoc`.  The model gives `SourceComment` a `classifications` field that starts empty.  It has no `jsDoc`: the JSDoc question becomes the `nextNode` input of `EvaluateQuality`, and `GetUnescapedCodeLines` models only the branch for a comment without JSDoc.
- SourceComments.SourceComment.GetCommentParts: returns the parts as a value.  The source returns its own `commentParts` array, so a caller could change the comment through it; no caller in this model's core does.
- Compiler-based source-map queries (enclosing node, closest comments, nesting parents): these become `lineInfo` and `nextNode` inputs.
- The texts of the custom licence parts and `getAllCustomLicenseParts` (reflection over string constants): the custom parts are a constructor argument, and the match counts come from the `countMatches` parameter.  The general licence pattern is `LicenseMatchers.GeneralLicenseText`.
- Evaluate.CollectAnswers: the index error ends the script, so the lists the row loop had already extended for the failing row are not modelled; the result is just the error.  `TS_DEVS_ONLY` is the `tsDevsOnly` parameter rather than the constant `False`.
- `assessDeclarationComment`, `assessInlineComment`, `collectKeywords`, `getParameterNames` and `getNameOfDeclaration`: AST work.  `EvaluateQuality` stops where they would be called.
- `filterCommonWords` and `normaliseWords` (stopword, pluralize, compendium): library word lists.  The word overlap takes the normalised, sorted word lists as inputs.
- `CommentQuality.AssessParamCommentQuality`: appending the name to the last reason is modelled only when a reason exists.  On an empty list the source's `reasons[-1] += …` changes no element, and the model keeps the list as it is.
- The JSDoc-tag branches of `getUnescapedCodeLines` (lines 100-138): they need the compiler's JSDoc nodes.  The model covers the branch for a comment without JSDoc.
- The rest of `highCommentQualityWalkerV2.ts` (`walk`, section and line complexity collection, failure reporting): tslint plumbing over the AST.
- `QualityWalker.LineQueue.Dequeue`: among entries of equal complexity, the model takes the first.  The priority queue library's tie order is not modelled.
- The number formatting in the requirement messages is the `show` parameter (JavaScript's number-to-string conversion).
- `getAllNodes` of the cyclomatic collector: it returns the map's keys in insertion order, which a Dafny map does not keep.
- Node identity in the collectors: nodes are identified by an id in the model, and `getComplexity` looks up that id.  An undefined function body is the key `None`.
- The code detectors, the other tslint rules and walkers, the Halstead and lines-of-code collectors, and the vendored sample files: outside the modelled core.

## Findings

| source | as written | input that shows it | evidently intended | confidence | as-written member | corrected member |
|---|---|---|---|---|---|---|
| project/utils.ts:84 | on a match, `getIntersection` pushes `first[o]`, indexing the first array with the second array's position | `getIntersection(["a","b"], ["b"])` returns `["a"]`; `getIntersection(["b"], ["a","b"])` returns `[undefined]` | push the common element `first[i]`; the only caller uses the length, which both versions share | not executed | Utils.IntersectionAsWrittenWrong | Utils.IntersectionCommon |
