# Student activity ranking and search filters, modelled in Dafny

This project models the integer and list logic of a student portal. It has two computation paths and the list filters that the pages wrap around them.

- **Activity-score ranking** (`studentRanking.ts`). Each student has a vector of 17 activity counts, and the weights are `ACTIVITY_WEIGHTS`.
  - `calculateScores` computes the weighted sum for each student.
  - `rankStudents` sorts by score, descending.
  - `handleTies` then reorders students with equal scores by the `TIE_BREAKER_PRIORITY` categories.
  - The rank loop then gives competition ranks.
  - `searchStudents` and `filterStudentsByActivity` re-rank a subset of the matrix.
  - `getDetailedCalculation` writes the score out line by line.
- **Search post-processing** (`searchEngineRanking.ts`).
  - Keyword overlap is an exact pair of counts.
  - The integer part of the mock embedding is a 32-bit string hash per word and the slot it lands in.
  - Result records are built for students and documents.
  - The `0.1` relevance threshold is applied, and the results are merged and stably sorted.
  - The conjunctive `applyFilters` runs last.
- **Page logic.**
  - `StudentRanking.tsx`: the list of advanced filters, the `filteredStudents` view and the top three activities of a student.
  - `StudentSearch.tsx`: the directory's `filterStudents` chain.
  - `StudentProfileCard.tsx`: `getInitials`.

## How the program is modelled

A JavaScript feature used by the source becomes the following Dafny construct (module in brackets):

- ordered `Object.entries` / `Object.keys` on the matrix and the weights: sequences in declaration order: `seq<Entry>` (`Scoring`) and `seq<Weight>` (`ActivityTables`);
- `Array.prototype.sort` with a consistent comparator `cmp`: `Sorting.SortBy(le, s)` with `le(a, b) == (cmp(a, b) <= 0)`:
  - it is a stable insertion sort, which places each element before the first element it may precede;
  - its proved properties are permutation, order (`SortBySorted`) and stability (`SortByStable`);
- `filter`: `Sequences.FilterBy`;
- a `for` loop that accumulates: a `method` with a loop invariant against a specification function;
- `x || 0` on a missing array element: `ActivityTables.CountAt`, which gives 0 outside the vector;
- a missing weight (`weightValues[i]` past the end): 0 in the score, and `NaN` in the written explanation (`Scoring.Num`);
- `<<` and `& 0xffffffff`: ECMAScript `ToInt32` on unbounded integers (`Embedding.ToInt32`);
- `%` on a negative hash: the truncated remainder (`Embedding.Rem1000`);
- `toLowerCase`, `toUpperCase`, `includes`, `split(/\s+/)`, `split(' ')`: ASCII case mapping, substring search and the two splits, in `Text`;
- relevance numbers: abstract `real` values, supplied as functions of the records;
- `toLocaleDateString` and `Date.now()`: parameters.

`handleTies` is modelled as the code is written, and it can corrupt the list; see "Findings". `TieBreak.TieWriteBack` is the literal behaviour and `TieBreak.HandleTies` implements it. `TieBreak.TieWriteBackFixed` writes each group back from the group's own first slot. The ranking functions use the literal write-back, so their lemmas assume that each tie-break winner already leads its group (`TieBreak.WinnersLead`). Under that assumption the two write-backs agree (`TieBreak.TieWriteBackSpec`).

The sample matrix gives Alice 3·7 + 2·12 + 1·20 + 2·5 + 1·10 + 1·15 + 1·10 + 1·12 + 2·8 + 1·6 + 3·5 + 2·6 + 1·10 + 1·8 = 189. The scores are Diana 295, Eve 246, Charlie 243, Bob 206 and Alice 189, with ranks 1 to 5 (`Ranking.SampleRanking`).

## Model

| member | source | states |
|---|---|---|
| ActivityTables.WeightTable | src/utils/studentRanking.ts:41-68 | `ActivityWeights` is defined as `ACTIVITY_WEIGHTS`: its 17 categories with their points, in declaration order; each is worth a positive number of points |
| ActivityTables.NameTable | src/utils/studentRanking.ts:307-325 | `ActivityNames` is defined as `ACTIVITY_NAMES`, by category index; every category of the weights has a non-empty display name |
| ActivityTables.Keys | src/utils/studentRanking.ts:248 | `Object.keys(this.weights)`: one key per weight, in declaration order |
| ActivityTables.IndexOf | src/utils/studentRanking.ts:249 | -1 exactly when the key is absent; otherwise the first position holding the key |
| ActivityTables.WeightAt | src/utils/studentRanking.ts:114 | `weightValues[i] \|\| 0`: the weight inside the table, 0 outside it |
| ActivityTables.CountAt | src/utils/studentRanking.ts:199-200 | `activities[i] \|\| 0`: the count inside the vector, 0 outside it |
| Scoring.ScoreOf | src/utils/studentRanking.ts:107-115 | defined as the left-to-right sum of `counts[i] * (weightValues[i] || 0)` over every count of the vector |
| Scoring.Scores | src/utils/studentRanking.ts:103-121 | defined as one `{ name, score }` per matrix entry, in `Object.entries` order, scored by `ScoreOf` |
| Scoring.CalculateScores | src/utils/studentRanking.ts:103-121 | one scored entry per matrix entry, in matrix order, scored by the weighted sum over the whole count vector |
| Scoring.ScoreBump | src/utils/studentRanking.ts:113-115 | raising one count by d changes the score by d times that category's weight, or not at all past the weights |
| Scoring.ScoreMonotone | src/utils/studentRanking.ts:113-115 | with non-negative weights, raising counts never lowers the score |
| Scoring.ScoreIgnoresExtra | src/utils/studentRanking.ts:113-115 | counts beyond the last weight add nothing |
| Scoring.PrefixScore | src/utils/studentRanking.ts:113-115 | the partial sum over the first n counts depends only on those counts |
| Scoring.ScoreFirstNine | src/utils/studentRanking.ts:41-68 | the first nine terms of a 17-count score under `ACTIVITY_WEIGHTS` in closed form |
| Scoring.ScoreUnderActivityWeights | src/utils/studentRanking.ts:41-68 | the score of a 17-count vector under `ACTIVITY_WEIGHTS` is the dot product with 7, 12, 20, 25, 5, 10, 15, 20, 15, 10, 12, 8, 6, 5, 6, 10, 8 |
| Scoring.SampleScores | src/utils/studentRanking.ts:298-304 | the sample matrix scores Alice 189, Bob 206, Charlie 243, Diana 295, Eve 246 |
| Scoring.Explanation | src/utils/studentRanking.ts:273-294 | defined as the header line, one line per category with a positive count, and the total line, concatenated |
| Scoring.DetailedCalculation | src/utils/studentRanking.ts:273-294 | the loop builds exactly the header, the line of every positive count and the total line |
| Scoring.AddCategory | src/utils/studentRanking.ts:281-289 | one turn of the loop: a positive count appends its line and adds its points; any other count changes nothing |
| Scoring.LinesGrow | src/utils/studentRanking.ts:286-288 | a category with a positive count appends its own line to the text |
| Scoring.Listed | src/utils/studentRanking.ts:286 | the listed categories lie below the loop bound |
| Scoring.ListedExactly | src/utils/studentRanking.ts:280-290 | a category gets a line exactly when its count is positive, and lines come in category order |
| Scoring.TotalIsScore | src/utils/studentRanking.ts:284-289 | within the weights, the written total is the score of the counts with non-positive entries dropped |
| Scoring.ExplanationTotalIsScore | src/utils/studentRanking.ts:273-294 | the written total equals the `calculateScores` score when no count is negative and the vector is no longer than the weights |
| Scoring.TotalNaN | src/utils/studentRanking.ts:282-289 | the written total is `NaN` exactly when a positive count lies beyond the weights |
| Scoring.PositivePart | src/utils/studentRanking.ts:286 | the counts with non-positive entries read as 0, one per category |
| TieBreak.PriorityNames | src/utils/studentRanking.ts:188 | the category names of the priority table, in order |
| TieBreak.PriorityTableSorted | src/utils/studentRanking.ts:188-191 | sorting the priority table by descending level leaves it in declaration order, so `mentoring` stays before `openSource` |
| TieBreak.PriorityTableNames | src/utils/studentRanking.ts:71-89 | the table lists its 17 categories in declaration order |
| TieBreak.PriorityKeysKnown | src/utils/studentRanking.ts:71-89 | `TieBreakerPriority` is defined as `TIE_BREAKER_PRIORITY` in declaration order; under `ACTIVITY_WEIGHTS` its keys are exactly the weighted categories, so the comparator's `indexOf` never gives -1 |
| TieBreak.PriorityKeysSorted | src/utils/studentRanking.ts:188-191 | the sorted priority keys are the categories from `patents` down to `volunteering` |
| TieBreak.TieCompare | src/utils/studentRanking.ts:183-208 | defined as the loop over the priority keys: `bCount - aCount` at the first weighted category where the counts differ, missing counts read as 0, or 0 |
| TieBreak.CompareCounts | src/utils/studentRanking.ts:184-208 | the comparator loop returns the tie-break comparison of the two count vectors |
| TieBreak.CompareOver | src/utils/studentRanking.ts:196-208 | for any key order, the loop returns `b`'s count minus `a`'s at the first key of the weights where they differ, missing counts read as 0, or 0 when they never differ |
| TieBreak.CompareMeaning | src/utils/studentRanking.ts:196-208 | 0 exactly when every known category agrees; otherwise `bCount - aCount` at the first category, by priority, where the counts differ |
| TieBreak.CompareAntisymmetric | src/utils/studentRanking.ts:183-209 | swapping the two students negates the comparison |
| TieBreak.CompareTransitive | src/utils/studentRanking.ts:183-209 | "may stay ahead" is transitive |
| TieBreak.TieLeTotalPreorder | src/utils/studentRanking.ts:183-209 | the comparator is a consistent total preorder, so `group.sort` is the stable sort |
| TieBreak.ScoreKeys | src/utils/studentRanking.ts:170-177 | the keys of `scoreGroups` are exactly the scores that occur |
| TieBreak.ScoreKeysUnique | src/utils/studentRanking.ts:170-177 | each score is recorded once |
| TieBreak.EntryOrder | src/utils/studentRanking.ts:180 | defined as the `Object.entries(scoreGroups)` order: the scores that are array indices ascending, then the other scores in insertion order |
| TieBreak.EntryOrderVisitsAll | src/utils/studentRanking.ts:180 | `Object.entries(scoreGroups)` visits every recorded score exactly once |
| TieBreak.GroupByScore | src/utils/studentRanking.ts:170-177 | after the loop each score maps to its students in list order, and the keys are the scores in order of first appearance |
| TieBreak.AddToGroup | src/utils/studentRanking.ts:173-176 | one turn of the grouping loop keeps that correspondence for one more student |
| TieBreak.FindIndex | src/utils/studentRanking.ts:212 | `findIndex`: the first position with that name, or -1 |
| TieBreak.Store | src/utils/studentRanking.ts:214 | `students[k] = x`: replaces an element inside the array, appends at its end, and changes no element at -1 |
| TieBreak.WriteBackInside | src/utils/studentRanking.ts:213-215 | a write-back that fits replaces exactly the slice starting at the start index |
| TieBreak.WriteGroup | src/utils/studentRanking.ts:212-215 | the write-back loop stores the sorted group from the start index on |
| TieBreak.ResolveGroup | src/utils/studentRanking.ts:181-216 | defined as one visit: a group of one is left alone; a larger group is sorted by the tie-breaker and written back from `findIndex` of its anchor's name |
| TieBreak.VisitGroup | src/utils/studentRanking.ts:181-216 | one visit: groups of one are left alone, larger groups are sorted and written back from `findIndex(group[0].name)` |
| TieBreak.HandleTies | src/utils/studentRanking.ts:168-218 | `handleTies` computes the literal write-back of every group, in `Object.entries` order |
| TieBreak.TieWriteBack | src/utils/studentRanking.ts:168-218 | defined as the visits of every score group in `Object.entries` order, each started at `findIndex(group[0].name)` after the group is sorted |
| TieBreak.TieWriteBackFixed | src/utils/studentRanking.ts:211-215 | defined as the same visits, each group written back from the slot its first member held before the sort |
| TieBreak.DescendingIff | src/utils/studentRanking.ts:133 | being ordered by `(a, b) => b.score - a.score` is having non-increasing scores |
| TieBreak.GroupSegment | src/utils/studentRanking.ts:170-177 | in a list sorted by score, each score group is one contiguous slice |
| TieBreak.ResolveGroupSplices | src/utils/studentRanking.ts:212-215 | the corrected write-back replaces exactly the group's slice with the sorted group |
| TieBreak.ResolveAllFixed | src/utils/studentRanking.ts:180-217 | after the corrected visits each group's slice holds the sorted group and everything else is untouched |
| TieBreak.TieWriteBackFixedSpec | src/utils/studentRanking.ts:168-218 | corrected: the result is a permutation of the sorted list with the same score at every position, and each score group is in comparator order |
| TieBreak.AnchorsAgree | src/utils/studentRanking.ts:212 | when every tie-break winner already leads its group, both write-back starts coincide |
| TieBreak.TieWriteBackSpec | src/utils/studentRanking.ts:168-218 | as written, under that precondition: the same result as the corrected write-back, hence a permutation that keeps the scores and orders each group |
| TieBreak.TieWriteBackFrom | src/utils/studentRanking.ts:212-215 | as written, every output element comes from the input, even when entries are overwritten |
| TieBreak.SingletonGroups | src/utils/studentRanking.ts:181 | with pairwise different scores no group has two students |
| TieBreak.NoTiesUnchanged | src/utils/studentRanking.ts:181-216 | without equal scores the list is left as it is |
| TieBreak.WinnerSecond | src/utils/studentRanking.ts:212-215 | as written, a winner in second place overwrites the group's following neighbour |
| TieBreak.WinnerSecondFixed | src/utils/studentRanking.ts:212-215 | corrected: the same input gives the two students in swapped order with the neighbour intact |
| TieBreak.WinnerSecondGrows | src/utils/studentRanking.ts:212-215 | as written, a group at the end of the array makes the array grow |
| TieBreak.TieOverwrites | src/utils/studentRanking.ts:212-215 | concrete case: `[A 25, B 25, D 7]`, where B wins on patents, becomes `[A, B, A]`, and D is lost |
| TieBreak.TieGrows | src/utils/studentRanking.ts:212-215 | concrete case: `[A 25, B 25]` becomes the three-element `[A, B, A]` |
| Ranking.RankAt | src/utils/studentRanking.ts:143-149 | the rank at position i lies between 1 and i + 1 |
| Ranking.Ranking | src/utils/studentRanking.ts:139-158 | one ranked entry per student with its name and score, and the loop's `currentRank` as rank |
| Ranking.AssignRanks | src/utils/studentRanking.ts:139-158 | the rank loop computes that ranking |
| Ranking.Unranked | src/utils/studentRanking.ts:151-155 | the name and score part of each ranked entry |
| Ranking.UnrankedRanking | src/utils/studentRanking.ts:151-155 | ranking keeps every student's name and score, in order |
| Ranking.RanksNonDecreasing | src/utils/studentRanking.ts:143-158 | ranks never go down along the list |
| Ranking.RankIsRunStart | src/utils/studentRanking.ts:147-148 | on a descending list, a student's rank is one more than the position of the first student with the same score |
| Ranking.RankCountsHigher | src/utils/studentRanking.ts:139-158 | competition ranking: a student's rank is one more than the number of students with a higher score |
| Ranking.RankEqualIffScoreEqual | src/utils/studentRanking.ts:139-158 | on a descending list, two ranks are equal exactly when the scores are equal |
| Ranking.RankWithoutTies | src/utils/studentRanking.ts:139-158 | with pairwise different scores, position i has rank i + 1 |
| Ranking.RankingOf | src/utils/studentRanking.ts:128-161 | defined as the rank loop over the literal tie write-back of the scores sorted by `b.score - a.score` |
| Ranking.RankStudents | src/utils/studentRanking.ts:128-161 | `rankStudents`: score, sort by descending score, break ties, rank |
| Ranking.ScoresKeepNames | src/utils/studentRanking.ts:103-121 | distinct matrix names give distinct scored names |
| Ranking.ScoreSortFacts | src/utils/studentRanking.ts:133 | the score sort is a permutation into descending order |
| Ranking.RankingOfDescending | src/utils/studentRanking.ts:139-158 | the ranking of a descending list keeps it, and its ranks are competition ranks that are equal exactly for equal scores |
| Ranking.RankStudentsSpec | src/utils/studentRanking.ts:128-161 | for distinct names whose tie-break winners lead: one entry per student with its own score, descending scores, comparator order within ties, competition ranks |
| Ranking.RankStudentsNoTies | src/utils/studentRanking.ts:128-161 | with pairwise different scores: strictly falling scores and ranks 1, 2, 3 and so on |
| Ranking.StrictRanks | src/utils/studentRanking.ts:139-158 | a strictly falling list is ranked 1, 2, 3 and so on |
| Ranking.RankingFrom | src/utils/studentRanking.ts:128-161 | every ranked student is a matrix entry with that entry's score, whatever the write-back does |
| Ranking.RankingHasAll | src/utils/studentRanking.ts:128-161 | under the precondition of `RankStudentsSpec`, every matrix entry is ranked with its score |
| Ranking.SortFive | src/utils/studentRanking.ts:133 | the score sort of five students with pairwise different scores |
| Ranking.StrictlyFalling | src/utils/studentRanking.ts:139-158 | neighbour-wise falling scores are descending and pairwise different |
| Ranking.SampleRanking | src/utils/studentRanking.ts:298-304 | the sample ranks Diana 295, Eve 246, Charlie 243, Bob 206 and Alice 189 at ranks 1 to 5 |
| Ranking.RankingOfUntied | src/utils/studentRanking.ts:128-161 | without ties, `rankStudents` is the ranking of the score sort |
| Ranking.SearchStudents | src/utils/studentRanking.ts:226-237 | `searchStudents` ranks the entries whose lower-cased name contains the lower-cased term |
| Ranking.SearchEmptyTerm | src/utils/studentRanking.ts:230 | the empty term keeps everyone and gives the full ranking |
| Ranking.SearchKeepsMatches | src/utils/studentRanking.ts:226-237 | every result is a matching matrix entry with its score |
| Ranking.SearchFindsAll | src/utils/studentRanking.ts:226-237 | every matching entry is in the result, under the precondition of `RankStudentsSpec` for the subset |
| Ranking.FilterStudentsByActivity | src/utils/studentRanking.ts:246-265 | `[]` for an unknown activity; otherwise the ranking of the entries with at least `minCount` of it |
| Ranking.ActivityFilterKeeps | src/utils/studentRanking.ts:255-264 | every result has at least `minCount` of the activity, so a vector too short for it is excluded, and keeps its entry's score |
| Ranking.ActivityFilterFindsAll | src/utils/studentRanking.ts:255-264 | every entry with at least `minCount` of the activity is ranked, under the precondition of `RankStudentsSpec` for the kept entries |
| Ranking.ActivityKeyLookup | src/utils/studentRanking.ts:248-253 | an activity is unknown exactly when no weight has that key |
| Sorting.SortBy | src/utils/studentRanking.ts:133 | the sort returns a permutation of its input |
| Sorting.SortBySorted | src/utils/studentRanking.ts:133 | with a consistent comparator the result is ordered |
| Sorting.SortByStable | src/utils/studentRanking.ts:133 | equal elements keep their input order |
| Sorting.SortBySortedIdentity | src/utils/studentRanking.ts:183-209 | an ordered list is left as it is |
| Text.IncludesIff | src/utils/studentRanking.ts:230 | `includes` holds exactly when the term occurs at some position |
| Text.SplitWs | src/utils/searchEngineRanking.ts:37 | `split(/\s+/)` yields at least one piece and no piece contains whitespace; SplitWsRoundTrip and SplitWsInterior pin the pieces down |
| Text.Gaps | src/utils/searchEngineRanking.ts:37 | the whitespace runs `split(/\s+/)` consumes: one fewer than the pieces, each non-empty and all whitespace |
| Text.SplitWsRoundTrip | src/utils/searchEngineRanking.ts:37 | the pieces with the consumed runs between them give back the input, so nothing but whitespace is dropped |
| Text.SplitWsInterior | src/utils/searchEngineRanking.ts:37 | every piece but the first and the last is non-empty, so each consumed run is a maximal run of whitespace |
| Text.SplitOn | src/components/StudentProfileCard.tsx:29 | `split(' ')` yields at least one piece and no piece contains a space; SplitOnRoundTrip and JoinOnRoundTrip make it the inverse of joining with the separator |
| Text.SplitOnRoundTrip | src/components/StudentProfileCard.tsx:29 | joining the pieces of `split(sep)` with `sep` gives back the input |
| Text.JoinOnRoundTrip | src/components/StudentProfileCard.tsx:29 | splitting a join of separator-free parts with `sep` gives back the parts, so every occurrence splits and doubled separators give empty pieces |
| Text.NatToString | src/components/StudentRanking.tsx:41 | the decimal rendering is a non-empty string of digits; NatToStringRoundTrip says which |
| Text.NatToStringRoundTrip | src/components/StudentRanking.tsx:41 | the rendering of `Date.now()` denotes that number in decimal and has no leading zero except for 0 itself |
| Keywords.Similarity | src/utils/searchEngineRanking.ts:75-89 | defined as the pair (matches, number of query terms longer than 2), and (0, 0), read as 0, when there are no such terms |
| Keywords.KeywordSimilarity | src/utils/searchEngineRanking.ts:75-89 | the loop counts the query terms found among the content terms, over the number of query terms, or 0 without terms |
| Keywords.QueryTermsShape | src/utils/searchEngineRanking.ts:76 | every query term is longer than 2, has no whitespace and no upper case |
| Keywords.FractionInUnit | src/utils/searchEngineRanking.ts:88 | a count of matches no larger than the total gives a ratio in [0, 1], equal to 1 exactly when every term matched |
| Keywords.SimilarityInUnit | src/utils/searchEngineRanking.ts:79-88 | the score lies in [0, 1] and is 0 without query terms |
| Keywords.MatchesSnoc | src/utils/searchEngineRanking.ts:82-86 | a repeated query term counts once per occurrence |
| Keywords.MatchesAll | src/utils/searchEngineRanking.ts:81-86 | the count is the number of terms exactly when every term occurs in the content |
| Keywords.MatchesNone | src/utils/searchEngineRanking.ts:81-86 | the count is 0 exactly when no term occurs in the content |
| Keywords.FullScore | src/utils/searchEngineRanking.ts:75-89 | the score is 1 exactly when there are terms and all of them occur in the content |
| Embedding.ToInt32 | src/utils/searchEngineRanking.ts:44 | the result is a signed 32-bit integer congruent to the input modulo 2^32 |
| Embedding.ToInt32Congruent | src/utils/searchEngineRanking.ts:44 | congruent inputs give the same 32-bit value |
| Embedding.HashStepIs31 | src/utils/searchEngineRanking.ts:44 | `((h << 5) - h + c) & 0xffffffff` is `ToInt32(31·h + c)` |
| Embedding.WordHashIsPolynomial | src/utils/searchEngineRanking.ts:42-45 | a word's hash is its polynomial hash in base 31, reduced to signed 32 bits |
| Embedding.WordHash | src/utils/searchEngineRanking.ts:42-45 | defined as the fold of `((hash << 5) - hash + c) & 0xffffffff` over the character codes of the word, from 0 |
| Embedding.HashWord | src/utils/searchEngineRanking.ts:42-45 | the inner loop computes the word hash |
| Embedding.Rem1000 | src/utils/searchEngineRanking.ts:46 | `hash % 1000` lies in (-1000, 1000), has the sign of the hash and is congruent to it |
| Embedding.Latest | src/utils/searchEngineRanking.ts:41-47 | the last word position below n that is congruent to k modulo 384, or -1 when there is none |
| Embedding.LatestStep | src/utils/searchEngineRanking.ts:46 | one more word changes only the latest position of its own slot |
| Embedding.SlotAfter | src/utils/searchEngineRanking.ts:41-47 | defined as the value of the last word before `n` whose position is congruent to the slot modulo 384, or 0 when there is none |
| Embedding.GenerateEmbedding | src/utils/searchEngineRanking.ts:34-50 | a fresh vector of 384 slots; position k holds the value of the last word at a position congruent to k, 0 when there is none, always within (-1000, 1000) |
| Embedding.ShortText | src/utils/searchEngineRanking.ts:41-47 | with at most 384 words, slot k holds word k's value and later slots stay 0 |
| Profiles.OrElse | src/utils/searchEngineRanking.ts:179 | `o \|\| fallback` on an optional string |
| Profiles.SkillNames | src/utils/searchEngineRanking.ts:185 | the skill names in order |
| SearchResults.StudentDescription | src/utils/searchEngineRanking.ts:179 | the bio when truthy, else "Student in " followed by the department, or "Unknown Department" |
| SearchResults.ProcessStudentForSearch | src/utils/searchEngineRanking.ts:175-188 | type student, id, title, relevance and metadata taken from the record, skills the skill names in order, no document fields |
| SearchResults.ProcessDocumentForSearch | src/utils/searchEngineRanking.ts:217-229 | type document, ids, file type and upload time from the record, and the description or an upload-date sentence |
| SearchResults.StudentResults | src/utils/searchEngineRanking.ts:241-242 | one student result per student, in order |
| SearchResults.DocumentResults | src/utils/searchEngineRanking.ts:249-250 | one document result per document, in order |
| SearchResults.PushStudents | src/utils/searchEngineRanking.ts:241-246 | the first loop keeps exactly the student results above the threshold, in order |
| SearchResults.PushDocuments | src/utils/searchEngineRanking.ts:249-254 | the second loop keeps exactly the document results above the threshold, in order |
| SearchResults.Candidates | src/utils/searchEngineRanking.ts:238-254 | defined as the student results above 0.1 in student order, followed by the document results above 0.1 in document order |
| SearchResults.SearchAndRank | src/utils/searchEngineRanking.ts:233-260 | the stable sort by descending relevance of the relevant students followed by the relevant documents |
| SearchResults.RelevanceLeTotalPreorder | src/utils/searchEngineRanking.ts:257 | the relevance comparator is consistent |
| SearchResults.SearchAndRankKeeps | src/utils/searchEngineRanking.ts:241-257 | a permutation of the candidates; every result has relevance above 0.1; a record is a result exactly when it is a candidate above the threshold |
| SearchResults.SearchAndRankOrdered | src/utils/searchEngineRanking.ts:257 | relevance is non-increasing along the results |
| SearchResults.SearchAndRankStable | src/utils/searchEngineRanking.ts:241-257 | at one relevance, students come before documents and each keeps its input order |
| SearchResults.Passes | src/utils/searchEngineRanking.ts:269-294 | defined as the four checks: a truthy department, college or year must equal the result's, and a non-empty skills list must share a skill with the result |
| SearchResults.ApplyFilters | src/utils/searchEngineRanking.ts:263-295 | no filters return the input; otherwise an order-preserving part holding exactly the results every truthy filter accepts |
| SearchResults.ApplyFiltersIdempotent | src/utils/searchEngineRanking.ts:263-295 | filtering twice with the same filters is filtering once |
| SearchResults.ApplyFiltersCommute | src/utils/searchEngineRanking.ts:263-295 | two filter sets give the same list in either order |
| SearchResults.ApplyFiltersUnion | src/utils/searchEngineRanking.ts:269-294 | two filter sets with no field in common give the same list as their field-wise union |
| SearchResults.ApplyFiltersInactive | src/utils/searchEngineRanking.ts:269-294 | filters without a truthy field keep every result |
| RankingView.AddFilter | src/components/StudentRanking.tsx:38-43 | the old filters are kept, followed by one unset `gte 1` filter whose id is the clock reading |
| RankingView.RemoveFilter | src/components/StudentRanking.tsx:45-49 | a list of one is left as it is; otherwise an order-preserving part of the filters whose members are exactly those with other ids, and as long as the number of filters with other ids, so every copy of each survives |
| RankingView.RemoveAdded | src/components/StudentRanking.tsx:38-49 | removing a just-added filter with a fresh id restores the non-empty list |
| RankingView.Apply | src/components/StudentRanking.tsx:53 | `{ ...filter, [field]: value }` changes the named field and keeps the other three |
| RankingView.UpdateFilter | src/components/StudentRanking.tsx:51-55 | the filters with that id get the field update; every other filter is unchanged |
| RankingView.UpdateMissing | src/components/StudentRanking.tsx:51-55 | an update for an id no filter has changes nothing |
| RankingView.ClearAllFilters | src/components/StudentRanking.tsx:57-62 | empty search term and activity, minimum 1, and the single default filter with id "1" |
| Scoring.Lookup | src/components/StudentRanking.tsx:95 | `SAMPLE_STUDENT_MATRIX[student.name]` (and the comparator's `matrix[a.name]` at src/utils/studentRanking.ts:184-185, through `TieBreak.CountsOf`): absent exactly when no entry has the name; otherwise the counts of an entry with that name |
| RankingView.ActiveIndex | src/components/StudentRanking.tsx:89-91 | the weight index a filter tests, or -1 for an unset or unknown activity |
| RankingView.PassesFilter | src/components/StudentRanking.tsx:88-106 | defined as: a filter without an activity, or with an unknown one, passes everyone; otherwise its operator compares `activities[idx] || 0` with its value |
| RankingView.Filtered | src/components/StudentRanking.tsx:65-110 | defined as the name stage, then the simple activity stage, then the advanced filters one after another |
| RankingView.FilteredStudents | src/components/StudentRanking.tsx:65-110 | the memo computes the name search, then the simple activity filter, then each advanced filter in turn |
| RankingView.AdvancedSubsequence | src/components/StudentRanking.tsx:88-107 | the advanced filters keep an order-preserving part of their input |
| RankingView.PassesEverySnoc | src/components/StudentRanking.tsx:88 | passing a list of filters is passing all but the last and then the last |
| RankingView.AdvancedMembers | src/components/StudentRanking.tsx:88-107 | a student survives the advanced filters exactly when every filter is unset, names an unknown activity, or its comparison holds on the count read as `count \|\| 0` |
| RankingView.ActivityMatchesCounts | src/components/StudentRanking.tsx:76-85 | a name kept by the simple activity filter belongs to an entry with at least `minCount` of a known activity |
| RankingView.KeptEntry | src/components/StudentRanking.tsx:77-83 | each kept student of `filterStudentsByActivity` comes from an entry with enough of the activity |
| RankingView.FilteredSubsequence | src/components/StudentRanking.tsx:65-110 | the view is an order-preserving part of the ranking: entries keep their global rank and score |
| RankingView.FilteredMembers | src/components/StudentRanking.tsx:65-110 | a ranked student is shown exactly when the name search, the simple activity filter and every advanced filter accept it, where empty fields accept everyone |
| RankingView.ClearedShowsAll | src/components/StudentRanking.tsx:57-110 | after `clearAllFilters` the whole ranking is shown |
| RankingView.RankedNamesFound | src/components/StudentRanking.tsx:33-35 | every name the page ranks is in the matrix, so the advanced filters always find a count vector |
| RankingView.ItemsOf | src/components/StudentRanking.tsx:357 | one `{ count, index }` per activity, with its own index |
| RankingView.SortedPositiveMembers | src/components/StudentRanking.tsx:357-359 | the sorted items are exactly the activities with a positive count |
| RankingView.SortedPositiveFalling | src/components/StudentRanking.tsx:359 | the items come by falling count |
| RankingView.SortedPositiveTieOrder | src/components/StudentRanking.tsx:359 | at equal counts the lower activity index comes first |
| RankingView.TopItems | src/components/StudentRanking.tsx:356-360 | defined as the positive `{ count, index }` items, sorted stably by falling count, cut to the first three |
| RankingView.TopItemsSpec | src/components/StudentRanking.tsx:356-364 | at most three items, each a positive count read from the student's row, by falling count then by index; every activity left out has no more than the third one shown |
| RankingView.Label | src/components/StudentRanking.tsx:362 | defined as `ACTIVITY_NAMES[index]` when that is a non-empty name, otherwise `Activity ${index + 1}` |
| RankingView.TopActivities | src/components/StudentRanking.tsx:356-364 | each shown activity is the label and count of the corresponding top item |
| Directory.FilterStudents | src/components/StudentSearch.tsx:142-175 | defined as the four conditional stages, in the order term, department, college, skill |
| Directory.Stage | src/components/StudentSearch.tsx:146-172 | an inactive stage keeps its input and an active one filters it |
| Directory.StageIsFilter | src/components/StudentSearch.tsx:146-172 | each conditional stage is a filter whose predicate holds everywhere when the stage is inactive |
| Directory.FilterStudentsIsOneFilter | src/components/StudentSearch.tsx:142-175 | the chain is one filter with the conjunction of what the active controls demand |
| Directory.FourFilters | src/components/StudentSearch.tsx:143-172 | four filters in a row are one filter with the conjunction |
| Directory.FilterStudentsMembers | src/components/StudentSearch.tsx:146-172 | a student is listed exactly when the term matches the name, email, bio or a skill name, and the department, college and skill selections are "all" or match exactly |
| Directory.FilterStudentsSubsequence | src/components/StudentSearch.tsx:142-174 | the list is an order-preserving part of the students |
| Directory.FilterStudentsCleared | src/components/StudentSearch.tsx:142-175 | with every control cleared everyone is listed |
| Directory.FilterStudentsOrderFree | src/components/StudentSearch.tsx:143-172 | applying the four stages in the opposite order gives the same list |
| ProfileCard.GetInitials | src/components/StudentProfileCard.tsx:28-30 | defined as the upper-cased join of the first character of every part of `split(' ')`, an empty part adding nothing |
| ProfileCard.FirstChar | src/components/StudentProfileCard.tsx:29 | `n[0]` inside `join('')`: nothing for an empty part, the first character otherwise |
| ProfileCard.JoinFirstsNonEmpty | src/components/StudentProfileCard.tsx:29 | the joined characters are the first characters of the non-empty parts, in order |
| ProfileCard.GetInitialsSpec | src/components/StudentProfileCard.tsx:28-30 | one upper-cased character per non-empty space-separated part, in order; empty parts add nothing |
| ProfileCard.GetInitialsOneWord | src/components/StudentProfileCard.tsx:29 | a name without spaces gives its first character upper-cased, and the empty name gives "" |

## Left out

- Floating-point relevance is not modelled. This covers `cosineSimilarity`, the 0.7/0.3 blend, the keyword boosts of `rankForFaculty`, `rankForPlacement` and `processDocumentForSearch`, and the `userType` switch that picks among them. Relevance is a `real` supplied by the caller, and the `0.1` threshold is compared on reals rather than doubles.
- The `(hash % 1000) / 1000` division in `generateEmbedding` is not modelled. The model keeps the integer numerator.
- Keywords.KeywordSimilarity: the ratio is an exact fraction of two counts. The floating-point division is not performed.
- `toLowerCase` and `toUpperCase` map ASCII letters only. Full Unicode case mapping, including mappings that change the string's length, is not modelled.
- `charCodeAt` is modelled as one code unit per Dafny `char`. Characters outside the Basic Multilingual Plane are not split into surrogate pairs.
- `toLocaleDateString` and `Date.now()` are parameters, because they depend on the locale and the clock.
- Fetching from the database, async plumbing, debouncing and rendering are left out; they are input and output, not logic.
- The mapping of the search page's "all" choices to absent filters is the caller's business. `ApplyFilters` receives the filters as they arrive.
- JavaScript numbers (IEEE doubles) are modelled as unbounded integers. Counts, weights and scores are assumed integral, and scores are assumed to stay below 2^53 in magnitude, so `score += activities[i] * …` and `b.score - a.score` are exact. A fractional count is not modelled: it would give a fractional score, and `scoreGroups` would visit that key in insertion order, not in the ascending order `TieBreak.EntryOrder` gives array-index keys. Template literals print every digit (`Text.IntToString`); the exponent form JavaScript uses from 1e21 on is not modelled.
- JavaScript object-key order is replaced by explicit ordered sequences. A student name that looks like an array index would be reordered by `Object.entries`; the model keeps matrix order. The integer score keys of `scoreGroups` are ordered as JavaScript orders them.
- RankingView.FilteredStudents requires every ranked name to be in the matrix. The program would throw on a missing name, and the page only ranks names from the matrix (`RankingView.RankedNamesFound`).
- An advanced filter's `value` is an integer. A value typed into the page arrives as whatever the input gives, and coercion of that value is not modelled.
- Ranking.RankStudentsSpec, Ranking.RankingHasAll, Ranking.SearchFindsAll and Ranking.ActivityFilterFindsAll hold only when every tie-break winner already leads its group. Without that the literal write-back can lose students; see "Findings".

## Findings

| source | as written | input that shows it | evidently intended | confidence | as-written member | corrected member |
|---|---|---|---|---|---|---|
| src/utils/studentRanking.ts:212-215 | after `group.sort`, the start slot is `findIndex(group[0].name)`, the old position of the new winner | scores `[A 25, B 25, D 7]` where B wins on patents: the list becomes `[A, B, A]` and D is lost; `[A 25, B 25]` becomes a list of three | write the sorted group back from the slot the group's first member held before sorting | not executed | TieBreak.TieWriteBack (TieBreak.TieOverwrites, TieBreak.TieGrows, TieBreak.WinnerSecond) | TieBreak.TieWriteBackFixed (TieBreak.TieWriteBackFixedSpec) |
