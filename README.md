# Exam workspace core: question diagnostics, shuffling and the format builder

The prototype gives teachers two screens for assembling exams. This project models their core logic.

The **generation workspace** (`rivian/app/generation/generation-client.tsx`) holds an ordered list of questions. For every question it computes a diagnostic entry:
- grammar messages about the prompt;
- the questions duplicating it, either because their normalised prompts are identical or because their token sets overlap by at least 80%;
- the duplicate cluster it belongs to.

It groups the duplicates into named clusters, which are the connected components of the duplicate graph. It can also shuffle the unlocked questions while the locked ones stay in place.

The **exam-format builder** (`rivian/app/builder/builder-client.tsx`) does the following:
- parses numeric inputs;
- names new sections and saved formats;
- totals the sections;
- edits a section field;
- saves and deletes formats;
- lists the readiness checks shown before a format is finalised.

Modules, in dependency order:

| module | file | what it holds |
|---|---|---|
| `Text` | `text.dfy` | whitespace, lower-casing, trimming, whitespace collapsing, splitting into words, tokenising, decimal rendering |
| `Grammar` | `grammar.dfy` | the grammar messages of a prompt |
| `Similarity` | `similarity.dfy` | the token-overlap scorer |
| `Graph` | `graph.dfy` | the adjacency map, reachability, and the stack traversal that collects a component |
| `Questions` | `questions.dfy` | the question, entry and cluster records, and the reference definitions of what every entry must end with |
| `Diagnostics` | `diagnostics.dfy` | the per-question pass, the exact-match buckets and the scoring pass |
| `Clusters` | `clusters.dfy` | the cluster scan |
| `Engine` | `engine.dfy` | the diagnostics computation end to end |
| `Presets` | `presets.dfy` | the three crossing-over prompts of the preset question list and the cluster they form |
| `Lineup` | `lineup.dfy` | `shuffleUnlocked` |
| `Builder` | `builder.dfy` | the builder helpers |

The diagnostics computation runs with local mutable maps and loops. It is therefore modelled as methods with loops over `map`/`seq`/`set` state, each proved against a reference definition in `Questions`:
- `ExpectedDuplicates` is the list each entry must end with;
- `Partners` is the neighbour set each node must end with;
- `Graph.Component` is the set of questions each cluster must hold.

The swap loop of `shuffleUnlocked` runs in place on an `array`. The builder's handlers are state updates of React values, so each is modelled as a function from the old value to the new one.

## Model

| member | source | states |
|---|---|---|
| `Text.Normalize` | rivian/app/generation/generation-client.tsx:141 | The comparison key: single-spaced, no capitals, no surrounding whitespace, and empty exactly when the prompt is blank |
| `Text.NormalizeWords` | rivian/app/generation/generation-client.tsx:141 | The key is the words of the lower-cased prompt joined by single spaces |
| `Text.SameKeySameWords` | rivian/app/generation/generation-client.tsx:141 | Two prompts share a key exactly when their lower-cased word lists are equal |
| `Text.NormalizeKeepsText` | rivian/app/generation/generation-client.tsx:141 | With whitespace removed, the key equals the lower-cased prompt: only whitespace is dropped or merged |
| `Text.NormalizeIdempotent` | rivian/app/generation/generation-client.tsx:141 | Normalising a key again leaves it unchanged |
| `Text.Trim` | rivian/app/generation/generation-client.tsx:116 | `trim()`: the result is the slice `s[a..b]` with only whitespace before `a` and after `b`; it has no whitespace at either end and is empty exactly when the text is all whitespace |
| `Text.TrimUnique` | rivian/app/generation/generation-client.tsx:116 | Whitespace, then a piece without whitespace at its ends, then whitespace, trims to exactly that piece |
| `Text.TrimParts` | rivian/app/generation/generation-client.tsx:116 | Every text is its leading whitespace, its trim and its trailing whitespace |
| `Text.Collapse` | rivian/app/generation/generation-client.tsx:141 | `replace(/\s+/g, " ")`: no two whitespace characters in a row, and every whitespace character is a plain space; keeps emptiness and whether the text starts with whitespace |
| `Text.CollapseKeepsText` | rivian/app/generation/generation-client.tsx:141 | With whitespace removed, the collapsed text equals the original |
| `Text.CollapseJoinsWords` | rivian/app/generation/generation-client.tsx:141 | On a text without whitespace at its ends, collapsing joins its words with single spaces |
| `Text.WordsJoined` | rivian/app/generation/generation-client.tsx:141 | The words of a text joined by single spaces are its trimmed and collapsed form |
| `Text.LowerChar` | rivian/app/generation/generation-client.tsx:141 | An upper-case letter becomes the lower-case letter at the same position of the alphabet; every other character is kept |
| `Text.Lower` | rivian/app/generation/generation-client.tsx:141 | `toLowerCase()` on ASCII: same length, each character lowered |
| `Text.LowerTrim` | rivian/app/generation/generation-client.tsx:141 | Lower-casing and trimming commute |
| `Text.ReplaceSymbols` | rivian/app/generation/generation-client.tsx:110-111 | Same length. Letters, digits and whitespace are kept, letters lowered; every other character becomes a space |
| `Text.Tokenize` | rivian/app/generation/generation-client.tsx:108-113 | Every token is a non-empty run of lower-case letters and digits |
| `Text.TokenizeMeaning` | rivian/app/generation/generation-client.tsx:108-113 | The tokens are the words of the cleaned text: joined by single spaces they give its comparison key, and splitting that key gives them back |
| `Text.TokenizeSplit` | rivian/app/generation/generation-client.tsx:110-113 | A space or a symbol splits the text: the tokens of the whole are the tokens before it followed by the tokens after it |
| `Text.TokenizeTrail` | rivian/app/generation/generation-client.tsx:110-113 | A space or a symbol at the end adds no token |
| `Text.TokenizeWord` | rivian/app/generation/generation-client.tsx:108-113 | A run of letters and digits is one token, lower-cased |
| `Text.WordsAppend` | rivian/app/generation/generation-client.tsx:112-113 | Splitting at a space gives the words before it followed by the words after it |
| `Text.WordsOfJoin` | rivian/app/generation/generation-client.tsx:112-113 | Splitting words joined by single spaces gives the words back |
| `Text.DigitsValueOfNatToString` | rivian/app/generation/generation-client.tsx:243 | Reading back the decimal rendering of a number gives the number |
| `Text.NatToStringInjective` | rivian/app/generation/generation-client.tsx:243 | Different numbers render differently |
| `Grammar.GrammarIssues` | rivian/app/generation/generation-client.tsx:116-131 | A blank prompt gets exactly "Prompt is empty." Otherwise each of the other three messages appears exactly when its condition holds, in the source's order |
| `Grammar.GrammarMessages` | rivian/app/generation/generation-client.tsx:119-130 | One message text per issue, in the same order |
| `Grammar.ChecksInOrder` | rivian/app/generation/generation-client.tsx:122-130 | The three non-empty checks contribute independently and in a fixed order |
| `Grammar.CleanPromptHasNoIssues` | rivian/app/generation/generation-client.tsx:116-131 | A punctuated, capitalised, single-spaced prompt gets no message |
| `Grammar.AllThreeIssues` | rivian/app/generation/generation-client.tsx:116-131 | A prompt failing all three checks gets all three messages in order |
| `Grammar.PresetPromptDrawsAllIssues` | rivian/app/generation/data.ts:302 | The preset prompt with a double space and no capital or full stop draws all three messages |
| `Grammar.LowerStartDoubleSpaceNoStop` | rivian/app/generation/generation-client.tsx:116-131 | A prompt that starts and ends with a lower-case letter and holds a double space gets all three messages in order |
| `Similarity.MeetsThreshold` | rivian/app/generation/generation-client.tsx:190-191 | The integer test `5 * overlap >= 4 * smaller` agrees with `overlap / smaller >= 0.8` over the reals |
| `Similarity.SharedEnough` | rivian/app/generation/generation-client.tsx:169-191 | The token test passes exactly when both lists have at least three tokens and the shared distinct tokens are at least 80% of the smaller token set |
| `Similarity.SharedEnoughSymmetric` | rivian/app/generation/generation-client.tsx:182-191 | The overlap test does not depend on which prompt comes first |
| `Similarity.ContainedTokensShareEnough` | rivian/app/generation/generation-client.tsx:182-191 | When one token set contains the other (and both lists have three tokens) the pair always qualifies |
| `Similarity.Similar` | rivian/app/generation/generation-client.tsx:166-191 | A pair is scored as similar exactly when both prompts have three or more tokens, their keys differ, and the shared distinct tokens are at least 80% of the smaller token set |
| `Similarity.SimilarSymmetric` | rivian/app/generation/generation-client.tsx:166-191 | The scorer's verdict is symmetric |
| `Similarity.CountOverlap` | rivian/app/generation/generation-client.tsx:184-189 | The counting loop yields the size of the intersection of the two token sets |
| `Similarity.ScorePair` | rivian/app/generation/generation-client.tsx:172-191 | The inner-loop body's decision equals the scorer's verdict `Similar` |
| `Graph.EnsureEdge` | rivian/app/generation/generation-client.tsx:87-94 | A self-edge changes nothing. Otherwise exactly the target is added to the source's neighbours and the source becomes a key. No other node changes |
| `Graph.EnsureEdgeNoSelfLoops` | rivian/app/generation/generation-client.tsx:88-90 | The graph never gets a self-loop |
| `Graph.EnsureEdgeExisting` | rivian/app/generation/generation-client.tsx:91-93 | Adding an edge that exists is the identity |
| `Graph.PushUnvisited` | rivian/app/generation/generation-client.tsx:221-225 | The stack keeps its contents and gains exactly the unvisited neighbours |
| `Graph.WalkEnds` | rivian/app/generation/generation-client.tsx:207-228 | When the stack empties, the members are exactly the start's connected component and the visited set is closed under edges |
| `Graph.TraverseCluster` | rivian/app/generation/generation-client.tsx:207-228 | `traverseCluster` returns the connected component of the start node and marks exactly it visited |
| `Graph.SameComponent` | rivian/app/generation/generation-client.tsx:207-228 | Two nodes connected in a symmetric graph have the same component |
| `Questions.Initial` | rivian/app/generation/generation-client.tsx:133-137 | A fresh entry holds the prompt's grammar messages, no duplicates and no cluster |
| `Questions.DuplicatesMeaning` | rivian/app/generation/generation-client.tsx:147-201 | Question `m` is listed among `k`'s duplicates exactly when it is another question with the same key, or the scorer pairs the two |
| `Questions.DuplicatesSymmetric` | rivian/app/generation/generation-client.tsx:147-201 | `m` is listed for `k` exactly when `k` is listed for `m` |
| `Questions.DuplicatesDistinct` | rivian/app/generation/generation-client.tsx:96-106 | A duplicates list never names its own question and never names one twice |
| `Questions.PartnersMeaning` | rivian/app/generation/generation-client.tsx:157-160 | A question's graph neighbours are exactly the questions its duplicates list names |
| `Questions.SimilarToSymmetric` | rivian/app/generation/generation-client.tsx:192-198 | Scored pairs are linked in both directions and never to the question itself |
| `Questions.ExactAndNearDisjoint` | rivian/app/generation/generation-client.tsx:179-181 | The scorer never pairs two questions the buckets already matched |
| `Questions.DuplicateIsPartner` | rivian/app/generation/generation-client.tsx:147-201 | Another question with the same key, or a prompt the scorer pairs with, is a graph neighbour |
| `Diagnostics.AddDuplicateReference` | rivian/app/generation/generation-client.tsx:96-106 | Keeps grammar and cluster. Keeps the old references as a prefix, adds at most one, and the result holds exactly the old references plus the target's. Repeat-freedom is preserved |
| `Diagnostics.AddNewReference` | rivian/app/generation/generation-client.tsx:103-105 | A reference that is not yet present is appended |
| `Diagnostics.AddDuplicateReferenceIdempotent` | rivian/app/generation/generation-client.tsx:100-105 | Adding the same reference twice is the same as adding it once |
| `Diagnostics.IndexQuestion` | rivian/app/generation/generation-client.tsx:116-144 | One question's step: its entry and id lookup are set, and it is appended to its key's bucket (the key is recorded the first time it is seen) |
| `Diagnostics.InitialPass` | rivian/app/generation/generation-client.tsx:115-145 | Every question gets its fresh entry and its lookup, and every key's bucket lists the questions with that key in list order |
| `Diagnostics.LinkItem` | rivian/app/generation/generation-client.tsx:156-162 | One bucket member gains references to every other member in order, and edges to exactly them |
| `Diagnostics.LinkBucket` | rivian/app/generation/generation-client.tsx:151-163 | Every member of one bucket gets the other members as references and neighbours; nothing outside the bucket changes |
| `Diagnostics.LinkBuckets` | rivian/app/generation/generation-client.tsx:147-164 | After the bucket pass, every entry's duplicates are its same-key questions in list order and its neighbours are exactly those questions |
| `Diagnostics.LinkPair` | rivian/app/generation/generation-client.tsx:192-199 | Both entries gain a reference to the other, and both directions of the edge are added; nothing else changes |
| `Diagnostics.ScoreStep` | rivian/app/generation/generation-client.tsx:173-199 | Scoring one pair `(i, j)` extends the scoring pass's invariant to the next `j` |
| `Diagnostics.ScoreRow` | rivian/app/generation/generation-client.tsx:172-200 | Scoring one row establishes the invariant for the whole row |
| `Diagnostics.ScorePairs` | rivian/app/generation/generation-client.tsx:166-201 | After the scoring pass, every entry's duplicates are extended by its scored partners in list order, and its neighbours gain exactly those partners |
| `Clusters.ClusterName` | rivian/app/generation/generation-client.tsx:243 | Cluster names start with `cluster-` followed by a number |
| `Clusters.ClusterNameInjective` | rivian/app/generation/generation-client.tsx:243-244 | Different indices give different cluster names |
| `Clusters.SortByOrder` | rivian/app/generation/generation-client.tsx:247 | The sort gives a permutation of the members in increasing order |
| `Clusters.MemberQuestions` | rivian/app/generation/generation-client.tsx:245-246 | Mapping the member ids to questions gives exactly the members, each once |
| `Clusters.ClusterQuestions` | rivian/app/generation/generation-client.tsx:245-247 | A cluster's question list holds exactly its members, sorted by order |
| `Clusters.AssignCluster` | rivian/app/generation/generation-client.tsx:248-253 | Exactly the cluster's members get the cluster id; every other entry is unchanged |
| `Clusters.WalkCluster` | rivian/app/generation/generation-client.tsx:239-247 | A new cluster is the component of its first unvisited question, which comes first in the sorted list |
| `Clusters.FormCluster` | rivian/app/generation/generation-client.tsx:243-257 | Forming a cluster keeps the scan's invariant: clusters are formed, owned and labelled, and the counter is one past their number |
| `Clusters.ScanClusters` | rivian/app/generation/generation-client.tsx:203-258 | The scan yields clusters named `cluster-1`, `cluster-2`, ... in the order of their first question. Each has at least two questions and is a component. They are disjoint and cover every question with a neighbour. Exactly those questions get a cluster id, and nothing else in an entry changes |
| `Clusters.ScanDisjoint` | rivian/app/generation/generation-client.tsx:230-234 | No question is in two clusters |
| `Engine.LinkDuplicates` | rivian/app/generation/generation-client.tsx:115-201 | After the first three passes, every entry is its grammar messages plus the reference duplicates list, and the graph's neighbours are exactly the partners |
| `Engine.ClustersOfGraph` | rivian/app/generation/generation-client.tsx:203-258 | The scan's clusters are components of the reference duplicate graph |
| `Engine.ClusterLabels` | rivian/app/generation/generation-client.tsx:248-253 | After the scan, a question has a cluster id exactly when it has a duplicate, and the id is its cluster's name |
| `Engine.ScanOutcome` | rivian/app/generation/generation-client.tsx:203-258 | The scan's guarantees over the computed graph amount to the full result specification |
| `Engine.ComputeDiagnostics` | rivian/app/generation/generation-client.tsx:81-264 | Every entry holds its grammar messages, its duplicates in the reference order, and a cluster id exactly when it has a duplicate. The clusters are disjoint, ordered, named by position, components of at least two questions, and cover every question with a duplicate |
| `Engine.PartnersShareCluster` | rivian/app/generation/generation-client.tsx:203-258 | Two questions linked in the duplicate graph both get a cluster id, and the same one |
| `Engine.DuplicatesShareCluster` | rivian/app/generation/generation-client.tsx:147-258 | Two questions with the same key, or paired by the scorer, get the same cluster id |
| `Presets.CrossingOverTokens` | rivian/app/generation/data.ts:266-328 | The crossing-over prompts of `q-proto-3` and `q-proto-8` give the same tokens, at least three of them; `q-proto-7` gives those tokens followed by `in` and `gametes` |
| `Presets.CrossingOverKeys` | rivian/app/generation/data.ts:266-328 | The comparison key of `q-proto-3` differs from those of `q-proto-7` and `q-proto-8` |
| `Presets.CrossingOverNearDuplicates` | rivian/app/generation/data.ts:266-328 | The scorer pairs `q-proto-3` with `q-proto-7` and with `q-proto-8` |
| `Presets.CrossingOverCluster` | rivian/app/generation/data.ts:263-337 | Wherever the three crossing-over prompts sit in a well-formed list, the diagnostics give all three the same cluster id |
| `Lineup.Keep` | rivian/app/generation/generation-client.tsx:429-430 | Filtering never lengthens the list |
| `Lineup.KeepFlag` | rivian/app/generation/generation-client.tsx:429-430 | A filtered list holds only questions of the list with the wanted lock flag |
| `Lineup.KeepSizes` | rivian/app/generation/generation-client.tsx:429-430 | Every question is in exactly one of the locked and unlocked lists |
| `Lineup.Swap` | rivian/app/generation/generation-client.tsx:434 | The swap exchanges two entries, leaves the rest unchanged, and keeps the multiset |
| `Lineup.Shuffled` | rivian/app/generation/generation-client.tsx:432-435 | The Fisher–Yates steps produce a permutation of their input |
| `Lineup.ShuffleInPlace` | rivian/app/generation/generation-client.tsx:432-435 | The in-place loop leaves the Fisher–Yates shuffle of the array, a permutation of what it held |
| `Lineup.Rebuild` | rivian/app/generation/generation-client.tsx:436-447 | The result is renumbered. Each locked position gets its own question back, and each unlocked position gets the next shuffled question |
| `Lineup.ShuffleUnlocked` | rivian/app/generation/generation-client.tsx:427-450 | Keeps the length and renumbers. Locked questions stay put, every position keeps its lock flag, unlocked positions receive the shuffle of the unlocked questions in order, and every shuffled question is placed |
| `Builder.LeadingDigits` | rivian/app/builder/builder-client.tsx:82 | The longest all-digit prefix; the next character, if any, is not a digit |
| `Builder.ToNumber` | rivian/app/builder/builder-client.tsx:81-84 | Text without a number after the whitespace and sign becomes 0 |
| `Builder.NoDigitsIsZero` | rivian/app/builder/builder-client.tsx:81-84 | Text containing no digit becomes 0 |
| `Builder.ToNumberOfIntToString` | rivian/app/builder/builder-client.tsx:81-84 | Parsing a rendered integer, with anything but a digit after it, gives the integer back |
| `Builder.ToNumberSkipsSpaces` | rivian/app/builder/builder-client.tsx:82 | Leading whitespace does not change the parsed value |
| `Builder.FormatSectionName` | rivian/app/builder/builder-client.tsx:86-91 | Names have the form `Section <label>: New section` |
| `Builder.SectionLabelReadsBack` | rivian/app/builder/builder-client.tsx:87-90 | Up to 26 the label is the capital letter at that position of the alphabet; beyond, the decimal digits of the index |
| `Builder.FormatSectionNameInjective` | rivian/app/builder/builder-client.tsx:86-91 | Different indices give different section names |
| `Builder.BuildFormatName` | rivian/app/builder/builder-client.tsx:93-98 | The name is never empty and has no surrounding whitespace |
| `Builder.BuildFormatNameCases` | rivian/app/builder/builder-client.tsx:94-97 | The four cases: both parts joined by ` - `, whichever part is not blank, or `Untitled format` |
| `Builder.ComputeTotals` | rivian/app/builder/builder-client.tsx:113-138 | The fold gives the items and marks sums, and the summary lists each difficulty, in first-seen order, with its item count |
| `Builder.DifficultiesMeaning` | rivian/app/builder/builder-client.tsx:118-119 | The summary's difficulties are exactly those of the sections, without repeats |
| `Builder.DifficultyCountsSum` | rivian/app/builder/builder-client.tsx:116-119 | The per-difficulty counts add up to the total number of questions |
| `Builder.SummaryEmpty` | rivian/app/builder/builder-client.tsx:129-131 | The summary is empty exactly when there are no sections |
| `Builder.ChangeSection` | rivian/app/builder/builder-client.tsx:150-163 | Same length, and sections with other ids are unchanged. A matching section is the old section with only the edited field replaced: by the text for `id`, `name` and `difficulty`, by its `toNumber` value for `items` and `marks` |
| `Builder.ChangeSectionIdempotent` | rivian/app/builder/builder-client.tsx:150-163 | Applying the same non-id edit twice is the same as applying it once |
| `Builder.ChangeSectionTotals` | rivian/app/builder/builder-client.tsx:150-163 | An edit changes the item or mark total by exactly the change in the matching sections |
| `Builder.DeltaOfOne` | rivian/app/builder/builder-client.tsx:156-160 | With one matching section the totals change by the new value minus the old |
| `Builder.DeltaOfNone` | rivian/app/builder/builder-client.tsx:157 | With no matching section the totals do not change |
| `Builder.Snapshot` | rivian/app/builder/builder-client.tsx:185-187 | A saved format holds the id, the built name, the save time, the status, and copies of the details and sections |
| `Builder.SaveFormat` | rivian/app/builder/builder-client.tsx:183-224 | While an existing format is being edited, every format with that id is overwritten in place and the rest are kept. Otherwise a new format with the fresh id is put first and becomes the one being edited |
| `Builder.SaveThenEditing` | rivian/app/builder/builder-client.tsx:189-223 | After a save, a format is being edited |
| `Builder.SaveHoldsSnapshot` | rivian/app/builder/builder-client.tsx:183-224 | After a save, the format being edited holds what was just saved |
| `Builder.SaveTwice` | rivian/app/builder/builder-client.tsx:189-223 | A second save overwrites and adds no format; at most one format is ever added |
| `Builder.Without` | rivian/app/builder/builder-client.tsx:234 | Filtering never lengthens the list |
| `Builder.WithoutMeaning` | rivian/app/builder/builder-client.tsx:234 | The remaining formats are exactly those with another id |
| `Builder.DeleteFormat` | rivian/app/builder/builder-client.tsx:233-238 | No format with the id remains, every other format does, and the editing id is cleared exactly when it was this id |
| `Builder.DeleteUndoesNewSave` | rivian/app/builder/builder-client.tsx:211-238 | Deleting a freshly added format restores the list and clears the editing id |
| `Builder.Checks` | rivian/app/builder/builder-client.tsx:250-275 | Six checks |
| `Builder.MarksCheck` | rivian/app/builder/builder-client.tsx:240-254 | The marks check passes exactly when the section marks add up to a positive target |
| `Builder.SectionsCheck` | rivian/app/builder/builder-client.tsx:246-258 | Passes exactly when there is a section |
| `Builder.SectionChecks` | rivian/app/builder/builder-client.tsx:241-270 | The name, items and marks checks pass exactly when every section has a non-blank name, positive items and positive marks |
| `Builder.DurationCheck` | rivian/app/builder/builder-client.tsx:247-274 | Passes exactly when the duration is positive |
| `Builder.AllChecksPass` | rivian/app/builder/builder-client.tsx:240-275 | When every check passes, the target equals the marks total, which is at least the number of sections, which is at least one; the items total is at least the number of sections |

## Left out

- `Math.random()` and `Date.now()` are not modelled as such. The Fisher–Yates draws are the parameter `picks` (constrained to `picks[i] <= i`), and the new format id is the parameter `freshId`. The model does not construct the `format-<time>-<random>` string, and it does not model that two saves in the same millisecond could draw the same id. `SaveHoldsSnapshot` and `DeleteUndoesNewSave` assume a fresh id.
- `new Date().toLocaleString()` is the parameter `savedAt`.
- React state, hooks, memoisation and rendering are left out. Each handler takes the old state and returns the new one; the `setEditingFormatId` that `saveFormat` issues is part of its result.
- Text is ASCII: whitespace is tab, line feed, vertical tab, form feed, carriage return and space. Lower-casing covers only `A`-`Z`. JavaScript's Unicode whitespace and case mappings are not modelled.
- The score `overlap / min >= 0.8` is computed in integers as `5 * overlap >= 4 * min`. `MeetsThreshold` proves that this agrees with exact division; IEEE rounding of the floating-point quotient is not modelled.
- `Builder.ToNumber`: JavaScript numbers are doubles, so digit strings beyond 2^53 lose precision in the source, while the model's integers are unbounded. Leading Unicode whitespace and a `NaN` produced by other means are not modelled.
- `Builder.FormatSectionName` takes a natural number. The builder only passes indices from 1 upward. The 16-bit wrap-around of `String.fromCharCode` for indices that never reach it is not modelled.
- `Builder.ComputeTotals`: the summary lists difficulties in first-seen order. `Object.entries` puts integer-like keys (such as "1") first in ascending numeric order; that reordering is not modelled.
- The engine requires `WellFormed`: ids unique and each question's `order` equal to its position. Every update of the list in the workspace keeps that (`order: index`, `order: result.length`). The lookups keyed by id would merge questions with equal ids, and that case is not modelled.
- The `if (!entry)` guards in the diagnostics computation never fire, because every question has an entry before the buckets are read. The model proves that instead of branching on it. The `members.size <= 1` guard is proved never to fire for a question with a neighbour.
- The clusters are returned as a sequence in insertion order, where the source returns a `Map` keyed by cluster id. Iteration order of the two is the same.
- Of the preset question list, the model covers the prompt at `data.ts:302` (`Grammar.PresetPromptDrawsAllIssues`) and the three crossing-over prompts (`Presets`). The other presets draw no claim. The crossing-over prompts are spelled as concatenations of their words, which are the same strings as in the source.
- The question payload fields that the core never reads (options, answers, keywords, type, difficulty) are left out of `Question`.
- `Builder.Check`: the readiness check's `label` is stored as `title`, because `label` is a reserved word.
- The other builder handlers are left out because they are plain state copies: `handleExamChange`, `handleAddSection`, `handleRemoveSection` and `handleOpenFormat`. `handleAddSection`'s name comes from `FormatSectionName`, which is modelled.
- The other workspace handlers (editing, locking and reordering questions, resetting the order, the layout editors) are outside the modelled core.
