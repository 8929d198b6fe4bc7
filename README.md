# Exam-retake scheduler: a Dafny model

This project models the two cores of a small web application that plans
retake exams for a secondary school:

- the **parser** (`utils/parser.ts`). It reads tab-separated text pasted
  from a spreadsheet and produces two things: the students, each with the
  subjects they must sit, and one record per subject listing its students,
  largest subject first;
- the **scheduler** (`utils/scheduler.ts`). It places one exam per subject
  into afternoon slots of a Monday / Tuesday / Thursday weekly pattern,
  with 90- or 60-minute slots.

The scheduler's rules:

- It is a first-fit greedy assigner. Each subject takes the first of
  slots 0 to 149 where three hard rules hold:
  - no student sits two exams in the same slot;
  - no student sits more than two exams on a day;
  - no two incompatible subjects share a day. The incompatible pairs are
    fixed: mathematics and Spanish, Catalan and its literature, two
    science subjects, and so on.
- All mathematics subjects are first merged into one.
- The assigner runs on several subject orders: by size, by conflict
  degree, and a number of shuffles.
- The attempts are then ranked: fewest unassigned subjects, then fewest
  days, then the lowest last slot.
- Attempts with the same exam-to-slot assignment are dropped.
- At most ten attempts are returned.

Modules, one per concern:

| module | file | models |
|---|---|---|
| `Types` | types.dfy | the record shapes of `types.ts` |
| `Strings` | strings.dfy | the JavaScript string operations both cores use |
| `Seqs` | seqs.dfy | duplicate removal, filtering, the stable sort |
| `SlotCalendar` | slot_calendar.dfy | `generateSlot` |
| `ConflictRules` | conflict_rules.dfy | `isDayIncompatible` |
| `GreedyAssigner` | greedy_assigner.dfy | `runSchedulerAttempt` |
| `AttemptProperties` | attempt_properties.dfy | what one attempt guarantees |
| `SubjectMerger` | subject_merger.dfy | `groupMathSubjects` |
| `SearchDriver` | search_driver.dfy | `generateSchedule` |
| `Parser` | parser.dfy | `parseRawData` |

How each part is modelled:

- **Loops are methods.** Where the source changes state in a loop, the
  model is a method with that loop. Its `ensures` equates the result with
  a specification function: `PlaceAll`/`AttemptResult` for an attempt,
  `ScoresMap` for the conflict scores, `Shortlist` for the whole search,
  `ParseUpTo`/`Parsed` for the parser. The properties are then proved as
  lemmas about those functions.
- **Pure code is functions.** `generateSlot`, `isDayIncompatible` and
  `groupMathSubjects` are functions.
- **Sorting.** JavaScript's `Array.prototype.sort` is stable. The model
  uses a stable insertion sort, `Seqs.SortBy`, and proves it sorted and a
  permutation.
- **Randomness.** The random restarts are a parameter: a
  caller-supplied list of subject orders, each required to be a
  rearrangement of the merged subjects.

## Model

| member | source | states |
|---|---|---|
| SlotCalendar.GenerateSlot | utils/scheduler.ts:7-108 | the slot keeps its index as id, lies on one of the three teaching days at a position that day has, and carries that day's name |
| SlotCalendar.SlotLayout | utils/scheduler.ts:14-52 | the week is the index divided by 4 (90 minutes) or 7 (60 minutes), and the week, the day's first slot and the position within the day give back the index |
| SlotCalendar.SlotPositionsDistinct | utils/scheduler.ts:7-108 | two different indices never share week, day and position within the day |
| SlotCalendar.SlotPositionReached | utils/scheduler.ts:7-108 | every position that the weekly pattern offers is the slot of some index |
| ConflictRules.IsDayIncompatible | utils/scheduler.ts:111-181 | the rules checked one after the other; `IncompatibleMatchesTable` and `IncompatibleSymmetric` state when it holds |
| ConflictRules.IncompatibleMatchesTable | utils/scheduler.ts:111-181 | the rule-by-rule check is true exactly when the two names fall into one of the seven listed clashing group pairs, or both contain a science key; false otherwise |
| ConflictRules.IncompatibleSymmetric | utils/scheduler.ts:111-181 | the order of the two subjects does not matter |
| Strings.ContainsOccurs | utils/scheduler.ts:130 | `includes` holds exactly when the key occurs at some position of the name |
| GreedyAssigner.FirstFitIsLeast | utils/scheduler.ts:190-263 | the slot search returns the least index below 150 that passes the three checks, and nothing exactly when none does |
| GreedyAssigner.FirstFitOfLeast | utils/scheduler.ts:190-263 | the least passing index is the one the search returns |
| GreedyAssigner.NoFitMeansNone | utils/scheduler.ts:194-267 | when no index below 150 passes, the search returns nothing |
| GreedyAssigner.Place | utils/scheduler.ts:190-267 | placing one subject keeps the exams and unassignable names so far and adds exactly one entry: an exam, or else the subject's name to the unassignable list |
| GreedyAssigner.AttemptResult | utils/scheduler.ts:184-284 | the attempt as a function of the order; `AttemptRespectsConstraints`, `AttemptCoverage`, `AttemptSlots` and `AttemptDays` state what it guarantees |
| GreedyAssigner.PlacedAt | utils/scheduler.ts:252-262 | at the first passing index the exam is appended with the subject's own name and students, and the slot is recorded unless it is already there |
| GreedyAssigner.NotPlaced | utils/scheduler.ts:265-267 | a subject that passes nowhere only adds its name to the unassignable list |
| GreedyAssigner.CountExamsToday | utils/scheduler.ts:215-224 | the counting loop returns the number of the student's exams already on that day |
| GreedyAssigner.CheckDailyLimit | utils/scheduler.ts:214-226 | the check is true exactly when some student of the subject already has two exams that day |
| GreedyAssigner.CheckSlot | utils/scheduler.ts:195-249 | the three checks, each skipping the rest once it fails, accept the slot exactly when it fits |
| GreedyAssigner.PlaceSubject | utils/scheduler.ts:190-267 | the while loop over slot indices leaves the state the placement of one subject gives |
| GreedyAssigner.RunSchedulerAttempt | utils/scheduler.ts:184-284 | the attempt returns the outcome of placing the subjects in order, with the days counted and the used slots sorted by id |
| GreedyAssigner.PlaceAllSnoc | utils/scheduler.ts:189-268 | the subjects are placed one after the other, in input order |
| AttemptProperties.AppendFittingExam | utils/scheduler.ts:197-256 | appending an exam where its subject fits keeps exams of one slot student-disjoint, at most two exams per student per day, and no incompatible pair on one day |
| AttemptProperties.PlaceFromKeepsConstraints | utils/scheduler.ts:189-268 | placing further subjects keeps the three hard constraints |
| AttemptProperties.AttemptRespectsConstraints | utils/scheduler.ts:184-284 | every attempt's schedule respects the three hard constraints |
| AttemptProperties.AttemptFollowsGreedyTrace | utils/scheduler.ts:189-268 | in input order, each subject is placed at the least fitting index or, when none fits, recorded as unassignable |
| AttemptProperties.GreedyTraceDeterminesAttempt | utils/scheduler.ts:189-268 | the greedy rule admits only the attempt's own schedule and unassignable list |
| AttemptProperties.PlaceCoverage | utils/scheduler.ts:189-268 | placing one subject adds its name once, to the schedule or to the unassignable list |
| AttemptProperties.PlaceFromCoverage | utils/scheduler.ts:189-268 | after all subjects, the exam names and the unassignable names together are exactly the subjects' names, each once |
| AttemptProperties.AttemptCoverage | utils/scheduler.ts:184-284 | every input subject lands exactly once, scheduled or unassignable |
| AttemptProperties.PlacedOrUnassignable | utils/scheduler.ts:252-267 | with distinct names, no subject is both scheduled and unassignable |
| AttemptProperties.UnassignableLeavesOthersAlone | utils/scheduler.ts:265-267 | a subject that fits nowhere does not change where any other subject is placed |
| AttemptProperties.PlaceFromDependsOnSchedule | utils/scheduler.ts:194-249 | later placements depend only on the schedule so far, not on the unassignable list or the slot list |
| AttemptProperties.PlaceKeepsSlotsAgree | utils/scheduler.ts:258-260 | the slot list records the used slots once each, as generated |
| AttemptProperties.AttemptSlots | utils/scheduler.ts:258-283 | the returned slots are strictly ascending by id, are generated slots, and their ids are exactly the slot ids of the schedule |
| AttemptProperties.AttemptDays | utils/scheduler.ts:271-280 | the day count is at most the number of slots, which is at most the number of exams, and it is zero exactly when nothing was placed |
| AttemptProperties.FirstSubjectAtZero | utils/scheduler.ts:189-263 | a lone subject goes to slot 0 |
| AttemptProperties.SharedStudentMovesToNextDay | utils/scheduler.ts:197-263 | a second subject that shares a student with the first moves to Tuesday's slot 1; two days and two slots are used |
| AttemptProperties.MathThenSpanish | utils/scheduler.ts:129-249 | MATES for A and B, then CASTELLÀ for A: the first goes to Monday, the second to Tuesday; nothing is unassignable; two days are used |
| SubjectMerger.Merged | utils/scheduler.ts:297-307 | the merged subject is named `MATEMÀTIQUES / MATES CS`, its students have no repetition, and its count is their number |
| SubjectMerger.MergedIsMath | utils/scheduler.ts:302-304 | the merged subject still counts as mathematics |
| SubjectMerger.FewMathUnchanged | utils/scheduler.ts:290-293 | with at most one math subject the input is returned as given |
| SubjectMerger.GroupMath | utils/scheduler.ts:286-310 | the merge step itself; what it returns is stated by `FewMathUnchanged`, `ManyMathMerged`, `AtMostOneMath`, `GroupMathIdempotent` and `StudentsPreserved` |
| SubjectMerger.ManyMathMerged | utils/scheduler.ts:295-309 | with two or more, the subjects before the last are the input's non-math subjects in their input order, and the last is the merged one |
| SubjectMerger.MergedStudents | utils/scheduler.ts:298-299 | a student is in the merged subject exactly when they sit some math subject of the input |
| SubjectMerger.AtMostOneMath | utils/scheduler.ts:286-310 | the result never holds two math subjects |
| SubjectMerger.GroupMathIdempotent | utils/scheduler.ts:286-310 | grouping a second time changes nothing |
| SubjectMerger.StudentsPreserved | utils/scheduler.ts:286-310 | a student sits some subject of the result exactly when they sit some subject of the input |
| SearchDriver.SharedCountZero | utils/scheduler.ts:326 | the shared-student count is zero exactly when the two lists have no student in common |
| SearchDriver.ScoreZeroIff | utils/scheduler.ts:322-330 | a subject's conflict score is zero exactly when it shares no student with any subject of another name |
| SearchDriver.ScoresMapFacts | utils/scheduler.ts:321-330 | with distinct names, every subject's score is in the map, keyed by its name |
| SearchDriver.ConflictScores | utils/scheduler.ts:321-330 | the nested loops fill the map the score function gives |
| SearchDriver.ByCountOrdered | utils/scheduler.ts:318 | the size order is a rearrangement of the subjects, the largest first |
| SearchDriver.ByConflictOrdered | utils/scheduler.ts:332-337 | the conflict order is a rearrangement, by score descending, ties by size descending |
| SearchDriver.RankLe | utils/scheduler.ts:355-368 | the ranking comparator: fewer unassignable subjects, then fewer days, then a lower last slot id; `RankLeIsPreorder` states that it orders every pair and is transitive |
| SearchDriver.RankLeIsPreorder | utils/scheduler.ts:355-368 | the ranking compares every pair of results and is transitive, so the stable sort orders the candidates by it |
| SearchDriver.ExamKey | utils/scheduler.ts:374 | the key of one exam, subject and slot id joined by a colon; `ExamKeyInjective` states what it identifies |
| SearchDriver.ExamKeyInjective | utils/scheduler.ts:374 | two exams have the same key exactly when they have the same subject and the same slot id |
| Strings.NatToStringValue | utils/scheduler.ts:374 | the decimal text of a slot id reads back as that id |
| SearchDriver.Signature | utils/scheduler.ts:373-376 | the keys sorted and joined by a bar; `SignatureIgnoresOrder` states that the order of the exams does not matter |
| SearchDriver.SignatureIgnoresOrder | utils/scheduler.ts:373-376 | the signature depends only on which exams a result holds, not on their order |
| SearchDriver.FirstBySignatureFacts | utils/scheduler.ts:370-382 | the kept results have distinct signatures, every signature of the input is kept, and each kept result is the first of its signature |
| SearchDriver.FirstBySignatureSorted | utils/scheduler.ts:370-382 | the kept results come from the input, in its order |
| SearchDriver.KeepDistinct | utils/scheduler.ts:351-385 | the loop with a seen-signature set and a break at ten keeps the first ten results of new signature |
| AttemptProperties.SubjectNamesPermutation | utils/scheduler.ts:339-348 | two orders of the same subjects list the same names, as many times each |
| SearchDriver.CandidatesSound | utils/scheduler.ts:339-348 | every candidate respects the hard constraints, and its exam names and unassignable names together are the merged subjects' names, each as often as in the input |
| SearchDriver.ShortlistRanked | utils/scheduler.ts:355-387 | the search returns between one and ten results, ranked by unassignable count, then day count, then last slot id |
| SearchDriver.ShortlistDistinct | utils/scheduler.ts:370-385 | no two results share a signature, and each is the first of its signature in ranked order |
| SearchDriver.ShortlistSound | utils/scheduler.ts:313-388 | every result respects the hard constraints, and its exam names and unassignable names together are the merged subjects' names, each as often as in the input |
| SearchDriver.CollectCandidates | utils/scheduler.ts:339-348 | the candidates are the size-order attempt, the conflict-order attempt, then one attempt per shuffle |
| SearchDriver.RunShuffles | utils/scheduler.ts:345-348 | one attempt per shuffle, in order |
| SearchDriver.GenerateSchedule | utils/scheduler.ts:313-388 | the method returns the shortlist: one to ten ranked results of distinct signatures, each respecting the hard constraints |
| Seqs.Dedup | utils/scheduler.ts:298-306 | duplicate removal keeps exactly the elements of the input, each once |
| Seqs.SortBySorted | utils/scheduler.ts:276 | the sort orders its input by any total preorder |
| Seqs.SortedUnique | utils/scheduler.ts:375 | under an order with no ties between different strings, the sorted arrangement is unique |
| Strings.StringLeTotal | utils/scheduler.ts:375 | the default string order compares every pair |
| Strings.StringLeTransitive | utils/scheduler.ts:375 | the default string order is transitive |
| Strings.StringLeAntisymmetric | utils/scheduler.ts:375 | the default string order ties only equal strings |
| Strings.NatToString | utils/scheduler.ts:374 | the decimal text of a slot id is non-empty and made of digits |
| Strings.TrimStartDrops | utils/parser.ts:4 | trimming the start drops a run of white space and keeps the rest unchanged |
| Strings.TrimEndDrops | utils/parser.ts:4 | trimming the end drops a run of white space and keeps the rest unchanged |
| Strings.TrimIdempotent | utils/parser.ts:4 | a trimmed string starts and ends with no white space, so trimming it again changes nothing |
| Parser.RawLines | utils/parser.ts:4 | every piece between line breaks, once trimmed, is its own trim |
| Parser.Lines | utils/parser.ts:4 | the lines kept are trimmed and never empty |
| Parser.LinesMembers | utils/parser.ts:4 | a string is a line exactly when it is a non-empty trimmed piece |
| Parser.LinesKeepOrder | utils/parser.ts:4 | two non-empty pieces appear among the lines in their text order |
| Seqs.FilterKeepsOrder | utils/scheduler.ts:295 | a filter keeps the elements that pass in their original order |
| Parser.Cells | utils/parser.ts:13 | a line always has at least a first cell |
| Parser.SelectedMembers | utils/parser.ts:33-47 | a subject is selected exactly when its column, below both the row length and the header length, holds TRUE, VERITAT, 1 or SÍ after upper-casing |
| Parser.ReadRow | utils/parser.ts:30-48 | the column loop collects the selected upper-cased header names in column order and records the student under each |
| Parser.LineStep | utils/parser.ts:11-56 | one pass of the line loop as a function; `LineStepStudents`, `LineStepKeepsInvariant` and `NothingBeforeHeader` state what it does |
| Parser.ReadLine | utils/parser.ts:11-56 | one pass of the line loop: a header line replaces the headers, lines before a header and rows without an integer id are skipped, other rows are student rows |
| Parser.ParseRawData | utils/parser.ts:3-66 | the students and subject records are those of the line-by-line specification |
| Parser.AddAllFacts | utils/parser.ts:43-46 | the subject map gains exactly the student under each selected subject and stays well formed |
| Parser.NothingBeforeHeader | utils/parser.ts:17-23 | lines before the first header change nothing |
| Parser.LineStepStudents | utils/parser.ts:17-55 | a header line only replaces the headers; a student is appended exactly when the line is not a header, a header was seen, the first cell is an integer and some subject is selected |
| Parser.ParseUpToKeepsInvariant | utils/parser.ts:11-56 | listed students have integer ids and some subject, and the map holds exactly the students who chose each subject |
| Parser.SubjectStatsFacts | utils/parser.ts:59-63 | the records are sorted by count descending, have distinct names, show each subject's students without repetition, and number them in the count |
| Parser.ParseRawDataFacts | utils/parser.ts:3-66 | the whole-parse guarantees: students with integer ids and some subject; records sorted largest first with distinct names; a student is in a record exactly when they chose that subject; every chosen subject has a record |

## Left out

- The React interface (`App.tsx`, `components/`) and the sample data module `constants.ts` are presentation and data only. They are not part of this model.
- `Math.random` and the restart count of 1000 (utils/scheduler.ts:345-348) are not modelled. The restarts are a caller-supplied list of orders, each a rearrangement of the merged subjects.
- `GenerateSlot` keeps the `dayName` and `timeRange` labels as the source writes them. Only `dayName` is constrained by its contract, because the labels carry no logic.
- "The same day" is the string key `${weekIndex}-${dayIndex}` in the source; the model uses the pair `(weekIndex, dayIndex)`. Both are injective, so they decide the same equalities.
- `Strings.UpperChar` upper-cases ASCII and every Latin-1 lower-case letter with a one-character capital (including `µ` to U+039C and `ÿ` to U+0178). Other alphabets are not covered, and neither are the mappings that change a string's length (such as `ß` to `SS`). Every key the rules use is inside the modelled range.
- `Strings.StringLe` orders strings by code point, while JavaScript's default `sort()` compares UTF-16 code units. The two differ only for characters outside the Basic Multilingual Plane.
- `Parser.SubjectStatsOf` lists subjects in insertion order before sorting. `Object.entries` would put integer-like subject names first; that ordering is not modelled.
- `Parser.IsStudentId` models `parseInt` only by whether it returns a number (sign, `0x` prefix, leading digit). The value is never used.
- The sort algorithm itself is not modelled. Any stable sort yields the same result as `Seqs.SortBy` for the same comparator.
- MATES for A and B, then CASTELLÀ for A: CASTELLÀ lands in slot 1 (Tuesday), since Tuesday holds no incompatible subject and no overlapping student; see `AttemptProperties.MathThenSpanish`.
- `generateSchedule` defaults the slot length to 90 minutes when the caller gives none (utils/scheduler.ts:313). `SearchDriver.GenerateSchedule` always takes the length as a parameter; the default is not modelled.
