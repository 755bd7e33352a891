# Study planner and grade calculator, modelled in Dafny

This project models the computational core of a single-page study planner for
one engineering semester (`app.js`):

- **The catalog.** Six subjects, each with a credit weight, an ordered chapter
  list and a stored chapter count. There is also an eleven-band grade scale.
- **The study-plan generator.** The subjects are sorted by descending credit
  weight with a stable sort. Their chapters then go into dated days:
  - *easy*: one chapter a day from the start date;
  - *normal*: two chapters a day from the start date;
  - *intense*: a crash schedule of at most seven days, dated from seven days
    before the exam and so lying inside the week before it.
    Its daily quota is the stored chapter total divided by seven, rounded up.
- **The date guard** in front of the generator: both dates must be present and
  the exam must come after the start.
- **The grade calculator.**
  - A subject's marks are two class tests, an assignment (the best two of these
    three count), a mid-semester and an end-semester exam, 100 in all. They
    give a total, a grade from the scale, and the end-semester score still
    needed to reach 90.
  - The entered marks are written into a store keyed by subject name,
    replacing that subject's entry.
  - The overall average weights each subject's grade points by its credits and
    counts every subject that has an entry in the store.

Layout:

| file | module | contents |
|---|---|---|
| `catalog.dfy` | `Wrappers`, `Catalog` | `Option`; subjects, grade scale, the shipped data and its properties |
| `credit_order.dfy` | `CreditOrder` | the stable descending-credit sort and its proofs |
| `plan_spec.dfy` | `PlanSpec` | the work queue, cutting the queue into days (`Distribute`), the plan (`Plan`) and its properties |
| `plan_generator.dfy` | `PlanGenerator` | the generator as the program runs it (loops and cursors), proved equal to `Plan`; the `Planner` page state with the date guard |
| `grades.dfy` | `Grades` | best two of three, grade lookup, required end-semester score, the credit-weighted average, and the `GradeBook` marks store |

Dates are whole day numbers. The day after `d` is `d + 1`, and the number of
days between two dates is their difference. A date field left empty is
`None`. Marks are exact reals.

The plan is specified by a recursive reference definition, `PlanSpec.Plan`.
It builds a work queue of every chapter, subject after subject in credit
order, and cuts it into consecutive days of at most `perDay` chapters.
`PlanGenerator` follows the program's loops:
- the easy and normal modes build a work queue as a sequence and take items
  from its front;
- the crash schedule walks a subject cursor and a chapter cursor.

Each of these methods is proved to produce exactly `Plan`. What the program
promises is then proved as lemmas about `Plan`: dates, quotas, coverage, day
counts and priorities.

The crash schedule does not necessarily fill all seven days.

- On the shipped catalog there are 29 chapters, giving a quota of 5 a day.
- That fills six days, so the last study day is two days before the exam, not
  the day before (`PlanSpec.ShippedIntensePlan`).
- The model follows the code here.

## Model

| member | source | states |
|---|---|---|
| Catalog.ShippedSubjects | app.js:2-68 | every shipped subject's stored chapter count equals the length of its chapter list; the catalog has 29 chapters counted either way; every credit weight is positive |
| Catalog.ShippedGradeScale | app.js:70-82 | the shipped scale's thresholds strictly descend in table order; its points never increase and lie in 0..10; its last band starts at 0; no label is the one-letter fallback "F" |
| CreditOrder.SortByCredits | app.js:274 | the reference definition of the credit sort that `CreateStudyPlan` runs; what it promises is stated by `SortIsOrderedPermutation`, `SortIsStable`, `SortKeepsCounts` and `SortKeepsWellFormed` |
| CreditOrder.SortIsOrderedPermutation | app.js:274 | sorting by credits gives a list in descending credit order that is a permutation of the catalog (same multiset, same length) |
| CreditOrder.SortIsStable | app.js:274 | for every credit value, the subjects of that weight appear in the sorted list in exactly their catalog order (a stable sort) |
| CreditOrder.SortKeepsCounts | app.js:274-279 | sorting changes neither the number of listed chapters nor the sum of the stored chapter totals that the crash quota is computed from |
| CreditOrder.SortKeepsWellFormed | app.js:274 | a catalog whose stored counts match its chapter lists still does after sorting |
| PlanSpec.ParseMode | app.js:276-321 | the selector value selects the crash schedule exactly when it is "intense" and the easy mode exactly when it is "easy"; any other value is scheduled as normal |
| PlanSpec.PriorityFor | app.js:301-333 | a chapter is high priority exactly when its subject has at least 3 credits; the crash schedule never says low; the other modes say medium exactly at 2 credits |
| PlanSpec.Queue | app.js:328-336 | the reference definition of the work queue, subject after subject and chapter after chapter; described by `QueueLength`, `QueueAt` and `IntenseNeverLow` |
| PlanSpec.QueueLength | app.js:328-336 | the work queue holds one entry per listed chapter of every subject |
| PlanSpec.QueueAt | app.js:328-336 | chapter `c` of the `j`-th subject sits in the queue right after every chapter of the subjects before it, carrying its subject's name, the chapter's title and the priority for that subject's credits |
| PlanSpec.IntenseNeverLow | app.js:301 | every entry of the crash schedule's queue is high or medium |
| PlanSpec.Distribute | app.js:338-354 | the reference definition of cutting a queue into dated days of at most `perDay` chapters; described by `DistributeShape`, `DistributeSchedulesPrefix` and `DistributeLength` |
| PlanSpec.DistributeShape | app.js:339-354 | cutting a queue into days gives at most `days` days; day `k` is dated `first + k`; every day holds at least one and at most `perDay` chapters, and every day but the last holds exactly `perDay` |
| PlanSpec.DistributeSchedulesPrefix | app.js:339-354 | with a positive quota, the chapters scheduled, read day after day, are exactly the front of the queue that fits into `days` days of `perDay` |
| PlanSpec.DistributeLength | app.js:339-354 | with a positive quota, the number of days is the number needed to hold the whole queue, rounded up, capped at `days` |
| PlanSpec.ChaptersPerDay | app.js:321 | the reference definition of the daily quota outside the crash schedule: 1 chapter in easy mode, 2 otherwise; used by `Plan`, `EasyNormalPlan` and `CreateStudyPlan` |
| Catalog.DeclaredTotal | app.js:279 | the reference definition of the sum of the stored chapter totals that the crash quota is computed from; preserved by sorting (`SortKeepsCounts`) and equal to the listed-chapter count on a consistent catalog (`WellFormedTotals`) |
| PlanSpec.CeilDiv | app.js:280 | the reference definition of `Math.ceil(a / b)` on whole numbers; its arithmetic is stated by `CeilDivStep`, `CeilDivSmall` and `CeilDivCovers` |
| PlanSpec.Plan | app.js:271-358 | the reference definition of the whole plan: sort, queue, then the crash or the day-by-day distribution; described by `EasyNormalPlan`, `EasyCoversEverything`, `NormalDayCount`, `IntenseWindow`, `IntenseCoversEverything` and `ShippedIntensePlan`, and produced by `CreateStudyPlan` |
| PlanSpec.EasyNormalPlan | app.js:321-354 | easy and normal plans: consecutive days from the start date, one (easy) or at most two (normal) chapters a day and never none, every day but the last filled to that quota; they schedule the front of the credit-ordered queue that fits before the exam; their length is the days needed, capped by the days available |
| PlanSpec.EasyCoversEverything | app.js:321-354 | an easy plan with at least as many days as chapters schedules every chapter once, in queue order, one per day |
| PlanSpec.NormalDayCount | app.js:321-354 | a normal plan is never longer than half the chapter count, rounded up |
| PlanSpec.IntenseWindow | app.js:276-318 | a crash plan has at most seven days, dated consecutively from seven days before the exam, each holding between one chapter and the quota, every day but the last holding exactly the quota; it does not depend on the start date |
| PlanSpec.IntenseCoversEverything | app.js:276-318 | on a catalog whose stored counts match its chapter lists, a crash plan schedules every chapter exactly once, in credit order and chapter order |
| PlanSpec.WellFormedTotals | app.js:279 | on a catalog whose stored chapter counts match its chapter lists, the stored totals add up to the number of chapters listed |
| PlanSpec.ShippedIntensePlan | app.js:276-318 | on the shipped catalog a crash plan has six days and its last day is two days before the exam |
| PlanGenerator.BuildQueue | app.js:325-336 | the nested loops over subjects and chapters build exactly the work queue of the credit-sorted subjects |
| PlanGenerator.TakeDay | app.js:345-347 | the inner loop moves the first `min(perDay, queue length)` entries into the day and leaves the rest |
| PlanGenerator.DrainQueue | app.js:338-354 | the day loop over the queue produces exactly the reference distribution: dated from the start, at most `days` days, empty days dropped |
| PlanGenerator.FillDay | app.js:294-311 | one crash day's cursor walk takes the next `min(quota, chapters left)` entries of the queue and moves the cursors to the first entry not taken |
| PlanGenerator.PlanIntense | app.js:276-318 | the seven-day cursor loop produces exactly the reference distribution of the crash queue with the rounded-up quota, from seven days before the exam |
| PlanGenerator.CreateStudyPlan | app.js:271-358 | the generator returns exactly `Plan` for the catalog, mode and dates |
| PlanGenerator.Planner.constructor | app.js:85 | the page starts with an empty plan |
| PlanGenerator.ValidDateRange | app.js:256 | the reference definition of the date guard: both dates present and the exam strictly after the start; `GenerateStudyPlan` succeeds exactly when it holds |
| PlanGenerator.Planner.GenerateStudyPlan | app.js:249-260 | it succeeds exactly when both dates are present and the exam is after the start; then the stored plan is the shipped catalog's plan for the selected mode; otherwise the stored plan is unchanged |
| Grades.SortDescending3 | app.js:661 | the three scores are returned in descending order; the last is their minimum and the sum is unchanged |
| Grades.SortDescending3Permutation | app.js:661 | the sorted scores are exactly the three entered, as a multiset |
| Grades.CaTotal | app.js:661-662 | the best-two total is the largest of the three pair sums, and equals the sum of all three less the smallest |
| Grades.CaTotalSymmetric | app.js:661-662 | the best-two total does not depend on which of the three fields holds which score |
| Grades.TotalScore | app.js:664 | the reference definition of the total: the best two of the first three scores plus the mid-semester and end-semester marks; used by `Percentage` and `Evaluate` |
| Grades.Percentage | app.js:664-665 | on marks out of 100 the percentage equals the total score |
| Grades.Lookup | app.js:668-677 | the reference definition of the grade lookup; described by `LookupFirstMatch`, `LookupFallback`, `LookupFromScale`, `LookupMonotone`, `LookupReaches` and `ShippedLookup`, and computed by `LookupGrade` |
| Grades.LookupFirstMatch | app.js:668-677 | the grade is the first band in table order whose threshold the percentage reaches, whatever comes after it |
| Grades.LookupFallback | app.js:668-677 | a percentage below every threshold gets "F" with 0 points |
| Grades.LookupFromScale | app.js:668-677 | the result is always one of the scale's bands or the "F" fallback |
| Grades.LookupMonotone | app.js:668-677 | on a scale whose points never increase down the table and are never negative, a higher percentage never earns fewer points |
| Grades.LookupReaches | app.js:668-677 | once the percentage reaches band `k`, the result is band `k` or a band above it |
| Grades.ShippedLookup | app.js:70-82 | on the shipped scale every percentage of at least 0 gets a band (never "F"), and every percentage earns between 0 and 10 points |
| Grades.LookupGrade | app.js:668-677 | the scan with early exit returns exactly the first-match grade and points |
| Grades.RequiredEndSem | app.js:679-682 | the required end-semester score is never negative, is at least the gap from the current partial score to 90, and is 0 or exactly that gap |
| Grades.EndSemRequirement | app.js:679-697 | the target is reported as not achievable exactly when the required score exceeds the 60 end-semester marks; otherwise the required score is reported |
| Grades.RequirementBoundaries | app.js:679-697 | a partial score of at least 90 needs nothing more; a partial score below 30 cannot reach the target |
| Grades.Cgpa | app.js:707-733 | the reference definition of the credit-weighted average; described by `CountedCreditsAll`, `CountedCreditsPositive`, `CgpaWithinBounds`, `ShippedCgpaRange`, `FreshStoreCgpa` and `CgpaExample`, and computed by `OverallCgpa` |
| Grades.CountedCreditsAll | app.js:707-733 | when every catalog subject has an entry in the store, the counted credits are the credits of the whole catalog |
| Grades.CountedCreditsPositive | app.js:707-733 | with positive credit weights, some credits count exactly when some catalog subject has an entry in the store |
| Grades.WeightedSumBounds | app.js:707-733 | with positive credit weights, when every counted subject's points lie between `lo` and `hi`, the weighted sum lies between `lo` and `hi` times the counted credits |
| Grades.CgpaWithinBounds | app.js:707-733 | with positive weights and every counted subject's points in `lo..hi`, the average lies in `lo..hi` when some subject has an entry, and is 0 when none does |
| Grades.ShippedCgpaRange | app.js:707-733 | on the shipped catalog and scale the overall average lies between 0 and 10 for every store |
| Grades.OverallCgpa | app.js:707-733 | the accumulation loop returns exactly the credit-weighted average, or 0 when no credits count |
| Grades.CgpaExample | app.js:707-733 | subjects of 3 and 2 credits at 85% (AB, 8 points) and 95% (EX, 10 points) average 8.8 |
| Grades.InitialMarks | app.js:119-122 | the seeded store maps every catalog name to all-zero marks and holds no other key |
| Grades.SeedMarks | app.js:119-122 | the start-up loop over the catalog builds exactly the seeded store |
| Grades.FreshStoreCgpa | app.js:707-733 | with positive credit weights and when a zero entry earns no points, a freshly seeded store averages 0, although the counted credits are those of the whole catalog (positive for a non-empty catalog) |
| Grades.ShippedZeroMarks | app.js:70-82 | on the shipped scale an all-zero entry lands in the catch-all band "EF" with 0 points |
| Grades.Evaluate | app.js:660-682 | one computation reports the total as both score and percentage; the grade and points of the first band it reaches; the requirement for the best-two and mid-semester partial; and the overall average it is given |
| Grades.GradeBook.constructor | app.js:119-122 | the marks store starts with all-zero marks for every shipped subject |
| Grades.GradeBook.CalculateCGPA | app.js:646-685 | only the entered subject's entry changes, and it now holds the entered marks; the result evaluates those marks, with the overall average taken over the updated store |

## Left out

- Page wiring is not modelled: DOM look-ups, the early returns when an element is missing, the display of plans and results, and CSS classes. `calculateCGPA`'s early return when the subject selector is missing is one of these.
- Also not modelled: the folder manager, mode-duration estimates, study-progress flags, loading marks back into the form, and other event handlers.
- `console` logging and the `alert` are not modelled. The alert on invalid dates becomes the `false` result of `Planner.GenerateStudyPlan`.
- Form parsing is not modelled. `parseFloat(...) || 0` is replaced by the marks arriving as reals, and the date fields by `Option<int>` day numbers.
- PlanGenerator.Planner.GenerateStudyPlan: a date field that is non-empty but unparsable is not modelled. In the program it becomes an invalid date that passes the guard, because comparisons with an invalid date are false.
- JavaScript `Date` arithmetic is not modelled: time of day, time zones and daylight-saving shifts. `Math.ceil` of the millisecond difference is taken to be the whole-day difference of the two dates.
- Floating point is not modelled. Scores, `(total / 100) * 100` and the average are exact reals and integers. `Math.round` and `toFixed(2)` only format the display and are left out with it.
- CreditOrder.SortByCredits: the engine's sort with the comparator `b.credits - a.credits` is modelled as a stable insertion sort. The language guarantees `Array.prototype.sort` is stable, so only the order of the result matters.
- Grades.GradeBook.CalculateCGPA: the subject name is any string, as the selector supplies it. A name outside the catalog is stored but never counted in the average, which is how the program behaves.
