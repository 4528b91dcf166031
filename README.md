# Report and analytics aggregation, modelled in Dafny

This project models the reporting layer of a school report-card backend. The two
report controllers take Grade rows, Attendance rows and Students with their
eager-loaded grades and attendance. They group the rows by a key, reduce every group
to sums, means, rates and bucket counts, and round only at the end. The model takes
the rows the database hands over as a sequence and models everything the controllers
compute from them:

- **Class summary** (`ClassSummary`, `StableSort`):
  - each student's rounded average of the non-null final ratings;
  - each student's attendance rate;
  - the class-wide means of those figures;
  - the top five students, from a stable descending sort;
  - the struggling students.
- **Grade analytics** (`GradeAnalytics`, `Grouping`):
  - a first-seen dictionary from subject name (`'Unknown'` when empty) to the subject's non-null ratings, built in a loop;
  - the per-subject average, highest, lowest and pass rate;
  - the overall figures over all ratings.
- **Attendance summary** (`AttendanceSummary`):
  - four running totals and a first-seen month dictionary, built in one loop;
  - a second loop building a dictionary keyed by integer student id, which an object enumerates in ascending key order;
  - the rates, the monthly breakdown and the perfect-attendance list.
- **Dashboard endpoints** (`Dashboard`): attendance rate and average grade, student count per grade level, average per subject and attendance per month. SQL `SUM`, `AVG`, `COUNT` and `GROUP BY` are modelled by their meaning over the rows: SUM skips NULLs and is NULL when there is no value, and AVG is the mean of the non-null values. The controller's `parseInt`/`parseFloat`, `|| 0` and `Math.round` are then applied to that.
- **Grade distribution** (`GradeDistribution`): every non-null rating counted into one of five fixed, labelled buckets, in a loop.

Shared pieces:

- `Rows` holds the row types and the small reductions.
  - A finalRating (`DECIMAL(5,2)`) is an exact whole number of hundredths. The passing mark 75 is 7500.
  - Nullable day counts are `Option<nat>`.
  - `x || 0` is `OrZero`.
  - `s || 'Unknown'` is `Label`.
- `Rounding` holds the one rounding rule, `Math.round(p / q)` = floor(p/q + 1/2), written in integers as `RoundDiv`. It also holds `Rate`, the percentage that is 0 instead of a division by zero.

In the JavaScript, a dictionary step creates an entry holding zeros and then adds the row to it. The model creates a new entry already holding the row's contribution. The two give the same entry.

Each dictionary loop is modelled the same way. The method holds the loop and is proved equal to a fold over the rows. The properties of the report are then lemmas about that fold.

## Model

| member | source | states |
|---|---|---|
| Rounding.RoundDiv | src/controllers/reportsController.js:46 | the result r is the unique integer with 2qr <= 2p+q < 2q(r+1), the nearest integer to p/q with halves rounded up |
| Rounding.RoundDivIsMathRound | src/controllers/reportsController.js:46 | RoundDiv(p, q) equals floor(p/q + 0.5) computed over the reals, which is Math.round of the exact quotient |
| Rounding.Rate | src/controllers/reportsController.js:39-41 | a rate is 0 when the whole is 0 (never a division by zero) and lies in [0, 100] when 0 <= part <= whole |
| Rounding.RateScaleInvariant | src/controllers/reportsController.js:40 | multiplying part and whole by the same positive factor leaves the rate unchanged |
| Rounding.RoundDivBetween | src/controllers/reportsController.js:122-129 | a total between n*lo and n*hi, divided by n and rounded, lies between the rounded lo and the rounded hi |
| Rounding.RoundDivScale | src/controllers/reportsController.js:33 | scaling numerator and denominator by the same positive factor does not change the rounded ratio |
| Rows.OrZero | src/controllers/reportsController.js:181-184 | `x \|\| 0` is the value when there is one and 0 for NULL |
| Rows.Label | src/controllers/reportsController.js:107 | `s \|\| 'Unknown'` is never empty and leaves a non-empty name unchanged |
| Rows.NonNull | src/controllers/reportsController.js:31 | the non-null selection holds exactly the values that occur as non-null entries of the column, and no more entries than the column |
| Rows.Min | src/controllers/reportsController.js:124 | Math.min of a non-empty list is an element of it and no larger than any element |
| Rows.Max | src/controllers/reportsController.js:123 | Math.max of a non-empty list is an element of it and no smaller than any element |
| Rows.MeanPoints | src/controllers/reportsController.js:122-129 | the rounded mean of a non-empty list of ratings lies between its rounded minimum and rounded maximum |
| Rows.SumPermutation | src/controllers/reportsController.js:137-139 | a sum does not depend on the order of its terms |
| Rows.PassCountPermutation | src/controllers/reportsController.js:141-143 | the number of ratings at or above 75 does not depend on their order |
| Rows.TotalsPresentBounded | src/controllers/reportsController.js:37-41 | when no row has more days present than school days, the summed present days do not exceed the summed school days |
| Rows.Totals | src/controllers/reportsController.js:37-38 | the four day counts of all rows added up field by field, each `field \|\| 0` |
| Rows.Sum | src/controllers/reportsController.js:33 | the `reduce((sum, g) => sum + g, 0)` of a list |
| Rows.PassCount | src/controllers/reportsController.js:125 | the number of values at or above the passing mark, never more than the list holds |
| ClassSummary.AverageGrade | src/controllers/reportsController.js:31-46 | a student with at least one non-null rating averages between the rounded lowest and the rounded highest of those ratings |
| ClassSummary.NullRatingExcluded | src/controllers/reportsController.js:31-34 | removing a grade row whose rating is null, wherever it sits among the rows, leaves the average unchanged, so a null is excluded and not read as 0 |
| ClassSummary.NoRatingsAverageZero | src/controllers/reportsController.js:32-34 | a student whose ratings are all null (or who has none) averages 0 |
| ClassSummary.DoubledRowsSameAverage | src/controllers/reportsController.js:31-34 | recording a student's grade rows twice leaves the average unchanged: it is a mean, not a sum |
| ClassSummary.AttendanceRate | src/controllers/reportsController.js:37-41 | the rate is 0 when no school days are recorded and lies in [0, 100] when the present days do not exceed them |
| ClassSummary.StatOf | src/controllers/reportsController.js:43-48 | one student's entry: id, rounded average grade and attendance rate |
| ClassSummary.StudentStats | src/controllers/reportsController.js:26-49 | one entry per student, in student order, each the student's id, average and rate |
| ClassSummary.RoundedMean | src/controllers/reportsController.js:53-58 | the rounded mean of the per-student figures lies between their minimum and maximum |
| ClassSummary.ClassMeansUnweighted | src/controllers/reportsController.js:52-58 | the class figures lie between the lowest and highest per-student figures, and doubling one student's grade rows leaves the class average unchanged, so every student counts once |
| ClassSummary.EmptyClass | src/controllers/reportsController.js:52-66 | an empty class reports 0 for both means and empty top and struggling lists |
| ClassSummary.Summarize | src/controllers/reportsController.js:52-76 | totalStudents is the number of students, and `students` keeps one entry per student in the original order |
| ClassSummary.Ranked | src/controllers/reportsController.js:61-62 | the sorted copy is a permutation of the per-student entries, non-increasing in average, and keeps the class order among equal averages |
| StableSort.SortDesc | src/controllers/reportsController.js:62 | the stable descending sort, as insertion of each element before the first with a key not exceeding its own |
| ClassSummary.TopPerformers | src/controllers/reportsController.js:61-63 | the first min(5, n) entries of the sorted copy |
| ClassSummary.TopPerformersSorted | src/controllers/reportsController.js:61-63 | the top list is the first min(5, n) entries of the sorted copy, non-increasing in average and drawn from the class without repetition |
| ClassSummary.TopPerformersRankAbove | src/controllers/reportsController.js:61-63 | every student left out of the top list averages no higher than any student in it |
| ClassSummary.TopPerformersStable | src/controllers/reportsController.js:61-63 | for every average, the top list holds the first students of the class with that average, in class order |
| ClassSummary.TopPerformersDetermined | src/controllers/reportsController.js:61-63 | any stable descending sort of the class yields the same top list, whatever algorithm the engine uses |
| StableSort.SortDescCorrect | src/controllers/reportsController.js:62 | the sort returns a permutation in non-increasing key order that keeps the input order among equal keys |
| StableSort.StableSortUnique | src/controllers/reportsController.js:62 | two sequences that are both sorted and have the same elements per key, in the same order, are equal |
| ClassSummary.Struggling | src/controllers/reportsController.js:66 | an entry is kept exactly when it is in the class and its rounded average is above 0 and below 75 |
| ClassSummary.StrugglingSpec | src/controllers/reportsController.js:66 | the struggling list holds exactly the students with 0 < average < 75, and never one whose average is 0 |
| ClassSummary.StrugglingAppend | src/controllers/reportsController.js:66 | the filter distributes over concatenation, so it keeps the class order |
| Grouping.IndexOf | src/controllers/reportsController.js:108 | a lookup finds an entry with the key, or reports that no entry carries it |
| Grouping.Push | src/controllers/reportsController.js:107-114 | one forEach step: a new key enters last, and a non-null rating is appended to its key's list |
| Grouping.GroupBy | src/controllers/reportsController.js:105-115 | the dictionary after the forEach over all rows |
| Grouping.Flatten | src/controllers/reportsController.js:137 | `Object.values(subjectMap).flat()`: every list, in key order, concatenated |
| Grouping.GroupByKeys | src/controllers/reportsController.js:105-115 | the dictionary has one entry per distinct key of the rows, including keys whose ratings are all null |
| Grouping.GroupByValues | src/controllers/reportsController.js:106-115 | each key's list is exactly the non-null ratings of that key's rows, in row order |
| Grouping.GroupByFirstSeenOrder | src/controllers/reportsController.js:105-118 | a key listed before another first occurs in an earlier row |
| Grouping.GroupByFlatten | src/controllers/reportsController.js:137 | the lists concatenated are a permutation of all non-null ratings |
| GradeAnalytics.SubjectItems | src/controllers/reportsController.js:106-113 | each row is filed under `subjectName \|\| 'Unknown'` with its nullable rating, in row order |
| GradeAnalytics.StatsOf | src/controllers/reportsController.js:118-133 | a subject with no non-null rating reports zeros; otherwise lowest <= average <= highest and 0 <= passRate <= 100 |
| GradeAnalytics.MapStats | src/controllers/reportsController.js:118 | one statistics entry per dictionary entry, in dictionary order |
| GradeAnalytics.ReportOf | src/controllers/reportsController.js:118-150 | the report computed from a built dictionary: per-subject entries and the overall figures over the concatenated lists |
| GradeAnalytics.Report | src/controllers/reportsController.js:93-150 | the report over a run of grade rows |
| GradeAnalytics.AddGrade | src/controllers/reportsController.js:106-115 | one loop step equals one step of the first-seen grouping fold |
| GradeAnalytics.ComputeAnalytics | src/controllers/reportsController.js:105-150 | the loop-built dictionary, then reduced, gives exactly the report of the grouping fold |
| GradeAnalytics.SubjectNames | src/controllers/reportsController.js:105-118 | the subject names are exactly the rows' labels, each listed once |
| GradeAnalytics.SubjectFigures | src/controllers/reportsController.js:117-134 | each subject's average, highest, lowest and pass rate are those of the non-null ratings filed under it; all four are 0 when there are none |
| GradeAnalytics.SubjectsFirstSeen | src/controllers/reportsController.js:105-118 | subjects are listed in the order their first row appears |
| GradeAnalytics.OverallFigures | src/controllers/reportsController.js:137-150 | the overall average and passing rate are taken over all non-null ratings, not over subject averages; passingRate + failureRate = 100; totalGradesRecorded is the number of non-null ratings |
| AttendanceSummary.MonthItems | src/controllers/reportsController.js:180-184 | each row is keyed by `month \|\| 'Unknown'` with its four counts, each `\|\| 0` |
| AttendanceSummary.MonthIndex | src/controllers/reportsController.js:186 | a lookup finds the entry of a month, or reports that no entry carries it |
| AttendanceSummary.AddMonth | src/controllers/reportsController.js:186-192 | one forEach step on the month dictionary: a new month enters last holding the row's counts, a known month adds them |
| AttendanceSummary.Accumulate | src/controllers/reportsController.js:177-193 | the month dictionary after the forEach over all rows |
| AttendanceSummary.AccumulateSum | src/controllers/reportsController.js:186-192 | the month entries add up to the rows' counts: no day is lost or invented |
| AttendanceSummary.AddMonthKeys | src/controllers/reportsController.js:186-188 | one step keeps months distinct and adds exactly the row's month |
| AttendanceSummary.AccumulateSpec | src/controllers/reportsController.js:186-193 | one entry per distinct month label, each holding the summed counts of that month's rows |
| AttendanceSummary.AddMonthOrder | src/controllers/reportsController.js:186-188 | one step keeps the entries in the order their months first occur: a new month goes last, after every month already seen |
| AttendanceSummary.AccumulateFirstSeen | src/controllers/reportsController.js:177-195 | a month listed before another in the dictionary first occurs in an earlier row |
| AttendanceSummary.MonthRows | src/controllers/reportsController.js:195-199 | one breakdown row per dictionary entry, carrying its counts and its present rate (0 with no school days) |
| AttendanceSummary.TallyMonths | src/controllers/reportsController.js:171-193 | the loop's four running totals are the rows' summed counts, and its month dictionary is the grouping fold |
| AttendanceSummary.TallyIndex | src/controllers/reportsController.js:205 | a lookup finds the entry of a student id, or reports that the id has none |
| AttendanceSummary.InsertTallySpec | src/controllers/reportsController.js:205-210 | a new id adds exactly its entry and keeps the ids ascending |
| AttendanceSummary.Bump | src/controllers/reportsController.js:204-211 | one forEach step on the student dictionary: a new id enters in id order with its row's student and absences, a known id adds the absences |
| AttendanceSummary.StudentTally | src/controllers/reportsController.js:202-212 | the student dictionary after the forEach over all rows |
| AttendanceSummary.BumpMatches | src/controllers/reportsController.js:203-212 | one step keeps every entry equal to its student's first row's joined student and summed absences |
| AttendanceSummary.StudentTallyMatches | src/controllers/reportsController.js:202-212 | after all rows, the dictionary has one entry per student id, in ascending id order, holding the first row's joined student and the summed absences |
| AttendanceSummary.TallyStudents | src/controllers/reportsController.js:202-212 | the loop-built student dictionary is the fold over the rows |
| AttendanceSummary.Kept | src/controllers/reportsController.js:215 | an entry is kept exactly when its absences sum to 0 and its joined student exists |
| AttendanceSummary.KeptAscending | src/controllers/reportsController.js:214-215 | filtering keeps the ascending id order |
| AttendanceSummary.Perfect | src/controllers/reportsController.js:214-219 | the joined students of the kept entries, one per kept entry, in dictionary order |
| AttendanceSummary.PerfectIds | src/controllers/reportsController.js:214-217 | the ids of the kept entries, in the same order |
| AttendanceSummary.SummaryOf | src/controllers/reportsController.js:171-228 | the report: totals, rates, the monthly breakdown and the perfect-attendance list |
| AttendanceSummary.ComputeSummary | src/controllers/reportsController.js:171-228 | the two loops and the reductions give exactly the report of the folds |
| AttendanceSummary.MonthItemsSum | src/controllers/reportsController.js:181-192 | the row counts add up to the rows' totals |
| AttendanceSummary.TotalsMatchBreakdown | src/controllers/reportsController.js:171-226 | totalDays and the present, absent and tardy totals equal the breakdown summed field by field; every rate is 0 when no school days are recorded |
| AttendanceSummary.MonthlyBreakdownSpec | src/controllers/reportsController.js:177-199 | the breakdown lists every month label once, in the order the months first occur in the rows (the order Object.entries returns), each with the summed counts of its rows and a present rate that is 0 without school days |
| AttendanceSummary.PerfectAttendanceSpec | src/controllers/reportsController.js:202-219 | a student is listed exactly when they have a row, their absences sum to 0 and their first row's joined student exists; the list is in ascending id order, one entry per student |
| Dashboard.Column | src/controllers/analyticsController.js:14-15 | the column holds each row's nullable value of the field, in row order |
| Dashboard.SqlSum | src/controllers/analyticsController.js:14-15 | SUM over a nullable column: the non-null values added up, NULL when there is none |
| Dashboard.SqlSumOrZero | src/controllers/analyticsController.js:14-21 | `parseInt(SUM(col)) \|\| 0` is the column summed with NULL read as 0; SUM is NULL exactly when every value is NULL |
| Dashboard.AverageGrades | src/controllers/analyticsController.js:27-31 | `Math.round(parseFloat(AVG(finalRating))) \|\| 0`: 0 when no rating is non-null, else the rounded mean |
| Dashboard.Stats | src/controllers/analyticsController.js:5-40 | the dashboard figures from the three table counts, the attendance rows and the rating column |
| Dashboard.DashboardAttendanceRate | src/controllers/analyticsController.js:12-24 | the rate is round(100 * present / days), 0 when the days sum to 0 or are all NULL, at most 100 when no row reports more days present than school days, and equal to the attendance summary's present rate |
| Dashboard.DashboardAverage | src/controllers/analyticsController.js:27-31 | the average is 0 with no non-null rating (NULL AVG parses to NaN and becomes 0), otherwise the rounded mean, between the rounded lowest and highest; it equals the grade analytics overall average |
| Dashboard.AddLevelCounts | src/controllers/analyticsController.js:50-58 | counting one student adds 1 to its level's count and changes no other count |
| Dashboard.AddLevelAscending | src/controllers/analyticsController.js:56 | counting one student keeps the groups in ascending level order |
| Dashboard.StudentDistributionInvariant | src/controllers/analyticsController.js:50-58 | the groups are ascending, cover exactly the levels seen and hold each level's number of students |
| Dashboard.StudentDistribution | src/controllers/analyticsController.js:50-64 | COUNT per gradeLevel in ascending gradeLevel order, one student counted at a time |
| Dashboard.StudentDistributionSpec | src/controllers/analyticsController.js:50-64 | one entry per distinct gradeLevel (NULL included, listed first), in strictly ascending order, each holding its number of students, at least 1 |
| Dashboard.RawItems | src/controllers/analyticsController.js:79-82 | each grade row is grouped under its subject name as stored, in row order |
| Dashboard.PerformanceOf | src/controllers/analyticsController.js:86-89 | one group's entry: `subjectName \|\| 'Unknown'` and the rounded AVG, 0 for a NULL AVG |
| Dashboard.GradePerformance | src/controllers/analyticsController.js:77-89 | one entry per distinct stored subject name |
| Dashboard.GradePerformanceSpec | src/controllers/analyticsController.js:77-89 | the groups are the distinct stored names, labelled `name \|\| 'Unknown'`; each average is 0 when the group has no non-null rating, otherwise the rounded mean, between the rounded lowest and highest |
| Dashboard.RawItemsAreSubjectItems | src/controllers/analyticsController.js:79-87 | with no empty subject name, the stored names are the keys grade analytics groups by |
| Dashboard.GradePerformanceAgrees | src/controllers/analyticsController.js:77-89 | with no empty subject name, every entry has the label and average of the grade analytics entry of that subject |
| Dashboard.AttendanceTrend | src/controllers/analyticsController.js:102-118 | one entry per distinct stored month |
| Dashboard.TrendOf | src/controllers/analyticsController.js:113-118 | one month group's entry: its SUMs of present, absent and tardy, each `\|\| 0` |
| Dashboard.MonthKeysSpec | src/controllers/analyticsController.js:109 | the month groups are exactly the stored months, each once |
| Dashboard.AttendanceTrendSpec | src/controllers/analyticsController.js:102-118 | every stored month is listed once, and its present, absent and tardy figures are that month's columns summed with NULL read as 0 |
| Dashboard.RowsInCounts | src/controllers/analyticsController.js:105-107 | with no empty month label, a month group's totals are the attendance summary's counts for that month |
| Dashboard.AttendanceTrendAgrees | src/controllers/analyticsController.js:102-118 | with no empty month label, the trend and the attendance summary's monthly breakdown agree on every month's present, absent and tardy figures |
| GradeDistribution.Bucket | src/controllers/analyticsController.js:153-157 | each rating lands in exactly one bucket: >= 90, [85, 90), [80, 85), [75, 80) or < 75; nothing caps the top bucket at 100 |
| GradeDistribution.CountIn | src/controllers/analyticsController.js:149-158 | the number of ratings counted into one bucket, never more than there are ratings |
| GradeDistribution.Distribution | src/controllers/analyticsController.js:141-163 | always five entries with the fixed labels in declaration order, each counting the non-null ratings in its bucket (empty buckets included), and the counts add up to the number of non-null ratings |
| GradeDistribution.DistributionTotal | src/controllers/analyticsController.js:149-158 | the five bucket counts add up to the number of ratings |
| GradeDistribution.OtherBucketsUnchanged | src/controllers/analyticsController.js:153-157 | one rating adds 1 to its own bucket and changes no other |
| GradeDistribution.NoSixthBucket | src/controllers/analyticsController.js:141-147 | no rating counts in a position beyond the fifth bucket |
| GradeDistribution.NullRatingSkipped | src/controllers/analyticsController.js:133-136 | a null rating, which the query filters out, changes no count |

## Left out

- The database and the ORM: `findAll`, `count`, joins and the `gradeLevel`/`section` filters. The model takes the rows a query returns, already filtered, as a sequence.
- The three table counts of the dashboard (`Student.count()`, `Account.count()`, `Subject.count()`): these are parameters of `Dashboard.Stats`.
- HTTP: the request, the response, status codes and the error path that logs and answers 500.
- `className`, the students' full names, the `schoolYear: 'All Time'` field of the attendance summary and the `studentGrowth: 12` placeholder: constant or cosmetic strings. A listed perfect-attendance student is the joined student record itself.
- Rounding.Rate: the model's rate is Math.round of the exact value of 100 * part / whole. The program computes `Math.round((part / whole) * 100)` in doubles (reportsController.js lines 40, 125, 142, 198 and 224-226; analyticsController.js line 23). The quotient part / whole is already a rounded double before it is multiplied by 100, and the product can land just below a .5 boundary. So a rate whose exact value ends in .5 can come out one lower in the program, even for small counts. For example, 23 days present out of 40 gives 57 in the program, because `(23 / 40) * 100` evaluates to 57.49999999999999, but `Rate(23, 40)` is 58. Likewise 29 out of 200 gives 14 in the program and 15 in the model.
- Floating point otherwise. Ratings are exact hundredths, and every mean is computed as an exact ratio before rounding. A mean whose double value falls just below a .5 boundary may round one lower in the program, in the same way.
- Dashboard.AverageGrades: takes AVG as the exact mean. MySQL keeps four extra decimals in AVG of a DECIMAL, which can change the rounded result only when the ratings number in the tens of thousands.
- `isNaN` in the grade distribution: finalRating is a DECIMAL, so `parseFloat` of a non-null value is never NaN. The check is unreachable and is not modelled.
- Subject names or month labels that look like array indices ("10"): a JavaScript object enumerates such keys first, in ascending order. The first-seen order of `Grouping` and `AttendanceSummary` holds for the other keys. Key names that collide with `Object.prototype` members are also not modelled.
- Negative student ids: ids are `nat`, as auto-increment keys are. The ascending order of the student dictionary relies on this.
- Dashboard.GradePerformance and Dashboard.AttendanceTrend: the order in which the database returns `GROUP BY` groups without `ORDER BY` is unspecified. The contracts state which groups appear and what they hold, not their order.
- Dashboard.GradePerformanceAgrees and Dashboard.AttendanceTrendAgrees: require no empty subject name or month label. SQL groups the empty string apart, while the controllers that read rows file it under "Unknown".
- Dashboard.GradePerformance, Dashboard.AttendanceTrend, Dashboard.GradePerformanceAgrees and Dashboard.AttendanceTrendAgrees: SQL `GROUP BY` is modelled as grouping by exact string equality. MySQL compares strings under the column's collation. No collation is declared, so the server default applies, and that default is case- and accent-insensitive. Under it, "Math" and "math" form one group in the dashboard but two entries in grade analytics. The two Agrees lemmas hold only for labels that are equal exactly when their strings are; collations are not modelled.
- GradeAnalytics.StatsOf: `Math.max(...gradeList)` and `Math.min(...gradeList)` pass every rating as a separate call argument. A subject list longer than the engine's argument limit makes the call throw RangeError, and the endpoint then answers 500. The model reports figures for lists of every length; that failure is not modelled.
