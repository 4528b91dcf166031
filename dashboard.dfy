/**
 * The dashboard endpoints: the database sums, counts and averages the rows, and the
 * controller turns a NULL or unparsable result into 0 and rounds. The aggregates are
 * modelled by their meaning over the rows (SUM skips NULLs and is NULL on no value,
 * AVG is the mean of the non-null values), then the controller's post-processing.
 */
module Dashboard {
  import opened Rows
  import opened Rounding
  import opened Grouping
  import GradeAnalytics
  import AttendanceSummary

  // ---------------------------------------------------------------------------
  // SQL SUM over a nullable INTEGER column, then `parseInt(sum) || 0`

  /** The nullable day-count columns of Attendance. */
  datatype Field = SchoolDays | Present | Absent | Tardy

  function Get(a: Attendance, f: Field): Option<nat>
  {
    match f
    case SchoolDays => a.daysOfSchool
    case Present => a.daysPresent
    case Absent => a.daysAbsent
    case Tardy => a.timesTardy
  }

  function Pick(c: Counts, f: Field): nat
  {
    match f
    case SchoolDays => c.daysOfSchool
    case Present => c.present
    case Absent => c.absent
    case Tardy => c.tardy
  }

  function Column(rows: seq<Attendance>, f: Field): (r: seq<Option<nat>>)
    ensures |r| == |rows|
    ensures forall i :: 0 <= i < |rows| ==> r[i] == Get(rows[i], f)
  {
    seq(|rows|, i requires 0 <= i < |rows| => Get(rows[i], f))
  }

  /** SUM(col): the non-null values added up, NULL when there is none. */
  function SqlSum(xs: seq<Option<nat>>): Option<nat>
  {
    if xs == [] then None
    else
      var n := |xs| - 1;
      match (SqlSum(xs[..n]), xs[n])
      case (None, x) => x
      case (Some(s), None) => Some(s)
      case (Some(s), Some(v)) => Some(s + v)
  }

  /**
   * `parseInt(SUM(col)) || 0` is the column added up with every NULL read as 0, and SUM
   * is NULL exactly when the column holds no value.
   */
  lemma {:induction false} SqlSumOrZero(rows: seq<Attendance>, f: Field)
    ensures OrZero(SqlSum(Column(rows, f))) == Pick(Totals(rows), f)
    ensures SqlSum(Column(rows, f)).None? <==> forall a :: a in rows ==> Get(a, f).None?
  {
    if rows != [] {
      var n := |rows| - 1;
      assert Column(rows, f)[..n] == Column(rows[..n], f);
      SqlSumOrZero(rows[..n], f);
      assert forall a :: a in rows <==> a in rows[..n] || a == rows[n];
    }
  }

  // ---------------------------------------------------------------------------
  // getDashboardStats

  datatype DashboardStats = DashboardStats(
    totalStudents: nat,
    totalAccounts: nat,
    totalSubjects: nat,
    attendanceRate: int,
    averageGrades: int)

  /**
   * `Math.round(parseFloat(AVG(finalRating))) || 0`: AVG is NULL when no rating is
   * non-null, which parses to NaN and becomes 0.
   */
  function AverageGrades(ratings: seq<Option<Rating>>): int
  {
    var all := NonNull(ratings);
    if all == [] then 0 else MeanPoints(all)
  }

  /** The dashboard over the three table counts, the attendance rows and the finalRating column. */
  function Stats(students: nat, accounts: nat, subjects: nat, attendance: seq<Attendance>, ratings: seq<Option<Rating>>): DashboardStats
  {
    var totalDays := OrZero(SqlSum(Column(attendance, SchoolDays)));
    var totalPresent := OrZero(SqlSum(Column(attendance, Present)));
    DashboardStats(
      students,
      accounts,
      subjects,
      if totalDays > 0 then Rate(totalPresent, totalDays) else 0,
      AverageGrades(ratings))
  }

  /**
   * The dashboard attendance rate is round(100 * present / days) over all rows with NULL
   * read as 0, 0 when the days add up to 0 or are all NULL, at most 100 when no row has
   * more days present than school days, and the same figure as the attendance summary's
   * present rate.
   */
  lemma DashboardAttendanceRate(students: nat, accounts: nat, subjects: nat, attendance: seq<Attendance>, ratings: seq<Option<Rating>>)
    ensures var r := Stats(students, accounts, subjects, attendance, ratings);
      var t := Totals(attendance);
      && r.attendanceRate == Rate(t.present, t.daysOfSchool)
      && ((forall a :: a in attendance ==> a.daysOfSchool.None?) ==> r.attendanceRate == 0)
      && (t.daysOfSchool == 0 ==> r.attendanceRate == 0)
      && ((forall a :: a in attendance ==> OrZero(a.daysPresent) <= OrZero(a.daysOfSchool)) ==> 0 <= r.attendanceRate <= 100)
      && r.attendanceRate == AttendanceSummary.SummaryOf(attendance).presentRate
  {
    SqlSumOrZero(attendance, SchoolDays);
    SqlSumOrZero(attendance, Present);
    if forall a :: a in attendance ==> OrZero(a.daysPresent) <= OrZero(a.daysOfSchool) {
      TotalsPresentBounded(attendance);
    }
  }

  /**
   * The dashboard average is 0 when no rating is non-null, otherwise the rounded mean of
   * all non-null ratings, between the rounded lowest and highest; it is the same figure as
   * the grade analytics overall average.
   */
  lemma DashboardAverage(students: nat, accounts: nat, subjects: nat, attendance: seq<Attendance>, grades: seq<Grade>)
    ensures var r := Stats(students, accounts, subjects, attendance, RatingsOf(grades));
      var all := NonNull(RatingsOf(grades));
      && (all == [] ==> r.averageGrades == 0)
      && (all != [] ==>
           && r.averageGrades == RoundDiv(Sum(all), |all| * 100)
           && RoundDiv(Min(all), 100) <= r.averageGrades <= RoundDiv(Max(all), 100))
      && r.averageGrades == GradeAnalytics.Report(grades).overallAverage
  {
    GradeAnalytics.OverallFigures(grades);
  }

  // ---------------------------------------------------------------------------
  // getStudentDistribution: GROUP BY gradeLevel ORDER BY gradeLevel ASC

  datatype LevelCount = LevelCount(gradeLevel: Option<int>, count: nat)

  /** The ascending order on a nullable INTEGER; MySQL sorts NULL before every value. */
  predicate Below(a: Option<int>, b: Option<int>)
  {
    match (a, b)
    case (None, Some(_)) => true
    case (Some(x), Some(y)) => x < y
    case _ => false
  }

  predicate LevelsAscending(t: seq<LevelCount>)
  {
    forall i, j :: 0 <= i < j < |t| ==> Below(t[i].gradeLevel, t[j].gradeLevel)
  }

  function Levels(t: seq<LevelCount>): set<Option<int>>
  {
    set i | 0 <= i < |t| :: t[i].gradeLevel
  }

  /** The count recorded for level x (0 when it has no entry). */
  function CountOf(t: seq<LevelCount>, x: Option<int>): nat
  {
    if t == [] then 0 else (if t[0].gradeLevel == x then t[0].count else 0) + CountOf(t[1..], x)
  }

  /** One student counted into the ordered groups. */
  function AddLevel(t: seq<LevelCount>, l: Option<int>): seq<LevelCount>
  {
    if t == [] then [LevelCount(l, 1)]
    else if t[0].gradeLevel == l then [t[0].(count := t[0].count + 1)] + t[1..]
    else if Below(l, t[0].gradeLevel) then [LevelCount(l, 1)] + t
    else [t[0]] + AddLevel(t[1..], l)
  }

  /** `COUNT(id)` per gradeLevel, in ascending gradeLevel order; `parseInt(count) || 0` keeps each count. */
  function StudentDistribution(levels: seq<Option<int>>): seq<LevelCount>
  {
    if levels == [] then [] else AddLevel(StudentDistribution(levels[..|levels| - 1]), levels[|levels| - 1])
  }

  lemma LevelsCons(e: LevelCount, t: seq<LevelCount>)
    ensures Levels([e] + t) == {e.gradeLevel} + Levels(t)
  {
    var r := [e] + t;
    forall x | x in Levels(r) ensures x in {e.gradeLevel} + Levels(t) {
      var i :| 0 <= i < |r| && r[i].gradeLevel == x;
      if i > 0 { assert t[i - 1].gradeLevel == x; }
    }
    forall x | x in Levels(t) ensures x in Levels(r) {
      var i :| 0 <= i < |t| && t[i].gradeLevel == x;
      assert r[i + 1].gradeLevel == x;
    }
    assert r[0].gradeLevel == e.gradeLevel;
  }

  /** Counting one student adds one to its level's count and changes no other count. */
  lemma {:induction false} AddLevelCounts(t: seq<LevelCount>, l: Option<int>, x: Option<int>)
    ensures CountOf(AddLevel(t, l), x) == CountOf(t, x) + (if x == l then 1 else 0)
  {
    var r := AddLevel(t, l);
    if t == [] {
      assert r[1..] == [];
    } else if t[0].gradeLevel == l {
      assert r[1..] == t[1..];
    } else if Below(l, t[0].gradeLevel) {
      assert r[1..] == t;
    } else {
      AddLevelCounts(t[1..], l, x);
      assert r[1..] == AddLevel(t[1..], l);
    }
  }

  /** Counting one student adds its level to the levels and keeps every count positive. */
  lemma {:induction false} AddLevelLevels(t: seq<LevelCount>, l: Option<int>)
    requires forall e :: e in t ==> e.count >= 1
    ensures Levels(AddLevel(t, l)) == Levels(t) + {l}
    ensures forall e :: e in AddLevel(t, l) ==> e.count >= 1
  {
    var r := AddLevel(t, l);
    if t == [] {
      LevelsCons(LevelCount(l, 1), []);
      assert r == [LevelCount(l, 1)] + [];
    } else if t[0].gradeLevel == l {
      assert t == [t[0]] + t[1..];
      assert r == [r[0]] + t[1..];
      LevelsCons(t[0], t[1..]);
      LevelsCons(r[0], t[1..]);
      assert forall e :: e in r ==> e == r[0] || e in t[1..];
    } else if Below(l, t[0].gradeLevel) {
      LevelsCons(LevelCount(l, 1), t);
    } else {
      var rest := AddLevel(t[1..], l);
      assert forall e :: e in t[1..] ==> e in t;
      AddLevelLevels(t[1..], l);
      assert t == [t[0]] + t[1..];
      LevelsCons(t[0], t[1..]);
      LevelsCons(t[0], rest);
      assert forall e :: e in r ==> e == t[0] || e in rest;
    }
  }

  /** Counting one student keeps the groups in ascending order. */
  lemma {:induction false} AddLevelAscending(t: seq<LevelCount>, l: Option<int>)
    requires LevelsAscending(t)
    requires forall e :: e in t ==> e.count >= 1
    ensures LevelsAscending(AddLevel(t, l))
  {
    var r := AddLevel(t, l);
    if t == [] {
    } else if t[0].gradeLevel == l {
      forall i, j | 0 <= i < j < |r| ensures Below(r[i].gradeLevel, r[j].gradeLevel) {
        assert r[i].gradeLevel == t[i].gradeLevel && r[j].gradeLevel == t[j].gradeLevel;
      }
    } else if Below(l, t[0].gradeLevel) {
      forall i, j | 0 <= i < j < |r| ensures Below(r[i].gradeLevel, r[j].gradeLevel) {
        assert r[j] == t[j - 1];
        if i > 0 {
          assert r[i] == t[i - 1];
        } else if j > 1 {
          assert Below(t[0].gradeLevel, t[j - 1].gradeLevel);
        }
      }
    } else {
      var rest := AddLevel(t[1..], l);
      assert forall e :: e in t[1..] ==> e in t;
      AddLevelAscending(t[1..], l);
      AddLevelLevels(t[1..], l);
      assert r[1..] == rest;
      forall x | x in Levels(rest) ensures Below(t[0].gradeLevel, x) {
        if x != l {
          var i :| 0 <= i < |t[1..]| && t[1..][i].gradeLevel == x;
          assert t[i + 1].gradeLevel == x;
        }
      }
      forall i, j | 0 <= i < j < |r| ensures Below(r[i].gradeLevel, r[j].gradeLevel) {
        assert r[j] == rest[j - 1];
        if i == 0 {
          assert rest[j - 1].gradeLevel in Levels(rest);
        } else {
          assert r[i] == rest[i - 1];
        }
      }
    }
  }

  /** In an ordered list each level has one entry, so its count is that entry's count. */
  lemma {:induction false} CountOfEntry(t: seq<LevelCount>, j: nat)
    requires LevelsAscending(t) && j < |t|
    ensures CountOf(t, t[j].gradeLevel) == t[j].count
  {
    if j == 0 {
      CountOfAbsent(t[1..], t[0].gradeLevel);
    } else {
      assert t[1..][j - 1] == t[j];
      assert Below(t[0].gradeLevel, t[j].gradeLevel);
      CountOfEntry(t[1..], j - 1);
    }
  }

  lemma {:induction false} CountOfAbsent(t: seq<LevelCount>, x: Option<int>)
    requires forall i :: 0 <= i < |t| ==> Below(x, t[i].gradeLevel)
    ensures CountOf(t, x) == 0
  {
    if t != [] {
      assert forall i :: 0 <= i < |t[1..]| ==> t[1..][i] == t[i + 1];
      CountOfAbsent(t[1..], x);
    }
  }

  /** What the ordered groups hold after counting a run of students. */
  ghost predicate Distributed(t: seq<LevelCount>, levels: seq<Option<int>>)
  {
    && LevelsAscending(t)
    && Levels(t) == (set l | l in levels)
    && (forall e :: e in t ==> e.count >= 1)
    && forall x :: CountOf(t, x) == multiset(levels)[x]
  }

  lemma {:induction false} StudentDistributionInvariant(levels: seq<Option<int>>)
    ensures Distributed(StudentDistribution(levels), levels)
  {
    if levels != [] {
      var n := |levels| - 1;
      var t := StudentDistribution(levels[..n]);
      StudentDistributionInvariant(levels[..n]);
      assert levels == levels[..n] + [levels[n]];
      assert multiset(levels) == multiset(levels[..n]) + multiset{levels[n]};
      assert (set l | l in levels) == (set l | l in levels[..n]) + {levels[n]};
      AddLevelLevels(t, levels[n]);
      AddLevelAscending(t, levels[n]);
      forall x ensures CountOf(AddLevel(t, levels[n]), x) == multiset(levels)[x] {
        AddLevelCounts(t, levels[n], x);
        assert CountOf(t, x) == multiset(levels[..n])[x];
      }
    }
  }

  /**
   * One entry per distinct gradeLevel (NULL included), in strictly ascending order with
   * NULL first, each holding the number of students at that level, at least 1.
   */
  lemma StudentDistributionSpec(levels: seq<Option<int>>)
    ensures var t := StudentDistribution(levels);
      && (forall i, j :: 0 <= i < j < |t| ==> Below(t[i].gradeLevel, t[j].gradeLevel))
      && (set e | e in t :: e.gradeLevel) == (set l | l in levels)
      && forall j :: 0 <= j < |t| ==> t[j].count == multiset(levels)[t[j].gradeLevel] && t[j].count >= 1
  {
    var t := StudentDistribution(levels);
    StudentDistributionInvariant(levels);
    forall j | 0 <= j < |t| ensures t[j].count == multiset(levels)[t[j].gradeLevel] && t[j].count >= 1 {
      CountOfEntry(t, j);
      assert t[j] in t;
    }
    assert (set e | e in t :: e.gradeLevel) == Levels(t) by {
      forall x | x in Levels(t) ensures x in (set e | e in t :: e.gradeLevel) {
        var i :| 0 <= i < |t| && t[i].gradeLevel == x;
        assert t[i] in t;
      }
    }
  }

  // ---------------------------------------------------------------------------
  // getGradePerformance: GROUP BY subjectName, AVG(finalRating)

  datatype SubjectAverage = SubjectAverage(subject: string, average: int)

  /** Each grade row keyed by its subject name as stored. */
  function RawItems(grades: seq<Grade>): (r: seq<Item>)
    ensures |r| == |grades|
    ensures forall i :: 0 <= i < |grades| ==> r[i] == Item(grades[i].subjectName, grades[i].finalRating)
  {
    seq(|grades|, i requires 0 <= i < |grades| => Item(grades[i].subjectName, grades[i].finalRating))
  }

  /** `{subject: subjectName || 'Unknown', average: Math.round(parseFloat(AVG)) || 0}` for one group. */
  function PerformanceOf(g: Group): SubjectAverage
  {
    SubjectAverage(Label(g.key), if g.values == [] then 0 else MeanPoints(g.values))
  }

  /** One entry per stored subject name; the database's group order is not part of the contract. */
  function GradePerformance(grades: seq<Grade>): (r: seq<SubjectAverage>)
    ensures |r| == |GroupBy(RawItems(grades))|
  {
    var gs := GroupBy(RawItems(grades));
    seq(|gs|, j requires 0 <= j < |gs| => PerformanceOf(gs[j]))
  }

  /**
   * The database returns one group per distinct stored subject name. Each entry is
   * labelled `name || 'Unknown'` and reports 0 when the group's ratings are all null,
   * otherwise the rounded mean of its non-null ratings, between their rounded lowest
   * and highest.
   */
  lemma GradePerformanceSpec(grades: seq<Grade>)
    ensures var gs := GroupBy(RawItems(grades));
      var r := GradePerformance(grades);
      && (forall a, b :: 0 <= a < b < |gs| ==> gs[a].key != gs[b].key)
      && GroupKeys(gs) == (set g | g in grades :: g.subjectName)
      && forall j :: 0 <= j < |r| ==>
           var vs := Select(RawItems(grades), gs[j].key);
           && r[j].subject == Label(gs[j].key)
           && (vs == [] ==> r[j].average == 0)
           && (vs != [] ==> r[j].average == RoundDiv(Sum(vs), |vs| * 100))
           && (vs != [] ==> RoundDiv(Min(vs), 100) <= r[j].average <= RoundDiv(Max(vs), 100))
  {
    var items := RawItems(grades);
    GroupByKeys(items);
    GroupByValues(items);
    var gs := GroupBy(items);
    assert forall j :: 0 <= j < |gs| ==> gs[j] in gs;
    assert ItemKeys(items) == (set g | g in grades :: g.subjectName) by {
      forall k | k in (set g | g in grades :: g.subjectName) ensures k in ItemKeys(items) {
        var g :| g in grades && g.subjectName == k;
        var i :| 0 <= i < |grades| && grades[i] == g;
        assert items[i].key == k;
      }
    }
  }

  /**
   * When no stored subject name is empty, every performance entry carries the same
   * label and average as the grade analytics entry of its subject.
   */
  lemma GradePerformanceAgrees(grades: seq<Grade>)
    requires forall g :: g in grades ==> g.subjectName != ""
    ensures var subjects := GradeAnalytics.Report(grades).subjects;
      var r := GradePerformance(grades);
      forall j :: 0 <= j < |r| ==>
        exists i :: 0 <= i < |subjects| && subjects[i].name == r[j].subject && subjects[i].average == r[j].average
  {
    var subjects := GradeAnalytics.Report(grades).subjects;
    var r := GradePerformance(grades);
    forall j | 0 <= j < |r|
      ensures exists i :: 0 <= i < |subjects| && subjects[i].name == r[j].subject && subjects[i].average == r[j].average
    {
      PerformanceEntryAgrees(grades, j);
    }
  }

  /** With no empty subject name, the stored names are the dictionary keys the report uses. */
  lemma RawItemsAreSubjectItems(grades: seq<Grade>)
    requires forall g :: g in grades ==> g.subjectName != ""
    ensures RawItems(grades) == GradeAnalytics.SubjectItems(grades)
  {
    forall i | 0 <= i < |grades| ensures RawItems(grades)[i] == GradeAnalytics.SubjectItems(grades)[i] {
      assert grades[i] in grades;
    }
  }

  lemma PerformanceEntryAgrees(grades: seq<Grade>, j: nat)
    requires forall g :: g in grades ==> g.subjectName != ""
    requires j < |GradePerformance(grades)|
    ensures var subjects := GradeAnalytics.Report(grades).subjects;
      var e := GradePerformance(grades)[j];
      exists i :: 0 <= i < |subjects| && subjects[i].name == e.subject && subjects[i].average == e.average
  {
    var items := RawItems(grades);
    RawItemsAreSubjectItems(grades);
    GradePerformanceSpec(grades);
    var gs := GroupBy(items);
    var k := gs[j].key;
    assert k in GroupKeys(gs) by {
      assert gs[j] in gs;
    }
    var g :| g in grades && g.subjectName == k;
    assert k in (set g | g in grades :: Label(g.subjectName));
    GradeAnalytics.SubjectNames(grades);
    GradeAnalytics.SubjectFigures(grades);
    var subjects := GradeAnalytics.Report(grades).subjects;
    var s :| s in subjects && s.name == k;
    var i :| 0 <= i < |subjects| && subjects[i] == s;
    assert GradeAnalytics.SubjectRatings(grades, k) == Select(items, k);
  }

  // ---------------------------------------------------------------------------
  // getAttendanceTrend: GROUP BY month, SUM of present, absent and tardy

  datatype TrendRow = TrendRow(month: string, present: nat, absent: nat, tardy: nat)

  /** The stored month labels, each once, in first-seen order. */
  function MonthKeys(rows: seq<Attendance>): seq<string>
  {
    if rows == [] then []
    else
      var n := |rows| - 1;
      var ks := MonthKeys(rows[..n]);
      if rows[n].month in ks then ks else ks + [rows[n].month]
  }

  /** The rows of one month group. */
  function RowsIn(rows: seq<Attendance>, m: string): seq<Attendance>
  {
    if rows == [] then []
    else
      var n := |rows| - 1;
      RowsIn(rows[..n], m) + (if rows[n].month == m then [rows[n]] else [])
  }

  /** One group: `parseInt(SUM(col)) || 0` for present, absent and tardy. */
  function TrendOf(rows: seq<Attendance>, m: string): TrendRow
  {
    var group := RowsIn(rows, m);
    TrendRow(
      m,
      OrZero(SqlSum(Column(group, Present))),
      OrZero(SqlSum(Column(group, Absent))),
      OrZero(SqlSum(Column(group, Tardy))))
  }

  /** One entry per stored month; the database's group order is not part of the contract. */
  function AttendanceTrend(rows: seq<Attendance>): (r: seq<TrendRow>)
    ensures |r| == |MonthKeys(rows)|
  {
    var ks := MonthKeys(rows);
    seq(|ks|, j requires 0 <= j < |ks| => TrendOf(rows, ks[j]))
  }

  /** The stored month labels of the rows. */
  function StoredMonths(rows: seq<Attendance>): set<string>
  {
    set a | a in rows :: a.month
  }

  lemma {:induction false} MonthKeysSpec(rows: seq<Attendance>)
    ensures var ks := MonthKeys(rows);
      && (forall i, j :: 0 <= i < j < |ks| ==> ks[i] != ks[j])
      && forall m :: m in ks <==> m in StoredMonths(rows)
  {
    if rows != [] {
      var n := |rows| - 1;
      MonthKeysSpec(rows[..n]);
      var ks := MonthKeys(rows[..n]);
      assert StoredMonths(rows) == StoredMonths(rows[..n]) + {rows[n].month} by {
        assert forall a :: a in rows <==> a in rows[..n] || a == rows[n];
      }
      if rows[n].month !in ks {
        var r := ks + [rows[n].month];
        assert forall m :: m in r <==> m in ks || m == rows[n].month;
        forall i, j | 0 <= i < j < |r| ensures r[i] != r[j] {
          if j == |ks| {
            assert r[i] in ks;
          }
        }
      }
    }
  }

  /**
   * The trend lists every stored month once, and each figure is that month's column
   * added up with NULL read as 0 (so a month whose column is all NULL reports 0).
   */
  lemma AttendanceTrendSpec(rows: seq<Attendance>)
    ensures var r := AttendanceTrend(rows);
      && (forall i, j :: 0 <= i < j < |r| ==> r[i].month != r[j].month)
      && (set t | t in r :: t.month) == StoredMonths(rows)
      && forall j :: 0 <= j < |r| ==>
        var t := Totals(RowsIn(rows, r[j].month));
        r[j].present == t.present && r[j].absent == t.absent && r[j].tardy == t.tardy
  {
    var ks := MonthKeys(rows);
    var r := AttendanceTrend(rows);
    MonthKeysSpec(rows);
    forall j | 0 <= j < |r|
      ensures var t := Totals(RowsIn(rows, r[j].month));
        r[j].present == t.present && r[j].absent == t.absent && r[j].tardy == t.tardy
    {
      SqlSumOrZero(RowsIn(rows, ks[j]), Present);
      SqlSumOrZero(RowsIn(rows, ks[j]), Absent);
      SqlSumOrZero(RowsIn(rows, ks[j]), Tardy);
    }
    assert forall j :: 0 <= j < |r| ==> r[j].month == ks[j];
    forall m | m in StoredMonths(rows) ensures m in (set t | t in r :: t.month) {
      assert m in ks;
      var j :| 0 <= j < |ks| && ks[j] == m;
      assert r[j] in r;
    }
  }

  /** With every stored month non-empty, a month's group totals are the summary's per-month counts. */
  lemma {:induction false} RowsInCounts(rows: seq<Attendance>, m: string)
    requires forall a :: a in rows ==> a.month != ""
    ensures Totals(RowsIn(rows, m)) == AttendanceSummary.CountsFor(AttendanceSummary.MonthItems(rows), m)
  {
    if rows != [] {
      var n := |rows| - 1;
      assert rows[n] in rows;
      assert forall a :: a in rows[..n] ==> a in rows;
      RowsInCounts(rows[..n], m);
      assert AttendanceSummary.MonthItems(rows)[..n] == AttendanceSummary.MonthItems(rows[..n]);
      var g := RowsIn(rows[..n], m);
      if rows[n].month == m {
        assert (g + [rows[n]])[..|g|] == g;
      } else {
        assert g + [] == g;
      }
    }
  }

  /**
   * When every stored month is non-empty, the trend and the attendance summary's monthly
   * breakdown agree on the present, absent and tardy figures of every month.
   */
  lemma AttendanceTrendAgrees(rows: seq<Attendance>)
    requires forall a :: a in rows ==> a.month != ""
    ensures var ms := AttendanceSummary.SummaryOf(rows).monthlyBreakdown;
      forall t, b :: t in AttendanceTrend(rows) && b in ms && t.month == b.month ==>
        t.present == b.present && t.absent == b.absent && t.tardy == b.tardy
  {
    var ms := AttendanceSummary.SummaryOf(rows).monthlyBreakdown;
    var r := AttendanceTrend(rows);
    AttendanceTrendSpec(rows);
    AttendanceSummary.MonthlyBreakdownSpec(rows);
    forall t, b | t in r && b in ms && t.month == b.month
      ensures t.present == b.present && t.absent == b.absent && t.tardy == b.tardy
    {
      var j :| 0 <= j < |r| && r[j] == t;
      var i :| 0 <= i < |ms| && ms[i] == b;
      RowsInCounts(rows, t.month);
    }
  }
}
