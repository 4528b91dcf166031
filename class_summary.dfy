/**
 * The class summary report: per-student rounded average grade and attendance rate,
 * their unweighted class means, the top five students by average grade and the
 * struggling students.
 */
module ClassSummary {
  import opened Rows
  import opened Rounding
  import opened StableSort

  /** A Student row with its eager-loaded grades and attendance. */
  datatype StudentRow = StudentRow(id: nat, grades: seq<Grade>, attendance: seq<Attendance>)

  /** One entry of `studentStats`. */
  datatype StudentStat = StudentStat(id: nat, averageGrade: int, attendanceRate: int)

  datatype Summary = Summary(
    totalStudents: nat,
    averageGrade: int,
    attendanceRate: int,
    topPerformers: seq<StudentStat>,
    strugglingStudents: seq<StudentStat>,
    students: seq<StudentStat>)

  /** How many students the top-performers list holds at most. */
  const TopCount: nat := 5

  /** The struggling band: a rounded average above 0 and below 75. */
  const StrugglingBelow: int := 75

  /** A student's rounded mean of the non-null final ratings; 0 when there are none. */
  function AverageGrade(grades: seq<Grade>): (r: int)
    ensures var valid := NonNull(RatingsOf(grades));
      valid != [] ==> RoundDiv(Min(valid), 100) <= r <= RoundDiv(Max(valid), 100)
  {
    var valid := NonNull(RatingsOf(grades));
    if valid == [] then 0 else MeanPoints(valid)
  }

  /** A student's rounded percentage of school days present; 0 when no school days are recorded. */
  function AttendanceRate(attendance: seq<Attendance>): (r: int)
    ensures Totals(attendance).daysOfSchool == 0 ==> r == 0
    ensures Totals(attendance).present <= Totals(attendance).daysOfSchool ==> 0 <= r <= 100
  {
    var t := Totals(attendance);
    Rate(t.present, t.daysOfSchool)
  }

  function StatOf(st: StudentRow): StudentStat
  {
    StudentStat(st.id, AverageGrade(st.grades), AttendanceRate(st.attendance))
  }

  function StudentStats(students: seq<StudentRow>): (r: seq<StudentStat>)
    ensures |r| == |students|
    ensures forall i :: 0 <= i < |students| ==> r[i] == StatOf(students[i])
  {
    seq(|students|, i requires 0 <= i < |students| => StatOf(students[i]))
  }

  function AverageOf(s: StudentStat): int
  {
    s.averageGrade
  }

  function Averages(stats: seq<StudentStat>): (r: seq<int>)
    ensures |r| == |stats|
    ensures forall i :: 0 <= i < |stats| ==> r[i] == stats[i].averageGrade
  {
    seq(|stats|, i requires 0 <= i < |stats| => stats[i].averageGrade)
  }

  function AttendanceRates(stats: seq<StudentStat>): (r: seq<int>)
    ensures |r| == |stats|
    ensures forall i :: 0 <= i < |stats| ==> r[i] == stats[i].attendanceRate
  {
    seq(|stats|, i requires 0 <= i < |stats| => stats[i].attendanceRate)
  }

  /** Math.round of the plain mean of already-rounded values; 0 for no values. */
  function RoundedMean(xs: seq<int>): (r: int)
    ensures xs != [] ==> Min(xs) <= r <= Max(xs)
  {
    if xs == [] then 0
    else
      SumBetween(xs, Min(xs), Max(xs));
      RoundDivBetween(Sum(xs), |xs|, 1, Min(xs), Max(xs));
      RoundDivExact(Min(xs), 1);
      RoundDivExact(Max(xs), 1);
      RoundDiv(Sum(xs), |xs|)
  }

  /** `studentStats.filter(s => s.averageGrade < 75 && s.averageGrade > 0)` */
  function Struggling(stats: seq<StudentStat>): (r: seq<StudentStat>)
    ensures forall s :: s in r <==> s in stats && 0 < s.averageGrade < StrugglingBelow
  {
    if stats == [] then []
    else
      assert forall s :: s in stats <==> s == stats[0] || s in stats[1..];
      (if 0 < stats[0].averageGrade < StrugglingBelow then [stats[0]] else []) + Struggling(stats[1..])
  }

  function Summarize(students: seq<StudentRow>): (r: Summary)
    ensures r.totalStudents == |students| == |r.students|
    ensures forall i :: 0 <= i < |students| ==> r.students[i].id == students[i].id
  {
    var stats := StudentStats(students);
    Summary(
      |stats|,
      RoundedMean(Averages(stats)),
      RoundedMean(AttendanceRates(stats)),
      TopPerformers(students),
      Struggling(stats),
      stats)
  }

  /**
   * A row whose final rating is null changes no student's average, wherever it sits
   * among the student's rows: it is excluded, not read as 0.
   */
  lemma NullRatingExcluded(before: seq<Grade>, g: Grade, after: seq<Grade>)
    requires g.finalRating.None?
    ensures AverageGrade(before + [g] + after) == AverageGrade(before + after)
  {
    var xs, ys := RatingsOf(before), RatingsOf(after);
    RatingsOfAppend(before + [g], after);
    RatingsOfAppend(before, [g]);
    RatingsOfAppend(before, after);
    assert RatingsOf([g]) == [None];
    assert RatingsOf(before + [g] + after) == xs + [None] + ys;
    NullSkipped(xs, ys);
    assert NonNull(RatingsOf(before + [g] + after)) == NonNull(RatingsOf(before + after));
  }

  /** A null entry anywhere in a column contributes nothing to its non-null values. */
  lemma {:induction false} NullSkipped(xs: seq<Option<Rating>>, ys: seq<Option<Rating>>)
    ensures NonNull(xs + [None] + ys) == NonNull(xs + ys)
  {
    if ys == [] {
      assert xs + [None] + ys == xs + [None];
      NonNullSnoc(xs, None);
      assert xs + ys == xs;
    } else {
      var n := |ys| - 1;
      var front, last := ys[..n], ys[n];
      assert ys == front + [last];
      assert xs + [None] + ys == (xs + [None] + front) + [last];
      assert xs + ys == (xs + front) + [last];
      NullSkipped(xs, front);
      NonNullSnoc(xs + [None] + front, last);
      NonNullSnoc(xs + front, last);
    }
  }

  /** The non-null values of a column with one more entry. */
  lemma NonNullSnoc(xs: seq<Option<Rating>>, x: Option<Rating>)
    ensures NonNull(xs + [x]) == NonNull(xs) + (match x case None => [] case Some(v) => [v])
  {
    assert (xs + [x])[..|xs|] == xs;
  }

  /** The finalRating column of two runs of rows is the two columns one after the other. */
  lemma RatingsOfAppend(a: seq<Grade>, b: seq<Grade>)
    ensures RatingsOf(a + b) == RatingsOf(a) + RatingsOf(b)
  {
    var xs, ys := RatingsOf(a), RatingsOf(b);
    var zs := RatingsOf(a + b);
    assert |zs| == |xs + ys|;
    forall i | 0 <= i < |zs| ensures zs[i] == (xs + ys)[i] {
      if i >= |a| {
        assert (a + b)[i] == b[i - |a|];
      }
    }
  }

  /** A student with no non-null rating averages 0. */
  lemma {:induction false} NoRatingsAverageZero(grades: seq<Grade>)
    requires forall g :: g in grades ==> g.finalRating.None?
    ensures AverageGrade(grades) == 0
  {
    if grades != [] {
      var n := |grades| - 1;
      assert grades == grades[..n] + [grades[n]];
      assert forall g :: g in grades[..n] ==> g in grades;
      NoRatingsAverageZero(grades[..n]);
      assert grades[n] in grades;
      assert grades[..n] + [grades[n]] + [] == grades && grades[..n] + [] == grades[..n];
      NullRatingExcluded(grades[..n], grades[n], []);
    }
  }

  /** Recording every grade row of a student twice leaves that student's average unchanged. */
  lemma DoubledRowsSameAverage(grades: seq<Grade>)
    ensures AverageGrade(grades + grades) == AverageGrade(grades)
  {
    var xs := RatingsOf(grades);
    var valid := NonNull(xs);
    RatingsOfAppend(grades, grades);
    NonNullAppend(xs, xs);
    assert NonNull(RatingsOf(grades + grades)) == valid + valid;
    if valid != [] {
      DoubledMean(valid);
    }
  }

  /** The mean of a list of ratings is that of the list written out twice. */
  lemma DoubledMean(valid: seq<Rating>)
    requires valid != []
    ensures MeanPoints(valid + valid) == MeanPoints(valid)
  {
    var p, q := Sum(valid), |valid| * 100;
    SumAppend(valid, valid);
    assert Sum(valid + valid) == 2 * p;
    assert |valid + valid| * 100 == 2 * q;
    RoundDivScale(p, q, 2);
  }

  lemma {:induction false} NonNullAppend(a: seq<Option<Rating>>, b: seq<Option<Rating>>)
    ensures NonNull(a + b) == NonNull(a) + NonNull(b)
  {
    if b == [] {
      assert a + b == a;
    } else {
      var n := |b| - 1;
      assert (a + b)[..|a| + n] == a + b[..n];
      NonNullAppend(a, b[..n]);
    }
  }

  /**
   * The class figures are plain means of the per-student figures, so every student
   * counts once: they lie between the lowest and highest per-student figure, they are
   * 0 for an empty class, and duplicating one student's grade rows leaves the class
   * average unchanged.
   */
  lemma ClassMeansUnweighted(students: seq<StudentRow>, i: nat)
    requires i < |students|
    ensures var r := Summarize(students);
      var avgs := Averages(r.students);
      var rates := AttendanceRates(r.students);
      && Min(avgs) <= r.averageGrade <= Max(avgs)
      && Min(rates) <= r.attendanceRate <= Max(rates)
    ensures var doubled := students[i := students[i].(grades := students[i].grades + students[i].grades)];
      Summarize(doubled).averageGrade == Summarize(students).averageGrade
  {
    var doubled := students[i := students[i].(grades := students[i].grades + students[i].grades)];
    DoubledRowsSameAverage(students[i].grades);
    assert StudentStats(doubled) == StudentStats(students);
  }

  lemma EmptyClass()
    ensures Summarize([]).averageGrade == 0 && Summarize([]).attendanceRate == 0
    ensures Summarize([]).topPerformers == [] && Summarize([]).strugglingStudents == []
  {
  }

  /** The sorted copy of the class the top performers are cut from. */
  function Ranked(students: seq<StudentRow>): (r: seq<StudentStat>)
    ensures multiset(r) == multiset(StudentStats(students)) && |r| == |students|
    ensures SortedDesc(r, AverageOf)
    ensures forall k :: WithKey(r, AverageOf, k) == WithKey(StudentStats(students), AverageOf, k)
  {
    SortDescCorrect(StudentStats(students), AverageOf);
    assert |SortDesc(StudentStats(students), AverageOf)| == |multiset(StudentStats(students))|;
    SortDesc(StudentStats(students), AverageOf)
  }

  /** `[...studentStats].sort((a, b) => b.averageGrade - a.averageGrade).slice(0, 5)` */
  function TopPerformers(students: seq<StudentRow>): seq<StudentStat>
  {
    var sorted := Ranked(students);
    sorted[..if |sorted| < TopCount then |sorted| else TopCount]
  }

  /**
   * The top performers are the first min(5, n) students of the stable descending sort:
   * non-increasing in average grade and drawn from the class without repetition.
   */
  lemma TopPerformersSorted(students: seq<StudentRow>)
    ensures var stats := StudentStats(students);
      var top := TopPerformers(students);
      && top == Ranked(students)[..|top|]
      && |top| == (if |stats| < TopCount then |stats| else TopCount)
      && SortedDesc(top, AverageOf)
      && multiset(top) <= multiset(stats)
  {
    var stats := StudentStats(students);
    var sorted := Ranked(students);
    var m := if |sorted| < TopCount then |sorted| else TopCount;
    var top, rest := sorted[..m], sorted[m..];
    assert TopPerformers(students) == top;
    assert sorted == top + rest;
    assert multiset(stats) == multiset(top) + multiset(rest);
    assert SortedDesc(top, AverageOf) by {
      forall i, j | 0 <= i < j < |top| ensures AverageOf(top[i]) >= AverageOf(top[j]) {
        assert top[i] == sorted[i] && top[j] == sorted[j];
      }
    }
  }

  /** Every student left out of the top performers has an average no higher than any of them. */
  lemma TopPerformersRankAbove(students: seq<StudentRow>)
    ensures var stats := StudentStats(students);
      var top := TopPerformers(students);
      forall s: StudentStat, t: StudentStat :: s in multiset(stats) - multiset(top) && t in top ==>
        s.averageGrade <= t.averageGrade
  {
    var stats := StudentStats(students);
    var sorted := Ranked(students);
    var m := if |sorted| < TopCount then |sorted| else TopCount;
    var top, rest := sorted[..m], sorted[m..];
    assert TopPerformers(students) == top;
    assert sorted == top + rest;
    assert multiset(stats) == multiset(top) + multiset(rest);
    SortedSplit(sorted, m);
    forall s: StudentStat, t: StudentStat | s in multiset(stats) - multiset(top) && t in top
      ensures s.averageGrade <= t.averageGrade
    {
      assert s in multiset(rest);
      assert s in rest;
    }
  }

  /** In a sorted sequence, everything after a cut averages no higher than anything before it. */
  lemma SortedSplit(sorted: seq<StudentStat>, m: nat)
    requires SortedDesc(sorted, AverageOf) && m <= |sorted|
    ensures forall s, t :: s in sorted[m..] && t in sorted[..m] ==> s.averageGrade <= t.averageGrade
  {
    forall s, t | s in sorted[m..] && t in sorted[..m] ensures s.averageGrade <= t.averageGrade {
      var j :| 0 <= j < |sorted[m..]| && sorted[m..][j] == s;
      var i :| 0 <= i < m && sorted[..m][i] == t;
      assert sorted[i] == t && sorted[m + j] == s;
      assert AverageOf(sorted[i]) >= AverageOf(sorted[m + j]);
    }
  }

  /**
   * Ties keep the class order: for every average grade, the students of the top list
   * with that average are the first ones of the class with that average, in class order.
   */
  lemma TopPerformersStable(students: seq<StudentRow>)
    ensures var stats := StudentStats(students);
      var top := TopPerformers(students);
      forall k :: WithKey(stats, AverageOf, k) == WithKey(top, AverageOf, k) + WithKey(Ranked(students)[|top|..], AverageOf, k)
  {
    var sorted := Ranked(students);
    TopPerformersSorted(students);
    var top := TopPerformers(students);
    var m := |top|;
    assert sorted == top + sorted[m..];
    forall k ensures WithKey(StudentStats(students), AverageOf, k) == WithKey(top, AverageOf, k) + WithKey(sorted[m..], AverageOf, k) {
      WithKeyAppend(top, sorted[m..], AverageOf, k);
    }
  }

  /**
   * Any stable descending sort of the class gives the same top performers: the list is
   * determined by the class, whatever sorting algorithm the engine uses.
   */
  lemma TopPerformersDetermined(students: seq<StudentRow>, other: seq<StudentStat>)
    requires var stats := StudentStats(students);
      SortedDesc(other, AverageOf) && forall k :: WithKey(other, AverageOf, k) == WithKey(stats, AverageOf, k)
    ensures TopPerformers(students) == other[..if |other| < TopCount then |other| else TopCount]
  {
    StableSortUnique(Ranked(students), other, AverageOf);
  }

  /**
   * The struggling filter keeps class order: filtering two runs of students one after
   * the other gives the two filtered runs one after the other.
   */
  lemma {:induction false} StrugglingAppend(a: seq<StudentStat>, b: seq<StudentStat>)
    ensures Struggling(a + b) == Struggling(a) + Struggling(b)
  {
    if a == [] {
      assert a + b == b;
    } else {
      assert (a + b)[0] == a[0];
      assert (a + b)[1..] == a[1..] + b;
      StrugglingAppend(a[1..], b);
    }
  }

  /** The struggling students are exactly those with a rounded average above 0 and below 75. */
  lemma StrugglingSpec(students: seq<StudentRow>)
    ensures var r := Summarize(students);
      && (forall s :: s in r.strugglingStudents <==> s in r.students && 0 < s.averageGrade < StrugglingBelow)
      && (forall s :: s in r.strugglingStudents ==> s.averageGrade != 0)
  {
  }
}
