/**
 * The attendance summary report: school-wide totals and rates, a month-by-month
 * breakdown kept in a first-seen dictionary, and the students with no recorded
 * absence, found through a dictionary keyed by integer student id.
 */
module AttendanceSummary {
  import opened Rows
  import opened Rounding

  /** A month label with day counts: one row's, or a month's running totals. */
  datatype MonthTotal = MonthTotal(month: string, counts: Counts)

  /** One entry of `monthlyBreakdown`. */
  datatype MonthRow = MonthRow(month: string, daysOfSchool: nat, present: nat, absent: nat, tardy: nat, presentRate: int)

  /** One entry of `studentAttendance`: the first row's joined student and the summed absences. */
  datatype Tally = Tally(studentId: nat, student: Option<StudentRef>, totalAbsent: nat)

  datatype Summary = Summary(
    totalDays: nat,
    presentRate: int,
    absentRate: int,
    tardyRate: int,
    monthlyBreakdown: seq<MonthRow>,
    perfectAttendanceStudents: seq<StudentRef>)

  // ---------------------------------------------------------------------------
  // The month dictionary (keys in first-seen order)

  /** Each row as its month key (`month || 'Unknown'`) and its counts. */
  function MonthItems(rows: seq<Attendance>): (r: seq<MonthTotal>)
    ensures |r| == |rows|
    ensures forall i :: 0 <= i < |rows| ==> r[i] == MonthTotal(Label(rows[i].month), RowCounts(rows[i]))
  {
    seq(|rows|, i requires 0 <= i < |rows| => MonthTotal(Label(rows[i].month), RowCounts(rows[i])))
  }

  function MonthIndex(gs: seq<MonthTotal>, m: string): (r: Option<nat>)
    ensures r.Some? ==> r.value < |gs| && gs[r.value].month == m
    ensures r.None? ==> forall i :: 0 <= i < |gs| ==> gs[i].month != m
  {
    if gs == [] then None
    else if gs[0].month == m then Some(0)
    else match MonthIndex(gs[1..], m)
      case None => None
      case Some(j) => Some(j + 1)
  }

  /**
   * `if (!group[m]) group[m] = {0, 0, 0, 0}; group[m].field += ...`: a new month enters
   * at the end holding the row's counts, a known month adds them to its entry.
   */
  function AddMonth(gs: seq<MonthTotal>, it: MonthTotal): seq<MonthTotal>
  {
    match MonthIndex(gs, it.month)
    case None => gs + [MonthTotal(it.month, NoDays.Plus(it.counts))]
    case Some(j) => gs[j := MonthTotal(it.month, gs[j].counts.Plus(it.counts))]
  }

  /** The month dictionary after the forEach over all rows. */
  function Accumulate(items: seq<MonthTotal>): seq<MonthTotal>
  {
    if items == [] then [] else AddMonth(Accumulate(items[..|items| - 1]), items[|items| - 1])
  }

  /** The counts of all entries added up. */
  function SumCounts(gs: seq<MonthTotal>): Counts
  {
    if gs == [] then NoDays else SumCounts(gs[..|gs| - 1]).Plus(gs[|gs| - 1].counts)
  }

  /** The counts of the entries labelled m, added up. */
  function CountsFor(items: seq<MonthTotal>, m: string): Counts
  {
    if items == [] then NoDays
    else
      var n := |items| - 1;
      if items[n].month == m then CountsFor(items[..n], m).Plus(items[n].counts) else CountsFor(items[..n], m)
  }

  predicate DistinctMonths(gs: seq<MonthTotal>)
  {
    forall i, j :: 0 <= i < j < |gs| ==> gs[i].month != gs[j].month
  }

  function Months(gs: seq<MonthTotal>): set<string>
  {
    set i | 0 <= i < |gs| :: gs[i].month
  }

  /** Adding to one entry adds to the total of all entries. */
  lemma {:induction false} SumCountsUpdate(gs: seq<MonthTotal>, j: nat, c: Counts)
    requires j < |gs|
    ensures SumCounts(gs[j := MonthTotal(gs[j].month, gs[j].counts.Plus(c))]) == SumCounts(gs).Plus(c)
  {
    var n := |gs| - 1;
    var r := gs[j := MonthTotal(gs[j].month, gs[j].counts.Plus(c))];
    if j == n {
      assert r[..n] == gs[..n];
    } else {
      assert r[..n] == gs[..n][j := MonthTotal(gs[j].month, gs[j].counts.Plus(c))];
      SumCountsUpdate(gs[..n], j, c);
    }
  }

  /** Accumulating loses and invents no day: the entries add up to the rows. */
  lemma {:induction false} AccumulateSum(items: seq<MonthTotal>)
    ensures SumCounts(Accumulate(items)) == SumCounts(items)
  {
    if items != [] {
      var n := |items| - 1;
      AccumulateSum(items[..n]);
      var gs := Accumulate(items[..n]);
      var it := items[n];
      assert SumCounts(items) == SumCounts(items[..n]).Plus(it.counts);
      assert Accumulate(items) == AddMonth(gs, it);
      match MonthIndex(gs, it.month)
      case None =>
        var x := MonthTotal(it.month, NoDays.Plus(it.counts));
        assert x.counts == it.counts;
        assert (gs + [x])[..|gs|] == gs;
        assert SumCounts(gs + [x]) == SumCounts(gs).Plus(x.counts);
      case Some(j) =>
        SumCountsUpdate(gs, j, it.counts);
    }
  }

  /** The month set of a sequence with one more element. */
  lemma MonthsSnoc(gs: seq<MonthTotal>, x: MonthTotal)
    ensures Months(gs + [x]) == Months(gs) + {x.month}
  {
    var r := gs + [x];
    forall m | m in Months(r) ensures m in Months(gs) + {x.month} {
      var i :| 0 <= i < |r| && r[i].month == m;
      if i < |gs| { assert gs[i].month == m; }
    }
    forall m | m in Months(gs) ensures m in Months(r) {
      var i :| 0 <= i < |gs| && gs[i].month == m;
      assert r[i].month == m;
    }
    assert r[|gs|].month == x.month;
  }

  lemma AddMonthKeys(gs: seq<MonthTotal>, it: MonthTotal)
    requires DistinctMonths(gs)
    ensures DistinctMonths(AddMonth(gs, it))
    ensures Months(AddMonth(gs, it)) == Months(gs) + {it.month}
  {
    match MonthIndex(gs, it.month)
    case None =>
      MonthsSnoc(gs, MonthTotal(it.month, NoDays.Plus(it.counts)));
    case Some(j) =>
      var r := AddMonth(gs, it);
      assert forall i :: 0 <= i < |r| ==> r[i].month == gs[i].month;
      assert Months(r) == Months(gs);
  }

  /**
   * The month dictionary has one entry per distinct month label, and each entry holds
   * exactly the summed counts of the rows with that label.
   */
  lemma {:induction false} AccumulateSpec(items: seq<MonthTotal>)
    ensures DistinctMonths(Accumulate(items))
    ensures Months(Accumulate(items)) == Months(items)
    ensures forall j :: 0 <= j < |Accumulate(items)| ==>
      Accumulate(items)[j].counts == CountsFor(items, Accumulate(items)[j].month)
  {
    if items != [] {
      var n := |items| - 1;
      AccumulateSpec(items[..n]);
      var gs := Accumulate(items[..n]);
      var it := items[n];
      AddMonthKeys(gs, it);
      assert items[..n] + [it] == items;
      MonthsSnoc(items[..n], it);
      AddMonthCounts(gs, items[..n], it);
    }
  }

  /** The position of the first row labelled m; the number of rows when none is. */
  function FirstMonth(items: seq<MonthTotal>, m: string): (r: nat)
    ensures r <= |items|
    ensures r < |items| ==> items[r].month == m
    ensures forall i :: 0 <= i < r ==> items[i].month != m
  {
    if items == [] then 0
    else if items[0].month == m then 0
    else
      var r := 1 + FirstMonth(items[1..], m);
      assert forall i :: 1 <= i < r ==> items[i] == items[1..][i - 1];
      r
  }

  /** A position holding m with no m before it is the first position of m. */
  lemma FirstMonthIs(items: seq<MonthTotal>, m: string, g: nat)
    requires g < |items| && items[g].month == m
    requires forall i :: 0 <= i < g ==> items[i].month != m
    ensures FirstMonth(items, m) == g
  {
  }

  /** A month already seen in a prefix first occurs at the same place in the whole. */
  lemma FirstMonthPrefix(items: seq<MonthTotal>, n: nat, m: string)
    requires n <= |items|
    requires m in Months(items[..n])
    ensures FirstMonth(items[..n], m) < n
    ensures FirstMonth(items, m) == FirstMonth(items[..n], m)
  {
    var i :| 0 <= i < n && items[..n][i].month == m;
    var g := FirstMonth(items[..n], m);
    assert g <= i;
    assert items[..n][g] == items[g];
    forall i' | 0 <= i' < g ensures items[i'].month != m {
      assert items[..n][i'] == items[i'];
    }
    FirstMonthIs(items, m, g);
  }

  /** One step keeps the entries in the order their months first occur. */
  lemma AddMonthOrder(gs: seq<MonthTotal>, prefix: seq<MonthTotal>, it: MonthTotal)
    requires DistinctMonths(gs) && Months(gs) == Months(prefix)
    requires forall a, b :: 0 <= a < b < |gs| ==> FirstMonth(prefix, gs[a].month) < FirstMonth(prefix, gs[b].month)
    ensures forall a, b :: 0 <= a < b < |AddMonth(gs, it)| ==>
      FirstMonth(prefix + [it], AddMonth(gs, it)[a].month) < FirstMonth(prefix + [it], AddMonth(gs, it)[b].month)
  {
    var items := prefix + [it];
    var n := |prefix|;
    assert items[..n] == prefix;
    var r := AddMonth(gs, it);
    assert |r| <= |gs| + 1;
    assert forall i :: 0 <= i < |gs| ==> r[i].month == gs[i].month;
    forall a, b | 0 <= a < b < |r| ensures FirstMonth(items, r[a].month) < FirstMonth(items, r[b].month) {
      assert gs[a].month in Months(gs);
      FirstMonthPrefix(items, n, gs[a].month);
      if b < |gs| {
        assert gs[b].month in Months(gs);
        FirstMonthPrefix(items, n, gs[b].month);
      } else {
        assert MonthIndex(gs, it.month).None? && r[b].month == it.month;
        assert it.month !in Months(prefix);
        forall i | 0 <= i < n ensures items[i].month != it.month {
          assert items[i] == prefix[i];
          assert prefix[i].month in Months(prefix);
        }
        FirstMonthIs(items, it.month, n);
      }
    }
  }

  /**
   * The month dictionary lists its months in first-seen order, which is the order
   * Object.entries returns them in: a month listed before another first occurs in an
   * earlier row.
   */
  lemma {:induction false} AccumulateFirstSeen(items: seq<MonthTotal>)
    ensures forall a, b :: 0 <= a < b < |Accumulate(items)| ==>
      FirstMonth(items, Accumulate(items)[a].month) < FirstMonth(items, Accumulate(items)[b].month)
  {
    if items != [] {
      var n := |items| - 1;
      AccumulateFirstSeen(items[..n]);
      AccumulateSpec(items[..n]);
      assert items[..n] + [items[n]] == items;
      AddMonthOrder(Accumulate(items[..n]), items[..n], items[n]);
    }
  }

  lemma {:induction false} CountsForAbsent(items: seq<MonthTotal>, m: string)
    requires m !in Months(items)
    ensures CountsFor(items, m) == NoDays
  {
    if items != [] {
      var n := |items| - 1;
      assert items[..n] + [items[n]] == items;
      MonthsSnoc(items[..n], items[n]);
      CountsForAbsent(items[..n], m);
    }
  }

  lemma AddMonthCounts(gs: seq<MonthTotal>, prefix: seq<MonthTotal>, it: MonthTotal)
    requires DistinctMonths(gs) && Months(gs) == Months(prefix)
    requires forall j :: 0 <= j < |gs| ==> gs[j].counts == CountsFor(prefix, gs[j].month)
    ensures forall j :: 0 <= j < |AddMonth(gs, it)| ==>
      AddMonth(gs, it)[j].counts == CountsFor(prefix + [it], AddMonth(gs, it)[j].month)
  {
    var all := prefix + [it];
    assert all[..|prefix|] == prefix;
    var r := AddMonth(gs, it);
    match MonthIndex(gs, it.month)
    case None =>
      assert it.month !in Months(gs);
      CountsForAbsent(prefix, it.month);
      forall j | 0 <= j < |r| ensures r[j].counts == CountsFor(all, r[j].month) {
        if j < |gs| {
          assert r[j] == gs[j];
          assert gs[j].month in Months(gs);
        }
      }
    case Some(j0) =>
      forall j | 0 <= j < |r| ensures r[j].counts == CountsFor(all, r[j].month) {
        if j != j0 {
          assert r[j] == gs[j];
          assert gs[j].month != gs[j0].month;
        }
      }
  }

  /** `{month, ...data, presentRate}` for each dictionary entry, in dictionary order. */
  function MonthRows(gs: seq<MonthTotal>): (r: seq<MonthRow>)
    ensures |r| == |gs|
    ensures forall j :: 0 <= j < |gs| ==> r[j] == MonthRow(gs[j].month,
      gs[j].counts.daysOfSchool, gs[j].counts.present, gs[j].counts.absent, gs[j].counts.tardy,
      Rate(gs[j].counts.present, gs[j].counts.daysOfSchool))
  {
    seq(|gs|, j requires 0 <= j < |gs| =>
      var c := gs[j].counts;
      MonthRow(gs[j].month, c.daysOfSchool, c.present, c.absent, c.tardy, Rate(c.present, c.daysOfSchool)))
  }

  // ---------------------------------------------------------------------------
  // The student dictionary (integer keys, so enumerated in ascending id order)

  predicate IdsAscending(t: seq<Tally>)
  {
    forall i, j :: 0 <= i < j < |t| ==> t[i].studentId < t[j].studentId
  }

  function TallyIds(t: seq<Tally>): set<nat>
  {
    set i | 0 <= i < |t| :: t[i].studentId
  }

  function TallyIndex(t: seq<Tally>, id: nat): (r: Option<nat>)
    ensures r.Some? ==> r.value < |t| && t[r.value].studentId == id
    ensures r.None? ==> id !in TallyIds(t)
  {
    if t == [] then None
    else if t[0].studentId == id then Some(0)
    else match TallyIndex(t[1..], id)
      case None => None
      case Some(j) => Some(j + 1)
  }

  lemma TallyIdsCons(e: Tally, t: seq<Tally>)
    ensures TallyIds([e] + t) == {e.studentId} + TallyIds(t)
  {
    var r := [e] + t;
    forall k | k in TallyIds(r) ensures k in {e.studentId} + TallyIds(t) {
      var i :| 0 <= i < |r| && r[i].studentId == k;
      if i > 0 { assert t[i - 1].studentId == k; }
    }
    forall k | k in TallyIds(t) ensures k in TallyIds(r) {
      var i :| 0 <= i < |t| && t[i].studentId == k;
      assert r[i + 1].studentId == k;
    }
    assert r[0].studentId == e.studentId;
  }

  /** Places a new key among the integer keys, which an object enumerates in ascending order. */
  function InsertTally(t: seq<Tally>, e: Tally): seq<Tally>
  {
    if t == [] || e.studentId < t[0].studentId then [e] + t else [t[0]] + InsertTally(t[1..], e)
  }

  /** Inserting adds exactly the new entry, and keeps an ascending dictionary ascending. */
  lemma {:induction false} InsertTallySpec(t: seq<Tally>, e: Tally)
    ensures TallyIds(InsertTally(t, e)) == TallyIds(t) + {e.studentId}
    ensures forall x :: x in InsertTally(t, e) <==> x in t || x == e
    ensures IdsAscending(t) && e.studentId !in TallyIds(t) ==> IdsAscending(InsertTally(t, e))
  {
    if t == [] || e.studentId < t[0].studentId {
      TallyIdsCons(e, t);
      if IdsAscending(t) {
        assert forall j :: 0 < j < |[e] + t| ==> ([e] + t)[j] == t[j - 1];
      }
    } else {
      InsertTallySpec(t[1..], e);
      var rest := InsertTally(t[1..], e);
      assert t == [t[0]] + t[1..];
      TallyIdsCons(t[0], t[1..]);
      TallyIdsCons(t[0], rest);
      if IdsAscending(t) && e.studentId !in TallyIds(t) {
        forall x | x in rest ensures t[0].studentId < x.studentId {
          if x != e {
            var i :| 0 <= i < |t[1..]| && t[1..][i] == x;
            assert t[i + 1] == x;
          }
        }
        assert forall j :: 0 < j < |[t[0]] + rest| ==> ([t[0]] + rest)[j] in rest;
      }
    }
  }

  /**
   * `if (!sa[id]) sa[id] = {student, totalAbsent: 0}; sa[id].totalAbsent += daysAbsent || 0`:
   * a new id enters with this row's student and absences, a known id adds the absences.
   */
  function Bump(t: seq<Tally>, a: Attendance): seq<Tally>
  {
    match TallyIndex(t, a.studentId)
    case None => InsertTally(t, Tally(a.studentId, a.student, OrZero(a.daysAbsent)))
    case Some(j) => t[j := t[j].(totalAbsent := t[j].totalAbsent + OrZero(a.daysAbsent))]
  }

  /** The student dictionary after the forEach over all rows. */
  function StudentTally(rows: seq<Attendance>): seq<Tally>
  {
    if rows == [] then [] else Bump(StudentTally(rows[..|rows| - 1]), rows[|rows| - 1])
  }

  /** `.filter(s => s.totalAbsent === 0 && s.student)`, in dictionary order. */
  function Kept(t: seq<Tally>): (r: seq<Tally>)
    ensures forall x :: x in r <==> x in t && x.totalAbsent == 0 && x.student.Some?
  {
    if t == [] then []
    else
      assert forall x :: x in t <==> x == t[0] || x in t[1..];
      (if t[0].totalAbsent == 0 && t[0].student.Some? then [t[0]] else []) + Kept(t[1..])
  }

  lemma {:induction false} KeptAscending(t: seq<Tally>)
    requires IdsAscending(t)
    ensures IdsAscending(Kept(t))
  {
    if t != [] {
      KeptAscending(t[1..]);
      var k := Kept(t[1..]);
      forall x | x in k ensures t[0].studentId < x.studentId {
        var i :| 0 <= i < |t[1..]| && t[1..][i] == x;
        assert t[i + 1] == x;
      }
      if t[0].totalAbsent == 0 && t[0].student.Some? {
        assert forall j :: 0 < j < |[t[0]] + k| ==> ([t[0]] + k)[j] in k;
      }
    }
  }

  /** `.map(s => s.student)` over the kept entries. */
  function Perfect(t: seq<Tally>): (r: seq<StudentRef>)
    ensures |r| == |Kept(t)|
  {
    var k := Kept(t);
    assert forall i :: 0 <= i < |k| ==> k[i] in k;
    seq(|k|, i requires 0 <= i < |k| => k[i].student.value)
  }

  /** The ids of the kept entries, in the same order. */
  function PerfectIds(t: seq<Tally>): (r: seq<nat>)
    ensures |r| == |Kept(t)|
  {
    var k := Kept(t);
    seq(|k|, i requires 0 <= i < |k| => k[i].studentId)
  }

  /** The ids of the students the rows belong to. */
  function RowIds(rows: seq<Attendance>): set<nat>
  {
    set i | 0 <= i < |rows| :: rows[i].studentId
  }

  lemma RowIdsSnoc(rows: seq<Attendance>, a: Attendance)
    ensures RowIds(rows + [a]) == RowIds(rows) + {a.studentId}
  {
    var r := rows + [a];
    forall k | k in RowIds(r) ensures k in RowIds(rows) + {a.studentId} {
      var i :| 0 <= i < |r| && r[i].studentId == k;
      if i < |rows| { assert rows[i].studentId == k; }
    }
    forall k | k in RowIds(rows) ensures k in RowIds(r) {
      var i :| 0 <= i < |rows| && rows[i].studentId == k;
      assert r[i].studentId == k;
    }
    assert r[|rows|].studentId == a.studentId;
  }

  /** The summed absences (`daysAbsent || 0`) of a student's rows. */
  function AbsentFor(rows: seq<Attendance>, id: nat): nat
  {
    if rows == [] then 0
    else
      var n := |rows| - 1;
      AbsentFor(rows[..n], id) + (if rows[n].studentId == id then OrZero(rows[n].daysAbsent) else 0)
  }

  /** The joined student of a student's first row. */
  function FirstStudent(rows: seq<Attendance>, id: nat): Option<StudentRef>
  {
    if rows == [] then None
    else if rows[0].studentId == id then rows[0].student
    else FirstStudent(rows[1..], id)
  }

  lemma {:induction false} FirstStudentSnoc(rows: seq<Attendance>, a: Attendance, id: nat)
    requires id in RowIds(rows)
    ensures FirstStudent(rows + [a], id) == FirstStudent(rows, id)
  {
    var i :| 0 <= i < |rows| && rows[i].studentId == id;
    if rows[0].studentId != id {
      assert (rows + [a])[1..] == rows[1..] + [a];
      assert rows[1..][i - 1].studentId == id;
      FirstStudentSnoc(rows[1..], a, id);
    }
  }

  lemma {:induction false} FirstStudentNew(rows: seq<Attendance>, a: Attendance)
    requires a.studentId !in RowIds(rows)
    ensures FirstStudent(rows + [a], a.studentId) == a.student
  {
    if rows == [] {
      assert rows + [a] == [a];
    } else {
      assert rows[0].studentId in RowIds(rows);
      assert (rows + [a])[1..] == rows[1..] + [a];
      assert RowIds(rows[1..]) <= RowIds(rows) by {
        forall k | k in RowIds(rows[1..]) ensures k in RowIds(rows) {
          var i :| 0 <= i < |rows[1..]| && rows[1..][i].studentId == k;
          assert rows[i + 1].studentId == k;
        }
      }
      FirstStudentNew(rows[1..], a);
    }
  }

  lemma {:induction false} AbsentForAbsent(rows: seq<Attendance>, id: nat)
    requires id !in RowIds(rows)
    ensures AbsentFor(rows, id) == 0
  {
    if rows != [] {
      var n := |rows| - 1;
      assert rows[..n] + [rows[n]] == rows;
      RowIdsSnoc(rows[..n], rows[n]);
      AbsentForAbsent(rows[..n], id);
    }
  }

  /** What every entry of the student dictionary holds after a run of rows. */
  predicate TallyMatches(t: seq<Tally>, rows: seq<Attendance>)
  {
    && IdsAscending(t)
    && TallyIds(t) == RowIds(rows)
    && forall x :: x in t ==>
         x.totalAbsent == AbsentFor(rows, x.studentId) && x.student == FirstStudent(rows, x.studentId)
  }

  lemma BumpMatches(t: seq<Tally>, rows: seq<Attendance>, a: Attendance)
    requires TallyMatches(t, rows)
    ensures TallyMatches(Bump(t, a), rows + [a])
  {
    var all := rows + [a];
    assert all[..|rows|] == rows;
    RowIdsSnoc(rows, a);
    var r := Bump(t, a);
    match TallyIndex(t, a.studentId)
    case None =>
      var e := Tally(a.studentId, a.student, OrZero(a.daysAbsent));
      InsertTallySpec(t, e);
      AbsentForAbsent(rows, a.studentId);
      FirstStudentNew(rows, a);
      forall x | x in r
        ensures x.totalAbsent == AbsentFor(all, x.studentId) && x.student == FirstStudent(all, x.studentId)
      {
        if x != e {
          var i :| 0 <= i < |t| && t[i] == x;
          assert x.studentId in TallyIds(t);
          FirstStudentSnoc(rows, a, x.studentId);
        }
      }
    case Some(j0) =>
      assert forall i :: 0 <= i < |r| ==> r[i].studentId == t[i].studentId;
      assert TallyIds(r) == TallyIds(t);
      forall x | x in r
        ensures x.totalAbsent == AbsentFor(all, x.studentId) && x.student == FirstStudent(all, x.studentId)
      {
        var i :| 0 <= i < |r| && r[i] == x;
        assert t[i].studentId in TallyIds(t);
        FirstStudentSnoc(rows, a, x.studentId);
        if i != j0 {
          assert t[i] in t;
          assert t[i].studentId != t[j0].studentId;
        } else {
          assert t[j0] in t;
        }
      }
  }

  lemma {:induction false} StudentTallyMatches(rows: seq<Attendance>)
    ensures TallyMatches(StudentTally(rows), rows)
  {
    if rows != [] {
      var n := |rows| - 1;
      StudentTallyMatches(rows[..n]);
      BumpMatches(StudentTally(rows[..n]), rows[..n], rows[n]);
      assert rows[..n] + [rows[n]] == rows;
    }
  }

  // ---------------------------------------------------------------------------
  // The report

  /** The report over all attendance rows. */
  function SummaryOf(rows: seq<Attendance>): Summary
  {
    var t := Totals(rows);
    Summary(
      t.daysOfSchool,
      Rate(t.present, t.daysOfSchool),
      Rate(t.absent, t.daysOfSchool),
      Rate(t.tardy, t.daysOfSchool),
      MonthRows(Accumulate(MonthItems(rows))),
      Perfect(StudentTally(rows)))
  }

  /**
   * The first forEach: the four running totals (`field || 0` added up) and the month
   * dictionary.
   */
  method TallyMonths(rows: seq<Attendance>)
    returns (totalDays: nat, totalPresent: nat, totalAbsent: nat, totalTardy: nat, monthlyGroup: seq<MonthTotal>)
    ensures Counts(totalDays, totalPresent, totalAbsent, totalTardy) == Totals(rows)
    ensures monthlyGroup == Accumulate(MonthItems(rows))
  {
    totalDays, totalPresent, totalAbsent, totalTardy := 0, 0, 0, 0;
    monthlyGroup := [];
    ghost var items := MonthItems(rows);
    for i := 0 to |rows|
      invariant Counts(totalDays, totalPresent, totalAbsent, totalTardy) == Totals(rows[..i])
      invariant monthlyGroup == Accumulate(items[..i])
    {
      var a := rows[i];
      var month := Label(a.month);
      assert items[..i + 1][..i] == items[..i];
      assert Accumulate(items[..i + 1]) == AddMonth(monthlyGroup, MonthTotal(month, RowCounts(a)));
      assert rows[..i + 1][..i] == rows[..i];
      assert Totals(rows[..i + 1]) == Totals(rows[..i]).Plus(RowCounts(a));
      totalDays := totalDays + OrZero(a.daysOfSchool);
      totalPresent := totalPresent + OrZero(a.daysPresent);
      totalAbsent := totalAbsent + OrZero(a.daysAbsent);
      totalTardy := totalTardy + OrZero(a.timesTardy);
      match MonthIndex(monthlyGroup, month) {
        case None =>
          monthlyGroup := monthlyGroup + [MonthTotal(month, NoDays.Plus(RowCounts(a)))];
        case Some(j) =>
          monthlyGroup := monthlyGroup[j := MonthTotal(month, monthlyGroup[j].counts.Plus(RowCounts(a)))];
      }
    }
    assert rows[..|rows|] == rows;
    assert items[..|rows|] == items;
  }

  /** The second forEach: the student dictionary, keyed by integer student id. */
  method TallyStudents(rows: seq<Attendance>) returns (studentAttendance: seq<Tally>)
    ensures studentAttendance == StudentTally(rows)
  {
    studentAttendance := [];
    for i := 0 to |rows|
      invariant studentAttendance == StudentTally(rows[..i])
    {
      var a := rows[i];
      assert rows[..i + 1][..i] == rows[..i];
      match TallyIndex(studentAttendance, a.studentId) {
        case None =>
          studentAttendance := InsertTally(studentAttendance, Tally(a.studentId, a.student, OrZero(a.daysAbsent)));
        case Some(j) =>
          var entry := studentAttendance[j];
          studentAttendance := studentAttendance[j := entry.(totalAbsent := entry.totalAbsent + OrZero(a.daysAbsent))];
      }
    }
    assert rows[..|rows|] == rows;
  }

  /** The report: the two passes, then the rates and the perfect-attendance filter. */
  method ComputeSummary(rows: seq<Attendance>) returns (r: Summary)
    ensures r == SummaryOf(rows)
  {
    var totalDays, totalPresent, totalAbsent, totalTardy, monthlyGroup := TallyMonths(rows);
    var monthlyBreakdown := MonthRows(monthlyGroup);
    var studentAttendance := TallyStudents(rows);
    r := Summary(
      totalDays,
      Rate(totalPresent, totalDays),
      Rate(totalAbsent, totalDays),
      Rate(totalTardy, totalDays),
      monthlyBreakdown,
      Perfect(studentAttendance));
  }

  /** The item counts of a run of rows add up to the rows' totals. */
  lemma {:induction false} MonthItemsSum(rows: seq<Attendance>)
    ensures SumCounts(MonthItems(rows)) == Totals(rows)
  {
    if rows != [] {
      var n := |rows| - 1;
      assert MonthItems(rows)[..n] == MonthItems(rows[..n]);
      MonthItemsSum(rows[..n]);
    }
  }

  /** The fields of a breakdown, each summed over its months. */
  function BreakdownTotals(ms: seq<MonthRow>): Counts
  {
    if ms == [] then NoDays
    else
      var m := ms[|ms| - 1];
      BreakdownTotals(ms[..|ms| - 1]).Plus(Counts(m.daysOfSchool, m.present, m.absent, m.tardy))
  }

  lemma {:induction false} BreakdownTotalsOfRows(gs: seq<MonthTotal>)
    ensures BreakdownTotals(MonthRows(gs)) == SumCounts(gs)
  {
    if gs != [] {
      var n := |gs| - 1;
      assert MonthRows(gs)[..n] == MonthRows(gs[..n]);
      BreakdownTotalsOfRows(gs[..n]);
    }
  }

  /**
   * The school-wide totals equal the monthly breakdown summed field by field, and every
   * rate is 0 when no school days are recorded.
   */
  lemma TotalsMatchBreakdown(rows: seq<Attendance>)
    ensures var r := SummaryOf(rows);
      var b := BreakdownTotals(r.monthlyBreakdown);
      && r.totalDays == b.daysOfSchool == Totals(rows).daysOfSchool
      && Totals(rows).present == b.present
      && Totals(rows).absent == b.absent
      && Totals(rows).tardy == b.tardy
      && (r.totalDays == 0 ==> r.presentRate == 0 && r.absentRate == 0 && r.tardyRate == 0)
  {
    MonthItemsSum(rows);
    AccumulateSum(MonthItems(rows));
    BreakdownTotalsOfRows(Accumulate(MonthItems(rows)));
  }

  /** The months of a run of rows, each `month || 'Unknown'`. */
  function RowMonths(rows: seq<Attendance>): set<string>
  {
    set a | a in rows :: Label(a.month)
  }

  /**
   * The breakdown lists every month label once, in the order the months first occur,
   * and each month's figures are the summed counts of that month's rows, with a present rate that is 0 when the month
   * has no school days.
   */
  lemma MonthlyBreakdownSpec(rows: seq<Attendance>)
    ensures var ms := SummaryOf(rows).monthlyBreakdown;
      && (set m | m in ms :: m.month) == RowMonths(rows)
      && (forall i, j :: 0 <= i < j < |ms| ==> ms[i].month != ms[j].month)
      && (forall a, b :: 0 <= a < b < |ms| ==>
            FirstMonth(MonthItems(rows), ms[a].month) < FirstMonth(MonthItems(rows), ms[b].month))
      && forall j :: 0 <= j < |ms| ==>
        var c := CountsFor(MonthItems(rows), ms[j].month);
        && ms[j].daysOfSchool == c.daysOfSchool
        && ms[j].present == c.present
        && ms[j].absent == c.absent
        && ms[j].tardy == c.tardy
        && ms[j].presentRate == Rate(c.present, c.daysOfSchool)
        && (c.daysOfSchool == 0 ==> ms[j].presentRate == 0)
  {
    var items := MonthItems(rows);
    var gs := Accumulate(items);
    AccumulateSpec(items);
    var ms := MonthRows(gs);
    AccumulateFirstSeen(items);
    assert (set m | m in ms :: m.month) == Months(gs) by {
      forall x | x in Months(gs) ensures x in (set m | m in ms :: m.month) {
        var j :| 0 <= j < |gs| && gs[j].month == x;
        assert ms[j] in ms;
      }
    }
    assert Months(items) == RowMonths(rows) by {
      forall x | x in RowMonths(rows) ensures x in Months(items) {
        var a :| a in rows && Label(a.month) == x;
        var i :| 0 <= i < |rows| && rows[i] == a;
        assert items[i].month == x;
      }
    }
  }

  /**
   * A student is listed for perfect attendance exactly when they have at least one
   * attendance row, their rows' absences sum to 0 and their first row's joined student
   * exists; the list is in ascending student id order, one entry per student.
   */
  lemma PerfectAttendanceSpec(rows: seq<Attendance>)
    ensures var ids := PerfectIds(StudentTally(rows));
      var listed := SummaryOf(rows).perfectAttendanceStudents;
      && |listed| == |ids|
      && (forall i, j :: 0 <= i < j < |ids| ==> ids[i] < ids[j])
      && (forall i :: 0 <= i < |ids| ==> FirstStudent(rows, ids[i]) == Some(listed[i]))
      && forall id: nat :: id in ids <==>
           id in RowIds(rows) && AbsentFor(rows, id) == 0 && FirstStudent(rows, id).Some?
  {
    var t := StudentTally(rows);
    StudentTallyMatches(rows);
    PerfectListed(t, rows);
    PerfectIdsExact(t, rows);
  }

  /** The listed students come with their ids, ascending, each the first row's joined student. */
  lemma PerfectListed(t: seq<Tally>, rows: seq<Attendance>)
    requires TallyMatches(t, rows)
    ensures var ids := PerfectIds(t);
      var listed := Perfect(t);
      && (forall i, j :: 0 <= i < j < |ids| ==> ids[i] < ids[j])
      && (forall i :: 0 <= i < |ids| ==> FirstStudent(rows, ids[i]) == Some(listed[i]))
  {
    KeptAscending(t);
    var k := Kept(t);
    var ids := PerfectIds(t);
    var listed := Perfect(t);
    forall i | 0 <= i < |ids| ensures FirstStudent(rows, ids[i]) == Some(listed[i]) {
      assert k[i] in k;
      assert k[i] in t;
    }
  }

  /** The listed ids are exactly the students with a row, no absence and a joined student. */
  lemma PerfectIdsExact(t: seq<Tally>, rows: seq<Attendance>)
    requires TallyMatches(t, rows)
    ensures var ids := PerfectIds(t);
      forall id: nat :: id in ids <==>
        id in RowIds(rows) && AbsentFor(rows, id) == 0 && FirstStudent(rows, id).Some?
  {
    var k := Kept(t);
    var ids := PerfectIds(t);
    forall id: nat | id in RowIds(rows) && AbsentFor(rows, id) == 0 && FirstStudent(rows, id).Some?
      ensures id in ids
    {
      assert id in TallyIds(t);
      var j :| 0 <= j < |t| && t[j].studentId == id;
      assert t[j] in t;
      assert t[j] in k;
      var i :| 0 <= i < |k| && k[i] == t[j];
      assert ids[i] == id;
    }
    forall id: nat | id in ids
      ensures id in RowIds(rows) && AbsentFor(rows, id) == 0 && FirstStudent(rows, id).Some?
    {
      var i :| 0 <= i < |ids| && ids[i] == id;
      assert k[i] in k;
      var j :| 0 <= j < |t| && t[j] == k[i];
      assert id in TallyIds(t);
    }
  }
}
