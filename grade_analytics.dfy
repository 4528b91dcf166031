/**
 * The grade analytics report: grade rows are grouped by subject name into a
 * first-seen dictionary of non-null ratings, each subject is reduced to its rounded
 * average, highest, lowest and pass rate, and the overall figures are taken over the
 * union of all lists.
 */
module GradeAnalytics {
  import opened Rows
  import opened Rounding
  import opened Grouping

  datatype SubjectStats = SubjectStats(name: string, average: int, highest: int, lowest: int, passRate: int)

  datatype Analytics = Analytics(
    subjects: seq<SubjectStats>,
    overallAverage: int,
    passingRate: int,
    failureRate: int,
    totalGradesRecorded: nat)

  /** Each grade row as a dictionary key (`subjectName || 'Unknown'`) and its nullable rating. */
  function SubjectItems(grades: seq<Grade>): (r: seq<Item>)
    ensures |r| == |grades|
    ensures forall i :: 0 <= i < |grades| ==>
      r[i] == Item(Label(grades[i].subjectName), grades[i].finalRating)
  {
    seq(|grades|, i requires 0 <= i < |grades| => Item(Label(grades[i].subjectName), grades[i].finalRating))
  }

  /** The non-null ratings of the rows filed under subject name k, in row order. */
  function SubjectRatings(grades: seq<Grade>, k: string): seq<Rating>
  {
    Select(SubjectItems(grades), k)
  }

  /** One subject's entry; a subject whose ratings are all null reports zeros. */
  function StatsOf(g: Group): (r: SubjectStats)
    ensures r.name == g.key
    ensures g.values == [] ==> r == SubjectStats(g.key, 0, 0, 0, 0)
    ensures g.values != [] ==> r.lowest <= r.average <= r.highest && 0 <= r.passRate <= 100
  {
    if g.values == [] then SubjectStats(g.key, 0, 0, 0, 0)
    else
      SubjectStats(
        g.key,
        MeanPoints(g.values),
        RoundDiv(Max(g.values), 100),
        RoundDiv(Min(g.values), 100),
        Rate(PassCount(g.values), |g.values|))
  }

  function MapStats(gs: seq<Group>): (r: seq<SubjectStats>)
    ensures |r| == |gs|
    ensures forall j :: 0 <= j < |gs| ==> r[j] == StatsOf(gs[j])
  {
    seq(|gs|, j requires 0 <= j < |gs| => StatsOf(gs[j]))
  }

  /** Everything the report computes once the dictionary is built. */
  function ReportOf(subjectMap: seq<Group>): Analytics
  {
    var all := Flatten(subjectMap);
    var passing := Rate(PassCount(all), |all|);
    Analytics(
      MapStats(subjectMap),
      if |all| > 0 then RoundDiv(Sum(all), |all| * 100) else 0,
      passing,
      100 - passing,
      |all|)
  }

  /** The report over a run of grade rows. */
  function Report(grades: seq<Grade>): Analytics
  {
    ReportOf(GroupBy(SubjectItems(grades)))
  }

  /**
   * The forEach callback: files the row under `subjectName || 'Unknown'`, creating an
   * empty list for a new name, and pushes a non-null rating.
   */
  method AddGrade(subjectMap: seq<Group>, g: Grade) returns (r: seq<Group>)
    ensures r == Push(subjectMap, Item(Label(g.subjectName), g.finalRating))
  {
    var name := Label(g.subjectName);
    var rating := g.finalRating;
    r := subjectMap;
    match IndexOf(r, name) {
      case None =>
        r := r + [Group(name, [])];
        if rating.Some? {
          var j := |r| - 1;
          assert r[j].values + [rating.value] == [rating.value];
          r := r[j := Group(name, r[j].values + [rating.value])];
          assert r == subjectMap + [Group(name, [rating.value])];
        }
        assert r == subjectMap + [Group(name, Pushed(rating))];
      case Some(j) =>
        if rating.Some? {
          r := r[j := Group(name, r[j].values + [rating.value])];
        } else {
          assert subjectMap[j].values + Pushed(rating) == subjectMap[j].values;
          assert subjectMap[j] == Group(name, subjectMap[j].values);
        }
        assert r == subjectMap[j := Group(name, subjectMap[j].values + Pushed(rating))];
    }
  }

  /** Builds the dictionary with a forEach over the rows, then reduces it. */
  method ComputeAnalytics(grades: seq<Grade>) returns (r: Analytics)
    ensures r == Report(grades)
  {
    var subjectMap: seq<Group> := [];
    ghost var items := SubjectItems(grades);
    for i := 0 to |grades|
      invariant subjectMap == GroupBy(items[..i])
    {
      assert items[..i + 1][..i] == items[..i];
      assert items[..i + 1][i] == Item(Label(grades[i].subjectName), grades[i].finalRating);
      subjectMap := AddGrade(subjectMap, grades[i]);
    }
    assert items[..|grades|] == items;
    r := ReportOf(subjectMap);
  }

  /** Every row's subject (or "Unknown") has exactly one entry. */
  lemma SubjectNames(grades: seq<Grade>)
    ensures var subjects := Report(grades).subjects;
      && (set s | s in subjects :: s.name) == (set g | g in grades :: Label(g.subjectName))
      && (forall a, b :: 0 <= a < b < |subjects| ==> subjects[a].name != subjects[b].name)
  {
    var items := SubjectItems(grades);
    var gs := GroupBy(items);
    GroupByKeys(items);
    var subjects := Report(grades).subjects;
    assert forall j :: 0 <= j < |gs| ==> subjects[j].name == gs[j].key;
    assert (set s | s in subjects :: s.name) == GroupKeys(gs) by {
      forall k | k in GroupKeys(gs) ensures k in (set s | s in subjects :: s.name) {
        var g :| g in gs && g.key == k;
        var j :| 0 <= j < |gs| && gs[j] == g;
        assert subjects[j] in subjects;
      }
      forall k | k in (set s | s in subjects :: s.name) ensures k in GroupKeys(gs) {
        var s :| s in subjects && s.name == k;
        var j :| 0 <= j < |subjects| && subjects[j] == s;
        assert gs[j] in gs;
      }
    }
    assert ItemKeys(items) == (set g | g in grades :: Label(g.subjectName)) by {
      forall k | k in (set g | g in grades :: Label(g.subjectName)) ensures k in ItemKeys(items) {
        var g :| g in grades && Label(g.subjectName) == k;
        var i :| 0 <= i < |grades| && grades[i] == g;
        assert items[i].key == k;
      }
      forall k | k in ItemKeys(items) ensures k in (set g | g in grades :: Label(g.subjectName)) {
        var i :| 0 <= i < |items| && items[i].key == k;
        assert grades[i] in grades;
      }
    }
  }

  /**
   * Each entry's figures are those of the non-null ratings filed under its name: zeros
   * when there are none, otherwise lowest <= average <= highest and a pass rate in
   * [0, 100].
   */
  lemma SubjectFigures(grades: seq<Grade>)
    ensures var subjects := Report(grades).subjects;
      forall j :: 0 <= j < |subjects| ==>
        var vs := SubjectRatings(grades, subjects[j].name);
        && (vs == [] ==> subjects[j] == SubjectStats(subjects[j].name, 0, 0, 0, 0))
        && (vs != [] ==>
             && subjects[j].average == RoundDiv(Sum(vs), |vs| * 100)
             && subjects[j].highest == RoundDiv(Max(vs), 100)
             && subjects[j].lowest == RoundDiv(Min(vs), 100)
             && subjects[j].passRate == Rate(PassCount(vs), |vs|)
             && subjects[j].lowest <= subjects[j].average <= subjects[j].highest
             && 0 <= subjects[j].passRate <= 100)
  {
    GroupByValues(SubjectItems(grades));
  }

  /** Subjects are listed in the order their first row appears. */
  lemma SubjectsFirstSeen(grades: seq<Grade>)
    ensures var subjects := Report(grades).subjects;
      && (forall j :: 0 <= j < |subjects| ==> subjects[j].name in ItemKeys(SubjectItems(grades)))
      && forall a, b :: 0 <= a < b < |subjects| ==>
        FirstIndex(SubjectItems(grades), subjects[a].name) < FirstIndex(SubjectItems(grades), subjects[b].name)
  {
    var items := SubjectItems(grades);
    GroupByFirstSeenOrder(items);
    var gs := GroupBy(items);
    assert forall j :: 0 <= j < |gs| ==> gs[j] in gs;
  }

  /**
   * The overall figures are weighted over all non-null ratings, whatever their
   * subjects: the rounded mean and pass rate of the whole rating column, a failure
   * rate that complements the passing rate to 100, and the count of non-null ratings.
   */
  lemma OverallFigures(grades: seq<Grade>)
    ensures var r := Report(grades);
      var all := NonNull(RatingsOf(grades));
      && r.totalGradesRecorded == |all|
      && r.overallAverage == (if all == [] then 0 else RoundDiv(Sum(all), |all| * 100))
      && r.passingRate == Rate(PassCount(all), |all|)
      && 0 <= r.passingRate <= 100
      && r.passingRate + r.failureRate == 100
  {
    var items := SubjectItems(grades);
    GroupByFlatten(items);
    assert Values(items) == RatingsOf(grades);
    var flat := Flatten(GroupBy(items));
    var all := NonNull(RatingsOf(grades));
    assert |flat| == |multiset(flat)| == |multiset(all)| == |all|;
    SumPermutation(flat, all);
    PassCountPermutation(flat, all);
  }
}
