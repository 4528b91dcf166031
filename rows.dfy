/**
 * The rows the reports read, as the persistence layer hands them over, and the
 * small sequence reductions (sums, counts, non-null selection) they are reduced with.
 */
module Rows {
  import opened Rounding

  datatype Option<T> = None | Some(value: T)

  /** A finalRating: DECIMAL(5,2), held exactly as a whole number of hundredths of a point. */
  type Rating = r: int | -99999 <= r <= 99999

  /** The passing mark, 75 points, in hundredths. */
  const PassMark: int := 7500

  /** One Grade row. finalRating is nullable; subjectName is NOT NULL but may be empty. */
  datatype Grade = Grade(studentId: nat, subjectName: string, finalRating: Option<Rating>)

  /** The columns of the joined Student row that the reports return. */
  datatype StudentRef = StudentRef(id: nat, firstName: string, lastName: string)

  /**
   * One Attendance row. The four day counts are nullable INTEGER columns defaulting to 0;
   * student is the eager-loaded Student, absent when the join found none.
   */
  datatype Attendance = Attendance(
    studentId: nat,
    month: string,
    daysOfSchool: Option<nat>,
    daysPresent: Option<nat>,
    daysAbsent: Option<nat>,
    timesTardy: Option<nat>,
    student: Option<StudentRef>)

  /** The four day counts of one or more attendance rows. */
  datatype Counts = Counts(daysOfSchool: nat, present: nat, absent: nat, tardy: nat)
  {
    function Plus(o: Counts): Counts
    {
      Counts(daysOfSchool + o.daysOfSchool, present + o.present, absent + o.absent, tardy + o.tardy)
    }
  }

  const NoDays: Counts := Counts(0, 0, 0, 0)

  /** One row's counts, each `field || 0`. */
  function RowCounts(a: Attendance): Counts
  {
    Counts(OrZero(a.daysOfSchool), OrZero(a.daysPresent), OrZero(a.daysAbsent), OrZero(a.timesTardy))
  }

  /** The counts of all rows added up, field by field. */
  function Totals(rows: seq<Attendance>): Counts
  {
    if rows == [] then NoDays else Totals(rows[..|rows| - 1]).Plus(RowCounts(rows[|rows| - 1]))
  }

  /** Rows that never report more days present than school days total no more present than school days. */
  lemma {:induction false} TotalsPresentBounded(rows: seq<Attendance>)
    requires forall a :: a in rows ==> OrZero(a.daysPresent) <= OrZero(a.daysOfSchool)
    ensures Totals(rows).present <= Totals(rows).daysOfSchool
  {
    if rows != [] {
      var n := |rows| - 1;
      assert forall a :: a in rows[..n] ==> a in rows;
      TotalsPresentBounded(rows[..n]);
      assert rows[n] in rows;
    }
  }

  /** `x || 0` on a nullable count: NULL (and 0) read as 0. */
  function OrZero(x: Option<nat>): (r: nat)
    ensures x.Some? ==> r == x.value
    ensures x.None? ==> r == 0
  {
    match x
    case None => 0
    case Some(v) => v
  }

  /** `s || 'Unknown'`: the empty string is falsy in JavaScript and is replaced. */
  function Label(s: string): (r: string)
    ensures r != ""
    ensures s != "" ==> r == s
  {
    if s == "" then "Unknown" else s
  }

  /** The non-null values of a nullable column, in row order. */
  function NonNull(xs: seq<Option<Rating>>): (r: seq<Rating>)
    ensures |r| <= |xs|
    ensures forall v :: v in r <==> Some(v) in xs
  {
    if xs == [] then []
    else
      var n := |xs| - 1;
      assert forall x :: x in xs <==> x in xs[..n] || x == xs[n];
      NonNull(xs[..n]) + (match xs[n] case None => [] case Some(v) => [v])
  }

  /** The finalRating column of a run of grade rows. */
  function RatingsOf(grades: seq<Grade>): (r: seq<Option<Rating>>)
    ensures |r| == |grades|
    ensures forall i :: 0 <= i < |grades| ==> r[i] == grades[i].finalRating
  {
    seq(|grades|, i requires 0 <= i < |grades| => grades[i].finalRating)
  }

  function Sum(s: seq<int>): int
  {
    if s == [] then 0 else s[0] + Sum(s[1..])
  }

  /** The number of values at or above the passing mark: `filter(g => g >= 75).length`. */
  function PassCount(s: seq<int>): (r: nat)
    ensures r <= |s|
  {
    if s == [] then 0 else (if s[0] >= PassMark then 1 else 0) + PassCount(s[1..])
  }

  lemma {:induction false} SumAppend(a: seq<int>, b: seq<int>)
    ensures Sum(a + b) == Sum(a) + Sum(b)
  {
    if a == [] {
      assert a + b == b;
    } else {
      assert (a + b)[1..] == a[1..] + b;
      SumAppend(a[1..], b);
    }
  }

  lemma {:induction false} PassCountAppend(a: seq<int>, b: seq<int>)
    ensures PassCount(a + b) == PassCount(a) + PassCount(b)
  {
    if a == [] {
      assert a + b == b;
    } else {
      assert (a + b)[1..] == a[1..] + b;
      PassCountAppend(a[1..], b);
    }
  }

  /** Removing the element at j from a sequence removes one occurrence from its multiset. */
  lemma MultisetRemove(b: seq<int>, j: nat)
    requires j < |b|
    ensures multiset(b[..j] + b[j + 1..]) == multiset(b) - multiset{b[j]}
  {
    assert b == b[..j] + [b[j]] + b[j + 1..];
    assert multiset(b) == multiset(b[..j]) + multiset{b[j]} + multiset(b[j + 1..]);
  }

  lemma {:induction false} SumRemove(b: seq<int>, j: nat)
    requires j < |b|
    ensures Sum(b) == b[j] + Sum(b[..j] + b[j + 1..])
  {
    var rest := b[..j] + b[j + 1..];
    if j == 0 {
      assert rest == b[1..];
    } else {
      var t := b[1..];
      SumRemove(t, j - 1);
      assert t[j - 1] == b[j];
      assert rest == [b[0]] + (t[..j - 1] + t[j..]);
      assert rest[0] == b[0] && rest[1..] == t[..j - 1] + t[j..];
    }
  }

  lemma {:induction false} PassCountRemove(b: seq<int>, j: nat)
    requires j < |b|
    ensures PassCount(b) == PassCount([b[j]]) + PassCount(b[..j] + b[j + 1..])
  {
    var rest := b[..j] + b[j + 1..];
    if j == 0 {
      assert rest == b[1..];
    } else {
      var t := b[1..];
      PassCountRemove(t, j - 1);
      assert t[j - 1] == b[j];
      assert rest == [b[0]] + (t[..j - 1] + t[j..]);
      assert rest[0] == b[0] && rest[1..] == t[..j - 1] + t[j..];
    }
  }

  /** A sum does not depend on the order of its terms. */
  lemma {:induction false} SumPermutation(a: seq<int>, b: seq<int>)
    requires multiset(a) == multiset(b)
    ensures Sum(a) == Sum(b)
  {
    if a != [] {
      assert a[0] in multiset(b);
      var j :| 0 <= j < |b| && b[j] == a[0];
      MultisetRemove(b, j);
      assert a == [a[0]] + a[1..];
      assert multiset(a[1..]) == multiset(a) - multiset{a[0]};
      SumPermutation(a[1..], b[..j] + b[j + 1..]);
      SumRemove(b, j);
    }
  }

  /** A count of passing values does not depend on their order. */
  lemma {:induction false} PassCountPermutation(a: seq<int>, b: seq<int>)
    requires multiset(a) == multiset(b)
    ensures PassCount(a) == PassCount(b)
  {
    if a != [] {
      assert a[0] in multiset(b);
      var j :| 0 <= j < |b| && b[j] == a[0];
      MultisetRemove(b, j);
      assert a == [a[0]] + a[1..];
      assert multiset(a[1..]) == multiset(a) - multiset{a[0]};
      PassCountPermutation(a[1..], b[..j] + b[j + 1..]);
      PassCountRemove(b, j);
    }
  }

  /** The smallest and largest values: Math.min(...s) and Math.max(...s) on a non-empty list. */
  function Min(s: seq<int>): (m: int)
    requires s != []
    ensures m in s && forall x :: x in s ==> m <= x
  {
    if |s| == 1 then s[0]
    else
      assert forall x :: x in s ==> x == s[0] || x in s[1..];
      var m := Min(s[1..]); if s[0] <= m then s[0] else m
  }

  function Max(s: seq<int>): (m: int)
    requires s != []
    ensures m in s && forall x :: x in s ==> x <= m
  {
    if |s| == 1 then s[0]
    else
      assert forall x :: x in s ==> x == s[0] || x in s[1..];
      var m := Max(s[1..]); if s[0] >= m then s[0] else m
  }

  /** Math.round(sum / length) of a non-empty list of ratings, in whole points. */
  function MeanPoints(s: seq<Rating>): (r: int)
    requires s != []
    ensures RoundDiv(Min(s), 100) <= r <= RoundDiv(Max(s), 100)
  {
    SumBetween(s, Min(s), Max(s));
    RoundDivBetween(Sum(s), |s|, 100, Min(s), Max(s));
    RoundDiv(Sum(s), |s| * 100)
  }

  /** Every value lies between the minimum and the maximum, so the sum lies between n*min and n*max. */
  lemma {:induction false} SumBetween(s: seq<int>, lo: int, hi: int)
    requires forall x :: x in s ==> lo <= x <= hi
    ensures |s| * lo <= Sum(s) <= |s| * hi
  {
    if s != [] {
      assert forall x :: x in s[1..] ==> x in s;
      SumBetween(s[1..], lo, hi);
      assert |s| * lo == (|s| - 1) * lo + lo;
      assert |s| * hi == (|s| - 1) * hi + hi;
      assert s[0] in s;
    }
  }
}
