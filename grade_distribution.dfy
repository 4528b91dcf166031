/**
 * The grade distribution chart: every non-null finalRating is counted into one of five
 * fixed, labelled buckets, and the buckets are returned in their declaration order.
 */
module GradeDistribution {
  import opened Rows

  /** The dictionary keys, in the order the object literal declares them. */
  const Labels: seq<string> := [
    "Outstanding (90-100)",
    "Very Satisfactory (85-89)",
    "Satisfactory (80-84)",
    "Fairly Satisfactory (75-79)",
    "Did Not Meet (Below 75)"
  ]

  /** One `{grade, count}` entry of the result. */
  datatype Bin = Bin(grade: string, count: nat)

  /**
   * The position of the bucket a rating (in hundredths) falls into: the first of the
   * thresholds 90, 85, 80 and 75 it reaches, else the last. Nothing caps the top bucket.
   */
  function Bucket(r: int): (b: nat)
    ensures b < |Labels|
    ensures b == 0 <==> 9000 <= r
    ensures b == 1 <==> 8500 <= r < 9000
    ensures b == 2 <==> 8000 <= r < 8500
    ensures b == 3 <==> 7500 <= r < 8000
    ensures b == 4 <==> r < 7500
  {
    if r >= 9000 then 0
    else if r >= 8500 then 1
    else if r >= 8000 then 2
    else if r >= 7500 then 3
    else 4
  }

  /** How many of the ratings fall into bucket b. */
  function CountIn(s: seq<Rating>, b: nat): (r: nat)
    ensures r <= |s|
  {
    if s == [] then 0
    else CountIn(s[..|s| - 1], b) + (if Bucket(s[|s| - 1]) == b then 1 else 0)
  }

  /** The counts of all buckets added up. */
  function Total(bins: seq<Bin>): nat
  {
    if bins == [] then 0 else bins[0].count + Total(bins[1..])
  }

  /**
   * The forEach over the non-null ratings the query returns, incrementing one counter
   * each, then Object.entries over the five keys.
   */
  method Distribution(column: seq<Option<Rating>>) returns (result: seq<Bin>)
    ensures |result| == |Labels|
    ensures forall b :: 0 <= b < |Labels| ==> result[b] == Bin(Labels[b], CountIn(NonNull(column), b))
    ensures Total(result) == |NonNull(column)|
  {
    var grades := NonNull(column);
    var distribution := [Bin(Labels[0], 0), Bin(Labels[1], 0), Bin(Labels[2], 0), Bin(Labels[3], 0), Bin(Labels[4], 0)];
    for i := 0 to |grades|
      invariant |distribution| == |Labels|
      invariant forall b :: 0 <= b < |Labels| ==> distribution[b] == Bin(Labels[b], CountIn(grades[..i], b))
    {
      var b := Bucket(grades[i]);
      distribution := distribution[b := distribution[b].(count := distribution[b].count + 1)];
      assert grades[..i + 1][..i] == grades[..i];
    }
    assert grades[..|grades|] == grades;
    result := distribution;
    DistributionTotal(grades);
    TotalOfFive(result);
  }

  lemma TotalOfFive(bins: seq<Bin>)
    requires |bins| == 5
    ensures Total(bins) == bins[0].count + bins[1].count + bins[2].count + bins[3].count + bins[4].count
  {
    assert bins[1..][1..] == bins[2..] && bins[2..][1..] == bins[3..] && bins[3..][1..] == bins[4..];
    assert bins[4..][1..] == [];
    assert Total(bins[4..]) == bins[4].count;
    assert Total(bins[3..]) == bins[3].count + bins[4].count;
    assert Total(bins[2..]) == bins[2].count + bins[3].count + bins[4].count;
  }

  /** Every rating increments exactly one bucket, so the five counts add up to the number of ratings. */
  lemma {:induction false} DistributionTotal(s: seq<Rating>)
    ensures CountIn(s, 0) + CountIn(s, 1) + CountIn(s, 2) + CountIn(s, 3) + CountIn(s, 4) == |s|
  {
    if s != [] {
      DistributionTotal(s[..|s| - 1]);
    }
  }

  /** A rating counts in no bucket but its own. */
  lemma {:induction false} OtherBucketsUnchanged(s: seq<Rating>, r: Rating, b: nat)
    requires b != Bucket(r)
    ensures CountIn(s + [r], b) == CountIn(s, b)
    ensures CountIn(s + [r], Bucket(r)) == CountIn(s, Bucket(r)) + 1
  {
    assert (s + [r])[..|s|] == s;
  }

  /** No rating counts in a position past the fifth bucket. */
  lemma {:induction false} NoSixthBucket(s: seq<Rating>, b: nat)
    requires b >= |Labels|
    ensures CountIn(s, b) == 0
  {
    if s != [] {
      NoSixthBucket(s[..|s| - 1], b);
    }
  }

  /** A null rating, which the query's `finalRating != null` filter drops, changes no count. */
  lemma NullRatingSkipped(column: seq<Option<Rating>>, b: nat)
    ensures CountIn(NonNull(column + [None]), b) == CountIn(NonNull(column), b)
  {
    var xs := column + [None];
    assert xs[..|xs| - 1] == column && xs[|xs| - 1] == None;
    assert NonNull(xs) == NonNull(column);
  }
}
