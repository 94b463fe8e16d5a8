/** The average rating of a movie, recomputed from all of its reviews after
    every new review: the mean of the ratings, rounded half up to one
    decimal, kept as a whole number of tenths. */
module Ratings {
  import opened Records
  import opened Seqs

  const MinRating := 1
  const MaxRating := 5

  /** The reviews of one movie: `find({ movieId })`. */
  function OfMovie(movieId: Common.Id): Review -> bool {
    (r: Review) => r.movieId == movieId
  }

  function MovieReviews(reviews: seq<Review>, movieId: Common.Id): seq<Review> {
    Filter(reviews, OfMovie(movieId))
  }

  /** The `reduce((sum, r) => sum + r.rating, 0)` of the reviews. */
  function RatingSum(reviews: seq<Review>): int {
    if |reviews| == 0 then 0 else reviews[0].rating + RatingSum(reviews[1..])
  }

  /** `Math.round(sum / n * 10)`: ten times the mean, rounded half up; 0 (the
      schema default) when there is nothing to average. */
  function RoundedMeanTenths(sum: int, n: nat): (r: int)
    ensures n == 0 ==> r == 0
    ensures n > 0 ==> 2 * n * r <= 20 * sum + n < 2 * n * r + 2 * n
  {
    if n == 0 then 0 else (20 * sum + n) / (2 * n)
  }

  /** The value the recomputation stores for a movie. */
  function MovieAverage(reviews: seq<Review>, movieId: Common.Id): int {
    var rs := MovieReviews(reviews, movieId);
    RoundedMeanTenths(RatingSum(rs), |rs|)
  }

  lemma {:induction false} RatingSumAppend(a: seq<Review>, b: seq<Review>)
    ensures RatingSum(a + b) == RatingSum(a) + RatingSum(b)
  {
    if |a| > 0 {
      assert (a + b)[1..] == a[1..] + b;
      RatingSumAppend(a[1..], b);
    } else {
      assert a + b == b;
    }
  }

  /** The sum does not depend on the order in which reviews are found. */
  lemma {:induction false} RatingSumPermutation(a: seq<Review>, b: seq<Review>)
    requires multiset(a) == multiset(b)
    ensures RatingSum(a) == RatingSum(b)
    decreases |a|
  {
    if |a| > 0 {
      assert a[0] in multiset(b);
      var k :| 0 <= k < |b| && b[k] == a[0];
      var rest := b[..k] + b[k + 1..];
      MultisetWithout(a, b, k);
      RatingSumPermutation(a[1..], rest);
      RatingSumWithout(b, k);
    } else {
      assert |multiset(b)| == 0;
    }
  }

  /** Taking the first element of `a` and an equal element of `b` leaves
      equal multisets. */
  lemma MultisetWithout(a: seq<Review>, b: seq<Review>, k: nat)
    requires multiset(a) == multiset(b) && |a| > 0 && k < |b| && b[k] == a[0]
    ensures multiset(a[1..]) == multiset(b[..k] + b[k + 1..])
  {
    var rest := b[..k] + b[k + 1..];
    assert b == b[..k] + [b[k]] + b[k + 1..];
    assert a == [a[0]] + a[1..];
    assert multiset(b) == multiset(b[..k]) + multiset([b[k]]) + multiset(b[k + 1..]);
    assert multiset(rest) == multiset(b[..k]) + multiset(b[k + 1..]);
    assert multiset(a) == multiset([a[0]]) + multiset(a[1..]);
    forall x ensures multiset(a[1..])[x] == multiset(rest)[x] {
      assert multiset(a)[x] == multiset([a[0]])[x] + multiset(a[1..])[x];
      assert multiset(b)[x] == multiset(rest)[x] + multiset([b[k]])[x];
    }
  }

  lemma {:induction false} RatingSumWithout(b: seq<Review>, k: nat)
    requires k < |b|
    ensures RatingSum(b) == b[k].rating + RatingSum(b[..k] + b[k + 1..])
  {
    assert b == b[..k] + [b[k]] + b[k + 1..];
    RatingSumAppend(b[..k] + [b[k]], b[k + 1..]);
    RatingSumAppend(b[..k], [b[k]]);
    RatingSumAppend(b[..k], b[k + 1..]);
    assert RatingSum([b[k]]) == b[k].rating + RatingSum([]);
  }

  /** The stored average is a function of the multiset of reviews: it is the
      same however the reviews are ordered. */
  lemma MovieAverageOfMultiset(a: seq<Review>, b: seq<Review>, movieId: Common.Id)
    requires multiset(a) == multiset(b)
    ensures MovieAverage(a, movieId) == MovieAverage(b, movieId)
  {
    FilterSameMultiset(a, b, OfMovie(movieId));
    RatingSumPermutation(MovieReviews(a, movieId), MovieReviews(b, movieId));
  }

  /** A new review joins the reviews of its own movie and of no other. */
  lemma MovieReviewsAppend(reviews: seq<Review>, r: Review, movieId: Common.Id)
    ensures MovieReviews(reviews + [r], movieId)
         == MovieReviews(reviews, movieId) + (if r.movieId == movieId then [r] else [])
  {
    FilterAppend(reviews, [r], OfMovie(movieId));
    assert Filter([r], OfMovie(movieId)) == if r.movieId == movieId then [r] else [];
  }

  /** A review of another movie leaves a movie's average as it was. */
  lemma MovieAverageOtherMovie(reviews: seq<Review>, r: Review, movieId: Common.Id)
    requires r.movieId != movieId
    ensures MovieAverage(reviews + [r], movieId) == MovieAverage(reviews, movieId)
  {
    MovieReviewsAppend(reviews, r, movieId);
    assert MovieReviews(reviews + [r], movieId) == MovieReviews(reviews, movieId);
  }

  lemma {:induction false} RatingSumBounds(reviews: seq<Review>, lo: int, hi: int)
    requires forall i :: 0 <= i < |reviews| ==> lo <= reviews[i].rating <= hi
    ensures |reviews| * lo <= RatingSum(reviews) <= |reviews| * hi
  {
    if |reviews| > 0 {
      RatingSumBounds(reviews[1..], lo, hi);
    }
  }

  lemma RoundedMeanBounds(sum: int, n: nat, lo: int, hi: int)
    requires n > 0 && n * lo <= sum <= n * hi
    ensures 10 * lo <= RoundedMeanTenths(sum, n) <= 10 * hi
  {
    RoundedMeanAtLeast(sum, n, lo);
    RoundedMeanAtMost(sum, n, hi);
  }

  lemma RoundedMeanAtLeast(sum: int, n: nat, lo: int)
    requires n > 0 && n * lo <= sum
    ensures 10 * lo <= RoundedMeanTenths(sum, n)
  {
    var r := RoundedMeanTenths(sum, n);
    Distribute(n, 20 * lo, 1);
    assert n * (20 * lo) == 20 * (n * lo);
    Distribute(n, 2 * r, 2);
    assert n * (2 * r) == 2 * n * r;
    MulCancelStrict(n, 20 * lo + 1, 2 * r + 2);
  }

  lemma RoundedMeanAtMost(sum: int, n: nat, hi: int)
    requires n > 0 && sum <= n * hi
    ensures RoundedMeanTenths(sum, n) <= 10 * hi
  {
    var r := RoundedMeanTenths(sum, n);
    Distribute(n, 20 * hi, 1);
    assert n * (20 * hi) == 20 * (n * hi);
    assert n * (2 * r) == 2 * n * r;
    MulCancel(n, 2 * r, 20 * hi + 1);
  }

  lemma Distribute(n: int, a: int, b: int)
    ensures n * (a + b) == n * a + n * b
  {
  }

  lemma MulCancelStrict(n: int, a: int, b: int)
    requires n > 0 && n * a < n * b
    ensures a < b
  {
  }

  lemma MulCancel(n: int, a: int, b: int)
    requires n > 0 && n * a <= n * b
    ensures a <= b
  {
  }

  /** When every rating of a movie lies in `lo..hi`, so does its average:
      in particular it lies between the smallest and the largest rating,
      and within one to five stars. */
  lemma MovieAverageWithin(reviews: seq<Review>, movieId: Common.Id, lo: int, hi: int)
    requires |MovieReviews(reviews, movieId)| > 0
    requires forall i :: 0 <= i < |reviews| && reviews[i].movieId == movieId ==> lo <= reviews[i].rating <= hi
    ensures 10 * lo <= MovieAverage(reviews, movieId) <= 10 * hi
  {
    var rs := MovieReviews(reviews, movieId);
    forall i | 0 <= i < |rs| ensures lo <= rs[i].rating <= hi {
      assert rs[i] in multiset(rs);
      assert rs[i] in multiset(reviews);
      var k :| 0 <= k < |reviews| && reviews[k] == rs[i];
    }
    RatingSumBounds(rs, lo, hi);
    RoundedMeanBounds(RatingSum(rs), |rs|, lo, hi);
  }

  /** Ratings 5, 4 and 3 average 4.0; a fourth rating of 2 brings it to 3.5. */
  lemma ThreeThenFour()
    ensures RoundedMeanTenths(5 + 4 + 3, 3) == 40
    ensures RoundedMeanTenths(5 + 4 + 3 + 2, 4) == 35
  {
  }
}
