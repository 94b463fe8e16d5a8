/** The movie handlers: the public catalog listing and detail, movie
    creation, and reviews with the recomputed average rating. */
module MovieController {
  import opened Common
  import opened Records
  import opened Seqs
  import opened Sorting
  import opened Pagination
  import opened Store
  import Strings
  import Ratings

  const TitleRequired := "Title is required"
  const DuplicateTitle := "Movie with this title already exists"
  const MovieMissing := "Movie not found"
  const RatingOutOfRange := "Rating must be between 1 and 5"
  const AlreadyReviewed := "You have already reviewed this movie"

  // ---------------------------------------------------------------------
  // Listing: filters, sort and page of GET /movies
  // ---------------------------------------------------------------------

  /** The fields a listing may be sorted by. */
  datatype SortField = CreatedAt | UpdatedAt | Title | ReleaseYear | Director | AverageRating

  /** The query string of a listing request. `genre` is the raw
      comma-separated text ("" when absent); `year` and `minRating` are the
      parsed numbers when present, `minRating` in tenths of a star. */
  datatype MovieQuery = MovieQuery(
    page: Option<int>,
    limit: Option<int>,
    genre: string,
    year: Option<int>,
    minRating: Option<int>,
    sortBy: Option<SortField>,
    sortOrder: string)

  /** `req.query.genre.split(',')`, without trimming. */
  function GenreTags(genre: string): seq<string> {
    Strings.Split(genre, ',')
  }

  /** The `filter` object: each filter present must hold. A movie passes the
      genre filter when one of its tags is one of the requested tags. */
  predicate Matches(q: MovieQuery, m: Movie) {
    && (q.genre != "" ==> exists t :: t in m.genre && t in GenreTags(q.genre))
    && (q.year.Some? ==> m.releaseYear == Some(q.year.value))
    && (q.minRating.Some? ==> m.averageRating >= q.minRating.value)
  }

  function Matcher(q: MovieQuery): Movie -> bool {
    (m: Movie) => Matches(q, m)
  }

  function OptionalNum(v: Option<int>): Key {
    if v.Some? then Num(v.value) else Null
  }

  function OptionalText(v: Option<string>): Key {
    if v.Some? then Text(v.value) else Null
  }

  /** The value a movie is sorted by. */
  function SortKey(field: SortField): Movie -> Key {
    match field
    case CreatedAt => (m: Movie) => Num(m.createdAt)
    case UpdatedAt => (m: Movie) => Num(m.updatedAt)
    case Title => (m: Movie) => Text(m.title)
    case ReleaseYear => (m: Movie) => OptionalNum(m.releaseYear)
    case Director => (m: Movie) => OptionalText(m.director)
    case AverageRating => (m: Movie) => Num(m.averageRating)
  }

  /** The `sort` object: the requested field, ascending unless `sortOrder` is
      exactly "desc"; without `sortBy`, newest first. */
  function SortFieldOf(q: MovieQuery): SortField {
    if q.sortBy.Some? then q.sortBy.value else CreatedAt
  }

  function DirectionOf(q: MovieQuery): Direction {
    if q.sortBy.None? then Desc else if q.sortOrder == "desc" then Desc else Asc
  }

  /** Every movie that passes the filters, in the requested order. */
  function Listing(movies: seq<Movie>, q: MovieQuery): (r: seq<Movie>)
    ensures multiset(r) == multiset(Filter(movies, Matcher(q)))
    ensures SortedBy(r, SortKey(SortFieldOf(q)), DirectionOf(q))
    ensures forall m :: m in r ==> m in movies && Matches(q, m)
  {
    SortedFilterMembers(movies, Matcher(q), SortKey(SortFieldOf(q)), DirectionOf(q));
    SortBy(Filter(movies, Matcher(q)), SortKey(SortFieldOf(q)), DirectionOf(q))
  }

  lemma SortedFilterMembers<T(!new)>(s: seq<T>, p: T -> bool, key: T -> Key, d: Direction)
    ensures forall x :: x in SortBy(Filter(s, p), key, d) ==> x in s && p(x)
  {
    forall x | x in SortBy(Filter(s, p), key, d) ensures x in s && p(x) {
      assert x in multiset(SortBy(Filter(s, p), key, d));
      MemberOfFilter(s, p, x);
    }
  }

  /** GET /movies. A page holds at most `limit` movies, all of them stored
      movies that pass every filter, in the requested order; it is the window
      of the full listing that starts after `(page - 1) * limit` movies; and
      the pagination counts all matches. */
  function GetMovies(movies: seq<Movie>, q: MovieQuery): (r: Page<Movie>)
    requires EffectivePage(q.page) >= 1 && EffectiveLimit(q.limit) >= 1
    ensures |r.items| <= EffectiveLimit(q.limit)
    ensures forall i :: 0 <= i < |r.items| ==> r.items[i] in movies && Matches(q, r.items[i])
    ensures SortedBy(r.items, SortKey(SortFieldOf(q)), DirectionOf(q))
    ensures r.items == Paginate(Listing(movies, q), EffectivePage(q.page), EffectiveLimit(q.limit))
    ensures r.pagination.total == |Filter(movies, Matcher(q))|
    ensures r.pagination == Info(EffectivePage(q.page), EffectiveLimit(q.limit), r.pagination.total)
  {
    var page, limit := EffectivePage(q.page), EffectiveLimit(q.limit);
    var all := Listing(movies, q);
    var r := ListPage(all, page, limit);
    WindowOfListing(all, page, limit, SortKey(SortFieldOf(q)), DirectionOf(q));
    assert |multiset(all)| == |multiset(Filter(movies, Matcher(q)))|;
    r
  }

  lemma MemberOfFilter<T(!new)>(s: seq<T>, p: T -> bool, x: T)
    requires x in multiset(Filter(s, p))
    ensures x in s && p(x)
  {
    assert multiset(Filter(s, p))[x] > 0;
  }

  /** An order the datastore may return for the query: every matching
      movie, as often as it is stored, sorted by the requested key. Movies
      whose keys tie may come in any order, and each request may choose a
      different one. */
  ghost predicate IsListing(movies: seq<Movie>, q: MovieQuery, l: seq<Movie>) {
    && multiset(l) == multiset(Filter(movies, Matcher(q)))
    && SortedBy(l, SortKey(SortFieldOf(q)), DirectionOf(q))
  }

  /** No two different matching movies share the value they are sorted by. */
  ghost predicate DistinctSortKeys(movies: seq<Movie>, q: MovieQuery) {
    forall m, n ::
      (m in Filter(movies, Matcher(q)) && n in Filter(movies, Matcher(q))
       && SortKey(SortFieldOf(q))(m) == SortKey(SortFieldOf(q))(n)) ==> m == n
  }

  /** With distinct sort keys the datastore has only one order to choose:
      every order it may return is `Listing`. */
  lemma ListingDeterminedByKeys(movies: seq<Movie>, q: MovieQuery, l: seq<Movie>)
    requires IsListing(movies, q, l) && DistinctSortKeys(movies, q)
    ensures l == Listing(movies, q)
  {
    var matches := Filter(movies, Matcher(q));
    forall x, y | x in l && y in l && SortKey(SortFieldOf(q))(x) == SortKey(SortFieldOf(q))(y)
      ensures x == y
    {
      assert x in multiset(matches) && y in multiset(matches);
    }
    SortedUnique(l, Listing(movies, q), SortKey(SortFieldOf(q)), DirectionOf(q));
  }

  /** Each page request runs the query afresh, and `pageOrder(p)` is the
      order the datastore returns for page `p`. When the matching movies'
      sort keys are distinct, every page is the page of `Listing`, so a
      client that follows `hasNext` from page 1 sees every matching movie
      exactly once. */
  lemma EveryMatchListedOnce(movies: seq<Movie>, q: MovieQuery, limit: int, pageOrder: int -> seq<Movie>)
    requires limit >= 1
    requires DistinctSortKeys(movies, q)
    requires forall p :: p >= 1 ==> IsListing(movies, q, pageOrder(p))
    ensures forall p :: p >= 1 ==> Paginate(pageOrder(p), p, limit) == Paginate(Listing(movies, q), p, limit)
    ensures multiset(Walk(Listing(movies, q), 1, limit)) == multiset(Filter(movies, Matcher(q)))
  {
    forall p | p >= 1 ensures Paginate(pageOrder(p), p, limit) == Paginate(Listing(movies, q), p, limit) {
      ListingDeterminedByKeys(movies, q, pageOrder(p));
    }
    WalkFromFirstPage(Listing(movies, q), limit);
  }

  /** Without distinct keys the pages may overlap: two matching movies
      whose keys tie can be returned as [a, b] for page 1 and as [b, a] for
      page 2, so with one movie per page the client sees `a` twice and `b`
      never. */
  lemma TiedMoviesSeenTwice(a: Movie, b: Movie, q: MovieQuery)
    requires Matches(q, a) && Matches(q, b)
    requires SortKey(SortFieldOf(q))(a) == SortKey(SortFieldOf(q))(b)
    ensures IsListing([a, b], q, [a, b]) && IsListing([a, b], q, [b, a])
    ensures Paginate([a, b], 1, 1) + Paginate([b, a], 2, 1) == [a, a]
  {
    TiedPairSortedBothWays(a, b, SortKey(SortFieldOf(q)), DirectionOf(q));
    PassingPair(a, b, q);
    assert multiset([b, a]) == multiset([a, b]);
    assert Paginate([a, b], 1, 1) == [a];
    assert Paginate([b, a], 2, 1) == [a];
  }

  lemma PassingPair(a: Movie, b: Movie, q: MovieQuery)
    requires Matches(q, a) && Matches(q, b)
    ensures Filter([a, b], Matcher(q)) == [a, b]
  {
    assert [a, b][1..] == [b] && [b][1..] == [];
  }

  /** With `genre=Action,Comedy` a movie is listed when it has either tag:
      the tags' sets must intersect, one need not contain the other. */
  lemma GenreFilterIntersects(m: Movie, q: MovieQuery)
    requires q.genre == "Action,Comedy" && q.year.None? && q.minRating.None?
    ensures Matches(q, m) <==> "Action" in m.genre || "Comedy" in m.genre
  {
    assert "Action,Comedy" == "Action" + [','] + "Comedy";
    TwoGenreTags("Action", "Comedy");
  }

  /** Two comma-free tags joined by a comma are requested as those two tags. */
  lemma TwoGenreTags(a: string, b: string)
    requires ',' !in a && ',' !in b
    ensures GenreTags(a + [','] + b) == [a, b]
  {
    Strings.SplitAround(a, ',', b);
    Strings.SplitWithoutSeparator(a, ',');
    Strings.SplitWithoutSeparator(b, ',');
  }

  // ---------------------------------------------------------------------
  // Detail and reviews of one movie
  // ---------------------------------------------------------------------

  function ReviewTime(r: Review): Key { Num(r.timestamp) }

  /** A movie's reviews, newest first. */
  function ReviewsNewestFirst(reviews: seq<Review>, movieId: Id): (r: seq<Review>)
    ensures multiset(r) == multiset(Ratings.MovieReviews(reviews, movieId))
    ensures SortedBy(r, ReviewTime, Desc)
    ensures forall x :: x in r ==> x in reviews && x.movieId == movieId
  {
    SortedFilterMembers(reviews, Ratings.OfMovie(movieId), ReviewTime, Desc);
    SortBy(Ratings.MovieReviews(reviews, movieId), ReviewTime, Desc)
  }

  datatype MovieDetails = MovieDetails(movie: Movie, reviews: seq<Review>)

  /** GET /movies/:id: the movie with that id and all of its reviews, newest
      first; 404 when no movie has that id. */
  function GetMovieById(movies: seq<Movie>, reviews: seq<Review>, id: Id): (r: Response<MovieDetails>)
    ensures r.Ok? <==> exists i :: 0 <= i < |movies| && movies[i].id == id
    ensures !r.Ok? ==> r == NotFound(MovieMissing)
    ensures r.Ok? ==> r.value.movie in movies && r.value.movie.id == id
    ensures r.Ok? ==> multiset(r.value.reviews) == multiset(Ratings.MovieReviews(reviews, id))
    ensures r.Ok? ==> SortedBy(r.value.reviews, ReviewTime, Desc)
  {
    match FindMovie(movies, id)
    case None => NotFound(MovieMissing)
    case Some(k) => Ok(MovieDetails(movies[k], ReviewsNewestFirst(reviews, id)))
  }

  /** GET /movies/:id/reviews: one page of the movie's reviews, newest first,
      with a total that counts all of them; 404 when no movie has that id. */
  function GetMovieReviews(movies: seq<Movie>, reviews: seq<Review>, id: Id, page: Option<int>, limit: Option<int>)
    : (r: Response<Page<Review>>)
    requires EffectivePage(page) >= 1 && EffectiveLimit(limit) >= 1
    ensures r.Ok? <==> exists i :: 0 <= i < |movies| && movies[i].id == id
    ensures !r.Ok? ==> r == NotFound(MovieMissing)
    ensures r.Ok? ==> |r.value.items| <= EffectiveLimit(limit)
    ensures r.Ok? ==> forall i :: 0 <= i < |r.value.items| ==> r.value.items[i].movieId == id && r.value.items[i] in reviews
    ensures r.Ok? ==> SortedBy(r.value.items, ReviewTime, Desc)
    ensures r.Ok? ==> r.value.items == Paginate(ReviewsNewestFirst(reviews, id), EffectivePage(page), EffectiveLimit(limit))
    ensures r.Ok? ==> r.value.pagination.total == |Ratings.MovieReviews(reviews, id)|
    ensures r.Ok? ==> r.value.pagination == Info(EffectivePage(page), EffectiveLimit(limit), r.value.pagination.total)
  {
    match FindMovie(movies, id)
    case None => NotFound(MovieMissing)
    case Some(_) =>
      var all := ReviewsNewestFirst(reviews, id);
      var p := ListPage(all, EffectivePage(page), EffectiveLimit(limit));
      WindowOfListing(all, EffectivePage(page), EffectiveLimit(limit), ReviewTime, Desc);
      assert |multiset(all)| == |multiset(Ratings.MovieReviews(reviews, id))|;
      Ok(p)
  }

  /** Each page request sorts the reviews again, and two reviews with the
      same timestamp may come back in either order: both orders are sorted
      newest first, and then page 1 and page 2 of one review each can both
      return the same review. */
  lemma TiedReviewsSeenTwice(a: Review, b: Review)
    requires a.timestamp == b.timestamp
    ensures SortedBy([a, b], ReviewTime, Desc) && SortedBy([b, a], ReviewTime, Desc)
    ensures multiset([a, b]) == multiset([b, a])
    ensures Paginate([a, b], 1, 1) + Paginate([b, a], 2, 1) == [a, a]
  {
    TiedPairSortedBothWays(a, b, ReviewTime, Desc);
    assert Paginate([a, b], 1, 1) == [a];
    assert Paginate([b, a], 2, 1) == [a];
  }

  // ---------------------------------------------------------------------
  // Creating a movie
  // ---------------------------------------------------------------------

  /** The body of a movie-creation request; `None` for an absent field. */
  datatype MovieInput = MovieInput(
    title: string,
    genre: Option<seq<string>>,
    releaseYear: Option<int>,
    director: Option<string>,
    cast: Option<seq<string>>,
    synopsis: Option<string>,
    posterUrl: Option<string>)

  /** `!title`: the title is absent or empty. */
  predicate TitleMissing(title: string) {
    title == ""
  }

  function OrEmpty<T>(v: Option<seq<T>>): seq<T> {
    if v.Some? then v.value else []
  }

  /** The document `new Movie({...})` saves: absent genre and cast become
      empty lists, the average starts at 0, and both timestamps are now. */
  function NewMovie(id: Id, input: MovieInput, now: int): Movie {
    Movie(id, input.title, OrEmpty(input.genre), input.releaseYear, input.director,
          OrEmpty(input.cast), input.synopsis, input.posterUrl, 0, now, now)
  }

  /** POST /movies. A missing title and a title already in the catalog are
      refused with 400 and leave the store as it was; otherwise exactly one
      movie is added, with an average of 0, and nothing else changes. */
  method CreateMovie(db: Database, input: MovieInput, now: int) returns (r: Response<Movie>)
    requires db.Valid()
    modifies db
    ensures db.Valid()
    ensures TitleMissing(input.title) ==> r == BadRequest(TitleRequired) && unchanged(db)
    ensures !TitleMissing(input.title) && FindMovieByTitle(old(db.movies), input.title).Some? ==>
      r == BadRequest(DuplicateTitle) && unchanged(db)
    ensures !TitleMissing(input.title) && FindMovieByTitle(old(db.movies), input.title).None? ==>
      && r == Created(NewMovie(old(db.nextId), input, now))
      && db.movies == old(db.movies) + [r.value]
      && db.reviews == old(db.reviews) && db.users == old(db.users) && db.watchlist == old(db.watchlist)
      && db.nextId == old(db.nextId) + 1
  {
    if TitleMissing(input.title) {
      return BadRequest(TitleRequired);
    }
    if FindMovieByTitle(db.movies, input.title).Some? {
      return BadRequest(DuplicateTitle);
    }
    var movie := NewMovie(db.nextId, input, now);
    NewMovieKeepsConsistent(db.movies, db.reviews, db.users, db.watchlist, db.nextId, input, now);
    db.movies, db.nextId := db.movies + [movie], db.nextId + 1;
    r := Created(movie);
  }

  /** Appending a movie whose title is not yet in the catalog, under the
      next id, keeps the store's invariant. */
  lemma NewMovieKeepsConsistent(movies: seq<Movie>, reviews: seq<Review>, users: seq<User>,
                                watchlist: seq<WatchlistEntry>, nextId: Id, input: MovieInput, now: int)
    requires Consistent(movies, reviews, users, watchlist, nextId)
    requires FindMovieByTitle(movies, input.title).None?
    ensures Consistent(movies + [NewMovie(nextId, input, now)], reviews, users, watchlist, nextId + 1)
  {
    var movie := NewMovie(nextId, input, now);
    NoReviewsYet(reviews, nextId);
    UniqueByAppend(movies, movie, MovieId);
    UniqueByAppend(movies, movie, MovieTitle);
  }

  /** No review names an id not yet handed out, so a new movie's average is
      the schema default 0. */
  lemma NoReviewsYet(reviews: seq<Review>, id: Id)
    requires forall i :: 0 <= i < |reviews| ==> reviews[i].movieId < id
    ensures Ratings.MovieAverage(reviews, id) == 0
  {
    var rs := Ratings.MovieReviews(reviews, id);
    if |rs| > 0 {
      assert rs[0] in multiset(rs);
      MemberOfFilter(reviews, Ratings.OfMovie(id), rs[0]);
    }
  }

  // ---------------------------------------------------------------------
  // Adding a review
  // ---------------------------------------------------------------------

  /** The rating check: present, non-zero, and within one to five stars. */
  predicate RatingAccepted(rating: Option<int>) {
    rating.Some? && Ratings.MinRating <= rating.value <= Ratings.MaxRating
  }

  function TextOrEmpty(text: Option<string>): string {
    if text.Some? then text.value else ""
  }

  /** POST /movies/:id/reviews, by user `userId`. The checks come in this
      order and each refusal leaves the store as it was: the rating, the
      movie's existence, then an earlier review of the movie by the same user.
      On success the review is added and the movie's average, recomputed from
      all of its reviews including the new one, lies between 1.0 and 5.0;
      no other movie and no other collection changes. */
  method AddMovieReview(db: Database, userId: Id, movieId: Id, rating: Option<int>, reviewText: Option<string>, now: int)
    returns (r: Response<Review>)
    requires db.Valid()
    modifies db
    ensures db.Valid()
    ensures !RatingAccepted(rating) ==> r == BadRequest(RatingOutOfRange) && unchanged(db)
    ensures RatingAccepted(rating) && FindMovie(old(db.movies), movieId).None? ==>
      r == NotFound(MovieMissing) && unchanged(db)
    ensures RatingAccepted(rating) && FindMovie(old(db.movies), movieId).Some?
            && FindReview(old(db.reviews), userId, movieId).Some? ==>
      r == BadRequest(AlreadyReviewed) && unchanged(db)
    ensures RatingAccepted(rating) && FindMovie(old(db.movies), movieId).Some?
            && FindReview(old(db.reviews), userId, movieId).None? ==>
      var k := FindMovie(old(db.movies), movieId).value;
      && r == Created(Review(old(db.nextId), userId, movieId, rating.value, TextOrEmpty(reviewText), now))
      && db.reviews == old(db.reviews) + [r.value]
      && db.movies == old(db.movies)[k := old(db.movies)[k].(
           averageRating := Ratings.MovieAverage(db.reviews, movieId), updatedAt := now)]
      && 10 * Ratings.MinRating <= Ratings.MovieAverage(db.reviews, movieId) <= 10 * Ratings.MaxRating
      && db.users == old(db.users) && db.watchlist == old(db.watchlist)
      && db.nextId == old(db.nextId) + 1
  {
    if !RatingAccepted(rating) {
      return BadRequest(RatingOutOfRange);
    }
    var found := FindMovie(db.movies, movieId);
    if found.None? {
      return NotFound(MovieMissing);
    }
    if FindReview(db.reviews, userId, movieId).Some? {
      return BadRequest(AlreadyReviewed);
    }
    var review := Review(db.nextId, userId, movieId, rating.value, TextOrEmpty(reviewText), now);
    InsertReview(db, review, found.value, now);
    r := Created(review);
  }

  /** Stores a review that passed the checks and the movie's recomputed
      average. */
  method InsertReview(db: Database, review: Review, k: nat, now: int)
    requires db.Valid()
    requires k < |db.movies| && db.movies[k].id == review.movieId && review.id == db.nextId
    requires Ratings.MinRating <= review.rating <= Ratings.MaxRating
    requires FindReview(db.reviews, review.userId, review.movieId).None?
    modifies db
    ensures db.Valid()
    ensures db.reviews == old(db.reviews) + [review]
    ensures db.movies == old(db.movies)[k := old(db.movies)[k].(
              averageRating := Ratings.MovieAverage(db.reviews, review.movieId), updatedAt := now)]
    ensures 10 * Ratings.MinRating <= Ratings.MovieAverage(db.reviews, review.movieId) <= 10 * Ratings.MaxRating
    ensures db.users == old(db.users) && db.watchlist == old(db.watchlist)
    ensures db.nextId == old(db.nextId) + 1
  {
    var reviews := db.reviews + [review];
    var average := Ratings.MovieAverage(reviews, review.movieId);
    var movies := db.movies[k := db.movies[k].(averageRating := average, updatedAt := now)];
    ReviewKeepsConsistent(db.movies, db.reviews, db.users, db.watchlist, db.nextId, review, k, now);
    assert 10 * Ratings.MinRating <= average <= 10 * Ratings.MaxRating;
    db.reviews, db.movies, db.nextId := reviews, movies, db.nextId + 1;
  }

  /** Inserting a review of an existing movie by a user who has not
      reviewed it, then storing the recomputed average on that movie, keeps
      the store's invariant; the new average lies within 1.0 to 5.0. */
  lemma ReviewKeepsConsistent(movies: seq<Movie>, reviews: seq<Review>, users: seq<User>,
                              watchlist: seq<WatchlistEntry>, nextId: Id, review: Review, k: nat, now: int)
    requires Consistent(movies, reviews, users, watchlist, nextId)
    requires k < |movies| && movies[k].id == review.movieId && review.id == nextId
    requires Ratings.MinRating <= review.rating <= Ratings.MaxRating
    requires FindReview(reviews, review.userId, review.movieId).None?
    ensures var reviews' := reviews + [review];
      var movies' := movies[k := movies[k].(averageRating := Ratings.MovieAverage(reviews', review.movieId), updatedAt := now)];
      && Consistent(movies', reviews', users, watchlist, nextId + 1)
      && 10 * Ratings.MinRating <= movies'[k].averageRating <= 10 * Ratings.MaxRating
  {
    var reviews' := reviews + [review];
    var average := Ratings.MovieAverage(reviews', review.movieId);
    var movies' := movies[k := movies[k].(averageRating := average, updatedAt := now)];
    UniqueByAppend(reviews, review, ReviewPair);
    assert ReviewsWellFormed(reviews', nextId + 1);
    UniqueByUpdate(movies, k, movies'[k], MovieId);
    UniqueByUpdate(movies, k, movies'[k], MovieTitle);
    assert MoviesWellFormed(movies', nextId + 1);
    RecomputedAverage(movies, reviews, review, k, now);
    AverageInRange(reviews', review.movieId);
  }

  /** After the new review, the averages of all movies but the reviewed one
      are still current. */
  lemma RecomputedAverage(movies: seq<Movie>, reviews: seq<Review>, review: Review, k: nat, now: int)
    requires AveragesCurrent(movies, reviews) && UniqueBy(movies, MovieId)
    requires k < |movies| && movies[k].id == review.movieId
    ensures var movies' := movies[k := movies[k].(
              averageRating := Ratings.MovieAverage(reviews + [review], review.movieId), updatedAt := now)];
      AveragesCurrent(movies', reviews + [review])
  {
    forall i | 0 <= i < |movies| && i != k
      ensures movies[i].averageRating == Ratings.MovieAverage(reviews + [review], movies[i].id)
    {
      assert MovieId(movies[i]) != MovieId(movies[k]);
      Ratings.MovieAverageOtherMovie(reviews, review, movies[i].id);
    }
  }

  /** With the new review, a movie has at least one review, each rated one to
      five stars, so its average lies within 1.0 to 5.0. */
  lemma AverageInRange(reviews: seq<Review>, movieId: Id)
    requires |reviews| > 0 && reviews[|reviews| - 1].movieId == movieId
    requires forall i :: 0 <= i < |reviews| ==> Ratings.MinRating <= reviews[i].rating <= Ratings.MaxRating
    ensures 10 * Ratings.MinRating <= Ratings.MovieAverage(reviews, movieId) <= 10 * Ratings.MaxRating
  {
    var last := reviews[|reviews| - 1];
    assert reviews == reviews[..|reviews| - 1] + [last];
    Ratings.MovieReviewsAppend(reviews[..|reviews| - 1], last, movieId);
    Ratings.MovieAverageWithin(reviews, movieId, Ratings.MinRating, Ratings.MaxRating);
  }
}
