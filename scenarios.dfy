/** Request sequences a client can send, with the answers the handlers'
    contracts fix for them. */
module Scenarios {
  import opened Common
  import opened Records
  import opened Store
  import MovieController
  import UserController
  import Ratings

  function Alice(): User { User(1, "alice", "alice@example.com", "secret-hash-a", None, 0) }
  function Bob(): User { User(2, "bob", "bob@example.com", "secret-hash-b", None, 0) }

  function Inception(): MovieController.MovieInput {
    MovieController.MovieInput("Inception", None, Some(2010), Some("Christopher Nolan"), None, None, None)
  }

  /** A store with the two users and one movie, id 10, created at time 100;
      creating the same title again is refused. */
  method InceptionStore() returns (db: Database)
    ensures fresh(db) && db.Valid()
    ensures db.movies == [MovieController.NewMovie(10, Inception(), 100)]
    ensures db.reviews == [] && db.users == [Alice(), Bob()] && db.nextId == 11
  {
    db := new Database([Alice(), Bob()], 10);
    var created := MovieController.CreateMovie(db, Inception(), 100);
    assert created.Created? && created.value.averageRating == 0;
    var again := MovieController.CreateMovie(db, Inception(), 101);
    assert again == BadRequest(MovieController.DuplicateTitle);
  }

  /** Two users review the movie, and its stored average becomes 4.5; in
      between, a second review by the first user, an out-of-range rating
      and a review of an unknown movie are refused. */
  method ReviewSequence() {
    var db := InceptionStore();
    var first := MovieController.AddMovieReview(db, 1, 10, Some(5), None, 200);
    assert first.Created?;
    RefusedReviews(db);
    assert db.reviews == [first.value];
    SecondReview(db, first.value);
    assert db.movies[0].averageRating == 45;
  }

  /** User 2 rates the movie four stars after user 1 rated it five. */
  method SecondReview(db: Database, first: Review)
    requires db.Valid() && |db.movies| == 1 && db.movies[0].id == 10
    requires db.reviews == [first] && first.userId == 1 && first.movieId == 10 && first.rating == 5
    modifies db
    ensures |db.movies| == 1 && db.movies[0].averageRating == 45
  {
    assert FindMovie(db.movies, 10) == Some(0);
    assert FindReview(db.reviews, 2, 10).None?;
    var second := MovieController.AddMovieReview(db, 2, 10, Some(4), None, 204);
    assert second.Created? && db.reviews == [first] + [second.value];
    assert db.reviews == [first, second.value];
    TwoReviewsAverage(first, second.value);
  }

  /** Reviews that the store refuses once user 1 has reviewed movie 10,
      the only movie. */
  method RefusedReviews(db: Database)
    requires db.Valid() && |db.movies| == 1 && db.movies[0].id == 10
    requires FindReview(db.reviews, 1, 10).Some?
    modifies db
    ensures unchanged(db)
  {
    var twice := MovieController.AddMovieReview(db, 1, 10, Some(4), Some("Changed my mind"), 201);
    assert twice == BadRequest(MovieController.AlreadyReviewed);
    var tooHigh := MovieController.AddMovieReview(db, 2, 10, Some(6), None, 202);
    assert tooHigh == BadRequest(MovieController.RatingOutOfRange);
    var unknown := MovieController.AddMovieReview(db, 2, 99, Some(3), None, 203);
    assert unknown == NotFound(MovieController.MovieMissing);
  }

  /** Ratings of five and four stars average to 4.5. */
  lemma TwoReviewsAverage(a: Review, b: Review)
    requires a.movieId == 10 && b.movieId == 10 && a.rating == 5 && b.rating == 4
    ensures Ratings.MovieAverage([a, b], 10) == 45
  {
    TwoReviewsOfMovie(a, b);
    assert [a, b][1..] == [b] && [b][1..] == [];
    assert Ratings.RatingSum([b]) == 4;
    assert Ratings.RatingSum([a, b]) == 9;
    assert Ratings.RoundedMeanTenths(9, 2) == 45;
  }

  lemma TwoReviewsOfMovie(a: Review, b: Review)
    requires a.movieId == 10 && b.movieId == 10
    ensures Ratings.MovieReviews([a, b], 10) == [a, b]
  {
    assert [a, b] == [a] + [b];
    Ratings.MovieReviewsAppend([a], b, 10);
    Ratings.MovieReviewsAppend([], a, 10);
    assert [] + [a] == [a];
  }

  /** Adding a movie to one's watchlist twice is refused; after removing it
      it can be added again, and another user can neither add to nor remove
      from that watchlist. */
  method WatchlistSequence() {
    var db := new Database([Alice(), Bob()], 10);
    var input := MovieController.MovieInput("Inception", None, None, None, None, None, None);
    var created := MovieController.CreateMovie(db, input, 100);
    assert created.Created?;

    var added := UserController.AddToWatchlist(db, 1, 1, Some(10), 300);
    assert added.Created?;
    var twice := UserController.AddToWatchlist(db, 1, 1, Some(10), 301);
    assert twice == BadRequest(UserController.AlreadyInWatchlist);
    var foreign := UserController.AddToWatchlist(db, 1, 2, Some(10), 302);
    assert foreign == Forbidden(UserController.NotOwnWatchlistAdd);
    var noMovie := UserController.AddToWatchlist(db, 1, 1, None, 303);
    assert noMovie == BadRequest(UserController.MovieIdRequired);

    var removedByOther := UserController.RemoveFromWatchlist(db, 1, 2, 10);
    assert removedByOther == Forbidden(UserController.NotOwnWatchlistRemove);
    var removed := UserController.RemoveFromWatchlist(db, 1, 1, 10);
    assert removed == Ok(UserController.Removed);
    var removedTwice := UserController.RemoveFromWatchlist(db, 1, 1, 10);
    assert removedTwice == NotFound(UserController.NotInWatchlist);
    var readded := UserController.AddToWatchlist(db, 1, 1, Some(10), 304);
    assert readded.Created?;
  }

  /** Taking another user's email or username is refused; changing only the
      profile picture keeps the rest of the account. */
  method ProfileSequence() {
    var db := new Database([Alice(), Bob()], 10);
    RefusedProfileUpdates(db);
    var picture := UserController.UpdateUserProfile(db, 1, 1, UserController.ProfileUpdate("", "", Some("/uploads/alice.png")));
    assert picture == Ok(UserView(1, "alice", "alice@example.com", Some("/uploads/alice.png"), 0));
  }

  /** Alice can take neither Bob's email nor his username, and cannot edit
      Bob's profile. */
  method RefusedProfileUpdates(db: Database)
    requires db.Valid() && db.users == [Alice(), Bob()]
    modifies db
    ensures unchanged(db)
  {
    assert WithUserId(1)(db.users[0]) && FindUser(db.users, 1) == Some(0);
    assert WithEmail("bob@example.com")(db.users[1]) && WithUsername("bob")(db.users[1]);
    var steal := UserController.UpdateUserProfile(db, 1, 1, UserController.ProfileUpdate("", "bob@example.com", None));
    assert steal == BadRequest(UserController.EmailTaken);
    var rename := UserController.UpdateUserProfile(db, 1, 1, UserController.ProfileUpdate("bob", "", None));
    assert rename == BadRequest(UserController.UsernameTaken);
    var other := UserController.UpdateUserProfile(db, 2, 1, UserController.ProfileUpdate("mallory", "", None));
    assert other == Forbidden(UserController.NotOwnProfile);
  }
}
