/** The document collections as the controllers see them, held in one
    object whose fields the handlers update, together with the lookups the
    handlers run against them (`findById`, `findOne`). */
module Store {
  import opened Common
  import opened Records
  import opened Seqs
  import Ratings

  // Filters, and the index of the first document each one matches.

  function WithMovieId(id: Id): Movie -> bool { (m: Movie) => m.id == id }
  function WithTitle(title: string): Movie -> bool { (m: Movie) => m.title == title }
  function ByPair(userId: Id, movieId: Id): Review -> bool {
    (r: Review) => r.userId == userId && r.movieId == movieId
  }
  function WithUserId(id: Id): User -> bool { (u: User) => u.id == id }
  function WithUsername(name: string): User -> bool { (u: User) => u.username == name }
  function WithEmail(email: string): User -> bool { (u: User) => u.email == email }
  function EntryFor(userId: Id, movieId: Id): WatchlistEntry -> bool {
    (e: WatchlistEntry) => e.userId == userId && e.movieId == movieId
  }

  function FindMovie(movies: seq<Movie>, id: Id): Option<nat> { FindFirst(movies, WithMovieId(id)) }
  function FindMovieByTitle(movies: seq<Movie>, title: string): Option<nat> { FindFirst(movies, WithTitle(title)) }
  function FindReview(reviews: seq<Review>, userId: Id, movieId: Id): Option<nat> {
    FindFirst(reviews, ByPair(userId, movieId))
  }
  function FindUser(users: seq<User>, id: Id): Option<nat> { FindFirst(users, WithUserId(id)) }
  function FindUserByUsername(users: seq<User>, name: string): Option<nat> { FindFirst(users, WithUsername(name)) }
  function FindUserByEmail(users: seq<User>, email: string): Option<nat> { FindFirst(users, WithEmail(email)) }
  function FindEntry(watchlist: seq<WatchlistEntry>, userId: Id, movieId: Id): Option<nat> {
    FindFirst(watchlist, EntryFor(userId, movieId))
  }

  // What holds of the collections between requests.

  /** Movie ids are distinct and were handed out before `nextId`; titles are
      distinct, because movie creation refuses a title already in use. */
  ghost predicate MoviesWellFormed(movies: seq<Movie>, nextId: Id) {
    && UniqueBy(movies, MovieId)
    && UniqueBy(movies, MovieTitle)
    && forall i :: 0 <= i < |movies| ==> movies[i].id < nextId
  }

  /** Every review has a rating of one to five stars and names a movie id
      already handed out; a user reviews a movie at most once. */
  ghost predicate ReviewsWellFormed(reviews: seq<Review>, nextId: Id) {
    && UniqueBy(reviews, ReviewPair)
    && forall i :: 0 <= i < |reviews| ==>
         reviews[i].movieId < nextId && Ratings.MinRating <= reviews[i].rating <= Ratings.MaxRating
  }

  /** Every movie's stored average is the one recomputed from its reviews. */
  ghost predicate AveragesCurrent(movies: seq<Movie>, reviews: seq<Review>) {
    forall i :: 0 <= i < |movies| ==> movies[i].averageRating == Ratings.MovieAverage(reviews, movies[i].id)
  }

  /** User ids, usernames and emails are each distinct. */
  ghost predicate UsersWellFormed(users: seq<User>) {
    UniqueBy(users, UserId) && UniqueBy(users, UserName) && UniqueBy(users, UserEmail)
  }

  /** A movie is on a user's watchlist at most once. The watchlist schema
      declares no unique index: only the handlers keep this. */
  ghost predicate WatchlistWellFormed(watchlist: seq<WatchlistEntry>) {
    UniqueBy(watchlist, EntryPair)
  }

  /** The invariant of the store, stated on the collections' values. */
  ghost predicate Consistent(movies: seq<Movie>, reviews: seq<Review>, users: seq<User>,
                             watchlist: seq<WatchlistEntry>, nextId: Id) {
    && MoviesWellFormed(movies, nextId)
    && ReviewsWellFormed(reviews, nextId)
    && AveragesCurrent(movies, reviews)
    && UsersWellFormed(users)
    && WatchlistWellFormed(watchlist)
  }

  class Database {
    var movies: seq<Movie>
    var reviews: seq<Review>
    var users: seq<User>
    var watchlist: seq<WatchlistEntry>
    /** The next identifier the datastore hands out. */
    var nextId: Id

    ghost predicate Valid()
      reads this
    {
      Consistent(movies, reviews, users, watchlist, nextId)
    }

    /** A store with the given accounts (registration is not part of this
        model) and no movies, reviews or watchlist entries. */
    constructor (initialUsers: seq<User>, firstId: Id)
      requires UsersWellFormed(initialUsers)
      ensures Valid()
      ensures movies == [] && reviews == [] && watchlist == []
      ensures users == initialUsers && nextId == firstId
    {
      movies, reviews, users, watchlist := [], [], initialUsers, [];
      nextId := firstId;
    }
  }
}
