/** The documents the controllers read and write. */
module Records {
  import opened Common

  /** A catalog entry. `averageRating` is kept in tenths of a star (the
      stored value is that count divided by ten); `createdAt` and `updatedAt`
      are the datastore's timestamps. */
  datatype Movie = Movie(
    id: Id,
    title: string,
    genre: seq<string>,
    releaseYear: Option<int>,
    director: Option<string>,
    cast: seq<string>,
    synopsis: Option<string>,
    posterUrl: Option<string>,
    averageRating: int,
    createdAt: int,
    updatedAt: int)

  /** A user's rating of a movie, with its text and creation time. */
  datatype Review = Review(id: Id, userId: Id, movieId: Id, rating: int, reviewText: string, timestamp: int)

  /** An account. `password` is the stored hash, opaque here. */
  datatype User = User(
    id: Id,
    username: string,
    email: string,
    password: string,
    profilePicture: Option<string>,
    joinDate: int)

  /** A user as the profile handlers send it: every field but the password. */
  datatype UserView = UserView(id: Id, username: string, email: string, profilePicture: Option<string>, joinDate: int)

  function View(u: User): UserView {
    UserView(u.id, u.username, u.email, u.profilePicture, u.joinDate)
  }

  /** One movie on one user's watchlist. */
  datatype WatchlistEntry = WatchlistEntry(id: Id, userId: Id, movieId: Id, dateAdded: int)

  // Keys of the documents, for lookups and uniqueness.

  function MovieId(m: Movie): Id { m.id }
  function MovieTitle(m: Movie): string { m.title }
  function ReviewPair(r: Review): (Id, Id) { (r.userId, r.movieId) }
  function UserId(u: User): Id { u.id }
  function UserName(u: User): string { u.username }
  function UserEmail(u: User): string { u.email }
  function EntryPair(e: WatchlistEntry): (Id, Id) { (e.userId, e.movieId) }
}
