/** The user handlers: profiles, profile updates, and the watchlist. Every
    handler but the profile view acts for the caller only: a path id other
    than the caller's id is refused with 403 before anything is looked up. */
module UserController {
  import opened Common
  import opened Records
  import opened Seqs
  import opened Sorting
  import opened Pagination
  import opened Store
  import MovieController

  const UserMissing := "User not found"
  const NotOwnProfile := "You can only update your own profile"
  const EmailTaken := "Email is already taken"
  const UsernameTaken := "Username is already taken"
  const NotOwnWatchlistView := "You can only view your own watchlist"
  const NotOwnWatchlistAdd := "You can only add to your own watchlist"
  const NotOwnWatchlistRemove := "You can only remove from your own watchlist"
  const MovieIdRequired := "Movie ID is required"
  const MovieMissing := "Movie not found"
  const AlreadyInWatchlist := "Movie is already in your watchlist"
  const NotInWatchlist := "Movie not found in watchlist"
  const Removed := "Movie removed from watchlist successfully"

  // ---------------------------------------------------------------------
  // Profiles
  // ---------------------------------------------------------------------

  function ByUser(userId: Id): Review -> bool { (r: Review) => r.userId == userId }

  datatype Profile = Profile(user: UserView, reviews: seq<Review>)

  /** GET /users/:id, open to any caller: the account without its password,
      and all of that user's reviews, newest first; 404 for an unknown id. */
  function GetUserProfile(users: seq<User>, reviews: seq<Review>, id: Id): (r: Response<Profile>)
    ensures r.Ok? <==> exists i :: 0 <= i < |users| && users[i].id == id
    ensures !r.Ok? ==> r == NotFound(UserMissing)
    ensures r.Ok? ==> exists i :: 0 <= i < |users| && users[i].id == id && r.value.user == View(users[i])
    ensures r.Ok? ==> multiset(r.value.reviews) == multiset(Filter(reviews, ByUser(id)))
    ensures r.Ok? ==> SortedBy(r.value.reviews, MovieController.ReviewTime, Desc)
  {
    match FindUser(users, id)
    case None => NotFound(UserMissing)
    case Some(k) => Ok(Profile(View(users[k]), SortBy(Filter(reviews, ByUser(id)), MovieController.ReviewTime, Desc)))
  }

  /** The fields of a profile update: "" for an absent or empty username or
      email, `None` for an absent profile picture. */
  datatype ProfileUpdate = ProfileUpdate(username: string, email: string, profilePicture: Option<string>)

  /** The `updateData` written to the account: username and email replace
      the old ones only when given non-empty, the profile picture whenever
      it is given, even empty; the id, password and join date stay. */
  function ApplyUpdate(u: User, upd: ProfileUpdate): (r: User)
    ensures r.username == (if upd.username != "" then upd.username else u.username)
    ensures r.email == (if upd.email != "" then upd.email else u.email)
    ensures r.profilePicture == (if upd.profilePicture.Some? then upd.profilePicture else u.profilePicture)
    ensures r.id == u.id && r.password == u.password && r.joinDate == u.joinDate
  {
    var u1 := if upd.username != "" then u.(username := upd.username) else u;
    var u2 := if upd.email != "" then u1.(email := upd.email) else u1;
    if upd.profilePicture.Some? then u2.(profilePicture := upd.profilePicture) else u2
  }

  /** Applying the same update twice changes nothing more. */
  lemma ApplyUpdateIdempotent(u: User, upd: ProfileUpdate)
    ensures ApplyUpdate(ApplyUpdate(u, upd), upd) == ApplyUpdate(u, upd)
  {
  }

  /** An update that supplies nothing leaves the account as it is. */
  lemma EmptyUpdateChangesNothing(u: User)
    ensures ApplyUpdate(u, ProfileUpdate("", "", None)) == u
  {
  }

  /** The conflict checks of a profile update, email first: a new email or
      username that some account already uses. Values equal to the current
      ones are not checked. */
  function UpdateConflict(users: seq<User>, u: User, upd: ProfileUpdate): Option<string> {
    if upd.email != "" && upd.email != u.email && FindUserByEmail(users, upd.email).Some? then Some(EmailTaken)
    else if upd.username != "" && upd.username != u.username && FindUserByUsername(users, upd.username).Some? then Some(UsernameTaken)
    else None
  }

  /** An update that passes the conflict checks keeps ids, usernames and
      emails distinct. */
  lemma UpdateKeepsUsersUnique(users: seq<User>, k: nat, upd: ProfileUpdate)
    requires UsersWellFormed(users) && k < |users|
    requires UpdateConflict(users, users[k], upd).None?
    ensures UsersWellFormed(users[k := ApplyUpdate(users[k], upd)])
  {
    var u := users[k];
    var u' := ApplyUpdate(u, upd);
    forall i | 0 <= i < |users| && i != k ensures UserId(users[i]) != UserId(u') {
      assert UserId(users[i]) != UserId(users[k]);
    }
    forall i | 0 <= i < |users| && i != k ensures UserName(users[i]) != UserName(u') {
      assert UserName(users[i]) != UserName(users[k]);
      if upd.username != "" && upd.username != u.username {
        assert !WithUsername(upd.username)(users[i]);
      }
    }
    forall i | 0 <= i < |users| && i != k ensures UserEmail(users[i]) != UserEmail(u') {
      assert UserEmail(users[i]) != UserEmail(users[k]);
      if upd.email != "" && upd.email != u.email {
        assert !WithEmail(upd.email)(users[i]);
      }
    }
    UniqueByUpdate(users, k, u', UserId);
    UniqueByUpdate(users, k, u', UserName);
    UniqueByUpdate(users, k, u', UserEmail);
  }

  /** PUT /users/:id by `callerId`. Refused with 403 for another user's
      profile, 404 for an unknown account, 400 for a taken email or
      username, each leaving the store as it was; otherwise only that
      account changes, by the partial-update rules. */
  method UpdateUserProfile(db: Database, id: Id, callerId: Id, upd: ProfileUpdate) returns (r: Response<UserView>)
    requires db.Valid()
    modifies db
    ensures db.Valid()
    ensures id != callerId ==> r == Forbidden(NotOwnProfile) && unchanged(db)
    ensures id == callerId && FindUser(old(db.users), id).None? ==> r == NotFound(UserMissing) && unchanged(db)
    ensures id == callerId && FindUser(old(db.users), id).Some? ==>
      var k := FindUser(old(db.users), id).value;
      match UpdateConflict(old(db.users), old(db.users)[k], upd)
      case Some(message) => r == BadRequest(message) && unchanged(db)
      case None =>
        && db.users == old(db.users)[k := ApplyUpdate(old(db.users)[k], upd)]
        && r == Ok(View(db.users[k]))
        && db.movies == old(db.movies) && db.reviews == old(db.reviews)
        && db.watchlist == old(db.watchlist) && db.nextId == old(db.nextId)
  {
    if id != callerId {
      return Forbidden(NotOwnProfile);
    }
    var found := FindUser(db.users, id);
    if found.None? {
      return NotFound(UserMissing);
    }
    var k := found.value;
    var user := db.users[k];
    if upd.email != "" && upd.email != user.email && FindUserByEmail(db.users, upd.email).Some? {
      return BadRequest(EmailTaken);
    }
    if upd.username != "" && upd.username != user.username && FindUserByUsername(db.users, upd.username).Some? {
      return BadRequest(UsernameTaken);
    }
    var updated := ApplyUpdate(user, upd);
    UpdateKeepsUsersUnique(db.users, k, upd);
    db.users := db.users[k := updated];
    r := Ok(View(updated));
  }

  // ---------------------------------------------------------------------
  // Watchlist
  // ---------------------------------------------------------------------

  function ByOwner(userId: Id): WatchlistEntry -> bool { (e: WatchlistEntry) => e.userId == userId }

  function DateAdded(e: WatchlistEntry): Key { Num(e.dateAdded) }

  /** A user's watchlist entries, most recently added first. */
  function OwnEntries(watchlist: seq<WatchlistEntry>, userId: Id): (r: seq<WatchlistEntry>)
    ensures multiset(r) == multiset(Filter(watchlist, ByOwner(userId)))
    ensures SortedBy(r, DateAdded, Desc)
    ensures forall e :: e in r ==> e in watchlist && e.userId == userId
  {
    var r := SortBy(Filter(watchlist, ByOwner(userId)), DateAdded, Desc);
    OwnEntriesMembers(watchlist, userId, r);
    r
  }

  lemma OwnEntriesMembers(watchlist: seq<WatchlistEntry>, userId: Id, r: seq<WatchlistEntry>)
    requires multiset(r) == multiset(Filter(watchlist, ByOwner(userId)))
    ensures forall e :: e in r ==> e in watchlist && e.userId == userId
  {
    forall e | e in r ensures e in watchlist && e.userId == userId {
      assert e in multiset(r);
      assert multiset(Filter(watchlist, ByOwner(userId)))[e] > 0;
    }
  }

  /** GET /users/:id/watchlist by `callerId`: 403 for another user's
      watchlist; otherwise one page of the user's own entries, most recent
      first, with a total that counts all of them. */
  function GetUserWatchlist(watchlist: seq<WatchlistEntry>, id: Id, callerId: Id, page: Option<int>, limit: Option<int>)
    : (r: Response<Page<WatchlistEntry>>)
    requires EffectivePage(page) >= 1 && EffectiveLimit(limit) >= 1
    ensures id != callerId ==> r == Forbidden(NotOwnWatchlistView)
    ensures id == callerId ==> r.Ok?
    ensures r.Ok? ==> |r.value.items| <= EffectiveLimit(limit)
    ensures r.Ok? ==> forall i :: 0 <= i < |r.value.items| ==> r.value.items[i] in watchlist && r.value.items[i].userId == id
    ensures r.Ok? ==> SortedBy(r.value.items, DateAdded, Desc)
    ensures r.Ok? ==> r.value.items == Paginate(OwnEntries(watchlist, id), EffectivePage(page), EffectiveLimit(limit))
    ensures r.Ok? ==> r.value.pagination.total == |Filter(watchlist, ByOwner(id))|
    ensures r.Ok? ==> r.value.pagination == Info(EffectivePage(page), EffectiveLimit(limit), r.value.pagination.total)
  {
    if id != callerId then Forbidden(NotOwnWatchlistView)
    else
      var all := OwnEntries(watchlist, id);
      WindowOfListing(all, EffectivePage(page), EffectiveLimit(limit), DateAdded, Desc);
      assert |multiset(all)| == |multiset(Filter(watchlist, ByOwner(id)))|;
      Ok(ListPage(all, EffectivePage(page), EffectiveLimit(limit)))
  }

  /** Each page request sorts the entries again, and two entries added at
      the same time may come back in either order: both orders are sorted
      most recent first, and then page 1 and page 2 of one entry each can
      both return the same entry. */
  lemma TiedEntriesSeenTwice(a: WatchlistEntry, b: WatchlistEntry)
    requires a.dateAdded == b.dateAdded
    ensures SortedBy([a, b], DateAdded, Desc) && SortedBy([b, a], DateAdded, Desc)
    ensures multiset([a, b]) == multiset([b, a])
    ensures Paginate([a, b], 1, 1) + Paginate([b, a], 2, 1) == [a, a]
  {
    TiedPairSortedBothWays(a, b, DateAdded, Desc);
    assert Paginate([a, b], 1, 1) == [a];
    assert Paginate([b, a], 2, 1) == [a];
  }

  /** POST /users/:id/watchlist by `callerId`. The checks come in this order
      and each refusal leaves the store as it was: ownership, a missing movie
      id, an unknown movie, the movie already on the watchlist. Otherwise
      exactly one entry for the pair is appended and nothing else changes. */
  method AddToWatchlist(db: Database, id: Id, callerId: Id, movieId: Option<Id>, now: int)
    returns (r: Response<WatchlistEntry>)
    requires db.Valid()
    modifies db
    ensures db.Valid()
    ensures id != callerId ==> r == Forbidden(NotOwnWatchlistAdd) && unchanged(db)
    ensures id == callerId && movieId.None? ==> r == BadRequest(MovieIdRequired) && unchanged(db)
    ensures id == callerId && movieId.Some? && FindMovie(old(db.movies), movieId.value).None? ==>
      r == NotFound(MovieMissing) && unchanged(db)
    ensures id == callerId && movieId.Some? && FindMovie(old(db.movies), movieId.value).Some?
            && FindEntry(old(db.watchlist), id, movieId.value).Some? ==>
      r == BadRequest(AlreadyInWatchlist) && unchanged(db)
    ensures id == callerId && movieId.Some? && FindMovie(old(db.movies), movieId.value).Some?
            && FindEntry(old(db.watchlist), id, movieId.value).None? ==>
      && r == Created(WatchlistEntry(old(db.nextId), id, movieId.value, now))
      && db.watchlist == old(db.watchlist) + [r.value]
      && db.movies == old(db.movies) && db.reviews == old(db.reviews) && db.users == old(db.users)
      && db.nextId == old(db.nextId) + 1
  {
    if id != callerId {
      return Forbidden(NotOwnWatchlistAdd);
    }
    if movieId.None? {
      return BadRequest(MovieIdRequired);
    }
    if FindMovie(db.movies, movieId.value).None? {
      return NotFound(MovieMissing);
    }
    if FindEntry(db.watchlist, id, movieId.value).Some? {
      return BadRequest(AlreadyInWatchlist);
    }
    var entry := WatchlistEntry(db.nextId, id, movieId.value, now);
    AppendKeepsPairsUnique(db.watchlist, entry);
    db.watchlist := db.watchlist + [entry];
    NextIdKeepsConsistent(db.movies, db.reviews, db.users, db.watchlist, db.nextId);
    db.nextId := db.nextId + 1;
    r := Created(entry);
  }

  lemma NextIdKeepsConsistent(movies: seq<Movie>, reviews: seq<Review>, users: seq<User>,
                              watchlist: seq<WatchlistEntry>, nextId: Id)
    requires MoviesWellFormed(movies, nextId) && ReviewsWellFormed(reviews, nextId)
    requires AveragesCurrent(movies, reviews) && UsersWellFormed(users) && WatchlistWellFormed(watchlist)
    ensures Consistent(movies, reviews, users, watchlist, nextId + 1)
  {
  }

  /** An entry for a pair not yet on the watchlist can be appended without
      breaking one-entry-per-pair. */
  lemma AppendKeepsPairsUnique(watchlist: seq<WatchlistEntry>, e: WatchlistEntry)
    requires WatchlistWellFormed(watchlist)
    requires FindEntry(watchlist, e.userId, e.movieId).None?
    ensures WatchlistWellFormed(watchlist + [e])
  {
    forall i | 0 <= i < |watchlist| ensures EntryPair(watchlist[i]) != EntryPair(e) {
      assert !EntryFor(e.userId, e.movieId)(watchlist[i]);
    }
    UniqueByAppend(watchlist, e, EntryPair);
  }

  /** DELETE /users/:id/watchlist/:movieId by `callerId`: 403 for another
      user's watchlist; otherwise the entry for the pair is deleted, or 404
      when there is none. Nothing else changes, and afterwards the pair is
      not on the watchlist. */
  method RemoveFromWatchlist(db: Database, id: Id, callerId: Id, movieId: Id) returns (r: Response<string>)
    requires db.Valid()
    modifies db
    ensures db.Valid()
    ensures id != callerId ==> r == Forbidden(NotOwnWatchlistRemove) && unchanged(db)
    ensures id == callerId && FindEntry(old(db.watchlist), id, movieId).None? ==>
      r == NotFound(NotInWatchlist) && unchanged(db)
    ensures id == callerId && FindEntry(old(db.watchlist), id, movieId).Some? ==>
      && r == Ok(Removed)
      && db.watchlist == RemoveAt(old(db.watchlist), FindEntry(old(db.watchlist), id, movieId).value)
      && db.movies == old(db.movies) && db.reviews == old(db.reviews) && db.users == old(db.users)
      && db.nextId == old(db.nextId)
    ensures id == callerId ==> FindEntry(db.watchlist, id, movieId).None?
  {
    if id != callerId {
      return Forbidden(NotOwnWatchlistRemove);
    }
    var found := FindEntry(db.watchlist, id, movieId);
    if found.None? {
      return NotFound(NotInWatchlist);
    }
    RemoveClearsPair(db.watchlist, id, movieId);
    db.watchlist := RemoveAt(db.watchlist, found.value);
    r := Ok(Removed);
  }

  /** Deleting the entry `findOneAndDelete` finds keeps one-entry-per-pair
      and leaves no entry for the pair: the pair may be added again. */
  lemma RemoveClearsPair(watchlist: seq<WatchlistEntry>, userId: Id, movieId: Id)
    requires WatchlistWellFormed(watchlist)
    requires FindEntry(watchlist, userId, movieId).Some?
    ensures var rest := RemoveAt(watchlist, FindEntry(watchlist, userId, movieId).value);
      WatchlistWellFormed(rest) && FindEntry(rest, userId, movieId).None?
  {
    var k := FindEntry(watchlist, userId, movieId).value;
    var rest := RemoveAt(watchlist, k);
    UniqueByRemove(watchlist, k, EntryPair);
    forall i | 0 <= i < |rest| ensures !EntryFor(userId, movieId)(rest[i]) {
      assert EntryPair(rest[i]) != EntryPair(watchlist[k]);
    }
  }

  /** Adding a pair and then removing it gives back the watchlist as it was. */
  lemma AddThenRemoveRestores(watchlist: seq<WatchlistEntry>, e: WatchlistEntry)
    requires FindEntry(watchlist, e.userId, e.movieId).None?
    ensures FindEntry(watchlist + [e], e.userId, e.movieId) == Some(|watchlist|)
    ensures RemoveAt(watchlist + [e], |watchlist|) == watchlist
  {
    var w := watchlist + [e];
    assert forall i :: 0 <= i < |watchlist| ==> w[i] == watchlist[i];
    assert EntryFor(e.userId, e.movieId)(w[|watchlist|]);
  }
}
