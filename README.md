# Movie catalog: verified model of the request handlers

This project models the core of a movie-catalog web application: the REST
handlers for movies, reviews, user profiles and watchlists, and the client's
movie-creation form. It is written in Dafny and proves properties of the model.

The datastore is modelled as four collections held by one `Store.Database`
object:

- `movies`
- `reviews`
- `users`
- `watchlist`

It also holds one id counter, `nextId`. `Valid()` is the datastore invariant:

- movie ids are unique, and every movie id was handed out before `nextId`;
- titles are unique;
- every review names a movie id handed out before `nextId`;
- a user reviews a movie at most once;
- user ids, usernames and emails are each unique;
- a pair (user, movie) appears on the watchlist at most once;
- every rating lies in 1..5;
- every movie's stored `averageRating` equals the rounded mean of its reviews.

The read handlers are functions over the collections:

- `GetMovies`
- `GetMovieById`
- `GetMovieReviews`
- `GetUserProfile`
- `GetUserWatchlist`

The write handlers are methods that change the store:

- `CreateMovie`
- `AddMovieReview`
- `UpdateUserProfile`
- `AddToWatchlist`
- `RemoveFromWatchlist`

Each write method states its checks in the order the source makes them. Every
refusal states its status and message and leaves the store unchanged. The
success path states the whole new store, and `Valid()` is preserved.

The datastore's query operators are modelled as follows:

- `find(filter)` is `Seqs.Filter`.
- `findOne` is `Seqs.FindFirst`.
- `findOneAndDelete` is `Seqs.RemoveAt` of the first match.
- `sort` is `Sorting.SortBy`. It compares keys in the datastore's order: missing < number < string, and strings by code point. Its result is proved to be sorted and a permutation of the input. Ties may come in any order.
- `skip`/`limit` is `Pagination.Paginate`.

`averageRating` is kept in tenths of a star, as an integer: `Math.round(mean * 10) / 10` is the count `(20 * sum + n) div (2 * n)` divided by ten.

The JavaScript string operations `trim`, `split(',')` and `join` are modelled
in `Strings`. Whitespace is the ECMAScript WhiteSpace and LineTerminator set.

Files:

- `common.dfy`: `Option` and the HTTP-style `Response`.
- `seqs.dfy`: filtering, finding, removal and uniqueness.
- `sorting.dfy`: key order and sorting.
- `pagination.dfy`: page defaults, windows and the `pagination` object.
- `strings.dfy`
- `records.dfy`: documents.
- `ratings.dfy`: the average.
- `store.dfy`: the `Database` class and its invariant.
- `movie_controller.dfy`
- `user_controller.dfy`
- `movie_form.dfy`: the client form.
- `scenarios.dfy`: request sequences with the answers the contracts fix.

Three facts about the code that the model keeps:

- `addMovieReview` checks the rating before it looks the movie up (lines 191-199), so a bad rating for an unknown movie gets 400.
- The rating check is only `!rating || rating < 1 || rating > 5`. It does not require an integer: a rating of 2.5 is accepted, stored and averaged. The model represents only integer ratings, so it checks a rating against 1..5 alone.
- Duplicate titles, reviews, watchlist entries, usernames and emails all answer 400.

## Model

| member | source | states |
|---|---|---|
| Pagination.EffectivePage | backend/controllers/movieController.js:6 | `parseInt(page) \|\| 1`: a missing, unparsable or zero page becomes 1, any other value is kept |
| Pagination.EffectiveLimit | backend/controllers/movieController.js:7 | `parseInt(limit) \|\| 10`: a missing, unparsable or zero limit becomes 10, any other value is kept |
| Pagination.Skip | backend/controllers/movieController.js:8 | `(page - 1) * limit` |
| Pagination.TotalPages | backend/controllers/movieController.js:42 | `ceil(total / limit)`: the fewest pages of `limit` that hold `total` documents |
| Pagination.Paginate | backend/controllers/movieController.js:35-38 | the page holds at most `limit` documents; its exact length; its k-th document is listing document `(page-1)*limit + k` |
| Pagination.Info | backend/controllers/movieController.js:44-52 | `hasNext` holds iff documents remain after this page; `hasPrev` iff page > 1; `totalPages` bounds the total from both sides |
| Pagination.HasNextMeansMore | backend/controllers/movieController.js:50 | `page < totalPages` iff `page * limit < total` |
| Pagination.PageEmptyIffBeyondLast | backend/controllers/movieController.js:35-42 | a page is non-empty iff its number is at most `totalPages` |
| Pagination.WindowOfListing | backend/controllers/movieController.js:35-38 | a page holds documents of the listing, and a page of a sorted listing is sorted |
| Pagination.WalkFromFirstPage | backend/controllers/movieController.js:44-52 | following `hasNext` from page 1 returns the whole listing, each document once, in order |
| Pagination.TwentyFiveMatches | backend/controllers/movieController.js:41-52 | 25 matches with limit 10: 3 pages; page 1 has a next and no previous page; page 3 has the last 5 |
| Seqs.Filter | backend/controllers/movieController.js:35 | `find(filter)`: only matching documents, each as often as in the collection |
| Seqs.FilterAppend | backend/controllers/movieController.js:35 | filtering distributes over concatenation, so it keeps the collection's order |
| Seqs.FilterSameMultiset | backend/controllers/movieController.js:218 | filtering the same multiset of documents gives the same multiset |
| Seqs.FindFirst | backend/controllers/movieController.js:111 | `findOne`: none iff no document matches, otherwise the first match |
| Seqs.RemoveAt | backend/controllers/userController.js:207-210 | deleting one document: the rest keep their order, and the multiset loses exactly that document |
| Seqs.UniqueByAppend | backend/controllers/movieController.js:110-126 | appending a document whose key is new keeps keys unique |
| Seqs.UniqueByRemove | backend/controllers/userController.js:207-210 | deleting a document keeps keys unique, and its key no longer occurs |
| Sorting.LexLeqTotal | backend/controllers/movieController.js:36 | string order is total |
| Sorting.LexLeqTransitive | backend/controllers/movieController.js:36 | string order is transitive |
| Sorting.LexLeqAntisymmetric | backend/controllers/movieController.js:36 | string order is antisymmetric |
| Sorting.KeyLeqTotal | backend/controllers/movieController.js:36 | the datastore's value order is total |
| Sorting.KeyLeqTransitive | backend/controllers/movieController.js:36 | the datastore's value order is transitive |
| Sorting.KeyLeqAntisymmetric | backend/controllers/movieController.js:36 | two values that are each at most the other are equal |
| Sorting.Insert | backend/controllers/movieController.js:36 | inserting into a sorted listing keeps it sorted and adds exactly that document |
| Sorting.SortBy | backend/controllers/movieController.js:36 | `sort`: the result is sorted by the key in the direction, and is a permutation of the input |
| Sorting.SortedUnique | backend/controllers/movieController.js:36 | when no two different elements share a key, any two sorted permutations are equal |
| Sorting.TiedPairSortedBothWays | backend/controllers/movieController.js:36 | two elements with the same key are sorted in either order |
| Strings.Trim | frontend/src/components/MovieForm.jsx:53 | `trim()`: the result has no leading or trailing whitespace, uses only the input's characters, is the input when already trimmed, and is empty iff the input is all whitespace |
| Strings.TrimLeadingWhitespace | frontend/src/components/MovieForm.jsx:53 | leading whitespace does not change the trimmed text |
| Strings.TrimTrailingWhitespace | frontend/src/components/MovieForm.jsx:53 | trailing whitespace does not change the trimmed text |
| Strings.Split | backend/controllers/movieController.js:14 | `split(',')`: at least one piece, and no piece contains the separator |
| Strings.SplitAround | frontend/src/components/MovieForm.jsx:52 | splitting at an occurrence of the separator splits the two sides independently |
| Strings.SplitAppendChar | frontend/src/components/MovieForm.jsx:52 | a character other than the separator extends the last piece |
| Strings.JoinSplit | frontend/src/components/MovieForm.jsx:52 | joining the pieces of a split with the separator gives back the text |
| Strings.SplitJoin | frontend/src/components/MovieForm.jsx:195 | splitting a join of one or more separator-free pieces gives back the pieces (`Split(Join([]))` is `[""]`) |
| Strings.Join | frontend/src/components/MovieForm.jsx:195 | `join(sep)`: the parts with `sep` between each two |
| Ratings.RoundedMeanTenths | backend/controllers/movieController.js:219-222 | the stored value rounds 10 × mean half up: `2n·r ≤ 20·sum + n < 2n·r + 2n`; 0 with no reviews |
| Ratings.RatingSum | backend/controllers/movieController.js:219 | the `reduce` total of the ratings |
| Ratings.MovieAverage | backend/controllers/movieController.js:218-222 | the stored value: the rounded mean, in tenths, of the ratings of the movie's reviews, 0 when it has none |
| Ratings.RatingSumAppend | backend/controllers/movieController.js:219 | the rating total of two lists is the sum of their totals |
| Ratings.RatingSumPermutation | backend/controllers/movieController.js:219 | the rating total does not depend on the order of the reviews |
| Ratings.MovieAverageOfMultiset | backend/controllers/movieController.js:218-222 | the recomputed average depends only on the multiset of reviews, not on their order in the collection |
| Ratings.MovieReviewsAppend | backend/controllers/movieController.js:218 | a new review joins the review list of its own movie, and of no other |
| Ratings.MovieAverageOtherMovie | backend/controllers/movieController.js:218-222 | a review of one movie leaves every other movie's average unchanged |
| Ratings.RatingSumBounds | backend/controllers/movieController.js:219 | ratings in lo..hi give a total between n·lo and n·hi |
| Ratings.RoundedMeanBounds | backend/controllers/movieController.js:222 | rounding keeps a mean of lo..hi within 10·lo..10·hi tenths |
| Ratings.MovieAverageWithin | backend/controllers/movieController.js:191-222 | ratings in lo..hi give an average within lo..hi |
| Ratings.ThreeThenFour | backend/controllers/movieController.js:219-222 | ratings 5, 4, 3 average 4.0; adding a 2 gives 3.5 |
| Store.Database.constructor | backend/server.js:19-26 | a new store has no movies, reviews or watchlist entries, and holds the given accounts; it satisfies the invariant |
| Store.Database.Valid | backend/controllers/movieController.js:110-222 | the invariant the handlers keep: unique movie ids and titles, ids below `nextId`, one review per user and movie, ratings in 1..5, current averages, unique user ids, usernames and emails, one watchlist entry per pair |
| MovieController.Listing | backend/controllers/movieController.js:11-36 | the listing is a permutation of the matching movies, sorted by the requested key and direction; every entry is a stored movie that passes every filter |
| MovieController.Matches | backend/controllers/movieController.js:13-23 | every filter present must hold: a movie tag among the requested tags, the exact year, and an average of at least `minRating` |
| MovieController.SortKey | backend/controllers/movieController.js:26-33 | the field value a movie is sorted by, null when the field is absent |
| MovieController.SortFieldOf | backend/controllers/movieController.js:26-33 | the requested field, or `createdAt` without `sortBy` |
| MovieController.DirectionOf | backend/controllers/movieController.js:26-33 | descending iff `sortOrder` is exactly "desc", or without `sortBy`; ascending otherwise |
| MovieController.SortedFilterMembers | backend/controllers/movieController.js:35-36 | every document of a sorted `find` result is in the collection and matches |
| MovieController.GetMovies | backend/controllers/movieController.js:4-53 | at most `limit` movies, all stored and matching, in order; the window `skip(...).limit(...)` of the listing; `totalMovies` counts every match; the `pagination` object |
| MovieController.EveryMatchListedOnce | backend/controllers/movieController.js:35-52 | when no two matching movies share a sort key, every page request returns the page of `Listing`, whatever order the datastore chooses, so a client that follows `hasNext` from page 1 sees every matching movie exactly once |
| MovieController.ListingDeterminedByKeys | backend/controllers/movieController.js:35-36 | with distinct sort keys, every sorted permutation of the matches the datastore may return is `Listing` |
| MovieController.TiedMoviesSeenTwice | backend/controllers/movieController.js:35-38 | two matching movies with tied keys may come as [a, b] on one request and [b, a] on the next, so pages 1 and 2 with limit 1 both show `a` |
| MovieController.GenreFilterIntersects | backend/controllers/movieController.js:13-15 | `genre=Action,Comedy` lists a movie iff it has either tag |
| MovieController.TwoGenreTags | backend/controllers/movieController.js:14 | two comma-free tags separated by a comma are requested as exactly those two tags |
| MovieController.ReviewsNewestFirst | backend/controllers/movieController.js:73-75 | a movie's reviews are a permutation of its reviews in the collection, newest first |
| MovieController.GetMovieById | backend/controllers/movieController.js:62-81 | 200 iff a movie has the id, with that movie and its reviews newest first; otherwise 404 "Movie not found" |
| MovieController.GetMovieReviews | backend/controllers/movieController.js:140-172 | 404 iff the movie is unknown; otherwise one page of its reviews, sorted newest first, with a total that counts all of them (one fixed order of tied timestamps) |
| MovieController.TiedReviewsSeenTwice | backend/controllers/movieController.js:153-157 | two reviews with the same timestamp are sorted newest first in either order, so pages 1 and 2 with limit 1 can both show the same review |
| MovieController.CreateMovie | backend/controllers/movieController.js:93-131 | 400 for a missing title, 400 for a duplicate title, store unchanged on both; otherwise exactly one movie is appended, with empty genre and cast when absent and average 0 |
| MovieController.TitleMissing | backend/controllers/movieController.js:106 | `!title`: the title is empty |
| MovieController.NewMovie | backend/controllers/movieController.js:116-124 | the new document: the given fields, empty genre and cast when absent, average 0 |
| MovieController.OrEmpty | backend/controllers/movieController.js:118-121 | `genre \|\| []`, `cast \|\| []` |
| MovieController.NoReviewsYet | backend/models/Movie.js:26-29 | a new movie has no reviews, so the default average 0 is its current average |
| MovieController.NewMovieKeepsConsistent | backend/controllers/movieController.js:110-126 | appending a movie with a title not yet in the catalog, under the next id, keeps the store invariant |
| MovieController.AddMovieReview | backend/controllers/movieController.js:184-230 | checks the rating range, then the movie, then an earlier review by the same user, leaving the store unchanged on each refusal; on success it appends the review, stores only that movie's recomputed average, and the average lies in 1.0..5.0 |
| MovieController.RatingAccepted | backend/controllers/movieController.js:191 | the rating is present and in 1..5 |
| MovieController.TextOrEmpty | backend/controllers/movieController.js:212 | `reviewText \|\| ''` |
| MovieController.InsertReview | backend/controllers/movieController.js:208-222 | stores the review and only the reviewed movie's recomputed average, keeps the store invariant, and the average lies in 1.0..5.0 |
| MovieController.ReviewKeepsConsistent | backend/controllers/movieController.js:201-222 | adding a first review by a user and recomputing the average keeps the store invariant |
| MovieController.RecomputedAverage | backend/controllers/movieController.js:218-222 | after the recomputation, every movie's stored average is current |
| MovieController.AverageInRange | backend/controllers/movieController.js:191-222 | a movie with at least one review averages 1.0..5.0 |
| UserController.GetUserProfile | backend/controllers/userController.js:5-25 | 200 iff the account exists, with the account minus its password, and its reviews newest first; otherwise 404 "User not found" |
| Records.View | backend/controllers/userController.js:10 | `select('-password')`: the account without its password |
| UserController.ApplyUpdate | backend/controllers/userController.js:70-80 | a non-empty username or email replaces the old one; a given profile picture replaces the old one; id, password and join date stay |
| UserController.UpdateConflict | backend/controllers/userController.js:54-68 | a changed email taken by an account answers "Email is already taken", checked first; then a changed username taken answers "Username is already taken" |
| UserController.ApplyUpdateIdempotent | backend/controllers/userController.js:71-74 | applying the same update twice is the same as applying it once |
| UserController.EmptyUpdateChangesNothing | backend/controllers/userController.js:71-74 | an update with no fields leaves the account as it is |
| UserController.UpdateKeepsUsersUnique | backend/controllers/userController.js:54-68 | an update that passes the email and username checks keeps ids, usernames and emails unique |
| UserController.UpdateUserProfile | backend/controllers/userController.js:37-85 | 403 for another user's profile, then 404, 400 for a taken email, 400 for a taken username, each leaving the store unchanged; otherwise only that account changes |
| UserController.OwnEntries | backend/controllers/userController.js:111-113 | the watchlist listing is a permutation of the user's own entries, most recent first |
| UserController.OwnEntriesMembers | backend/controllers/userController.js:111 | every listed entry is a stored entry of that user |
| UserController.GetUserWatchlist | backend/controllers/userController.js:97-130 | 403 for another user's watchlist; otherwise at most `limit` of the user's own entries, most recent first, with a total that counts all of them (one fixed order of tied `dateAdded`) |
| UserController.TiedEntriesSeenTwice | backend/controllers/userController.js:111-115 | two entries with the same `dateAdded` are sorted most recent first in either order, so pages 1 and 2 with limit 1 can both show the same entry |
| UserController.AddToWatchlist | backend/controllers/userController.js:142-184 | 403, then 400 for a missing movie id, 404, 400 for an entry already there, store unchanged on each; otherwise exactly one entry for the pair is appended |
| UserController.AppendKeepsPairsUnique | backend/controllers/userController.js:164-176 | appending an entry for a pair not on the watchlist keeps one entry per pair |
| UserController.RemoveFromWatchlist | backend/controllers/userController.js:196-218 | 403 for another user's watchlist; 404 when the pair is not there; otherwise that entry is deleted, and afterwards the pair is not on the watchlist |
| UserController.RemoveClearsPair | backend/controllers/userController.js:207-214 | deleting the first entry for a pair keeps one entry per pair, and leaves none for that pair |
| UserController.AddThenRemoveRestores | backend/controllers/userController.js:165-210 | adding a new pair and then removing it gives back the watchlist as it was |
| MovieForm.KeepNames | frontend/src/components/MovieForm.jsx:53-54 | every kept piece is non-empty and has no leading or trailing whitespace |
| MovieForm.KeptName | frontend/src/components/MovieForm.jsx:53-54 | one piece gives at most one name, which is non-empty and trimmed |
| MovieForm.KeepNamesAppend | frontend/src/components/MovieForm.jsx:53-54 | trimming and dropping empty pieces distributes over concatenation |
| MovieForm.KeepNamesCommaFree | frontend/src/components/MovieForm.jsx:52-54 | trimming comma-free pieces gives comma-free names |
| MovieForm.ParseCast | frontend/src/components/MovieForm.jsx:50-54 | every parsed entry is non-empty, has no leading or trailing whitespace, and contains no comma |
| MovieForm.ParseAround | frontend/src/components/MovieForm.jsx:51-54 | the entries before a comma come first, in order, then those after it |
| MovieForm.ParseLeadingWhitespace | frontend/src/components/MovieForm.jsx:53 | whitespace before the text does not change the parse |
| MovieForm.ParseTrailingWhitespace | frontend/src/components/MovieForm.jsx:53 | whitespace after the text does not change the parse |
| MovieForm.ParseCommaAtEnd | frontend/src/components/MovieForm.jsx:52-54 | a comma after the text does not change the parse |
| MovieForm.ParseSeparatorAtEnd | frontend/src/components/MovieForm.jsx:52-54 | a comma or a whitespace character after the text does not change the parse |
| MovieForm.ParseSingle | frontend/src/components/MovieForm.jsx:51-54 | a single cast name parses to itself |
| MovieForm.ParseEmpty | frontend/src/components/MovieForm.jsx:51-54 | the empty text parses to the empty cast |
| MovieForm.ParseSeparatorsOnly | frontend/src/components/MovieForm.jsx:51-54 | text made only of commas and whitespace parses to the empty cast |
| MovieForm.ParseJoinRoundTrip | frontend/src/components/MovieForm.jsx:195 | parsing `cast.join(', ')` gives back `cast` when every entry is a cast name |
| MovieForm.ParseJoinStable | frontend/src/components/MovieForm.jsx:195 | showing a parsed cast and parsing it again changes nothing |
| MovieForm.HandleCastChange | frontend/src/components/MovieForm.jsx:50-60 | the cast becomes the parse of the typed text, and no other form field changes |
| MovieForm.ShownText | frontend/src/components/MovieForm.jsx:195 | the text the cast input shows, `cast.join(', ')` |
| MovieForm.TypedSeparatorVanishes | frontend/src/components/MovieForm.jsx:195 | typing a comma or a blank at the end of the field leaves the form, and the shown text, as before |
| MovieForm.TomThenBlankThenH | frontend/src/components/MovieForm.jsx:50-60 | with "Tom" in the field, typing " " shows "Tom" again, and then typing "H" gives the cast ["TomH"] |
| MovieForm.FieldCast | frontend/src/components/MovieForm.jsx:50-54 | the corrected field's cast consists of cast names |
| MovieForm.TypeCharsAppends | frontend/src/components/MovieForm.jsx:192-196 | the corrected field holds exactly the keys typed into it |
| MovieForm.TypingNamesGivesNames | frontend/src/components/MovieForm.jsx:195 | typing `names.join(', ')` key by key into the corrected field shows that text and yields `names` |
| MovieForm.HandleSubmit | frontend/src/components/MovieForm.jsx:81-90 | an empty title shows "Title is required" and sends nothing; any other form is sent whole, and passes the server's title check |
| MovieForm.ClientTitleCheckMatchesServer | frontend/src/components/MovieForm.jsx:81-84 | the client refuses exactly the titles that the server's `!title` check refuses |
| Scenarios.InceptionStore | backend/controllers/movieController.js:106-126 | creating "Inception" in an empty store gives it id 10 and average 0; creating it again is refused |
| Scenarios.RefusedReviews | backend/controllers/movieController.js:191-205 | a second review by the same user, a rating of 6 and an unknown movie are refused, and the store is unchanged |
| Scenarios.SecondReview | backend/controllers/movieController.js:218-222 | after ratings 5 and 4 the stored average is 4.5 |
| Scenarios.TwoReviewsAverage | backend/controllers/movieController.js:219-222 | ratings 5 and 4 average 45 tenths |
| Scenarios.RefusedProfileUpdates | backend/controllers/userController.js:44-68 | taking another user's email or username, or editing another user's profile, is refused, and the store is unchanged |

## Left out

- Populated joins (`populate(...)`) are not modelled. Responses carry the stored ids, not the joined user or movie summaries.
- Malformed ids (`CastError`, 400 "Invalid ... ID") and the generic 500 answers are not modelled. Ids are natural numbers, and datastore failures are outside the model.
- Concurrency is not modelled. Each handler runs alone, so the check-then-insert races on duplicates are not represented.
- Floating point is not modelled:
  - `averageRating` is exact integer tenths, so the double rounding of `Math.round(avg * 10) / 10` is not represented.
  - `minRating` is given in tenths.
  - The `year` filter is an integer, or absent.
  - Ratings are integers. The handler also accepts a non-integer rating such as 2.5 and averages it with the rest; such ratings are not represented.
- Pages and limits below 1 are not modelled. `GetMovies`, `GetMovieReviews` and `GetUserWatchlist` require the effective page and limit to be at least 1. A negative page gives a negative `skip`, which the datastore rejects. A negative limit is not an error: the datastore returns a single batch of at most |limit| documents. So `?limit=-5` on page 1 answers 200 with up to 5 items and a `totalPages` of `Math.ceil(total / -5)`, which is 0 or negative. The model does not represent that answer.
- MovieController.EveryMatchListedOnce: the claim that paging sees every match once is proved only when the matching movies' sort keys are distinct. Each page request runs the query again, and the datastore may order movies with tied keys differently each time. `MovieController.TiedMoviesSeenTwice` shows two tied movies where page 1 and page 2 both return the same movie. `GetMovies` fixes one of the permitted orders, `Listing`.
- MovieController.GetMovieReviews, UserController.GetUserWatchlist: each fixes one permitted order of reviews with tied `timestamp`, or of entries with tied `dateAdded`. Each page request sorts again (movieController.js line 155, userController.js line 113), and the datastore may order tied documents differently each time, so a tied review or entry can appear on two pages or on none. `MovieController.TiedReviewsSeenTwice` and `UserController.TiedEntriesSeenTwice` exhibit this. The page items are stated as a window of `ReviewsNewestFirst` and `OwnEntries`, which is exact only when the timestamps are distinct.
- `sortBy` is a closed set of movie fields (`MovieController.SortField`). Sorting by an arbitrary or unknown field name is not modelled.
- The `genre` query is a single comma-separated string. A repeated `genre` parameter, which arrives as an array, is not modelled.
- Poster upload (`uploadPoster`), registration, login and token checking are not modelled. The caller's id is a parameter of each handler, and the accounts are given to the store's constructor.
- Timestamps are not modelled as datastore fields:
  - `now` is a parameter of each write;
  - the watchlist's `createdAt`/`updatedAt` and the user's `updatedAt` are not stored;
  - `CreateMovie` sets both movie timestamps to `now`;
  - the review update changes only the movie's `updatedAt`.
- The datastore's schema validators (`runValidators`) are not modelled, and nor is the `select('-__v')` projection.
- A `null` profile picture, which the handler would store as given, is not distinguished from a string: `ProfileUpdate.profilePicture` is `Option<string>`, absent or a string.
- The React state, rendering, the genre selector, the poster upload callback and the network call after `createMovie` are not modelled. `HandleSubmit` ends with the request the form sends.
- The Review model's schema is not part of this model. The handler checks a rating only against 1..5, and so does the model.

## Findings

| source | as written | input that shows it | evidently intended | confidence | as-written member | corrected member |
|---|---|---|---|---|---|---|
| frontend/src/components/MovieForm.jsx:50-60 | The cast input (line 195) is a controlled field. It shows `cast.join(', ')`, and each change stores only the parsed list. So a comma or a blank typed at the end of the field is trimmed away or dropped at once, and the field shows the old text again. | With cast `["Tom"]` the field shows "Tom". Typing a blank sends "Tom ", which parses to `["Tom"]`, and the field shows "Tom" again. Typing "H" next gives `["TomH"]`. A comma typed after "Tom" vanishes the same way. | Typing "Tom Hanks, Meryl Streep" key by key shows that text and yields `["Tom Hanks", "Meryl Streep"]` (the placeholder "Actor 1, Actor 2, Actor 3" invites exactly that) | high, not executed | MovieForm.TypedSeparatorVanishes | MovieForm.TypingNamesGivesNames |

The corrected field, `MovieForm.CastField`, keeps the typed text and parses
the cast from it. Submission (`MovieForm.HandleSubmit`) consumes the parsed
list either way.
