# Movie watchlist: client-side cache and view

A browser client keeps the signed-in user's movie rows in memory and shows
them filtered by a title search and sorted by one of three keys. This Dafny
project models that client state and proves what it guarantees:

- `movies.dfy` (module `Movies`): a cached row (`Movie`), the user id, and
  `Remote<T>`, the outcome of a remote call (`Ok(data)` or `Err(message)`).
- `text.dfy` (module `Text`): the string operations the client relies on.
  These are lower-casing (`toLowerCase`, ASCII letters only), substring
  search (`includes`) and `trim`, with ECMAScript's whitespace set.
- `view.dfy` (module `MovieView`): `getProcessedMovies` as pure functions
  (copy, filter, stable descending sort) and the heading `renderMovies`
  picks above the list. Functions cannot write the cache, so deriving the
  view never changes it.
- `cache.dfy` (module `MovieCache`): the list updates as functions
  (`WithWatched`, `WithoutId`, `PosterUrl`). Also the class `Watchlist`,
  which holds `currentUser` and `movies` (the source's module-level
  `currentUser` and `allMovies`). Its methods are the handlers that change
  them after a remote call has resolved. Each remote call is a parameter
  giving its outcome. Each handler returns the request it issued (`None`
  when it issued none), so "refused before any remote call" and "scoped to
  the id and the owner" are part of the contracts.
- `scenarios.dfy` (module `Scenarios`): the view on small concrete lists.

Two invariants of `Watchlist` are proved:

- `Valid()`: nothing is cached while nobody is signed in.
- `Owned()`: every cached row belongs to the signed-in user. This one holds
  only while the server returns rows that match the owner filter of the
  request. It does not survive a sign-in of a different user whose fetch
  fails. The handler keeps the previous cache then, and
  `HandleAuthStateChange` states exactly when the invariant holds.

Three behaviours of the code are worth noting:

- A null rating sorts as 0, not last. The comparator `b.rating - a.rating`
  (main.js:181) turns null into 0, so a null-rated row ties with a 0 rating
  and sorts above a negative one (`Scenarios.NullRatingTiesWithZero`).
- A toggle patches only the first cached entry with the id (main.js:261-262).
- Toggle and delete have no explicit "not signed in" guard. With nobody
  signed in, reading `currentUser.id` (main.js:255, 273) throws before any
  request is sent, so the model issues no request and changes nothing.

## Model

| member | source | states |
|---|---|---|
| `Text.Lower` | main.js:173 | lower-casing keeps the length, maps each upper-case ASCII letter to its lower-case partner, leaves no upper-case letter and changes no other character |
| `Text.LowerIgnoresCase` | main.js:173-175 | two strings that differ only in the case of letters lower-case to the same string |
| `Text.Contains` | main.js:175 | `includes` holds exactly when the pattern occurs at some position of the text |
| `Text.Trim` | main.js:298 | a string trims to "" exactly when all of its characters are JavaScript whitespace; a non-empty result neither starts nor ends with whitespace |
| `MovieView.ParseSortMode` | main.js:179-187 | "rating_desc" and "year_desc" choose their keys; every other value of the control falls back to id order |
| `MovieView.Compare` | main.js:179-187 | the comparator `b.key - a.key` puts `a` first exactly when its key is greater and ties exactly on equal keys; a null rating has key 0 |
| `MovieView.CompareIsConsistent` | main.js:181-186 | the comparator is antisymmetric and its order is transitive, so `sort` receives a consistent comparator |
| `MovieView.FilterByTitle` | main.js:173-176 | the survivors all match the query; every matching entry survives exactly as often as it is cached; never longer than the input |
| `MovieView.FilterIsSubseq` | main.js:175 | the filter keeps the survivors in cache order |
| `MovieView.FilterEmptyQueryKeepsAll` | main.js:173-176 | an empty query keeps every entry, so the `if (query)` guard changes nothing |
| `MovieView.Filtered` | main.js:170-176 | the filter step is a sublist of the cache holding each entry whose lower-cased title contains the lower-cased search, as often as it is cached, and no other; an empty search keeps the whole cache |
| `MovieView.QueryGuardNeutral` | main.js:173-176 | the filter step equals the plain title filter with the lower-cased search, so the `if (query)` guard changes nothing |
| `MovieView.SortDesc` | main.js:179-187 | the sorted list is a permutation of its input and non-increasing in the chosen key |
| `MovieView.InsertSorted` | main.js:179-187 | inserting into a non-increasing list keeps it non-increasing |
| `MovieView.SortStable` | main.js:179-187 | entries with equal keys keep their relative order through the sort |
| `MovieView.StableSortIsUnique` | main.js:179-187 | two non-increasing lists with the same entries of every key in the same order are equal |
| `MovieView.SortDescCharacterized` | main.js:179-187 | any sorted list that keeps equal keys in input order is `SortDesc` of the input, so every stable engine gives the modelled result |
| `MovieView.View` | main.js:169-190 | the view holds the filtered entries, each as often as the filter keeps it, arranged so the chosen key never increases |
| `MovieView.ViewSpec` | main.js:169-190 | the view is a permutation of a sublist of the cache. It is never longer than the cache and is all of it for an empty search. It holds exactly the matching entries, is non-increasing in the key, and is stable with respect to the filtered list |
| `MovieView.MatchIgnoresTitleCase` | main.js:173-175 | titles that differ only in letter case match the same searches |
| `MovieView.ViewIgnoresSearchCase` | main.js:173-176 | searches that differ only in letter case give the same view |
| `MovieView.HeadingFor` | main.js:196-204 | "list shown" iff the list is non-empty; "no search results" iff empty with search text; "list empty" iff empty without search text |
| `MovieView.HeadingText` | main.js:196-204 | "Daftar Film" iff the list is non-empty; "Tidak ada hasil pencarian" iff it is empty with search text; the empty-list text iff it is empty without search text |
| `MovieView.HeadingOfView` | main.js:192-204 | in terms of the cache: the list is shown iff some entry matches. "No results" iff the search is non-empty and nothing matches. "List empty" iff the search and the cache are both empty |
| `MovieCache.WithWatched` | main.js:261-262 | same length; only the first entry with the id gets the new flag, with all its other fields kept; every other entry is unchanged; an absent id changes nothing |
| `MovieCache.WithWatchedIdempotent` | main.js:250-263 | applying the same toggle result twice equals applying it once |
| `MovieCache.WithoutId` | main.js:279 | no survivor has the id; every other entry survives exactly as often as it was cached; an absent id changes nothing |
| `MovieCache.WithoutIdIsSubseq` | main.js:279 | the survivors of a delete keep their relative order |
| `MovieCache.WithoutIdKeepsOwner` | main.js:279 | a delete keeps the cache owned by the user who owned it |
| `MovieCache.DeleteThenToggle` | main.js:250-283 | a toggle that resolves after a delete of the same id leaves the cache without that id; a repeated delete changes nothing |
| `MovieCache.InsertedRowShownFirst` | main.js:319-321 | a prepended row whose id exceeds every cached id heads the default view |
| `MovieCache.PosterUrl` | main.js:296-300 | a poster field that is blank after trimming is stored as null; any other is stored as typed, untrimmed |
| `MovieCache.Watchlist.constructor` | main.js:8-9 | the page starts with no user and an empty cache |
| `MovieCache.Watchlist.Processed` | main.js:169-190 | the view of the current cache is a permutation of a sublist of it, the whole cache for an empty search. It holds exactly the cached entries that match the search and is sorted by the chosen key |
| `MovieCache.Watchlist.Heading` | main.js:192-204 | the heading for the current cache: "list empty" iff no search and no cached entry, "no results" iff a search that no cached title matches |
| `MovieCache.Watchlist.FetchMovies` | main.js:145-166 | without a user it issues nothing and changes nothing. Otherwise it queries the user's rows: on error the cache stays, on success it becomes the returned rows |
| `MovieCache.Watchlist.HandleAuthStateChange` | main.js:45-58 | a session sets the user and fetches; no session clears the user and empties the cache; states when ownership of the cache holds afterwards |
| `MovieCache.Watchlist.ToggleWatched` | main.js:250-265 | with a user it sends `is_watched = !currentStatus` scoped to the id and the user. On success the cache becomes `WithWatched`; on error, or with no user, nothing changes |
| `MovieCache.Watchlist.DeleteMovie` | main.js:267-283 | only when confirmed and signed in, it deletes scoped to the id and the user. On success the cache becomes `WithoutId`; otherwise nothing changes |
| `MovieCache.Watchlist.SubmitMovie` | main.js:285-327 | with no user it is refused before any request and nothing changes. Otherwise it inserts the form's row with the null-for-blank poster and the user's id. On success `data[0]` is prepended, or the list is fetched again when nothing was echoed. On error nothing changes |
| `Scenarios.RecentOrdersById` | main.js:184-187 | ids [3,1,2] are shown as [3,2,1] |
| `Scenarios.NullRatingBelowPositive` | main.js:180-181 | ratings [7, null, 3] are shown as [7, 3, null] |
| `Scenarios.NullRatingTiesWithZero` | main.js:180-181 | a null rating ties with 0 (cache order decides) and sorts above -1 |
| `Scenarios.SearchIgnoresCase` | main.js:173-176 | "CAT" finds "Cat People" and "Category 5" but not "Dogs", in cache order |
| `Scenarios.EmptyHeadings` | main.js:196-204 | an empty cache with no search gives "list empty"; a search with no match gives "no search results" |

## Left out

- Every call to the hosted backend (`createClient`, `auth.getSession`, `onAuthStateChange`, `signInWithPassword`, `signUp`, `signOut`, and `from('movies')` with `select`, `insert`, `update` and `delete`). These are foreign network calls. Each becomes a `Remote` parameter, and the server-side `order('id', …)` is only "whatever rows are returned".
- The login, register and logout handlers and `init` (main.js:34-43, 80-123) only call the identity service. Their effect on the cache reaches it through `HandleAuthStateChange`.
- DOM work: element lookups, `classList`, card markup (main.js:206-242), event wiring, the loading overlay and indicator, `movieForm.reset()`, `alert`. `confirm` is the boolean `confirmed`.
- `checkEmptyState` (main.js:135-143) is never called. It is not modelled.
- Interleaving of handlers around `await`, and double submission. Each handler is one atomic step taken after its call resolves.
- Floating point: `parseFloat` of the rating, NaN ratings and the numeric coercion of the string `year`. Ratings, years and ids are integers. A rating that does not parse is `None`, which is how NaN reaches the table (as null). A NaN key, which makes the comparator inconsistent, is not modelled.
- The form sends `year` as the typed string. The model takes the year already as a number.
- Object identity: `toggleWatched` mutates the row object in place, and rendered cards share that object. The model replaces the entry in the `movies` sequence, which cannot show aliasing.
- `Text.Lower`: lower-cases ASCII letters only, because `toLowerCase`'s full Unicode case mapping is not modelled.
- `MovieCache.Watchlist.SubmitMovie`: does not return the query of the fallback fetch it issues when the insert echoes no row. Only the effect of that fetch on the cache is stated.
