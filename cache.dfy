/** The client's session state: the signed-in user and the cached list of
    that user's movies (`currentUser` and `allMovies`, main.js:8-9), and the
    handlers that update them once a remote call has resolved. Each remote
    call is a parameter giving what it resolved to; each handler returns the
    request it issued, or None when it issued none. */
module MovieCache {
  import opened Movies
  import opened Text
  import MovieView

  /** The scope of an update or delete: `.eq('id', id).eq('user_id', user)`. */
  datatype RowFilter = RowFilter(id: int, userId: UserId)

  /** The update a toggle sends: `{ is_watched }` on the rows `row` selects. */
  datatype WatchedUpdate = WatchedUpdate(row: RowFilter, isWatched: bool)

  /** What the movie form holds when it is submitted; `rating` is None when
      the rating field does not parse as a number. */
  datatype MovieForm = MovieForm(title: string, year: int, rating: Option<int>, poster: string)

  /** The row the form handler inserts. */
  datatype NewMovie = NewMovie(
    title: string,
    year: int,
    rating: Option<int>,
    posterUrl: Option<string>,
    userId: UserId)

  // ------------------------------------------------------- cache updates

  /** The entry at `j` is the first one in `s` whose id is `id`. */
  ghost predicate IsFirstWithId(s: seq<Movie>, id: int, j: int) {
    0 <= j < |s| && s[j].id == id && forall k :: 0 <= k < j ==> s[k].id != id
  }

  /** `allMovies.find(m => m.id === id)` and, when an entry is found,
      `movie.is_watched = watched` on it. */
  function WithWatched(s: seq<Movie>, id: int, watched: bool): (r: seq<Movie>)
    ensures |r| == |s|
    ensures forall j :: 0 <= j < |s| ==>
              r[j] == if IsFirstWithId(s, id, j) then s[j].(isWatched := watched) else s[j]
    ensures (forall j :: 0 <= j < |s| ==> s[j].id != id) ==> r == s
  {
    if s == [] then []
    else if s[0].id == id then [s[0].(isWatched := watched)] + s[1..]
    else
      var rest := WithWatched(s[1..], id, watched);
      assert forall j :: 1 <= j < |s| ==> (IsFirstWithId(s, id, j) <==> IsFirstWithId(s[1..], id, j - 1));
      [s[0]] + rest
  }

  /** Setting the same flag twice is setting it once: a double click on the
      same rendered button sends the same value twice. */
  lemma {:induction false} WithWatchedIdempotent(s: seq<Movie>, id: int, watched: bool)
    ensures WithWatched(WithWatched(s, id, watched), id, watched) == WithWatched(s, id, watched)
  {
    if s != [] && s[0].id != id {
      WithWatchedIdempotent(s[1..], id, watched);
    }
  }

  /** `allMovies.filter(m => m.id !== id)`. */
  function WithoutId(s: seq<Movie>, id: int): (r: seq<Movie>)
    ensures forall j :: 0 <= j < |r| ==> r[j].id != id
    ensures forall m :: multiset(r)[m] == if m.id == id then 0 else multiset(s)[m]
    ensures (forall j :: 0 <= j < |s| ==> s[j].id != id) ==> r == s
  {
    if s == [] then []
    else
      assert s == [s[0]] + s[1..];
      if s[0].id == id then WithoutId(s[1..], id)
      else [s[0]] + WithoutId(s[1..], id)
  }

  /** The survivors of a delete keep their relative order. */
  lemma {:induction false} WithoutIdIsSubseq(s: seq<Movie>, id: int)
    ensures IsSubseq(WithoutId(s, id), s)
  {
    if s != [] {
      WithoutIdIsSubseq(s[1..], id);
      var r := WithoutId(s, id);
      if s[0].id != id {
        assert r[0] == s[0] && r[1..] == WithoutId(s[1..], id);
      } else if r != [] {
        assert IsSubseq(r, s[1..]);
      }
    }
  }

  /** A delete keeps only rows that were cached, so it keeps them all the user's. */
  lemma {:induction false} WithoutIdKeepsOwner(s: seq<Movie>, id: int, user: UserId)
    requires OwnedBy(s, user)
    ensures OwnedBy(WithoutId(s, id), user)
  {
    if s != [] {
      WithoutIdKeepsOwner(s[1..], id, user);
    }
  }

  /** A toggle that resolves after a delete of the same id finds nothing to
      patch: the cache stays without that id and nothing fails. */
  lemma DeleteThenToggle(s: seq<Movie>, id: int, watched: bool)
    ensures WithWatched(WithoutId(s, id), id, watched) == WithoutId(s, id)
    ensures WithoutId(WithoutId(s, id), id) == WithoutId(s, id)
  {
  }

  /** After a successful insert, the echoed row heads the default view
      when its server-assigned id is the largest, as for a fresh row. */
  lemma {:induction false} InsertedRowShownFirst(row: Movie, s: seq<Movie>, sortBy: string)
    requires MovieView.ParseSortMode(sortBy) == MovieView.Recent
    requires forall j :: 0 <= j < |s| ==> s[j].id < row.id
    ensures |MovieView.View([row] + s, "", sortBy)| == |s| + 1
    ensures MovieView.View([row] + s, "", sortBy)[0] == row
  {
    var c := [row] + s;
    assert c[0] == row && c[1..] == s;
    var t := MovieView.SortDesc(MovieView.Recent, s);
    assert |t| == |multiset(t)| == |multiset(s)| == |s|;
    if t != [] {
      assert t[0] in multiset(s);
    }
  }

  /** `poster.trim() === "" ? null : poster`: a blank poster field is stored
      as null, any other is stored as typed (untrimmed). */
  function PosterUrl(poster: string): (p: Option<string>)
    ensures p == None <==> AllWhitespace(poster)
    ensures p != None ==> p.value == poster
  {
    if Trim(poster) == "" then None else Some(poster)
  }

  /** The rows a remote read returned belong to `user`, as the owner filter
      of the request asks. */
  ghost predicate Honours(outcome: Remote<seq<Movie>>, user: Option<UserId>) {
    user.Some? && outcome.Ok? ==> OwnedBy(outcome.value, user.value)
  }

  // ------------------------------------------------------- session state

  class Watchlist {
    var currentUser: Option<UserId>
    var movies: seq<Movie>

    /** Nothing is cached while nobody is signed in. */
    ghost predicate Valid()
      reads this
    {
      currentUser.None? ==> movies == []
    }

    /** Every cached row belongs to the signed-in user. */
    ghost predicate Owned()
      reads this
    {
      currentUser.Some? ==> OwnedBy(movies, currentUser.value)
    }

    /** The state at page load (main.js:8-9). */
    constructor ()
      ensures Valid() && Owned()
      ensures currentUser == None && movies == []
    {
      currentUser := None;
      movies := [];
    }

    /** `getProcessedMovies()` over the current cache. */
    function Processed(search: string, sortBy: string): (r: seq<Movie>)
      reads this
      ensures multiset(r) <= multiset(movies)
      ensures |r| <= |movies|
      ensures search == "" ==> multiset(r) == multiset(movies)
      ensures forall m :: m in r <==> m in movies && MovieView.Matches(m, Lower(search))
      ensures MovieView.NonIncreasing(MovieView.ParseSortMode(sortBy), r)
    {
      MovieView.ViewSpec(movies, search, sortBy);
      MovieView.View(movies, search, sortBy)
    }

    /** The heading `renderMovies` shows for the current cache. */
    function Heading(search: string, sortBy: string): (h: MovieView.Heading)
      reads this
      ensures h == MovieView.ListEmpty <==> search == "" && movies == []
      ensures h == MovieView.NoSearchResults
              <==> search != "" && forall m :: m in movies ==> !MovieView.Matches(m, Lower(search))
    {
      MovieView.HeadingOfView(movies, search, sortBy);
      MovieView.HeadingFor(Processed(search, sortBy), search)
    }

    /** `fetchMovies` (main.js:145-166): without a user it does nothing; a
        failed read leaves the cache; a successful one replaces it with the
        rows returned. */
    method FetchMovies(fetched: Remote<seq<Movie>>) returns (query: Option<UserId>)
      requires Valid()
      modifies this`movies
      ensures Valid()
      ensures query == currentUser
      ensures movies == if currentUser.Some? && fetched.Ok? then fetched.value else old(movies)
      ensures old(Owned()) && Honours(fetched, currentUser) ==> Owned()
    {
      if currentUser.None? {
        return None;
      }
      query := currentUser;
      if fetched.Err? {
        return;
      }
      movies := fetched.value;
    }

    /** `handleAuthStateChange` (main.js:45-58): a session signs its user in
        and fetches that user's rows; no session signs out and empties the
        cache. A sign-in whose fetch fails keeps whatever was cached before. */
    method HandleAuthStateChange(session: Option<UserId>, fetched: Remote<seq<Movie>>)
      returns (query: Option<UserId>)
      modifies this
      ensures Valid()
      ensures currentUser == session && query == session
      ensures movies == if session.None? then []
                        else if fetched.Ok? then fetched.value
                        else old(movies)
      ensures session.None? ==> Owned()
      ensures (session.Some? && Honours(fetched, session)
               && (fetched.Ok? || (old(currentUser) == session && old(Owned())))) ==> Owned()
    {
      if session.Some? {
        currentUser := session;
        query := FetchMovies(fetched);
      } else {
        currentUser := None;
        movies := [];
        query := None;
      }
    }

    /** `toggleWatched(id, currentStatus)` (main.js:250-265): sends
        `is_watched = !currentStatus` scoped to the id and the user; on
        success the first cached entry with that id gets the new flag. With
        nobody signed in the request cannot be built and nothing happens. */
    method ToggleWatched(id: int, currentStatus: bool, outcome: Remote<()>)
      returns (request: Option<WatchedUpdate>)
      requires Valid()
      modifies this`movies
      ensures Valid()
      ensures request == if currentUser.Some?
                         then Some(WatchedUpdate(RowFilter(id, currentUser.value), !currentStatus))
                         else None
      ensures movies == if request.Some? && outcome.Ok?
                        then WithWatched(old(movies), id, !currentStatus)
                        else old(movies)
      ensures old(Owned()) ==> Owned()
    {
      if currentUser.None? {
        return None;
      }
      request := Some(WatchedUpdate(RowFilter(id, currentUser.value), !currentStatus));
      if outcome.Ok? {
        movies := WithWatched(movies, id, !currentStatus);
      }
    }

    /** `deleteMovie(id, title)` (main.js:267-283): only after the user
        confirms, deletes scoped to the id and the user; on success every
        cached entry with that id is dropped. */
    method DeleteMovie(id: int, confirmed: bool, outcome: Remote<()>)
      returns (request: Option<RowFilter>)
      requires Valid()
      modifies this`movies
      ensures Valid()
      ensures request == if confirmed && currentUser.Some? then Some(RowFilter(id, currentUser.value)) else None
      ensures movies == if request.Some? && outcome.Ok? then WithoutId(old(movies), id) else old(movies)
      ensures old(Owned()) ==> Owned()
    {
      if !confirmed || currentUser.None? {
        return None;
      }
      request := Some(RowFilter(id, currentUser.value));
      if outcome.Ok? {
        if Owned() {
          WithoutIdKeepsOwner(movies, id, currentUser.value);
        }
        movies := WithoutId(movies, id);
      }
    }

    /** The movie form's submit handler (main.js:285-327): refused before
        any request when nobody is signed in; otherwise inserts the form's
        row for the user. On success the echoed row is put in front of the
        cache, or, when nothing was echoed, the list is fetched again. */
    method SubmitMovie(form: MovieForm, inserted: Remote<seq<Movie>>, refetched: Remote<seq<Movie>>)
      returns (request: Option<NewMovie>)
      requires Valid()
      modifies this`movies
      ensures Valid()
      ensures request == if currentUser.Some?
                         then Some(NewMovie(form.title, form.year, form.rating,
                                            PosterUrl(form.poster), currentUser.value))
                         else None
      ensures movies == if request.None? || inserted.Err? then old(movies)
                        else if inserted.value != [] then [inserted.value[0]] + old(movies)
                        else if refetched.Ok? then refetched.value
                        else old(movies)
      ensures old(Owned()) && Honours(inserted, currentUser) && Honours(refetched, currentUser) ==> Owned()
    {
      if currentUser.None? {
        return None;
      }
      request := Some(NewMovie(form.title, form.year, form.rating, PosterUrl(form.poster), currentUser.value));
      if inserted.Err? {
        return;
      }
      if inserted.value != [] {
        movies := [inserted.value[0]] + movies;
      } else {
        var _ := FetchMovies(refetched);
      }
    }
  }
}
