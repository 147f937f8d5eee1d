/** The view derived from the cache (`getProcessedMovies`, main.js:169-190):
    a copy of the cached list, filtered by a case-insensitive title search and
    stably sorted in descending order of one key; and the heading that
    `renderMovies` shows above it (main.js:196-204). Being functions, none of
    these can change the cache they are given. */
module MovieView {
  import opened Movies
  import opened Text

  /** The three orders the sort control offers. */
  datatype SortMode = RatingDesc | YearDesc | Recent

  /** Reads the sort control's value: anything but the two named orders
      falls back to the most recent first. */
  function ParseSortMode(value: string): (mode: SortMode)
    ensures mode == RatingDesc <==> value == "rating_desc"
    ensures mode == YearDesc <==> value == "year_desc"
    ensures mode == Recent <==> value != "rating_desc" && value != "year_desc"
  {
    if value == "rating_desc" then RatingDesc
    else if value == "year_desc" then YearDesc
    else Recent
  }

  /** The number the comparator subtracts; a null rating counts as 0, as it
      does in a JavaScript subtraction. */
  function SortKey(mode: SortMode, m: Movie): (k: int) {
    match mode
    case RatingDesc => (match m.rating case None => 0 case Some(r) => r)
    case YearDesc => m.year
    case Recent => m.id
  }

  /** The comparator handed to `sort`, `(a, b) => b.key - a.key`: `a` goes
      before `b` exactly when its key is greater, and the two tie exactly when
      the keys are equal. So the comparator orders by the key, highest first,
      and it is consistent: swapping the arguments negates it. */
  function Compare(mode: SortMode, a: Movie, b: Movie): (c: int)
    ensures c < 0 <==> SortKey(mode, a) > SortKey(mode, b)
    ensures c == 0 <==> SortKey(mode, a) == SortKey(mode, b)
    ensures c > 0 <==> SortKey(mode, a) < SortKey(mode, b)
  {
    SortKey(mode, b) - SortKey(mode, a)
  }

  /** The comparator's sign is antisymmetric and transitive, as `sort`
      requires of a consistent comparator. */
  lemma CompareIsConsistent(mode: SortMode, a: Movie, b: Movie, c: Movie)
    ensures Compare(mode, a, b) == -Compare(mode, b, a)
    ensures Compare(mode, a, b) <= 0 && Compare(mode, b, c) <= 0 ==> Compare(mode, a, c) <= 0
  {
  }

  // ---------------------------------------------------------------- filter

  /** The lower-cased title contains the (already lower-cased) query. */
  predicate Matches(m: Movie, query: string) {
    Contains(Lower(m.title), query)
  }

  /** `processed.filter(m => m.title.toLowerCase().includes(query))`. */
  function FilterByTitle(s: seq<Movie>, query: string): (r: seq<Movie>)
    ensures |r| <= |s|
    ensures forall i :: 0 <= i < |r| ==> Matches(r[i], query)
    ensures forall m :: multiset(r)[m] == if Matches(m, query) then multiset(s)[m] else 0
  {
    if s == [] then []
    else
      assert s == [s[0]] + s[1..];
      if Matches(s[0], query) then [s[0]] + FilterByTitle(s[1..], query)
      else FilterByTitle(s[1..], query)
  }

  /** The filter keeps the survivors in cache order. */
  lemma {:induction false} FilterIsSubseq(s: seq<Movie>, query: string)
    ensures IsSubseq(FilterByTitle(s, query), s)
  {
    if s != [] {
      FilterIsSubseq(s[1..], query);
      var r := FilterByTitle(s, query);
      if Matches(s[0], query) {
        assert r[0] == s[0] && r[1..] == FilterByTitle(s[1..], query);
      } else if r != [] {
        assert IsSubseq(r, s[1..]);
      }
    }
  }

  /** With an empty query every entry survives the filter anyway, so the
      source's `if (query)` guard only skips work. */
  lemma {:induction false} FilterEmptyQueryKeepsAll(s: seq<Movie>)
    ensures FilterByTitle(s, "") == s
  {
    if s != [] {
      ContainsEmpty(Lower(s[0].title));
      FilterEmptyQueryKeepsAll(s[1..]);
    }
  }

  /** The list after the filter step of `getProcessedMovies`: exactly the
      entries whose lower-cased title contains the lower-cased search text
      survive, as often as they occur in the cache and in cache order; an
      empty search keeps the whole cache. */
  function Filtered(cache: seq<Movie>, search: string): (r: seq<Movie>)
    ensures search == "" ==> r == cache
    ensures IsSubseq(r, cache)
    ensures forall m :: multiset(r)[m] == if Matches(m, Lower(search)) then multiset(cache)[m] else 0
  {
    var query := Lower(search);
    FilterEmptyQueryKeepsAll(cache);
    FilterIsSubseq(cache, query);
    if query != "" then FilterByTitle(cache, query) else cache
  }

  /** The `if (query)` guard makes no difference: the filter step is the
      plain title filter with the lower-cased search. */
  lemma QueryGuardNeutral(cache: seq<Movie>, search: string)
    ensures Filtered(cache, search) == FilterByTitle(cache, Lower(search))
  {
    if Lower(search) == "" {
      FilterEmptyQueryKeepsAll(cache);
    }
  }

  // ---------------------------------------------------------------- sort

  /** Keys never increase from left to right. */
  ghost predicate NonIncreasing(mode: SortMode, s: seq<Movie>) {
    forall i, j :: 0 <= i < j < |s| ==> SortKey(mode, s[i]) >= SortKey(mode, s[j])
  }

  /** The entries of `s` whose key is `k`, in the order of `s`. Two lists have
      the same entries with equal keys in the same relative order exactly
      when this agrees on them for every `k`. */
  function WithKey(mode: SortMode, s: seq<Movie>, k: int): (r: seq<Movie>)
    ensures |r| <= |s|
    ensures forall i :: 0 <= i < |r| ==> SortKey(mode, r[i]) == k
  {
    if s == [] then []
    else if SortKey(mode, s[0]) == k then [s[0]] + WithKey(mode, s[1..], k)
    else WithKey(mode, s[1..], k)
  }

  /** Puts `x` in front of the first entry whose key is not greater than its
      own, so that it precedes the entries with an equal key. */
  function InsertByKey(mode: SortMode, x: Movie, t: seq<Movie>): (r: seq<Movie>)
    ensures multiset(r) == multiset(t) + multiset{x}
    ensures forall j :: 0 <= j < |r| ==> r[j] == x || r[j] in t
  {
    if t == [] then [x]
    else if SortKey(mode, t[0]) > SortKey(mode, x) then
      assert t == [t[0]] + t[1..];
      [t[0]] + InsertByKey(mode, x, t[1..])
    else [x] + t
  }

  /** A head no smaller than the rest keeps a sorted list sorted. */
  lemma PrependSorted(mode: SortMode, h: Movie, rest: seq<Movie>)
    requires NonIncreasing(mode, rest)
    requires forall j :: 0 <= j < |rest| ==> SortKey(mode, h) >= SortKey(mode, rest[j])
    ensures NonIncreasing(mode, [h] + rest)
  {
    var r := [h] + rest;
    forall i, j | 0 <= i < j < |r|
      ensures SortKey(mode, r[i]) >= SortKey(mode, r[j])
    {
      assert r[j] == rest[j - 1];
      if i > 0 {
        assert r[i] == rest[i - 1];
      }
    }
  }

  /** Inserting into a sorted list gives a sorted list. */
  lemma {:induction false} InsertSorted(mode: SortMode, x: Movie, t: seq<Movie>)
    requires NonIncreasing(mode, t)
    ensures NonIncreasing(mode, InsertByKey(mode, x, t))
  {
    if t != [] && SortKey(mode, t[0]) > SortKey(mode, x) {
      var tail := t[1..];
      var rest := InsertByKey(mode, x, tail);
      InsertSorted(mode, x, tail);
      forall j | 0 <= j < |rest|
        ensures SortKey(mode, t[0]) >= SortKey(mode, rest[j])
      {
        if rest[j] != x {
          var i :| 0 <= i < |tail| && tail[i] == rest[j];
          assert tail[i] == t[i + 1];
        }
      }
      PrependSorted(mode, t[0], rest);
    } else if t != [] {
      PrependSorted(mode, x, t);
    }
  }

  /** The comparator sort `(a, b) => key(b) - key(a)` of a stable engine. */
  function SortDesc(mode: SortMode, s: seq<Movie>): (r: seq<Movie>)
    ensures multiset(r) == multiset(s)
    ensures NonIncreasing(mode, r)
  {
    if s == [] then []
    else
      assert s == [s[0]] + s[1..];
      InsertSorted(mode, s[0], SortDesc(mode, s[1..]));
      InsertByKey(mode, s[0], SortDesc(mode, s[1..]))
  }

  lemma {:induction false} InsertWithKey(mode: SortMode, x: Movie, t: seq<Movie>, k: int)
    ensures WithKey(mode, InsertByKey(mode, x, t), k)
            == if SortKey(mode, x) == k then [x] + WithKey(mode, t, k) else WithKey(mode, t, k)
  {
    if t != [] && SortKey(mode, t[0]) > SortKey(mode, x) {
      InsertWithKey(mode, x, t[1..], k);
      var r := InsertByKey(mode, x, t);
      assert r[0] == t[0] && r[1..] == InsertByKey(mode, x, t[1..]);
    } else if t != [] {
      var r := InsertByKey(mode, x, t);
      assert r[0] == x && r[1..] == t;
    }
  }

  /** Sorting is stable: entries with an equal key keep their relative order. */
  lemma {:induction false} SortStable(mode: SortMode, s: seq<Movie>, k: int)
    ensures WithKey(mode, SortDesc(mode, s), k) == WithKey(mode, s, k)
  {
    if s != [] {
      SortStable(mode, s[1..], k);
      InsertWithKey(mode, s[0], SortDesc(mode, s[1..]), k);
    }
  }

  lemma {:induction false} WithKeyEmpty(mode: SortMode, s: seq<Movie>, k: int)
    requires forall j :: 0 <= j < |s| ==> SortKey(mode, s[j]) != k
    ensures WithKey(mode, s, k) == []
  {
    if s != [] {
      WithKeyEmpty(mode, s[1..], k);
    }
  }

  lemma {:induction false} WithKeyHead(mode: SortMode, s: seq<Movie>, j: nat)
    requires j < |s|
    ensures WithKey(mode, s, SortKey(mode, s[j])) != []
  {
    if j > 0 && SortKey(mode, s[0]) != SortKey(mode, s[j]) {
      WithKeyHead(mode, s[1..], j - 1);
    }
  }

  /** Stability and the order determine the result: a non-increasing list
      whose entries of every key appear in the order they have in `s` is
      exactly `SortDesc(mode, s)`. So the model agrees with every engine
      whose `Array.prototype.sort` is stable (ECMAScript 2019 and later). */
  lemma {:induction false} StableSortIsUnique(mode: SortMode, a: seq<Movie>, b: seq<Movie>)
    requires NonIncreasing(mode, a) && NonIncreasing(mode, b)
    requires forall k :: WithKey(mode, a, k) == WithKey(mode, b, k)
    ensures a == b
    decreases |a|
  {
    if a == [] {
      if b != [] {
        WithKeyHead(mode, b, 0);
      }
    } else if b == [] {
      WithKeyHead(mode, a, 0);
    } else {
      var ka, kb := SortKey(mode, a[0]), SortKey(mode, b[0]);
      if ka > kb {
        WithKeyEmpty(mode, b, ka);
        assert false;
      } else if kb > ka {
        WithKeyEmpty(mode, a, kb);
        assert false;
      }
      assert a[0] == WithKey(mode, a, ka)[0] == WithKey(mode, b, ka)[0] == b[0];
      forall k
        ensures WithKey(mode, a[1..], k) == WithKey(mode, b[1..], k)
      {
        if k == ka {
          assert WithKey(mode, a[1..], k) == WithKey(mode, a, k)[1..];
          assert WithKey(mode, b[1..], k) == WithKey(mode, b, k)[1..];
        } else {
          assert WithKey(mode, a[1..], k) == WithKey(mode, a, k);
          assert WithKey(mode, b[1..], k) == WithKey(mode, b, k);
        }
      }
      StableSortIsUnique(mode, a[1..], b[1..]);
    }
  }

  /** Any list that is sorted and keeps equal keys in their order in `s` is
      the model's sort of `s`. */
  lemma SortDescCharacterized(mode: SortMode, s: seq<Movie>, r: seq<Movie>)
    requires NonIncreasing(mode, r)
    requires forall k :: WithKey(mode, r, k) == WithKey(mode, s, k)
    ensures r == SortDesc(mode, s)
  {
    forall k ensures WithKey(mode, r, k) == WithKey(mode, SortDesc(mode, s), k) {
      SortStable(mode, s, k);
    }
    StableSortIsUnique(mode, r, SortDesc(mode, s));
  }

  // ---------------------------------------------------------------- view

  /** `getProcessedMovies()`: the search box holds `search` and the sort
      control holds `sortBy`. The result is the filtered list, rearranged so
      that the chosen key never increases. */
  function View(cache: seq<Movie>, search: string, sortBy: string): (r: seq<Movie>)
    ensures multiset(r) == multiset(Filtered(cache, search))
    ensures NonIncreasing(ParseSortMode(sortBy), r)
  {
    SortDesc(ParseSortMode(sortBy), Filtered(cache, search))
  }

  /** The view is a permutation of a sublist of the cache: never longer, no
      entry more often than in the cache, the whole cache for an empty
      search; it is sorted by the chosen key and keeps the filtered order
      among equal keys. */
  lemma ViewSpec(cache: seq<Movie>, search: string, sortBy: string)
    ensures multiset(View(cache, search, sortBy)) <= multiset(cache)
    ensures |View(cache, search, sortBy)| <= |cache|
    ensures search == "" ==> multiset(View(cache, search, sortBy)) == multiset(cache)
    ensures forall m :: m in View(cache, search, sortBy) <==> m in cache && Matches(m, Lower(search))
    ensures NonIncreasing(ParseSortMode(sortBy), View(cache, search, sortBy))
    ensures forall k :: WithKey(ParseSortMode(sortBy), View(cache, search, sortBy), k)
                        == WithKey(ParseSortMode(sortBy), Filtered(cache, search), k)
  {
    var mode, f, v := ParseSortMode(sortBy), Filtered(cache, search), View(cache, search, sortBy);
    forall m ensures m in v <==> m in cache && Matches(m, Lower(search)) {
      assert m in v <==> m in multiset(v);
      assert m in cache <==> m in multiset(cache);
    }
    assert |v| == |multiset(v)| == |multiset(f)| == |f|;
    assert |multiset(cache)| == |cache|;
    forall k ensures WithKey(mode, v, k) == WithKey(mode, f, k) {
      SortStable(mode, f, k);
    }
  }

  /** The search ignores letter case on both sides: titles that differ only
      in case match the same searches, and searches that differ only in case
      give the same view. */
  lemma MatchIgnoresTitleCase(m: Movie, n: Movie, search: string)
    requires SameUpToCase(m.title, n.title)
    ensures Matches(m, Lower(search)) <==> Matches(n, Lower(search))
  {
    LowerIgnoresCase(m.title, n.title);
  }

  lemma ViewIgnoresSearchCase(cache: seq<Movie>, search: string, other: string, sortBy: string)
    requires SameUpToCase(search, other)
    ensures View(cache, search, sortBy) == View(cache, other, sortBy)
  {
    LowerIgnoresCase(search, other);
    if search == "" || other == "" {
      assert search == other == "";
    }
  }

  // ---------------------------------------------------------------- heading

  /** The three headings `renderMovies` can show above the list. */
  datatype Heading = NoSearchResults | ListEmpty | ListShown

  /** The heading for the rendered list `view` and the raw search text. */
  function HeadingFor(view: seq<Movie>, search: string): (h: Heading)
    ensures h == ListShown <==> view != []
    ensures h == NoSearchResults <==> view == [] && search != ""
    ensures h == ListEmpty <==> view == [] && search == ""
  {
    if |view| == 0 then (if search != "" then NoSearchResults else ListEmpty)
    else ListShown
  }

  /** The text `renderMovies` writes into the heading for the rendered list
      `view` and the raw search text: "Daftar Film" exactly when the list is
      non-empty, the no-results text exactly when it is empty after a search,
      and the empty-list text exactly when it is empty without one. */
  function HeadingText(view: seq<Movie>, search: string): (t: string)
    ensures t == "Daftar Film" <==> view != []
    ensures t == "Tidak ada hasil pencarian" <==> view == [] && search != ""
    ensures t == "Daftar Film Kosong \U{1F37F}" <==> view == [] && search == ""
  {
    match HeadingFor(view, search)
    case NoSearchResults => "Tidak ada hasil pencarian"
    case ListEmpty => "Daftar Film Kosong \U{1F37F}"
    case ListShown => "Daftar Film"
  }

  /** The heading, stated in terms of the cache: the list is shown when some
      entry matches, "no results" when none does for a non-empty search, and
      "list empty" only when the cache itself is empty and nothing was searched. */
  lemma HeadingOfView(cache: seq<Movie>, search: string, sortBy: string)
    ensures HeadingFor(View(cache, search, sortBy), search) == ListShown
            <==> exists m :: m in cache && Matches(m, Lower(search))
    ensures HeadingFor(View(cache, search, sortBy), search) == NoSearchResults
            <==> search != "" && forall m :: m in cache ==> !Matches(m, Lower(search))
    ensures HeadingFor(View(cache, search, sortBy), search) == ListEmpty
            <==> search == "" && cache == []
  {
    var v := View(cache, search, sortBy);
    ViewSpec(cache, search, sortBy);
    if v != [] {
      assert v[0] in v;
    }
    if search == "" {
      assert |v| == |cache|;
    }
  }
}
