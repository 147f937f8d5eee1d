/** Concrete runs of the view on small lists. */
module Scenarios {
  import opened Movies
  import opened Text
  import opened MovieView

  function Row(id: int, title: string, rating: Option<int>): Movie {
    Movie(id, title, 2000, rating, false, None, "u1")
  }

  lemma NoSearchKeeps(cache: seq<Movie>)
    ensures Filtered(cache, "") == cache
  {
    assert Lower("") == "";
  }

  lemma SortTwo(mode: SortMode, x: Movie, y: Movie)
    ensures SortDesc(mode, [x, y]) == if SortKey(mode, x) >= SortKey(mode, y) then [x, y] else [y, x]
  {
    assert [x, y][1..] == [y];
    assert SortDesc(mode, [y]) == [y];
  }

  lemma SortUnfold(mode: SortMode, x: Movie, y: Movie, z: Movie)
    ensures SortDesc(mode, [x, y, z]) == InsertByKey(mode, x, SortDesc(mode, [y, z]))
  {
    assert [x, y, z][1..] == [y, z];
  }

  lemma InsertFront(mode: SortMode, x: Movie, t: seq<Movie>)
    requires t != [] && SortKey(mode, t[0]) <= SortKey(mode, x)
    ensures InsertByKey(mode, x, t) == [x] + t
  {
  }

  lemma SortThree(mode: SortMode, x: Movie, y: Movie, z: Movie)
    requires SortKey(mode, y) < SortKey(mode, z) < SortKey(mode, x)
    ensures SortDesc(mode, [x, y, z]) == [x, z, y]
  {
    SortTwo(mode, y, z);
    SortUnfold(mode, x, y, z);
    InsertFront(mode, x, [z, y]);
    assert [x] + [z, y] == [x, z, y];
  }

  /** The default order is by id, highest first, whatever the cache order. */
  lemma RecentOrdersById()
    ensures View([Row(3, "A", None), Row(1, "B", None), Row(2, "C", None)], "", "recent")
            == [Row(3, "A", None), Row(2, "C", None), Row(1, "B", None)]
  {
    var a, b, c := Row(3, "A", None), Row(1, "B", None), Row(2, "C", None);
    NoSearchKeeps([a, b, c]);
    SortThree(Recent, a, b, c);
  }

  /** A null rating sorts as 0: below positive ratings. */
  lemma NullRatingBelowPositive()
    ensures View([Row(2, "B", Some(7)), Row(1, "A", None), Row(3, "C", Some(3))], "", "rating_desc")
            == [Row(2, "B", Some(7)), Row(3, "C", Some(3)), Row(1, "A", None)]
  {
    var a, b, c := Row(2, "B", Some(7)), Row(1, "A", None), Row(3, "C", Some(3));
    NoSearchKeeps([a, b, c]);
    SortThree(RatingDesc, a, b, c);
  }

  /** A null rating ties with a rating of 0, where cache order decides, and
      sorts above a negative rating: it does not always sort last. */
  lemma NullRatingTiesWithZero()
    ensures View([Row(1, "A", None), Row(2, "B", Some(0))], "", "rating_desc")
            == [Row(1, "A", None), Row(2, "B", Some(0))]
    ensures View([Row(1, "A", None), Row(2, "B", Some(-1))], "", "rating_desc")
            == [Row(1, "A", None), Row(2, "B", Some(-1))]
  {
    var a, zero, neg := Row(1, "A", None), Row(2, "B", Some(0)), Row(2, "B", Some(-1));
    NoSearchKeeps([a, zero]);
    NoSearchKeeps([a, neg]);
    SortTwo(RatingDesc, a, zero);
    SortTwo(RatingDesc, a, neg);
  }

  lemma LowerCat()
    ensures Lower("CAT") == "cat"
  {
    var r := Lower("CAT");
    assert r[0] == 'c' && r[1] == 'a' && r[2] == 't';
  }

  lemma TitleMatches()
    ensures Matches(Row(1, "Cat People", None), "cat")
    ensures !Matches(Row(2, "Dogs", None), "cat")
    ensures Matches(Row(3, "Category 5", None), "cat")
  {
    var p, d, c := Lower("Cat People"), Lower("Dogs"), Lower("Category 5");
    assert p[0] == 'c' && p[..3] == "cat";
    assert c[0] == 'c' && c[..3] == "cat";
    assert d[0] == 'd' && d == "dogs";
    assert "dogs"[..3] == "dog" && "dogs"[1..] == "ogs" && "ogs"[1..] == "gs";
  }

  /** The search is case-insensitive and keeps cache order among matches. */
  lemma SearchIgnoresCase()
    ensures View([Row(1, "Cat People", None), Row(2, "Dogs", None), Row(3, "Category 5", None)], "CAT", "year_desc")
            == [Row(1, "Cat People", None), Row(3, "Category 5", None)]
  {
    var p, d, c := Row(1, "Cat People", None), Row(2, "Dogs", None), Row(3, "Category 5", None);
    LowerCat();
    TitleMatches();
    assert [p, d, c][1..] == [d, c] && [d, c][1..] == [c] && [c][1..] == [];
    assert FilterByTitle([c], "cat") == [c];
    assert FilterByTitle([d, c], "cat") == [c];
    assert Filtered([p, d, c], "CAT") == FilterByTitle([p, d, c], "cat") == [p, c];
    SortTwo(YearDesc, p, c);
  }

  /** The two empty headings are told apart. */
  lemma EmptyHeadings()
    ensures HeadingFor(View([], "", "recent"), "") == ListEmpty
    ensures HeadingFor(View([Row(1, "Dogs", None)], "zzz", "recent"), "zzz") == NoSearchResults
  {
    NoSearchKeeps([]);
    var d := Row(1, "Dogs", None);
    var t := Lower("Dogs");
    assert t[0] == 'd' && t == "dogs";
    assert Lower("zzz") == "zzz";
    assert "dogs"[..3] == "dog" && "dogs"[1..] == "ogs" && "ogs"[1..] == "gs";
    assert "ogs"[..3] == "ogs" && "gs"[1..] == "s" && "s"[1..] == "";
    assert !Contains("gs", "zzz");
    assert !Contains("dogs", "zzz");
    assert !Matches(d, "zzz");
    assert [d][1..] == [];
    assert Filtered([d], "zzz") == [];
  }
}
