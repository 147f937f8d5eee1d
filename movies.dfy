/** The values the watchlist client keeps in memory: one row of the `movies`
    table, the identity of the signed-in user, and the outcome of a remote call. */
module Movies {

  datatype Option<+T> = None | Some(value: T)

  /** The `id` of the signed-in user (`session.user.id`); only the id is ever read. */
  type UserId = string

  /** One row of the `movies` table as the client caches it. `rating` is null
      (None) when the row was inserted from a blank rating field; `year` and
      `rating` are modelled as integers. */
  datatype Movie = Movie(
    id: int,
    title: string,
    year: int,
    rating: Option<int>,
    isWatched: bool,
    posterUrl: Option<string>,
    userId: UserId)

  /** What a remote call resolved to: its data, or the error it reported. */
  datatype Remote<+T> = Ok(value: T) | Err(message: string)

  /** `a` can be obtained from `b` by deleting entries: same entries, same order. */
  predicate IsSubseq<T(==)>(a: seq<T>, b: seq<T>)
    decreases |b|
  {
    a == [] || (b != [] && ((a[0] == b[0] && IsSubseq(a[1..], b[1..])) || IsSubseq(a, b[1..])))
  }

  /** Every cached row belongs to `user`. */
  ghost predicate OwnedBy(rows: seq<Movie>, user: UserId) {
    forall i :: 0 <= i < |rows| ==> rows[i].userId == user
  }
}
