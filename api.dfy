/**
 * The four API helpers of the bot. Each HTTP request is a parameter: a function from
 * what the helper puts into the request (a query, a movie id, a subject path) to the
 * already-parsed JSON body. A key that may be missing from that body is an `Option`;
 * `None` means the key is absent.
 */
module Api {
  import opened Wrappers
  import opened Strings

  /** How many recommended movies the bot keeps. */
  const MovieLimit := 5
  /** How many subjects of the first book the bot keeps. */
  const SubjectLimit := 3

  /** One entry of a movie search; only its `id` is read. */
  datatype MovieHit = MovieHit(id: int)
  /** Body of a movie search: `{results: [...]}`. */
  datatype MovieSearch = MovieSearch(results: Option<seq<MovieHit>>)

  /** One recommended movie: its `title` and its optional `release_date`. */
  datatype MovieRec = MovieRec(title: string, releaseDate: Option<string>)
  /** Body of a recommendations request: `{results: [...]}`. */
  datatype MovieRecs = MovieRecs(results: Option<seq<MovieRec>>)

  /** One document of a book search; only its optional `subject` list is read. */
  datatype BookDoc = BookDoc(subject: Option<seq<string>>)
  /** Body of a book search: `{docs: [...]}`. */
  datatype BookSearch = BookSearch(docs: Option<seq<BookDoc>>)

  datatype Author = Author(name: string)
  /** One work of a subject listing: its `title` and its optional `authors` list. */
  datatype Work = Work(title: string, authors: Option<seq<Author>>)
  /** Body of a subject listing: `{works: [...]}`. */
  datatype SubjectWorks = SubjectWorks(works: Option<seq<Work>>)

  /**
   * `get_movie_id`: the id of the first search result, or nothing when `results`
   * is absent or empty. Later results are never looked at.
   */
  function MovieId(movieTitle: string, searchMovies: string -> MovieSearch): (id: Option<int>)
    ensures id.Some? <==> searchMovies(movieTitle).results.Some? && |searchMovies(movieTitle).results.value| > 0
    ensures id.Some? ==> id.value == searchMovies(movieTitle).results.value[0].id
  {
    var data := searchMovies(movieTitle);
    if data.results.Some? && data.results.value != [] then Some(data.results.value[0].id) else None
  }

  /** Only the first search result matters: whatever follows it, its id is the one returned. */
  lemma MovieIdIgnoresLaterResults(movieTitle: string, searchMovies: string -> MovieSearch,
                                   first: MovieHit, rest: seq<MovieHit>)
    requires searchMovies(movieTitle) == MovieSearch(Some([first] + rest))
    ensures MovieId(movieTitle, searchMovies) == Some(first.id)
  {
  }

  /**
   * `get_movie_recommendations`: the first `min(5, n)` of the `n` results, in the
   * order of the response, or none at all when `results` is absent.
   */
  function MovieRecommendations(movieId: int, recommendationsFor: int -> MovieRecs): (recs: seq<MovieRec>)
    ensures recommendationsFor(movieId).results.None? ==> recs == []
    ensures recommendationsFor(movieId).results.Some? ==>
      var all := recommendationsFor(movieId).results.value;
      |recs| == Min(MovieLimit, |all|) && recs <= all
  {
    var all := recommendationsFor(movieId).results.GetOr([]);
    all[..Min(MovieLimit, |all|)]
  }

  /**
   * `get_book_subjects`: the first three subjects of the first document, or none when
   * `docs` is absent or empty or the first document has no `subject` key, whatever
   * the later documents hold.
   */
  function BookSubjects(bookTitle: string, searchBooks: string -> BookSearch): (subjects: seq<string>)
    ensures |subjects| <= SubjectLimit
    ensures var docs := searchBooks(bookTitle).docs;
      if docs.Some? && |docs.value| > 0 && docs.value[0].subject.Some?
      then var first := docs.value[0].subject.value;
        |subjects| == Min(SubjectLimit, |first|) && subjects <= first
      else subjects == []
  {
    var docs := searchBooks(bookTitle).docs;
    if docs.Some? && docs.value != [] && docs.value[0].subject.Some? then
      var first := docs.value[0].subject.value;
      first[..Min(SubjectLimit, |first|)]
    else
      []
  }

  /**
   * A first document without a `subject` key yields no subjects, even when later
   * documents have one.
   */
  lemma BookSubjectsIgnoreLaterDocs(bookTitle: string, searchBooks: string -> BookSearch, rest: seq<BookDoc>)
    requires searchBooks(bookTitle) == BookSearch(Some([BookDoc(None)] + rest))
    ensures BookSubjects(bookTitle, searchBooks) == []
  {
  }

  /**
   * The path segment `get_books_by_subject` builds from a subject: lower-cased, with
   * every space turned into `_`. It has the subject's length and holds no space.
   */
  function Slug(subject: string): (slug: string)
    ensures |slug| == |subject|
    ensures forall i :: 0 <= i < |subject| ==>
      slug[i] == (if subject[i] == ' ' then '_' else LowerChar(subject[i]))
    ensures ' ' !in slug
  {
    Replace(Lower(subject), ' ', '_')
  }

  /** Slugging a slug changes nothing. */
  lemma SlugIdempotent(subject: string)
    ensures Slug(Slug(subject)) == Slug(subject)
  {
  }

  /**
   * `get_books_by_subject`: the `works` of the listing found under the subject's slug,
   * unchanged and not truncated, or none when `works` is absent.
   */
  function BooksBySubject(subject: string, worksFor: string -> SubjectWorks): (works: seq<Work>)
    ensures worksFor(Slug(subject)).works.Some? ==> works == worksFor(Slug(subject)).works.value
    ensures worksFor(Slug(subject)).works.None? ==> works == []
  {
    worksFor(Slug(subject)).works.GetOr([])
  }

  /**
   * Subjects that differ only in the case of ASCII letters and in space versus `_`
   * reach the same listing.
   */
  lemma BooksBySubjectSameSlug(a: string, b: string, worksFor: string -> SubjectWorks)
    requires |a| == |b|
    requires forall i :: 0 <= i < |a| ==>
      ((a[i] == ' ' || a[i] == '_') && (b[i] == ' ' || b[i] == '_')) ||
      (a[i] != ' ' && b[i] != ' ' && LowerChar(a[i]) == LowerChar(b[i]))
    ensures BooksBySubject(a, worksFor) == BooksBySubject(b, worksFor)
  {
    assert Slug(a) == Slug(b);
  }
}
