/**
 * The three chat commands `hello`, `movie` and `book`. Each reply is a function of the
 * command's argument and of the services it consults (`MovieReply`, `BookReply`);
 * the methods `Movie` and `Book` build that reply the way the handlers do, filling an
 * `Embed` one field per record.
 */
module Commands {
  import opened Wrappers
  import opened Strings
  import opened Api
  import opened Chat

  const MovieDescription := "Here are some movies you might also like:"
  const MovieFooter := "Powered by The Movie Database (TMDB)"
  const BookFooter := "Powered by Open Library"
  const UnknownAuthor := "Unknown Author"

  /** The `hello` command greets the invoking user by name. */
  function HelloReply(authorName: string): (reply: Outcome)
    ensures reply.Text? && |reply.message| == |authorName| + 8
    ensures reply.message[..7] == "Hello, " && reply.message[|reply.message| - 1] == '!'
    ensures reply.message[7..|reply.message| - 1] == authorName
  {
    Text("Hello, " + authorName + "!")
  }

  // ---- the movie command ----

  /** Python's `not movie_id`: a missing id and the id `0` both count as "not found". */
  predicate Found(movieId: Option<int>)
    ensures Found(movieId) <==> movieId != None && movieId != Some(0)
  {
    movieId.Some? && movieId.value != 0
  }

  function MovieNotFoundMessage(searchTitle: string): string
  {
    "Sorry, I couldn't find the movie '" + searchTitle + "'."
  }

  function NoMovieRecommendationsMessage(searchTitle: string): string
  {
    "I found '" + searchTitle + "', but couldn't find any recommendations."
  }

  /** The embed title both commands use, with the search title title-cased. */
  function RecommendationsTitle(searchTitle: string): string
  {
    "Recommendations for '" + TitleCase(searchTitle) + "'"
  }

  /**
   * The year shown for a movie: its `release_date` up to the first `-`, or `N/A`
   * when the key is absent.
   */
  function YearLabel(releaseDate: Option<string>): (year: string)
    ensures releaseDate.None? ==> year == "N/A"
    ensures releaseDate.Some? ==>
      year <= releaseDate.value && '-' !in year &&
      (|year| < |releaseDate.value| ==> releaseDate.value[|year|] == '-')
  {
    BeforeFirst(releaseDate.GetOr("N/A"), '-')
  }

  /** A date written `yyyy-mm-dd` shows as `yyyy`. */
  lemma YearLabelOfDate(year: string, rest: string)
    requires '-' !in year
    ensures YearLabel(Some(year + "-" + rest)) == year
  {
    BeforeFirstOfJoined(year, '-', rest);
  }

  /** The field for one recommended movie: `<title> (<year>)`, with an empty value. */
  function MovieField(rec: MovieRec): (field: Field)
    ensures field.value == ""
    ensures |field.name| == |rec.title| + |YearLabel(rec.releaseDate)| + 3
    ensures field.name[..|rec.title| + 2] == rec.title + " ("
    ensures field.name[|rec.title| + 2..|field.name| - 1] == YearLabel(rec.releaseDate)
    ensures field.name[|field.name| - 1] == ')'
  {
    Field(rec.title + " (" + YearLabel(rec.releaseDate) + ")", "")
  }

  function MovieFields(recs: seq<MovieRec>): (fields: seq<Field>)
    ensures |fields| == |recs|
    ensures forall i :: 0 <= i < |recs| ==> fields[i] == MovieField(recs[i])
  {
    seq(|recs|, i requires 0 <= i < |recs| => MovieField(recs[i]))
  }

  /** What `movie <searchTitle>` sends back. */
  function MovieReply(searchTitle: string, searchMovies: string -> MovieSearch,
                      recommendationsFor: int -> MovieRecs): (reply: Outcome)
    ensures !Found(MovieId(searchTitle, searchMovies)) ==> reply == Text(MovieNotFoundMessage(searchTitle))
    ensures reply.Text? ==>
      reply.message == MovieNotFoundMessage(searchTitle) || reply.message == NoMovieRecommendationsMessage(searchTitle)
    ensures reply.Rich? ==>
      && reply.embed.title == RecommendationsTitle(searchTitle)
      && reply.embed.description == MovieDescription
      && reply.embed.footer == Some(MovieFooter)
      && 1 <= |reply.embed.fields| <= MovieLimit
      && forall i :: 0 <= i < |reply.embed.fields| ==> reply.embed.fields[i].value == ""
  {
    var movieId := MovieId(searchTitle, searchMovies);
    if !Found(movieId) then
      Text(MovieNotFoundMessage(searchTitle))
    else
      var recs := MovieRecommendations(movieId.value, recommendationsFor);
      if recs == [] then
        Text(NoMovieRecommendationsMessage(searchTitle))
      else
        Rich(EmbedContent(RecommendationsTitle(searchTitle), MovieDescription,
                          MovieFields(recs), Some(MovieFooter)))
  }

  /** The `movie` handler: resolve the id, fetch recommendations, build the embed. */
  method Movie(searchTitle: string, searchMovies: string -> MovieSearch,
               recommendationsFor: int -> MovieRecs) returns (reply: Outcome)
    ensures reply == MovieReply(searchTitle, searchMovies, recommendationsFor)
  {
    var movieId := MovieId(searchTitle, searchMovies);
    if !Found(movieId) {
      return Text(MovieNotFoundMessage(searchTitle));
    }
    var recs := MovieRecommendations(movieId.value, recommendationsFor);
    if recs == [] {
      return Text(NoMovieRecommendationsMessage(searchTitle));
    }
    var embed := new Embed(RecommendationsTitle(searchTitle), MovieDescription);
    for i := 0 to |recs|
      invariant embed.title == RecommendationsTitle(searchTitle)
      invariant embed.description == MovieDescription && embed.footer == None
      invariant |embed.fields| == i
      invariant forall k :: 0 <= k < i ==> embed.fields[k] == MovieField(recs[k])
    {
      var field := MovieField(recs[i]);
      embed.AddField(field.name, field.value);
    }
    embed.SetFooter(MovieFooter);
    reply := Rich(embed.Content());
  }

  // ---- the book command ----

  function BookNotFoundMessage(searchTitle: string): string
  {
    "Sorry, I couldn't find '" + searchTitle + "' or its genres."
  }

  function NoBookRecommendationsMessage(primarySubject: string): string
  {
    "Found the book, " + "but couldn't find recommendations in the genre: '" + primarySubject + "'."
  }

  function BookDescription(primarySubject: string): string
  {
    "Based on the genre: **" + primarySubject + "**"
  }

  /** A work whose `authors` key, when present, names at least one author. */
  predicate WellFormedWork(work: Work)
  {
    work.authors.None? || |work.authors.value| > 0
  }

  predicate WellFormedWorks(works: seq<Work>)
  {
    forall i :: 0 <= i < |works| ==> WellFormedWork(works[i])
  }

  /**
   * What the `book` handler needs of its services: the works listed under the slug of
   * the first subject, if it gets that far, all name an author where they have `authors`.
   */
  predicate BookServicesWellFormed(searchTitle: string, searchBooks: string -> BookSearch,
                                   worksFor: string -> SubjectWorks)
  {
    var subjects := BookSubjects(searchTitle, searchBooks);
    subjects != [] ==> WellFormedWorks(BooksBySubject(subjects[0], worksFor))
  }

  /** The author shown for a work: the first author's name, or `Unknown Author` when `authors` is absent. */
  function AuthorLabel(authors: Option<seq<Author>>): (author: string)
    requires authors.None? || |authors.value| > 0
    ensures authors.None? ==> author == UnknownAuthor
    ensures authors.Some? ==> author == authors.value[0].name
  {
    var list := authors.GetOr([Author(UnknownAuthor)]);
    list[0].name
  }

  /** The field for one recommended work: its title, with value `by <author>`. */
  function BookField(work: Work): (field: Field)
    requires WellFormedWork(work)
    ensures field.name == work.title
    ensures "by " <= field.value && |field.value| == |AuthorLabel(work.authors)| + 3
    ensures field.value[3..] == AuthorLabel(work.authors)
  {
    Field(work.title, "by " + AuthorLabel(work.authors))
  }

  function BookFields(works: seq<Work>): (fields: seq<Field>)
    requires WellFormedWorks(works)
    ensures |fields| == |works|
    ensures forall i :: 0 <= i < |works| ==> fields[i] == BookField(works[i])
  {
    seq(|works|, i requires 0 <= i < |works| => BookField(works[i]))
  }

  /** What `book <searchTitle>` sends back. */
  function BookReply(searchTitle: string, searchBooks: string -> BookSearch,
                     worksFor: string -> SubjectWorks): (reply: Outcome)
    requires BookServicesWellFormed(searchTitle, searchBooks, worksFor)
    ensures BookSubjects(searchTitle, searchBooks) == [] ==> reply == Text(BookNotFoundMessage(searchTitle))
    ensures reply.Text? ==>
      || reply.message == BookNotFoundMessage(searchTitle)
      || reply.message == NoBookRecommendationsMessage(BookSubjects(searchTitle, searchBooks)[0])
    ensures reply.Rich? ==>
      var primarySubject := BookSubjects(searchTitle, searchBooks)[0];
      && reply.embed.title == RecommendationsTitle(searchTitle)
      && reply.embed.description == BookDescription(primarySubject)
      && reply.embed.footer == Some(BookFooter)
      && |reply.embed.fields| == |BooksBySubject(primarySubject, worksFor)| > 0
      && forall i :: 0 <= i < |reply.embed.fields| ==> "by " <= reply.embed.fields[i].value
  {
    var subjects := BookSubjects(searchTitle, searchBooks);
    if subjects == [] then
      Text(BookNotFoundMessage(searchTitle))
    else
      var primarySubject := subjects[0];
      var recs := BooksBySubject(primarySubject, worksFor);
      if recs == [] then
        Text(NoBookRecommendationsMessage(primarySubject))
      else
        Rich(EmbedContent(RecommendationsTitle(searchTitle), BookDescription(primarySubject),
                          BookFields(recs), Some(BookFooter)))
  }

  /** The `book` handler: find the subjects, list works of the first one, build the embed. */
  method Book(searchTitle: string, searchBooks: string -> BookSearch,
              worksFor: string -> SubjectWorks) returns (reply: Outcome)
    requires BookServicesWellFormed(searchTitle, searchBooks, worksFor)
    ensures reply == BookReply(searchTitle, searchBooks, worksFor)
  {
    var subjects := BookSubjects(searchTitle, searchBooks);
    if subjects == [] {
      return Text(BookNotFoundMessage(searchTitle));
    }
    var primarySubject := subjects[0];
    var recs := BooksBySubject(primarySubject, worksFor);
    if recs == [] {
      return Text(NoBookRecommendationsMessage(primarySubject));
    }
    var embed := new Embed(RecommendationsTitle(searchTitle), BookDescription(primarySubject));
    for i := 0 to |recs|
      invariant embed.title == RecommendationsTitle(searchTitle)
      invariant embed.description == BookDescription(primarySubject) && embed.footer == None
      invariant |embed.fields| == i
      invariant forall k :: 0 <= k < i ==> embed.fields[k] == BookField(recs[k])
    {
      var field := BookField(recs[i]);
      embed.AddField(field.name, field.value);
    }
    embed.SetFooter(BookFooter);
    reply := Rich(embed.Content());
  }
}
