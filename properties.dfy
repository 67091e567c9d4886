/**
 * What each command replies, case by case: every reply happens exactly in its own
 * case, and in the embed case the fields are the formatted records in order.
 */
module Properties {
  import opened Wrappers
  import opened Strings
  import opened Api
  import opened Chat
  import opened Commands

  lemma MovieMessagesDiffer(searchTitle: string)
    ensures MovieNotFoundMessage(searchTitle)[0] == 'S'
    ensures NoMovieRecommendationsMessage(searchTitle)[0] == 'I'
  {
  }

  /**
   * `movie` answers "couldn't find the movie" exactly when the search yields no id
   * or the id `0`.
   */
  lemma MovieNotFoundExactly(searchTitle: string, searchMovies: string -> MovieSearch,
                             recommendationsFor: int -> MovieRecs)
    ensures MovieReply(searchTitle, searchMovies, recommendationsFor) == Text(MovieNotFoundMessage(searchTitle))
        <==> !Found(MovieId(searchTitle, searchMovies))
  {
    MovieMessagesDiffer(searchTitle);
  }

  /** When no movie is found, the recommendation service is not consulted. */
  lemma MovieNotFoundSkipsRecommendations(searchTitle: string, searchMovies: string -> MovieSearch,
                                          recommendationsFor: int -> MovieRecs, other: int -> MovieRecs)
    requires !Found(MovieId(searchTitle, searchMovies))
    ensures MovieReply(searchTitle, searchMovies, recommendationsFor) == MovieReply(searchTitle, searchMovies, other)
  {
  }

  /**
   * `movie` answers "found it, but no recommendations" exactly when an id is found
   * and the recommendations for that id are empty.
   */
  lemma MovieNoRecommendationsExactly(searchTitle: string, searchMovies: string -> MovieSearch,
                                      recommendationsFor: int -> MovieRecs)
    ensures MovieReply(searchTitle, searchMovies, recommendationsFor) == Text(NoMovieRecommendationsMessage(searchTitle))
        <==> var movieId := MovieId(searchTitle, searchMovies);
             Found(movieId) && MovieRecommendations(movieId.value, recommendationsFor) == []
  {
    MovieMessagesDiffer(searchTitle);
  }

  /**
   * `movie` sends an embed exactly when an id is found and it has recommendations;
   * the embed then holds one field `<title> (<year>)` per recommendation, in the
   * order of the response, so between one and five of them.
   */
  lemma MovieEmbedExactly(searchTitle: string, searchMovies: string -> MovieSearch,
                          recommendationsFor: int -> MovieRecs)
    ensures MovieReply(searchTitle, searchMovies, recommendationsFor).Rich?
        <==> var movieId := MovieId(searchTitle, searchMovies);
             Found(movieId) && MovieRecommendations(movieId.value, recommendationsFor) != []
    ensures MovieReply(searchTitle, searchMovies, recommendationsFor).Rich? ==>
      var embed := MovieReply(searchTitle, searchMovies, recommendationsFor).embed;
      var all := recommendationsFor(MovieId(searchTitle, searchMovies).value).results.value;
      && embed.title == "Recommendations for '" + TitleCase(searchTitle) + "'"
      && embed.description == MovieDescription
      && embed.footer == Some(MovieFooter)
      && 1 <= |embed.fields| <= MovieLimit
      && |embed.fields| == Min(MovieLimit, |all|)
      && forall i :: 0 <= i < |embed.fields| ==>
           embed.fields[i] == Field(all[i].title + " (" + YearLabel(all[i].releaseDate) + ")", "")
  {
  }

  lemma BookMessagesDiffer(searchTitle: string, primarySubject: string)
    ensures BookNotFoundMessage(searchTitle)[0] == 'S'
    ensures NoBookRecommendationsMessage(primarySubject)[0] == 'F'
  {
  }

  /** `book` answers "couldn't find it or its genres" exactly when no subject is found. */
  lemma BookNotFoundExactly(searchTitle: string, searchBooks: string -> BookSearch,
                            worksFor: string -> SubjectWorks)
    requires BookServicesWellFormed(searchTitle, searchBooks, worksFor)
    ensures BookReply(searchTitle, searchBooks, worksFor) == Text(BookNotFoundMessage(searchTitle))
        <==> BookSubjects(searchTitle, searchBooks) == []
  {
    var subjects := BookSubjects(searchTitle, searchBooks);
    if subjects != [] {
      BookMessagesDiffer(searchTitle, subjects[0]);
    }
  }

  /**
   * `book` answers "no recommendations in the genre" exactly when a subject is found
   * and the listing for it is empty; the message names the first subject as found,
   * not its slug.
   */
  lemma BookNoRecommendationsExactly(searchTitle: string, searchBooks: string -> BookSearch,
                                     worksFor: string -> SubjectWorks)
    requires BookServicesWellFormed(searchTitle, searchBooks, worksFor)
    ensures var subjects := BookSubjects(searchTitle, searchBooks);
      (subjects != [] && BookReply(searchTitle, searchBooks, worksFor) == Text(NoBookRecommendationsMessage(subjects[0])))
        <==> subjects != [] && worksFor(Slug(subjects[0])).works.GetOr([]) == []
  {
  }

  /**
   * `book` sends an embed exactly when a subject is found and the listing under its
   * slug has works; the embed describes the first subject and holds one field per
   * listed work, in order and with no limit on their number, valued `by <author>`.
   */
  lemma BookEmbedExactly(searchTitle: string, searchBooks: string -> BookSearch,
                         worksFor: string -> SubjectWorks)
    requires BookServicesWellFormed(searchTitle, searchBooks, worksFor)
    ensures var subjects := BookSubjects(searchTitle, searchBooks);
      (BookReply(searchTitle, searchBooks, worksFor).Rich? <==>
       subjects != [] && worksFor(Slug(subjects[0])).works.GetOr([]) != [])
    ensures BookReply(searchTitle, searchBooks, worksFor).Rich? ==>
      var embed := BookReply(searchTitle, searchBooks, worksFor).embed;
      var primarySubject := BookSubjects(searchTitle, searchBooks)[0];
      var works := worksFor(Slug(primarySubject)).works.value;
      && embed.title == "Recommendations for '" + TitleCase(searchTitle) + "'"
      && embed.description == "Based on the genre: **" + primarySubject + "**"
      && embed.footer == Some(BookFooter)
      && |embed.fields| == |works|
      && forall i :: 0 <= i < |embed.fields| ==>
           && embed.fields[i].name == works[i].title
           && embed.fields[i].value == "by " + AuthorLabel(works[i].authors)
  {
  }

  /** Of all the subjects found, only the first one decides the reply. */
  lemma BookUsesFirstSubjectOnly(searchTitle: string, searchBooks: string -> BookSearch,
                                 otherSearch: string -> BookSearch, worksFor: string -> SubjectWorks)
    requires BookServicesWellFormed(searchTitle, searchBooks, worksFor)
    requires BookSubjects(searchTitle, searchBooks) != [] && BookSubjects(searchTitle, otherSearch) != []
    requires BookSubjects(searchTitle, searchBooks)[0] == BookSubjects(searchTitle, otherSearch)[0]
    ensures BookServicesWellFormed(searchTitle, otherSearch, worksFor)
    ensures BookReply(searchTitle, searchBooks, worksFor) == BookReply(searchTitle, otherSearch, worksFor)
  {
  }

  /** The only listing `book` consults is the one under the slug of the first subject. */
  lemma BookLooksUpSlugOnly(searchTitle: string, searchBooks: string -> BookSearch,
                            worksFor: string -> SubjectWorks, otherWorks: string -> SubjectWorks)
    requires BookServicesWellFormed(searchTitle, searchBooks, worksFor)
    requires var subjects := BookSubjects(searchTitle, searchBooks);
      subjects != [] ==> worksFor(Slug(subjects[0])) == otherWorks(Slug(subjects[0]))
    ensures BookServicesWellFormed(searchTitle, searchBooks, otherWorks)
    ensures BookReply(searchTitle, searchBooks, worksFor) == BookReply(searchTitle, searchBooks, otherWorks)
  {
  }

  /** A listing of six works gives an embed of six fields: nothing caps the list at five. */
  lemma BookEmbedNotCapped(searchTitle: string, work: Work)
    requires WellFormedWork(work)
    ensures var searchBooks := (q: string) => BookSearch(Some([BookDoc(Some(["Fantasy", "Fiction", "Magic"]))]));
      var worksFor := (slug: string) => SubjectWorks(Some([work, work, work, work, work, work]));
      BookServicesWellFormed(searchTitle, searchBooks, worksFor) &&
      BookReply(searchTitle, searchBooks, worksFor).Rich? &&
      |BookReply(searchTitle, searchBooks, worksFor).embed.fields| == 6
  {
    var searchBooks := (q: string) => BookSearch(Some([BookDoc(Some(["Fantasy", "Fiction", "Magic"]))]));
    var worksFor := (slug: string) => SubjectWorks(Some([work, work, work, work, work, work]));
    assert BookSubjects(searchTitle, searchBooks)[0] == "Fantasy";
  }

  /**
   * The book whose subjects are Fantasy, Fiction and Magic, with an empty listing for
   * the genre, gets the genre message naming `Fantasy`.
   */
  lemma BookEmptyGenreScenario(searchTitle: string, worksFor: string -> SubjectWorks)
    requires worksFor(Slug("Fantasy")).works.GetOr([]) == []
    ensures var searchBooks := (q: string) => BookSearch(Some([BookDoc(Some(["Fantasy", "Fiction", "Magic"]))]));
      BookServicesWellFormed(searchTitle, searchBooks, worksFor) &&
      BookReply(searchTitle, searchBooks, worksFor) == Text(NoBookRecommendationsMessage("Fantasy"))
  {
    var searchBooks := (q: string) => BookSearch(Some([BookDoc(Some(["Fantasy", "Fiction", "Magic"]))]));
    assert BookSubjects(searchTitle, searchBooks)[0] == "Fantasy";
  }
}
