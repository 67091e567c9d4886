# Movie-bot recommendation logic in Dafny

A model of the decision and formatting logic of a Discord bot with three commands:
`hello` greets the caller, `movie <title>` recommends films similar to a title found on
The Movie Database (TMDB), and `book <title>` recommends books from the Open Library
subject listing of the first genre of a title.

Every HTTP request becomes a function parameter that maps what the code puts into the
request (a search query, a movie id, a subject path) to the parsed JSON body. That way the
model can say which value each lookup receives: the id of the first search result, or the
slug of the first subject. A JSON key that may be missing is an `Option` (`None` = absent).
What a command sends to the channel is an `Outcome`: a plain `Text` message or a `Rich`
embed with title, description, ordered fields and footer.

Modules:

- `Wrappers`: `Option` and `Min`.
- `Strings`: ASCII models of `str.lower`, `str.replace`, `str.title` and `str.split(sep)[0]`.
- `Api`: the parsed response shapes and the four helpers `get_movie_id`,
  `get_movie_recommendations`, `get_book_subjects` and `get_books_by_subject`, whose path
  segment is `Slug`.
- `Chat`: fields, embed content, `Outcome`, and the mutable `Embed` class that the handlers
  fill in (constructor, `AddField`, `SetFooter`).
- `Commands`: the messages, the per-record field formatting, the reply functions
  `MovieReply`/`BookReply`, and the handler methods `Movie`/`Book`. The handlers build the
  embed in a `for` loop, one field per record. Each is proved equal to its reply function.
- `Properties`: what each command replies in each case.

The book listing is not capped at five works. `get_books_by_subject` (main.py:47-53) returns the `works` list unchanged; five appears only as the `limit` request
parameter (main.py:50), which the server may or may not honour. `BookEmbedExactly` states one
field per listed work, and `BookEmbedNotCapped` exhibits a six-field embed.

Other details kept from the code:

- `if not movie_id` also rejects the id `0`. This is the predicate `Commands.Found`.
- The genre message names the subject as found, not its slug.

## Model

| member | source | states |
|---|---|---|
| Strings.Lower | main.py:49 | `lower()`: same length; each character is its lower-case form (ASCII capitals become small letters, all else unchanged) |
| Strings.Replace | main.py:49 | `replace(x, y)` of one character: same length; each `x` becomes `y`, every other character is kept |
| Strings.BeforeFirst | main.py:90 | `split(sep)[0]`: a prefix of the text, free of `sep`, ending at the end of the text or just before a `sep` |
| Strings.BeforeFirstUnique | main.py:90 | any prefix with those three properties is exactly what `BeforeFirst` returns |
| Strings.BeforeFirstOfJoined | main.py:90 | splitting `head + sep + tail` gives back `head` when `head` holds no `sep` |
| Strings.TitleCase | main.py:84 | `title()`: same length; a letter is upper-cased when the character before it is not a letter (or it is first), lower-cased otherwise; non-letters unchanged |
| Strings.TitleCaseIdempotent | main.py:111 | sanity property of the `title()` model: title-casing a title-cased text changes nothing |
| Api.MovieId | main.py:19-27 | an id exists iff `results` is present and non-empty, and it is the id of `results[0]` |
| Api.MovieIdIgnoresLaterResults | main.py:25-26 | whatever follows the first result, the id of the first is returned |
| Api.MovieRecommendations | main.py:29-35 | absent `results` gives no records; otherwise the first `min(5, n)` results, a prefix of the response in its order |
| Api.BookSubjects | main.py:37-45 | at most 3 subjects; a prefix of length `min(3, n)` of `docs[0].subject` when `docs` is non-empty and its first entry has `subject`, otherwise none |
| Api.BookSubjectsIgnoreLaterDocs | main.py:43-45 | a first document without `subject` gives no subjects, whatever later documents hold |
| Api.Slug | main.py:49 | same length as the subject, no space in it; each space becomes `_`, every other character is lower-cased |
| Api.SlugIdempotent | main.py:49 | sanity property of the slug model: the slug of a slug is itself |
| Api.BooksBySubject | main.py:47-53 | the `works` of the listing under the subject's slug, unchanged and untruncated, or none when `works` is absent |
| Api.BooksBySubjectSameSlug | main.py:49-53 | two subjects of equal length that agree character by character up to ASCII case and space versus `_` get the same works |
| Chat.Embed.constructor | main.py:83-87 | a new embed has the given title and description, no fields and no footer |
| Chat.Embed.AddField | main.py:91 | appends one field after the existing ones; nothing else changes |
| Chat.Embed.SetFooter | main.py:93 | sets the footer; nothing else changes |
| Commands.HelloReply | main.py:65-68 | a text message `Hello, <name>!` from which the caller's name is recovered between the prefix and the `!` |
| Commands.YearLabel | main.py:90 | `N/A` when `release_date` is absent; otherwise the prefix of the date before its first `-`, which contains no `-` |
| Commands.YearLabelOfDate | main.py:90 | a date `yyyy-…` shows as `yyyy` |
| Commands.AuthorLabel | main.py:117 | `Unknown Author` when `authors` is absent, otherwise the first author's name |
| Commands.Found | main.py:74 | `if not movie_id`: an id counts as found iff it is present and not `0` |
| Commands.MovieField | main.py:89-91 | the field for one movie: empty value; the name is the title, then ` (`, then the year label, then `)`, so title and year can be read back from it |
| Commands.MovieFields | main.py:88-91 | the per-record map of `MovieField` over the recommendations, one field each, in order (the property against the raw response is `Properties.MovieEmbedExactly`) |
| Commands.MovieReply | main.py:73-94 | the model of the `movie` handler. With no id (or id `0`) it is the not-found text. Any text reply is one of the two failure messages. An embed has the title-cased title, the fixed description and TMDB footer, 1 to 5 fields and empty field values |
| Commands.BookField | main.py:116-118 | the field for one work: the name is the work's title, the value is `by ` followed by the author label |
| Commands.BookFields | main.py:115-118 | the per-record map of `BookField` over the works, one field each, in order (the property against the raw response is `Properties.BookEmbedExactly`) |
| Commands.BookReply | main.py:99-121 | the model of the `book` handler. With no subjects it is the not-found text. Any text reply is the not-found text or the genre message for the first subject. An embed describes the first subject, has the Open Library footer, and has one field per listed work (at least one), each valued `by …` |
| Commands.Movie | main.py:70-94 | the handler's reply equals `MovieReply`; the loop adds one field per recommendation, in order, then the footer |
| Commands.Book | main.py:96-121 | the handler's reply equals `BookReply`; the loop adds one field per work, in order, then the footer |
| Properties.MovieNotFoundExactly | main.py:73-76 | the movie-not-found message is sent iff the search gives no id or the id 0 |
| Properties.MovieNotFoundSkipsRecommendations | main.py:73-78 | when no movie is found, the reply does not depend on the recommendation service |
| Properties.MovieNoRecommendationsExactly | main.py:78-81 | the no-recommendations message is sent iff an id is found and its recommendations are empty |
| Properties.MovieEmbedExactly | main.py:83-94 | an embed is sent iff an id is found with recommendations. It has the title-cased title, the fixed description and TMDB footer, and 1 to 5 fields: the i-th is `<title> (<year>)` of the i-th result, with an empty value |
| Properties.BookNotFoundExactly | main.py:99-102 | the book-not-found message is sent iff no subject is found |
| Properties.BookNoRecommendationsExactly | main.py:104-108 | the genre message, naming the unslugged first subject, is sent iff a subject is found and the listing under its slug is empty |
| Properties.BookEmbedExactly | main.py:110-121 | an embed is sent iff the listing under the first subject's slug has works. It describes the first subject and has the Open Library footer. It has exactly one field per work, in order: name = work title, value = `by <author>` |
| Properties.BookUsesFirstSubjectOnly | main.py:104-105 | two searches with the same first subject give the same reply |
| Properties.BookLooksUpSlugOnly | main.py:105 | two listing services that agree on the first subject's slug give the same reply |
| Properties.BookEmbedNotCapped | main.py:50-53 | six listed works give an embed with six fields |
| Properties.BookEmptyGenreScenario | main.py:104-107 | subjects Fantasy, Fiction, Magic with an empty listing give the genre message naming `Fantasy` |

## Left out

- Discord plumbing: bot construction, intents, `on_ready`, command registration, `ctx.send` and `bot.run`. The caller's name for `hello` is a parameter.
- Embed colours (blue, orange) and `inline=False`: display attributes that no decision depends on.
- HTTP requests, URLs, query parameters and `.json()` parsing: each request is a function from its varying part to the parsed body.
- Loading the environment and printing the token (main.py:9-11, main.py:122): process glue.
- Asynchronous scheduling: no reply depends on how handlers interleave.
- The argument parsing of the command framework: the search title is given as it reaches the handler.
- Crash paths on malformed JSON. Python raises on, for example: a `null` recommendation `results` (main.py:35), a `null` `subject` (main.py:44), a `null` `authors` (main.py:117) or a `null` `release_date` (main.py:90); a `null` record where a dictionary is expected, namely `docs[0]` (main.py:43), `results[0]` of the search (main.py:26), an entry of the recommendations (main.py:89) or of `works` (main.py:116); a missing `id` (main.py:26), `title` (main.py:89, main.py:116) or author `name` (main.py:117); and an empty `authors` list (main.py:117). The response types cannot express the nulls and the missing keys. The empty `authors` list is excluded by `BookServicesWellFormed`, which `Book`, `BookReply` and the book properties require.
- A `null` `docs` (main.py:43), `works` (main.py:53, main.py:106) or movie-search `results` (main.py:25) does not raise: each is falsy and behaves as an absent key, which the model's `None` covers.
- Strings.Lower: models `str.lower` on ASCII only; non-ASCII letters are left unchanged, whereas Python also lower-cases them and may change the length.
- Strings.TitleCase: models `str.title` on ASCII only; non-ASCII cased letters count as uncased here.
- Api.MovieId: `results` present but `null` is not distinguished from absent (both give no id, as in the code).
- JSON types other than those read are not modelled: ids are integers, titles are strings, `subject` and `docs` are lists. So a `null` `title`, which the f-strings render as `None` (main.py:91, main.py:118), is not modelled. Neither is a string `subject`, which `[:3]` slices so that its first character becomes the genre (main.py:44). Nor is a string `docs`, for which `'subject' in docs[0]` is a substring test giving no subjects (main.py:43).
