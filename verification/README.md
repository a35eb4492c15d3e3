# LocalLibrary catalog, modelled in Dafny

LocalLibrary is an Express/Mongoose web application that keeps a library
catalog: authors, books, genres and book copies ("book instances"). Everything
sits under `/catalog`. This project models the request handlers that read and
change the catalog, together with the route table that picks them:

- validation and sanitising of the forms;
- the decisions of the create, update and delete handlers, including
  duplicate detection by `findOne`, the delete guards and the not-found paths;
- the genre "checked" marking loops of the book form;
- the schema rules and virtuals of Author and BookInstance;
- first-match dispatch over the catalog routes.

Model decisions:

- **Datastore.** The datastore is a value `Db` with one map per collection
  (`store.dfy`). Ids are naturals handed out in ascending order, so the least
  id is the first record in storage order. An id's text in URLs and forms is
  its decimal numeral, and the Mongoose ObjectId cast is the parse of that
  numeral. A failing datastore is modelled by the `offline` set of
  collections.
- **Handlers.** Every handler is a pure function from the datastore and the
  request fields to a `Response`: an outcome plus the datastore it leaves.
  - The outcome is a rendered view, a redirect, a 404, or an error.
  - The error says which way the handler failed: datastore, cast, schema
    validation, missing record, or crash.
- **Crash.** Several handlers are declared without `next` and then call
  `next(err)`, which throws a ReferenceError. Those paths are `Error(Crash)`.
- **Absent fields.** express-validator's sanitisers run on fields the
  request leaves out, so `toDate()` turns an absent date into `null`: a
  created copy or author gets no date, and an update clears the stored one.
  A query or delete whose id comes from an absent body field has the filter
  `{_id: undefined}`, which Mongoose treats as no filter.
- **References that do not cast.** `new Book`/`new BookInstance` leave a
  reference that does not cast unset (a genre list falls back to the empty
  list). The create handlers' duplicate lookup then drops that key, so it
  may find a record that matches only in the other fields; if it finds
  none, the save fails the schema's checks. The update handlers hand the
  built record to `findByIdAndUpdate`, which runs no checks and leaves the
  unset path as stored.
- **Dates.** `toDate()` uses `Date.parse`, which takes days 01-31 in every
  month and rolls a day past the month's end into the next month.
- **Delete guards.** The guards are written as `list > 0`, a comparison of a
  list of documents with a number. JavaScript compares the list's text as a
  number: an empty list reads as 0, and a non-empty list is NaN because a
  document's text starts with `{`. So the guard never holds, and this is
  modelled literally (`js.dfy`).
- **Bugs.** Where the code does something its authors evidently did not
  intend, the model follows the code. The intended version is modelled next
  to it, and both are listed under Findings.

Files:

- `optional.dfy`, `text.dfy`, `ids.dfy`, `dates.dfy`, `js.dfy`: shared text
  handling (trim, escape, decimal numerals, path splitting), ISO dates, and
  JavaScript coercions.
- `author_model.dfy`, `bookinstance_model.dfy`, `book_model.dfy`,
  `genre_model.dfy`: the records and their virtuals.
- `store.dfy`, `validation.dfy`: the datastore, responses, and the per-field
  validation rules.
- `author_controller.dfy`, `genre_controller.dfy`, `book_controller.dfy`,
  `genre_marks.dfy`, `bookinstance_controller.dfy`: the handlers.
- `routes.dfy`: the catalog route table and its dispatch.

## Model

| member | source | states |
|---|---|---|
| Routes.Block | routes/catalog.js:15-37 | each entity's eight routes carry that entity's handlers and are registered under the method each handler expects; every pattern starts with the entity's name or its plural |
| Routes.FirstFit | routes/catalog.js:13-118 | first-match search: the index found fits the request and no earlier route fits; no index is found only when no route fits |
| Routes.Dispatch | routes/catalog.js:13-118 | a request gets no handler exactly when no route of the table fits it |
| Routes.Capture | routes/catalog.js:22 | the captured id is a segment at a `:id` position of the pattern; nothing is captured exactly when the pattern has no `:id` |
| Routes.DispatchAppend | routes/catalog.js:13-118 | dispatch over two tables in sequence answers from the first table if it can and from the second otherwise |
| Routes.OwnBlock | routes/catalog.js:13-118 | a request whose first segment names an entity is answered by that entity's routes alone |
| Routes.CreateBeforeDetail | routes/catalog.js:15-19 | `/X/create` fits the detail pattern too, yet GET and POST reach the create form and create handlers, for all four entities |
| Routes.DetailReached | routes/catalog.js:34 | GET `/X/:id` with any id except "create" reaches the detail handler with that id |
| Routes.DetailNotPosted | routes/catalog.js:34 | POST to a detail path fits no route |
| Routes.DeleteReached | routes/catalog.js:21-25 | `/X/:id/delete` reaches the delete form (GET) or delete (POST) handler with the id, for every id including "create" |
| Routes.UpdateReached | routes/catalog.js:27-31 | `/X/:id/update` reaches the update form (GET) or update (POST) handler with the id |
| Routes.ListReached | routes/catalog.js:37 | GET `/Xs` reaches the list handler |
| Routes.ListNotPosted | routes/catalog.js:37 | POST to a list path fits no route |
| Routes.IndexReached | routes/catalog.js:13 | GET `/` reaches the catalog home page |
| Routes.EveryHandlerReached | routes/catalog.js:13-118 | every handler of every entity is reached by some request with its own method, so no route is shadowed by an earlier one |
| Routes.NamesDiffer | routes/catalog.js:13-118 | the four entities' names and plurals are pairwise different |
| Routes.UrlsAreDetailPaths | models/author.js:26-28 | each entity's `url` is `/catalog` followed by its detail path |
| Routes.RedirectReachesDetail | routes/catalog.js:34 | the detail path of record `k` is served by that entity's detail handler with `k`'s own id text |
| Routes.SegmentsOfTwo | routes/catalog.js:34 | a path `/x/y` with slash-free `x`, `y` splits into exactly `x` and `y` |
| Text.Trim | controllers/bookController.js:110-113 | `trim()`: the result is empty exactly when the text is blank, and otherwise starts and ends with a non-space |
| Text.TrimIdempotent | controllers/bookController.js:110-113 | trimming twice is trimming once |
| Text.Escape | controllers/bookController.js:288-291 | `escape()`: no markup character is left except the `&` that opens an entity, and text without markup is unchanged |
| Text.EscapeLengthens | controllers/bookController.js:288-291 | escaping never shortens a text and strictly lengthens any text holding a markup character |
| Text.EscapeShowsMarkup | controllers/bookController.js:117 | a text holding a markup character escapes to one holding '&' |
| Text.AlphanumericIsSanitised | controllers/authorController.js:49-65 | an alphanumeric name passes trim and escape unchanged |
| Text.ParseDecimalString | models/author.js:26-28 | every id's numeral parses back to that id |
| Text.DecimalStringOfParse | models/author.js:26-28 | every numeral that parses is the canonical text of its value |
| Text.SplitJoin | routes/catalog.js:13-118 | splitting a path at '/' undoes joining segments that hold no '/' |
| Text.ParseSignedString | models/author.js:21-23 | every integer survives the trip to its text and back |
| Ids.CastId | controllers/bookController.js:50 | a text that casts to an id is that id's text |
| Ids.CastIdText | models/author.js:26-28 | the text of an id casts back to the id |
| Ids.EscapeCastsAlike | controllers/bookController.js:117 | escaping a text never changes whether it casts to an id, nor which id |
| Ids.IdTextInjective | models/author.js:26-28 | different ids have different texts |
| Ids.CreateIsNoId | routes/catalog.js:15-34 | no id's text is the path segment "create" |
| Dates.DaysIn | controllers/authorController.js:66-67 | every month has 28 to 31 days, December 31 |
| Dates.ToDate | controllers/authorController.js:66-67 | `Date.parse` on an ISO calendar date: a day that exists is kept, and a day past the end of its month is counted into the next month; the result is always a real date |
| Dates.SanitiseDate | controllers/authorController.js:66-67 | `toDate()` gives a date exactly for an ISO calendar date; the date prints back as the submitted text exactly when its day exists in its month |
| Dates.IsoStringOfDate | controllers/authorController.js:57-67 | reading an ISO date whose day exists and writing it back gives the submitted text |
| Dates.RolledOver | controllers/authorController.js:57-67 | an ISO date whose day is past the end of its month never prints back as submitted |
| Dates.FebruaryRollsOver | controllers/bookinstanceController.js:48-54 | `2019-02-31` passes the ISO check and is stored as the 3rd of March 2019 |
| Dates.DateOfIsoString | controllers/authorController.js:57-67 | writing a real date and reading it back gives the date |
| Dates.Formatted | models/author.js:30-36 | a formatted date is empty exactly when the date is absent, and is the long form otherwise |
| Js.ListText | controllers/bookController.js:222 | a list of documents reads as empty text only when it is empty, and otherwise starts with '{' |
| Js.ListGuardNeverHolds | controllers/bookController.js:222 | the guard `list > 0` holds for no list of documents |
| Store.Select | controllers/authorController.js:25 | the ids found are exactly the stored records that match, in ascending storage order |
| Store.FirstMatch | controllers/authorController.js:91-92 | `findOne` returns the least matching id, and finds nothing only when no record matches |
| Store.ReadBodyId | controllers/bookController.js:215 | an absent body id is `NoId`, and an id read from the body is the one whose text was sent |
| Store.AllIds | controllers/bookController.js:218 | a query whose filter is `undefined` finds every record, in ascending storage order |
| Store.DropFirst | controllers/bookinstanceController.js:109 | `findByIdAndDelete(undefined)` has an empty filter and removes the first record in storage order, or nothing from an empty collection |
| Store.BuiltId | controllers/genreController.js:159-163 | a record built with a path id that casts has that id; otherwise it keeps a generated id that no stored record has |
| Validation.Required | controllers/bookController.js:110-113 | `trim().isLength({min: 1})` reports its message exactly when the field is blank or absent |
| Validation.Alphanumeric | controllers/authorController.js:49-55 | the alphanumeric rule reports exactly when the trimmed field is not alphanumeric |
| Validation.OptionalDate | controllers/authorController.js:57-62 | an absent or empty date is accepted and any other text must be an ISO date |
| Validation.CleanFilled | controllers/bookinstanceController.js:45-53 | a field that passed the not-blank rule is still non-empty once trimmed and escaped |
| Validation.DateField | controllers/bookinstanceController.js:48-54 | the date sanitiser runs on absent fields too: an ISO date becomes the date `Date.parse` reads, and an absent field or any other text becomes null; the field is never left unset |
| Validation.NewDate | controllers/authorController.js:66-67 | a date is set exactly when an ISO date was sent; it prints back as sent exactly when its day exists, and otherwise is rolled into the next month; an absent date is no date |
| Validation.FourRules | controllers/bookController.js:110-113 | four rule chains on four fields: the form passes exactly when every chain does, and each error appears exactly when its own chain fails |
| AuthorModel.Name | models/author.js:13-18 | `name` is "family, first" when both names are present and "" otherwise |
| AuthorModel.NameDeterminesNames | models/author.js:13-18 | for alphanumeric names, the full name determines both names |
| AuthorModel.DateOfBirthFormatted | models/author.js:30-32 | empty exactly when there is no date of birth |
| AuthorModel.DateOfDeathFormatted | models/author.js:34-36 | empty exactly when there is no date of death |
| AuthorModel.LifespanAsWritten | models/author.js:21-23 | as written, `lifespan` throws a TypeError when either date is missing, and otherwise is the `toString` function, never a text |
| AuthorModel.Lifespan | models/author.js:21-23 | as intended, `lifespan` is the text of the difference in years |
| AuthorModel.LifespanAsWrittenIsNoNumber | models/author.js:21-23 | what the template shows for `lifespan` is never the number of years |
| BookInstanceModel.ParseStatus | models/bookinstance.js:8 | a status that passes the enum check is the text of that status |
| BookInstanceModel.ParseStatusText | models/bookinstance.js:8 | each of the four statuses passes the enum check as itself |
| BookInstanceModel.New | models/bookinstance.js:5-10 | a missing status becomes Maintenance and a missing due date becomes now; a given status and date are kept, and null clears the date |
| BookInstanceModel.DefaultsAreValid | models/bookinstance.js:5-10 | a copy built with the defaults and an imprint passes the schema and is due now |
| BookInstanceModel.DueBackFormatted | models/bookinstance.js:18-22 | empty exactly when there is no due date |
| AuthorController.NameRules | controllers/authorController.js:49-55 | a name is accepted exactly when it is alphanumeric once trimmed; each of its two messages appears exactly when its check fails |
| AuthorController.FormErrors | controllers/authorController.js:49-62 | no errors exactly when the form is acceptable |
| AuthorController.FirstNameReported | controllers/authorController.js:49-52 | the first-name messages appear exactly when their checks fail |
| AuthorController.FamilyNameReported | controllers/authorController.js:53-56 | the family-name messages appear exactly when their checks fail |
| AuthorController.DatesReported | controllers/authorController.js:57-62 | each date message appears exactly when its date is neither absent, empty nor ISO |
| AuthorController.CreateErrors | controllers/authorController.js:49-62 | the create form's errors are empty exactly when the form is acceptable, each with the create form's own wording |
| AuthorController.UpdateErrors | controllers/authorController.js:181-194 | the update form's errors are empty exactly when the form is acceptable, each with the update form's wording |
| AuthorController.Submitted | controllers/authorController.js:64-85 | the new author holds the trimmed names and the sent dates, and passes the schema exactly when both names fit 100 characters |
| AuthorController.AcceptedNames | controllers/authorController.js:64-65 | an accepted name is unchanged by escaping |
| AuthorController.BooksBy | controllers/authorController.js:24-26 | exactly the books whose author is the id |
| AuthorController.AuthorDetail | controllers/authorController.js:18-38 | as written, a page is shown exactly for a valid, stored id with the datastore up; every other path crashes; nothing is written |
| AuthorController.AuthorDetailChecked | controllers/authorController.js:18-38 | as intended, a bad id is a cast error, a failing datastore an error, and a missing author the 404 |
| AuthorController.AuthorDetailMissingCrashes | controllers/authorController.js:27-36 | as written, a missing author crashes where the intended handler gives the 404 |
| AuthorController.SaveAuthor | controllers/authorController.js:91-111 | a duplicate pair of names leaves the store unchanged and redirects to the first such author; otherwise a valid author is added under the next id, and an invalid one is refused |
| AuthorController.FirstNamedUnique | controllers/authorController.js:91-92 | only one author is the first with a given pair of names |
| AuthorController.AuthorCreatePost | controllers/authorController.js:46-115 | a failed check re-renders the form and writes nothing; a failing datastore crashes; otherwise the author is saved |
| AuthorController.CreateIgnoresDates | controllers/authorController.js:91-101 | the duplicate check looks only at the names: forms differing only in dates get the same response |
| AuthorController.CreateThenDetail | controllers/authorController.js:105-110 | a new author's redirect leads to a detail page titled "family, first" |
| AuthorController.CreateIsIdempotent | controllers/authorController.js:91-111 | submitting the same create form twice changes nothing the second time |
| AuthorController.OverwriteAuthor | controllers/authorController.js:204-231 | the author at the id is replaced by the one the form describes, so a date the form leaves out is cleared; no id is added or removed, nothing else changes, and the redirect is the author's page |
| AuthorController.WriteUpdate | controllers/authorController.js:227-232 | a bad id is a cast error; a missing author crashes; otherwise the overwrite |
| AuthorController.AuthorUpdatePost | controllers/authorController.js:178-233 | as written, a failed check writes nothing and crashes on an existing author, because the inner `er` shadows the validation result |
| AuthorController.AuthorUpdatePostChecked | controllers/authorController.js:178-233 | as intended, a failed check on an existing author re-renders `author_form` with the errors |
| AuthorController.UpdateErrorsNeverShown | controllers/authorController.js:214-225 | as written, the update form never shows its errors; the intended handler renders them |
| AuthorController.UpdateThenDetail | controllers/authorController.js:198-232 | after a valid update the detail page shows the new name and exactly the dates sent; a date left out is cleared |
| AuthorController.DeleteAuthorNamed | controllers/authorController.js:154-158 | the author named by `authorid` is removed and nothing else changes; without `authorid` the first author in storage order is removed; a bad id crashes |
| AuthorController.AuthorDeletePost | controllers/authorController.js:138-161 | as written, the lookup uses `id` and `params.id`, the guard never fires, and the author named by `authorid` is deleted |
| AuthorController.AuthorDeleteIgnoresBooks | controllers/authorController.js:149-158 | as written, the author is deleted whatever books it has |
| AuthorController.AuthorDeleteLeavesDanglingBook | controllers/authorController.js:149-158 | a concrete store where the delete leaves a book naming a missing author |
| AuthorController.AuthorDeletePostGuarded | controllers/authorController.js:138-161 | as intended, an author with books is shown on the delete page and nothing is written; without `authorid` every book is listed, and the first author is deleted only when there are no books |
| AuthorController.GuardedDeleteKeepsReferences | controllers/authorController.js:149-158 | the guarded delete never leaves a book naming a missing author |
| AuthorController.DeleteThenDetail | controllers/authorController.js:154-158 | after the guarded delete of an author without books, its detail page is the 404 |
| GenreController.GenreErrors | controllers/genreController.js:51 | the one rule fails exactly when the name is blank, with "Genre name required" |
| GenreController.BooksOfGenre | controllers/genreController.js:24-28 | exactly the books listing the genre |
| GenreController.GenreDetail | controllers/genreController.js:18-40 | as written (no `next`), a page is shown exactly for a stored genre and every other path crashes |
| GenreController.GenreDetailChecked | controllers/genreController.js:18-40 | as intended, a missing genre is the 404 "Genre not found" |
| GenreController.SaveGenre | controllers/genreController.js:72-88 | a taken name leaves the store unchanged and redirects to the first genre of that name; otherwise the genre is added under the next id |
| GenreController.GenreCreatePost | controllers/genreController.js:48-93 | a blank name re-renders the form and writes nothing; otherwise the escaped, trimmed name is saved |
| GenreController.GenreUpdatePost | controllers/genreController.js:147-178 | no duplicate check: the genre at the id is renamed, keys kept, redirect to it; a missing genre or a path id that does not cast (the update then looks for the generated id) crashes on the null result; a failing datastore comes first |
| GenreController.UpdateThenDetail | controllers/genreController.js:159-176 | after a valid update of a stored genre the redirect is its page, and its detail page shows the new name under the same id |
| GenreController.GenreDeletePost | controllers/genreController.js:115-135 | as written, the guard never fires and the genre is removed whatever books list it; without `genreid` the first genre is removed |
| GenreController.DeleteFirstGenre | controllers/genreController.js:128 | `findByIdAndDelete(undefined)` removes the first genre in storage order and changes nothing else |
| GenreController.GenreDeleteIgnoresBooks | controllers/genreController.js:125-130 | as written, deleting a genre removes it whatever books list it |
| GenreController.GenreDeleteLeavesDanglingBook | controllers/genreController.js:125-130 | a concrete store where the delete leaves a book listing a missing genre |
| GenreController.GenreDeletePostGuarded | controllers/genreController.js:115-135 | as intended, a genre still listed by a book is shown on the delete page and nothing is written; without `genreid` every book is listed, and the first genre is deleted only when there are no books |
| GenreController.CreateThenDetail | controllers/genreController.js:72-88 | a create redirects to a genre whose detail page shows the escaped name |
| GenreController.CreateIsIdempotent | controllers/genreController.js:72-88 | submitting the same genre twice changes nothing the second time |
| GenreController.FirstGenreExample | controllers/genreController.js:48-93 | in a store with no genres yet, an alphanumeric genre gets id 0 and the redirect `/catalog/genre/0`; creating it again changes nothing and redirects to the same place |
| GenreController.DeleteThenDetail | controllers/genreController.js:128-130 | after a genre no book lists is deleted, its detail page is the 404 |
| GenreMarks.MatchMarks | controllers/bookController.js:252-261 | one mark per candidate, set exactly when the candidate is selected; `MarkOnUpdate` proves the update loop computes it, and `FirstMatchMarksAgreeIff` says when it agrees with `FirstMatchMarks` |
| GenreMarks.FirstMatchMarks | controllers/bookController.js:156-166 | one mark per candidate, set exactly when it is selected and no earlier candidate has the same id; `MarkOnCreate` proves the create loop with `break` computes it, and `FirstMatchMarksAgreeIff` says when it agrees with `MatchMarks` |
| GenreMarks.FirstMatchMarksAgree | controllers/bookController.js:156-166 | with distinct candidate ids the create loop (with `break`) ticks the same genres as the update loop |
| GenreMarks.FirstMatchMarksDiffer | controllers/bookController.js:160-163 | whenever a selected id occurs twice among the candidates, the update loop ticks the later one and the create loop does not |
| GenreMarks.FirstMatchMarksAgreeIff | controllers/bookController.js:156-166 | the two loops tick the same genres exactly when no selected id occurs twice among the candidates |
| GenreMarks.MarkOnCreate | controllers/bookController.js:156-166 | the nested loop with `break` computes the create-path marks |
| GenreMarks.MarkOnUpdate | controllers/bookController.js:324-333 | the nested loop computes the update-path marks |
| BookController.GenreList | controllers/bookController.js:97-105 | an absent genre is the empty list, a single value a one-element list, and a list is left as it is |
| BookController.GenreListIdempotent | controllers/bookController.js:271-277 | the middleware leaves its own output unchanged |
| BookController.BookErrors | controllers/bookController.js:110-113 | no errors exactly when no field is blank, and each message appears exactly when its field is blank |
| BookController.Selected | controllers/bookController.js:117 | one entry per genre sent, each casting to exactly the id (or to nothing) that the sent text casts to, so the escape never changes which genres the book gets |
| BookController.InTexts | controllers/bookController.js:160 | an id's text is among a list's texts exactly when the id is in the list |
| BookController.CastIds | controllers/bookController.js:125-131 | the genre list casts exactly when every entry casts, and the ids print back as the texts |
| BookController.CastIdsTexts | controllers/bookController.js:125-131 | the texts of ids cast back to those ids |
| BookController.BookOf | controllers/bookController.js:128-134 | a complete book is built exactly when author and genres cast, with the fields as given |
| BookController.GenresOf | controllers/bookController.js:128-134 | the built book's genres are the cast ids, or the schema's empty default when one id does not cast |
| BookController.Ticked | controllers/bookController.js:156-166 | a re-rendered form ticks the sent genres when they all cast, and none otherwise |
| BookController.MatchesBuilt | controllers/bookController.js:172 | when both references cast, the duplicate lookup finds exactly the books equal to the built one |
| BookController.Revise | controllers/bookController.js:339 | the update writes title, summary, isbn and the built genres; an author that does not cast keeps the stored author |
| BookController.AllGenres | controllers/bookController.js:150 | every stored genre once, in ascending storage order |
| BookController.CopiesOf | controllers/bookController.js:55-57 | exactly the copies of the book |
| BookController.TextsDistinct | controllers/bookController.js:156-166 | ids in ascending order have distinct texts |
| BookController.UpdateChoices | controllers/bookController.js:324-333 | every genre once, in storage order, under its name, ticked exactly when its id was selected |
| BookController.CreateChoices | controllers/bookController.js:156-166 | the create path offers the genres the same way, ticked exactly when selected |
| BookController.CreateAndUpdateTickAlike | controllers/bookController.js:156-166 | the create-path and update-path loops tick the same genres on any store |
| BookController.BookDetail | controllers/bookController.js:44-71 | a bad id is a cast error; a missing book the 404 "Page Not exist"; otherwise the page titled with the book's title, listing its copies |
| BookController.SaveBook | controllers/bookController.js:172-186 | an equal book already stored leaves the store unchanged and redirects to the first; otherwise it is added under the next id |
| BookController.SaveBookIdempotent | controllers/bookController.js:172-186 | saving the same book twice changes nothing the second time |
| BookController.SaveUncastBook | controllers/bookController.js:172-186 | with a reference that does not cast, the lookup without that key finds the first matching book and redirects to it; otherwise the save is refused as invalid; nothing is stored |
| BookController.CreateBook | controllers/bookController.js:137-186 | a failed check re-renders "Create Book" with the built book's genres ticked and writes nothing; a failing datastore is an error; a castable book is saved, and any other goes to the lookup without the unset keys; only a save of a castable book changes the store |
| BookController.BookCreatePost | controllers/bookController.js:91-189 | as written, the fields are trimmed but not escaped, then as CreateBook |
| BookController.BookCreatePostEscaped | controllers/bookController.js:91-189 | as intended, the fields are trimmed and escaped, then as CreateBook |
| BookController.UncastCreateStoresNothing | controllers/bookController.js:172-186 | a create whose author or genre does not cast never stores anything, and redirects exactly when a book matching in the other fields exists |
| BookController.UncastCreateRedirects | controllers/bookController.js:172-186 | with the books online, such a create redirects exactly when a stored book matches in every field whose reference casts |
| BookController.UncastCreateFindsFirst | controllers/bookController.js:172-177 | such a create redirects to the first book matching in everything but the reference that does not cast |
| BookController.UncastAuthorFindsOtherBook | controllers/bookController.js:172-177 | a concrete store where a form naming author "Ann" is redirected to a book by another author |
| BookController.BookUpdateGet | controllers/bookController.js:235-265 | the update form shows the stored book, with each genre ticked exactly when the book lists it; a missing book crashes |
| BookController.WriteBook | controllers/bookController.js:339-342 | the book at the id is revised, no id is added or removed, nothing else changes, and the redirect is its page; a missing book crashes |
| BookController.WriteSameBook | controllers/bookController.js:339-342 | writing the fields of the stored book over it leaves the store as it was |
| BookController.BookUpdatePost | controllers/bookController.js:268-344 | a failed check re-renders "Update Book" with the built book's genres ticked and writes nothing; a path id that does not cast is a cast error; otherwise the record at the path's id is revised without any schema check |
| BookController.UpdateKeepsAuthor | controllers/bookController.js:298-342 | an update whose author does not cast still writes the other fields and redirects, keeping the stored author; genres that do not cast clear the stored ones |
| BookController.UpdateFormTicksAsFailedPost | controllers/bookController.js:250-262 | the update form ticks the same genres as a failed update that sends back the stored book's genres |
| BookController.DeleteBook | controllers/bookController.js:225-228 | the book is removed, nothing else changes, and the redirect is the book list |
| BookController.BookDeletePost | controllers/bookController.js:211-232 | as written, the guard never fires and the book named by `bookid` is removed; without `bookid` the first book is removed |
| BookController.DeleteFirstBook | controllers/bookController.js:225 | `findByIdAndDelete(undefined)` removes the first book in storage order and changes nothing else |
| BookController.BookDeleteIgnoresCopies | controllers/bookController.js:222-228 | as written, a book is deleted whatever copies it has |
| BookController.BookDeleteLeavesDanglingCopy | controllers/bookController.js:222-228 | a concrete store where the delete leaves a copy of a missing book |
| BookController.BookDeletePostGuarded | controllers/bookController.js:211-232 | as intended, a book with copies is shown on the delete page and nothing is written; without `bookid` every copy is listed, and the first book is deleted only when there are no copies |
| BookController.CreateThenDetail | controllers/bookController.js:181-184 | a create redirects to a book whose detail page is titled with the trimmed title |
| BookController.CreateIsIdempotent | controllers/bookController.js:172-186 | submitting the same book form twice changes nothing the second time |
| BookController.SavedCreateIsIdempotent | controllers/bookController.js:172-186 | the same, in the case where the first submission saves |
| BookController.UpdateThenDetail | controllers/bookController.js:339-342 | after a valid update the detail page at the same id shows the submitted book |
| BookController.EscapedCreateThenUpdate | controllers/bookController.js:117-121 | with escaping on create, re-submitting the same form as an update leaves the record as created |
| BookController.CreateThenUpdateRewritesTitle | controllers/bookController.js:117-121 | as written, a title with a markup character is stored raw on create and changed by an update with the same form |
| BookController.DeleteThenDetail | controllers/bookController.js:225-228 | after the guarded delete of a book without copies, its detail page is the 404 |
| BookInstanceController.CopyErrors | controllers/bookinstanceController.js:45-48 | no errors exactly when the form is acceptable, and each message appears exactly when its rule fails |
| BookInstanceController.Built | controllers/bookinstanceController.js:51-66 | a complete copy is built exactly when the book id casts; the fields are trimmed and escaped; the due date is set exactly when an ISO date was sent, so an absent one is no date |
| BookInstanceController.ReviseCopy | controllers/bookinstanceController.js:148-166 | the update writes imprint, status and due date; a book that does not cast keeps the stored book |
| BookInstanceController.BuiltIsNew | controllers/bookinstanceController.js:51-66 | the built copy is what the schema builds from the sanitised fields, and neither schema default is used: an absent due date stays empty |
| BookInstanceController.BookInstanceDetail | controllers/bookinstanceController.js:18-31 | a missing copy is the 404 "Book copy not found"; otherwise the page titled "ID: " and the id |
| BookInstanceController.SaveCopy | controllers/bookinstanceController.js:80-91 | a copy with the same book and imprint leaves the store unchanged and redirects to the first; otherwise a valid copy is added under the next id and an invalid one refused |
| BookInstanceController.SaveUncastCopy | controllers/bookinstanceController.js:80-91 | with a book that does not cast, the lookup by imprint alone redirects to the first copy with that imprint, of any book; otherwise the save is refused as invalid; nothing is stored |
| BookInstanceController.BookInstanceCreatePost | controllers/bookinstanceController.js:42-96 | a failed check re-renders the form and writes nothing; with the copies unreachable, the save's schema check comes first (invalid) and a valid copy meets the datastore error; a castable copy is saved, any other goes to the lookup by imprint; only a save of a castable copy changes the store |
| BookInstanceController.WriteCopy | controllers/bookinstanceController.js:166-175 | the copy at the id is revised, keys kept, redirect to it; a missing copy is the not-found error |
| BookInstanceController.BookInstanceUpdatePost | controllers/bookinstanceController.js:129-178 | as written, the update revises the stored copy without the schema's checks; a path id that does not cast leaves the generated id, which matches nothing, so the result is the not-found error |
| BookInstanceController.BookInstanceUpdatePostChecked | controllers/bookinstanceController.js:129-178 | as intended, an update whose status fails the enum is refused before the datastore is asked and writes nothing; otherwise as written |
| BookInstanceController.UpdateKeepsBook | controllers/bookinstanceController.js:148-175 | an update whose book does not cast still writes imprint and status and redirects, keeping the stored book |
| BookInstanceController.UncastCreateStoresNothing | controllers/bookinstanceController.js:80-91 | a create whose book does not cast never stores anything, and redirects exactly when a copy with the imprint exists |
| BookInstanceController.UncastCreateRedirects | controllers/bookinstanceController.js:80-91 | with the copies online, such a create redirects exactly when a stored copy has the submitted imprint |
| BookInstanceController.BookInstanceDeletePost | controllers/bookinstanceController.js:104-115 | no guard: the copy named in the body is removed and nothing else changes; without `bookinstanceid` the first copy is removed |
| BookInstanceController.SaveCopyKeepsStatusesValid | models/bookinstance.js:8 | a save never stores a status outside the four values |
| BookInstanceController.CreateKeepsStatusesValid | controllers/bookinstanceController.js:42-96 | no create stores an invalid status |
| BookInstanceController.UpdateStoresAnyStatus | controllers/bookinstanceController.js:166 | as written, an update with an unknown status stores it |
| BookInstanceController.WriteCopyKeepsStatusesValid | controllers/bookinstanceController.js:166 | writing a copy with a valid status keeps every status valid |
| BookInstanceController.CheckedUpdateKeepsStatusesValid | controllers/bookinstanceController.js:129-178 | with the checks run, no update stores an invalid status |
| BookInstanceController.CreateIgnoresStatusAndDate | controllers/bookinstanceController.js:80-84 | the duplicate check looks only at book and imprint |
| BookInstanceController.SaveCopyIdempotent | controllers/bookinstanceController.js:80-91 | saving the same copy twice changes nothing the second time |
| BookInstanceController.CreateIsIdempotent | controllers/bookinstanceController.js:42-96 | submitting the same create form twice changes nothing the second time |
| BookInstanceController.SavedCreateIsIdempotent | controllers/bookinstanceController.js:80-91 | the same, in the case where the first submission reaches the save |
| BookInstanceController.CreateThenDetail | controllers/bookinstanceController.js:87-89 | a create redirects to a copy whose detail page shows the built copy's book and imprint |
| BookInstanceController.UpdateThenDetail | controllers/bookinstanceController.js:166-175 | after an update the detail page at the same id shows the submitted copy |
| BookInstanceController.UpdateOfMissingCopy | controllers/bookinstanceController.js:168-173 | updating a missing copy writes nothing and ends in the not-found error |
| BookInstanceController.DeleteThenDetail | controllers/bookinstanceController.js:109-112 | after a copy is deleted, its detail page is the 404 |

## Left out

- The list, index, create-form, delete-form and update-form handlers are not
  modelled. They render what they read and decide nothing. The one exception
  is the book update form, which holds a genre marking loop.
- `async.parallel`, callbacks, and the order in which parallel queries finish
  are not modelled. All reads of one handler see the same datastore.
- `populate` is left out. Records keep references as ids.
- `console.log` calls are left out.
- Mongoose's ObjectId is modelled as a decimal numeral. Any text that is not
  a canonical numeral is a cast error.
- The datastore's failures are modelled only as a collection being offline.
  Timeouts and partial writes are not modelled.
- A form field is absent, one text, or (for `genre`) a list. Other body
  shapes that express's body parser can produce are not modelled.
- The schema's due-back default (`Date.now`) is never reached: the date
  sanitiser gives every submitted copy a date or `null`. Request time appears
  only as a parameter of BookInstanceModel.New and
  BookInstanceController.BuiltIsNew.
- A query whose filter is `undefined` ignores the filter. Deleting with such a
  filter removes the first record in storage order (the least id); MongoDB's
  natural order is not modelled beyond that.
- moment's formatting is modelled as `MMMM DD, YYYY` on a calendar date, with
  no time of day and no time zone.
- ISO 8601 is modelled as its calendar-date form `YYYY-MM-DD` only. The check
  takes any day 01-31 in any month, and `Date.parse` (V8's, as Node runs it)
  counts the days past the end of the month into the next month, so
  `2019-02-31` is stored as the 3rd of March. Other engines' parsers, which
  may refuse such a date, are not modelled.
- JavaScript number coercion is modelled for what the delete guards need:
  blank text, decimal numerals and NaN.
- Express routing is modelled without case-insensitive matching, without the
  optional trailing slash, without percent-decoding of `:id`, and without
  HEAD being answered by GET routes. The `/catalog` mount point (app.js) is
  not part of this model and appears only as the prefix of the `url`
  virtuals.
- models/book.js and models/genre.js are not part of this model. The Book
  and Genre records carry the fields the controllers write, and their `url`
  has the same shape as the other two.
- A reference that does not cast (a book's author or genres, a copy's book)
  is left unset by `new Book`/`new BookInstance`; an unset genre list takes
  the schema's default, the empty list. The unset key drops out of the
  duplicate lookup and out of `findByIdAndUpdate`, and a save refuses the
  record as invalid. Mongoose's exact error object is not modelled.
- AuthorController.Submitted: the 100-character limit is a schema check that
  the model applies on save only. Updates do not run validators, so an
  update may store a longer name, as the code does.

## Findings

| source | as written | input that shows it | evidently intended | confidence | as-written member | corrected member |
|---|---|---|---|---|---|---|
| controllers/bookController.js:222 | `results.bookinstances > 0` compares a list with a number, which never holds, so a book with copies is deleted and its copies are left dangling | a book with one copy, then POST its delete | show the delete page while copies remain | high; not executed | BookController.BookDeleteLeavesDanglingCopy | BookController.BookDeletePostGuarded |
| controllers/genreController.js:125 | `results.books > 0` never holds, so a genre still listed by books is deleted | a genre listed by one book, then POST its delete | show the delete page while books list the genre | high; not executed | GenreController.GenreDeleteLeavesDanglingBook | GenreController.GenreDeletePostGuarded |
| controllers/authorController.js:149 | `results.author_books > 0` never holds, so an author with books is deleted | an author with one book, then POST its delete | show the delete page while the author has books | high; not executed | AuthorController.AuthorDeleteLeavesDanglingBook | AuthorController.GuardedDeleteKeepsReferences |
| controllers/authorController.js:141-154 | the author is looked up by `body.id`, its books by `params.id`, and the delete uses `body.authorid` | a body whose `authorid` names a different author than the path | one id for lookup, guard and delete | medium; not executed | AuthorController.AuthorDeleteIgnoresBooks | AuthorController.AuthorDeletePostGuarded |
| controllers/authorController.js:29-34 | the 404 check tests the book list (never null) and not the author, and the handler has no `next` | a well-formed id naming no author | a missing author gives the 404 | high; not executed | AuthorController.AuthorDetailMissingCrashes | AuthorController.AuthorDetailChecked |
| controllers/genreController.js:18-35 | the handler has no `next`, so the 404 path (and every error) throws | a well-formed id naming no genre | a missing genre gives the 404 "Genre not found" | high; not executed | GenreController.GenreDetail | GenreController.GenreDetailChecked |
| models/author.js:22 | `.toString` is read, not called, so `lifespan` is a function | any author with both dates | the number of years as text | high; not executed | AuthorModel.LifespanAsWrittenIsNoNumber | AuthorModel.Lifespan |
| controllers/bookinstanceController.js:166 | `findByIdAndUpdate` does not run the schema's enum check, so any status text is stored | an update with status "Lost" | reject a status outside the enum | medium; not executed | BookInstanceController.UpdateStoresAnyStatus | BookInstanceController.CheckedUpdateKeepsStatusesValid |
| controllers/authorController.js:214-225 | the inner `var er` is hoisted over the validation result, so `er.array()` throws when an existing author's update fails validation | an update with an empty first name on a stored author | re-render `author_form` (the handler names `author-form`, which no other handler renders) with the errors | high; not executed | AuthorController.UpdateErrorsNeverShown | AuthorController.AuthorUpdatePostChecked |
| controllers/bookController.js:117-121 | `sanitizeBody('title.*')` selects nothing on a string field, so create stores unescaped text while update escapes it | create a book titled "R&D", then update it with the same form | escape on create as on update | medium; not executed | BookController.CreateThenUpdateRewritesTitle | BookController.EscapedCreateThenUpdate |
