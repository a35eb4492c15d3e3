/** The book request handlers: detail, create, the update form, update and
    delete. */
module BookController {
  import opened Optional
  import opened Text
  import opened Ids
  import opened Store
  import opened Validation
  import opened BookModel
  import opened GenreModel
  import BookInstanceModel
  import GenreMarks
  import Js

  /** A form field that may be sent more than once: not sent, sent once (the
      body holds its text), or sent several times (the body holds a list). */
  datatype FormValue = Absent | One(text: string) | Many(texts: seq<string>)

  /** The fields of the book form; a field the request leaves out is `None`. */
  datatype BookForm = BookForm(
    title: Option<string>,
    author: Option<string>,
    summary: Option<string>,
    isbn: Option<string>,
    genre: FormValue)

  const TitleMissing := "Title must not be empty."
  const AuthorMissing := "Author must not be empty."
  const SummaryMissing := "Summary must not be empty."
  const IsbnMissing := "ISBN must not be empty"

  // ---------------------------------------------------------------------------
  // the form

  /** The middleware in front of both book forms that makes `genre` a list: a
      field that was not sent becomes the empty list, a single text a list of
      one, and a list stays as it is. */
  function GenreList(v: FormValue): (r: seq<string>)
    ensures v.Absent? ==> r == []
    ensures v.One? ==> r == [v.text]
    ensures v.Many? ==> r == v.texts
  {
    match v
    case Absent => []
    case One(s) => [s]
    case Many(xs) => xs
  }

  /** The middleware leaves its own output as it is. */
  lemma GenreListIdempotent(v: FormValue)
    ensures GenreList(Many(GenreList(v))) == GenreList(v)
  {
  }

  /** A form that passes every rule: none of the four text fields is blank. */
  predicate Complete(f: BookForm) {
    Filled(f.title) && Filled(f.author) && Filled(f.summary) && Filled(f.isbn)
  }

  /** The four rules of the book form, the same on both paths; each blank
      field is reported with its own message. */
  function BookErrors(f: BookForm): (r: seq<FieldError>)
    ensures r == [] <==> Complete(f)
    ensures FieldError(Title, TitleMissing) in r <==> !Filled(f.title)
    ensures FieldError(AuthorRef, AuthorMissing) in r <==> !Filled(f.author)
    ensures FieldError(Summary, SummaryMissing) in r <==> !Filled(f.summary)
    ensures FieldError(Isbn, IsbnMissing) in r <==> !Filled(f.isbn)
  {
    var a := Required(Title, f.title, TitleMissing);
    var b := Required(AuthorRef, f.author, AuthorMissing);
    var c := Required(Summary, f.summary, SummaryMissing);
    var d := Required(Isbn, f.isbn, IsbnMissing);
    FourRules(a, b, c, d, FieldError(Title, TitleMissing), FieldError(AuthorRef, AuthorMissing),
              FieldError(Summary, SummaryMissing), FieldError(Isbn, IsbnMissing));
    a + b + c + d
  }

  /** The genre ids the form sent, each escaped by the `genre.*` sanitiser.
      The escape never changes which of them cast, nor to what. */
  function Selected(f: BookForm): (r: seq<string>)
    ensures |r| == |GenreList(f.genre)|
    ensures forall i | 0 <= i < |r| :: CastId(r[i]) == CastId(GenreList(f.genre)[i])
  {
    var xs := GenreList(f.genre);
    var r := seq(|xs|, i requires 0 <= i < |xs| => Escape(xs[i]));
    assert forall i | 0 <= i < |xs| :: CastId(r[i]) == CastId(xs[i]) by {
      forall i | 0 <= i < |xs|
        ensures CastId(r[i]) == CastId(xs[i])
      {
        EscapeCastsAlike(xs[i]);
      }
    }
    r
  }

  // ---------------------------------------------------------------------------
  // ids in the form

  /** The texts of a list of ids. */
  function Texts(ids: seq<Id>): seq<string> {
    seq(|ids|, i requires 0 <= i < |ids| => IdText(ids[i]))
  }

  /** An id's text is among the texts of a list exactly when the id is in it. */
  lemma InTexts(x: Id, ids: seq<Id>)
    ensures IdText(x) in Texts(ids) <==> x in ids
  {
    if IdText(x) in Texts(ids) {
      var i :| 0 <= i < |ids| && Texts(ids)[i] == IdText(x);
      IdTextInjective(x, ids[i]);
    }
    if x in ids {
      var i :| 0 <= i < |ids| && ids[i] == x;
      assert Texts(ids)[i] == IdText(x);
    }
  }

  /** Casting a list of texts to ids, as the schema does with `genre`: it
      succeeds when every text names an id, and then gives back the texts. */
  function CastIds(texts: seq<string>): (r: Option<seq<Id>>)
    ensures r.Some? <==> forall i | 0 <= i < |texts| :: CastId(texts[i]).Some?
    ensures r.Some? ==> Texts(r.value) == texts
  {
    if texts == [] then Some([])
    else
      match CastIds(texts[1..])
      case None => None
      case Some(ks) =>
        match CastId(texts[0])
        case None => None
        case Some(k) =>
          assert Texts([k] + ks) == [texts[0]] + texts[1..];
          Some([k] + ks)
  }

  /** The texts of a list of ids cast back to that list. */
  lemma {:induction false} CastIdsTexts(ids: seq<Id>)
    ensures CastIds(Texts(ids)) == Some(ids)
  {
    var ts := Texts(ids);
    forall i | 0 <= i < |ts|
      ensures CastId(ts[i]) == Some(ids[i])
    {
      CastIdText(ids[i]);
    }
    var r := CastIds(ts);
    assert r.Some?;
    assert |r.value| == |ids|;
    forall i | 0 <= i < |ids|
      ensures r.value[i] == ids[i]
    {
      assert IdText(r.value[i]) == Texts(r.value)[i] == ts[i];
      IdTextInjective(r.value[i], ids[i]);
    }
    assert r.value == ids;
  }

  /** The text fields of the book form as the handler hands them to the
      schema, and the genre ids it sent. */
  datatype Fields = Fields(title: string, author: string, summary: string, isbn: string, genre: seq<string>)

  /** The book the fields describe when both references cast: the author and
      the genres as ids. There is no such book when one of them names no id. */
  function BookOf(x: Fields): (r: Option<Book>)
    ensures r.Some? <==> CastId(x.author).Some? && CastIds(x.genre).Some?
    ensures r.Some? ==>
      && r.value.title == x.title && r.value.summary == x.summary && r.value.isbn == x.isbn
      && IdText(r.value.author) == x.author && Texts(r.value.genre) == x.genre
  {
    match (CastId(x.author), CastIds(x.genre))
    case (Some(a), Some(gs)) => Some(Book(x.title, a, x.summary, x.isbn, gs))
    case _ => None
  }

  /** The genres `new Book` holds: the cast ids, or the schema's default, the
      empty list, when one of the texts names no id. */
  function GenresOf(texts: seq<string>): (r: seq<Id>)
    ensures CastIds(texts).Some? ==> Texts(r) == texts
    ensures CastIds(texts).None? ==> r == []
  {
    match CastIds(texts)
    case Some(ids) => ids
    case None => []
  }

  /** The fields `book_create_post` builds from: the text fields trimmed but
      not escaped, since the `title.*` style sanitisers select nothing in a
      field that holds a single text. */
  function SubmittedFields(f: BookForm): Fields {
    Fields(Trim(Value(f.title)), Trim(Value(f.author)), Trim(Value(f.summary)), Trim(Value(f.isbn)), Selected(f))
  }

  /** The fields `book_update_post` builds from: trimmed and escaped. */
  function RevisedFields(f: BookForm): Fields {
    Fields(Clean(f.title), Clean(f.author), Clean(f.summary), Clean(f.isbn), Selected(f))
  }

  function Submitted(f: BookForm): Option<Book> {
    BookOf(SubmittedFields(f))
  }

  function Revised(f: BookForm): Option<Book> {
    BookOf(RevisedFields(f))
  }

  /** The genre ids a re-rendered form ticks: those of the book built from
      the form, which holds none when one of them names no id. */
  function Ticked(f: BookForm): (r: seq<string>)
    ensures CastIds(Selected(f)).Some? ==> r == Selected(f)
    ensures CastIds(Selected(f)).None? ==> r == []
  {
    Texts(GenresOf(Selected(f)))
  }

  /** A stored book the duplicate lookup of `book_create_post` finds: the
      filter holds the title, summary and isbn, the genres of the built book,
      and the author only when it cast, since a key the cast left unset drops
      out of the filter. */
  predicate Matches(b: Book, x: Fields) {
    && b.title == x.title && b.summary == x.summary && b.isbn == x.isbn
    && (CastId(x.author).Some? ==> b.author == CastId(x.author).value)
    && b.genre == GenresOf(x.genre)
  }

  /** When both references cast, the lookup finds exactly the books equal to
      the built one. */
  lemma MatchesBuilt(b: Book, x: Fields)
    requires BookOf(x).Some?
    ensures Matches(b, x) <==> b == BookOf(x).value
  {
  }

  /** What `findByIdAndUpdate` leaves at a stored book when handed the
      book built from `x`: a path the cast left unset is not part of the
      update, so an author that names no id keeps the stored author, while
      the genres become those of the built book. */
  function Revise(stored: Book, x: Fields): (b: Book)
    ensures Matches(b, x)
    ensures CastId(x.author).None? ==> b.author == stored.author
    ensures BookOf(x).Some? ==> b == BookOf(x).value
  {
    var author := if CastId(x.author).Some? then CastId(x.author).value else stored.author;
    Book(x.title, author, x.summary, x.isbn, GenresOf(x.genre))
  }

  // ---------------------------------------------------------------------------
  // queries

  /** Every genre, in storage order: what `Genre.find` gives the form. */
  function AllGenres(db: Store): (ids: seq<Id>)
    ensures forall k :: k in ids <==> k in db.genres
    ensures forall i | 0 <= i < |ids| :: ids[i] in db.genres
    ensures forall i, j | 0 <= i < j < |ids| :: ids[i] < ids[j]
  {
    var ids := Select(db.genres, db.next, (g: Genre) => true);
    assert forall i | 0 <= i < |ids| :: ids[i] in ids;
    ids
  }

  /** The copies of book `id`, in storage order. */
  function CopiesOf(db: Store, id: Id): (ids: seq<Id>)
    ensures forall k :: k in ids <==> k in db.copies && db.copies[k].book == id
  {
    Select(db.copies, db.next, (c: BookInstanceModel.BookInstance) => c.book == id)
  }

  /** `k` is the first book, in storage order, equal to `b` in every field. */
  predicate FirstEqual(db: Db, k: Id, b: Book) {
    && k in db.books && db.books[k] == b
    && forall j | j in db.books && j < k :: db.books[j] != b
  }

  // ---------------------------------------------------------------------------
  // ticking the genres on the form

  /** Ids handed out in ascending order have distinct texts. */
  lemma TextsDistinct(ids: seq<Id>)
    requires forall i, j | 0 <= i < j < |ids| :: ids[i] < ids[j]
    ensures GenreMarks.Distinct(Texts(ids))
  {
    forall i, j | 0 <= i < j < |ids|
      ensures Texts(ids)[i] != Texts(ids)[j]
    {
      if IdText(ids[i]) == IdText(ids[j]) {
        IdTextInjective(ids[i], ids[j]);
      }
    }
  }

  /** The genres of the form, in storage order, with `marks` saying which are
      ticked. */
  function Choices(db: Store, marks: seq<bool>): seq<Choice>
    requires |marks| == |AllGenres(db)|
  {
    var ids := AllGenres(db);
    seq(|ids|, j requires 0 <= j < |ids| => Choice(ids[j], db.genres[ids[j]].name, marks[j]))
  }

  /** The form offers every genre once, in storage order, under its name, and
      ticks exactly those whose id text is among `selected`. */
  predicate Offers(db: Store, r: seq<Choice>, selected: seq<string>) {
    var ids := AllGenres(db);
    && |r| == |ids|
    && forall j | 0 <= j < |r| ::
      r[j] == Choice(ids[j], db.genres[ids[j]].name, IdText(ids[j]) in selected)
  }

  /** The genres as the update paths tick them (every candidate compared with
      every selected id). */
  function UpdateChoices(db: Store, selected: seq<string>): (r: seq<Choice>)
    ensures Offers(db, r, selected)
  {
    Choices(db, GenreMarks.MatchMarks(Texts(AllGenres(db)), selected))
  }

  /** The genres as the create path ticks them (each selected id ticks the
      first candidate with its text, then the search stops). */
  function CreateChoices(db: Store, selected: seq<string>): (r: seq<Choice>)
    ensures Offers(db, r, selected)
  {
    var ids := AllGenres(db);
    TextsDistinct(ids);
    GenreMarks.FirstMatchMarksAgree(selected, Texts(ids));
    Choices(db, GenreMarks.FirstMatchMarks(selected, Texts(ids)))
  }

  /** Since stored genres have distinct ids, the loop with `break` ticks the
      same genres as the loop without it. */
  lemma CreateAndUpdateTickAlike(db: Store, selected: seq<string>)
    ensures CreateChoices(db, selected) == UpdateChoices(db, selected)
  {
    var c, u := CreateChoices(db, selected), UpdateChoices(db, selected);
    assert |c| == |u|;
    forall j | 0 <= j < |c|
      ensures c[j] == u[j]
    {
    }
  }

  /** The outcome shows the book form again, under `title`, with `errors`
      and with the genres ticked that `selected` names; the datastore is as
      it was. */
  predicate ShowsForm(r: Response, db: Store, title: string, errors: seq<FieldError>, selected: seq<string>) {
    && r.db == db
    && r.outcome.Render? && r.outcome.view == "book_form" && r.outcome.title == title
    && r.outcome.page.FormPage? && r.outcome.page.errors == errors
    && Offers(db, r.outcome.page.choices, selected)
  }

  // ---------------------------------------------------------------------------
  // detail

  /** `book_detail`: a missing book is the 404 "Page Not exist". */
  function BookDetail(db: Store, id: string): (r: Response)
    ensures r.db == db
    ensures CastId(id).None? ==> r.outcome == Error(Cast)
    ensures CastId(id).Some? && !Online(db, {Books, Copies}) ==> r.outcome == Error(Datastore)
    ensures CastId(id).Some? && Online(db, {Books, Copies}) ==>
      var k := CastId(id).value;
      if k in db.books
      then r.outcome == Render("book_detail", db.books[k].title, BookPage(db.books[k], CopiesOf(db, k)))
      else r.outcome == NotFound("Page Not exist")
  {
    match CastId(id)
    case None => Response(Error(Cast), db)
    case Some(k) =>
      if !Online(db, {Books, Copies}) then Response(Error(Datastore), db)
      else if k !in db.books then Response(NotFound("Page Not exist"), db)
      else Response(Render("book_detail", db.books[k].title, BookPage(db.books[k], CopiesOf(db, k))), db)
  }

  // ---------------------------------------------------------------------------
  // create

  /** The duplicate check and the save of `book_create_post`: the first book
      equal to `b` in every field, genres included, is reused; otherwise `b`
      is added under a fresh id. */
  function SaveBook(db: Store, b: Book): (r: Response)
    ensures b in db.books.Values ==>
      && r.db == db
      && exists k :: FirstEqual(db, k, b) && r.outcome == Redirect(BookModel.Url(k))
    ensures b !in db.books.Values ==>
      && AddsOne(db.books, r.db.books, db.next, b)
      && ChangesOnly(db, r.db, Books)
      && r.outcome == Redirect(BookModel.Url(db.next))
  {
    match FirstMatch(db.books, db.next, (x: Book) => x == b)
    case Some(k) =>
      assert FirstEqual(db, k, b);
      Response(Redirect(BookModel.Url(k)), db)
    case None =>
      Response(Redirect(BookModel.Url(db.next)), AddBook(db, b))
  }

  /** Saving the same book a second time finds the first save and changes
      nothing. */
  lemma SaveBookIdempotent(db: Store, b: Book)
    ensures SaveBook(SaveBook(db, b).db, b) == SaveBook(db, b)
  {
    var r1 := SaveBook(db, b);
    var k: Id;
    if b in db.books.Values {
      k :| FirstEqual(db, k, b) && r1.outcome == Redirect(BookModel.Url(k));
    } else {
      k := db.next;
      assert r1.db.books[k] == b;
    }
    assert FirstEqual(r1.db, k, b);
    assert b in r1.db.books.Values;
    var r2 := SaveBook(r1.db, b);
    var k2 :| FirstEqual(r1.db, k2, b) && r2.outcome == Redirect(BookModel.Url(k2));
    assert k2 == k;
  }

  /** `k` is the first book, in storage order, the lookup finds for `x`. */
  predicate FirstMatching(db: Db, k: Id, x: Fields) {
    && k in db.books && Matches(db.books[k], x)
    && forall j | j in db.books && j < k :: !Matches(db.books[j], x)
  }

  /** The duplicate check and the save of `book_create_post` when the author
      or a genre names no id: a book the lookup finds is reused; otherwise the
      save fails the schema's checks on the failed cast and nothing is
      stored. */
  function SaveUncastBook(db: Store, x: Fields): (r: Response)
    ensures r.db == db
    ensures (exists k | k in db.books :: Matches(db.books[k], x)) ==>
      exists k :: FirstMatching(db, k, x) && r.outcome == Redirect(BookModel.Url(k))
    ensures !(exists k | k in db.books :: Matches(db.books[k], x)) ==> r.outcome == Error(Invalid)
  {
    match FirstMatch(db.books, db.next, (b: Book) => Matches(b, x))
    case Some(k) =>
      assert FirstMatching(db, k, x);
      Response(Redirect(BookModel.Url(k)), db)
    case None => Response(Error(Invalid), db)
  }

  /** The steps of `book_create_post` once the form's fields `x` are
      sanitised: a failed check re-renders the form with the built book's
      genres ticked; otherwise the duplicate lookup runs, and the book is
      saved when it finds nothing. */
  function CreateBook(db: Store, f: BookForm, x: Fields): (r: Response)
    ensures !Complete(f) && !Online(db, {Authors, Genres}) ==> r == Response(Error(Datastore), db)
    ensures !Complete(f) && Online(db, {Authors, Genres}) ==>
      ShowsForm(r, db, "Create Book", BookErrors(f), Ticked(f))
    ensures Complete(f) && !Online(db, {Books}) ==> r == Response(Error(Datastore), db)
    ensures Complete(f) && Online(db, {Books}) && BookOf(x).Some? ==> r == SaveBook(db, BookOf(x).value)
    ensures Complete(f) && Online(db, {Books}) && BookOf(x).None? ==> r == SaveUncastBook(db, x)
    ensures !(Complete(f) && Online(db, {Books}) && BookOf(x).Some?) ==> r.db == db
  {
    var errors := BookErrors(f);
    if errors != [] then
      if !Online(db, {Authors, Genres}) then Response(Error(Datastore), db)
      else Response(Render("book_form", "Create Book", FormPage(errors, CreateChoices(db, Ticked(f)))), db)
    else if !Online(db, {Books}) then Response(Error(Datastore), db)
    else
      match BookOf(x)
      case Some(b) => SaveBook(db, b)
      case None => SaveUncastBook(db, x)
  }

  /** `book_create_post` as written: the book is stored with its text fields
      trimmed but not escaped. */
  function BookCreatePost(db: Store, f: BookForm): (r: Response)
    ensures !Complete(f) && !Online(db, {Authors, Genres}) ==> r == Response(Error(Datastore), db)
    ensures !Complete(f) && Online(db, {Authors, Genres}) ==>
      ShowsForm(r, db, "Create Book", BookErrors(f), Ticked(f))
    ensures Complete(f) && !Online(db, {Books}) ==> r == Response(Error(Datastore), db)
    ensures Complete(f) && Online(db, {Books}) && Submitted(f).Some? ==> r == SaveBook(db, Submitted(f).value)
    ensures Complete(f) && Online(db, {Books}) && Submitted(f).None? ==> r == SaveUncastBook(db, SubmittedFields(f))
    ensures !(Complete(f) && Online(db, {Books}) && Submitted(f).Some?) ==> r.db == db
  {
    CreateBook(db, f, SubmittedFields(f))
  }

  /** `book_create_post` with the fields escaped as the update path escapes
      them. */
  function BookCreatePostEscaped(db: Store, f: BookForm): (r: Response)
    ensures !Complete(f) && !Online(db, {Authors, Genres}) ==> r == Response(Error(Datastore), db)
    ensures !Complete(f) && Online(db, {Authors, Genres}) ==>
      ShowsForm(r, db, "Create Book", BookErrors(f), Ticked(f))
    ensures Complete(f) && !Online(db, {Books}) ==> r == Response(Error(Datastore), db)
    ensures Complete(f) && Online(db, {Books}) && Revised(f).Some? ==> r == SaveBook(db, Revised(f).value)
    ensures Complete(f) && Online(db, {Books}) && Revised(f).None? ==> r == SaveUncastBook(db, RevisedFields(f))
    ensures !(Complete(f) && Online(db, {Books}) && Revised(f).Some?) ==> r.db == db
  {
    CreateBook(db, f, RevisedFields(f))
  }

  // ---------------------------------------------------------------------------
  // update

  /** `book_update_get`: the stored book's genres are ticked. A missing book
      reaches `new error(...)`, a name that does not exist, and throws. */
  function BookUpdateGet(db: Store, id: string): (r: Response)
    ensures CastId(id).None? ==> r == Response(Error(Cast), db)
    ensures CastId(id).Some? && !Online(db, {Books, Authors, Genres}) ==> r == Response(Error(Datastore), db)
    ensures CastId(id).Some? && Online(db, {Books, Authors, Genres}) && CastId(id).value !in db.books ==>
      r == Response(Error(Crash), db)
    ensures CastId(id).Some? && Online(db, {Books, Authors, Genres}) && CastId(id).value in db.books ==>
      var book := db.books[CastId(id).value];
      && ShowsForm(r, db, "Update Book", [], Texts(book.genre))
      && forall j | 0 <= j < |r.outcome.page.choices| ::
        r.outcome.page.choices[j].checked <==> r.outcome.page.choices[j].id in book.genre
  {
    match CastId(id)
    case None => Response(Error(Cast), db)
    case Some(k) =>
      if !Online(db, {Books, Authors, Genres}) then Response(Error(Datastore), db)
      else if k !in db.books then Response(Error(Crash), db)
      else
        var choices := UpdateChoices(db, Texts(db.books[k].genre));
        forall j | 0 <= j < |choices| {
          InTexts(choices[j].id, db.books[k].genre);
        }
        Response(Render("book_form", "Update Book", FormPage([], choices)), db)
  }

  /** The write of `book_update_post`: the record at `k` is revised with the
      fields `x` and keeps its id. The handler redirects to the url of the
      record it found, so a missing record throws. */
  function WriteBook(db: Store, k: Id, x: Fields): (r: Response)
    ensures !Online(db, {Books}) ==> r == Response(Error(Datastore), db)
    ensures Online(db, {Books}) && k !in db.books ==> r == Response(Error(Crash), db)
    ensures Online(db, {Books}) && k in db.books ==>
      && r.db.books == db.books[k := Revise(db.books[k], x)]
      && r.db.books.Keys == db.books.Keys
      && ChangesOnly(db, r.db, Books) && r.db.next == db.next
      && r.outcome == Redirect(BookModel.Url(k))
  {
    if !Online(db, {Books}) then Response(Error(Datastore), db)
    else if k !in db.books then Response(Error(Crash), db)
    else Response(Redirect(BookModel.Url(k)), db.(books := db.books[k := Revise(db.books[k], x)]))
  }

  /** Writing the fields of the stored book over it leaves the datastore as
      it was. */
  lemma WriteSameBook(db: Store, k: Id, x: Fields)
    requires Online(db, {Books}) && k in db.books && BookOf(x) == Some(db.books[k])
    ensures WriteBook(db, k, x) == Response(Redirect(BookModel.Url(k)), db)
  {
    var r := WriteBook(db, k, x);
    assert r.db.books == db.books;
  }

  /** `book_update_post`: no duplicate check and no schema check; the record
      at the path's id is revised with the escaped fields. */
  function BookUpdatePost(db: Store, id: string, f: BookForm): (r: Response)
    ensures !Complete(f) && !Online(db, {Authors, Genres}) ==> r == Response(Error(Datastore), db)
    ensures !Complete(f) && Online(db, {Authors, Genres}) ==>
      ShowsForm(r, db, "Update Book", BookErrors(f), Ticked(f))
    ensures Complete(f) && CastId(id).None? ==> r == Response(Error(Cast), db)
    ensures Complete(f) && CastId(id).Some? ==> r == WriteBook(db, CastId(id).value, RevisedFields(f))
  {
    var errors := BookErrors(f);
    if errors != [] then
      if !Online(db, {Authors, Genres}) then Response(Error(Datastore), db)
      else Response(Render("book_form", "Update Book", FormPage(errors, UpdateChoices(db, Ticked(f)))), db)
    else
      match CastId(id)
      case Some(k) => WriteBook(db, k, RevisedFields(f))
      case None => Response(Error(Cast), db)
  }

  // ---------------------------------------------------------------------------
  // delete

  /** The last step of `book_delete_post`: deleting the book the body names. */
  function DeleteBook(db: Store, k: Id): (r: Response)
    ensures r.outcome == Redirect("/catalog/books")
    ensures r.db.books == db.books - {k}
    ensures ChangesOnly(db, r.db, Books)
  {
    var after: Db := db.(books := db.books - {k});
    assert WellFormed(after);
    Response(Redirect("/catalog/books"), after)
  }

  /** The delete of `book_delete_post` without `bookid`: the delete has no
      filter and removes the first book. */
  function DeleteFirstBook(db: Store): (r: Response)
    ensures r.outcome == Redirect("/catalog/books")
    ensures DropsFirst(db.books, r.db.books)
    ensures ChangesOnly(db, r.db, Books)
  {
    var books := DropFirst(db.books, db.next);
    var after: Db := db.(books := books);
    assert WellFormed(after);
    Response(Redirect("/catalog/books"), after)
  }

  /** `book_delete_post` as written: the guard compares the list of copies
      with 0. A body without `bookid` lists every copy and deletes the first
      book. */
  function BookDeletePost(db: Store, bookid: Option<string>): (r: Response)
    ensures ReadBodyId(bookid).NotAnId? ==> r == Response(Error(Cast), db)
    ensures !ReadBodyId(bookid).NotAnId? && !Online(db, {Books, Copies}) ==> r == Response(Error(Datastore), db)
    ensures ReadBodyId(bookid).NoId? && Online(db, {Books, Copies}) ==>
      r == DeleteFirstBook(db)
    ensures ReadBodyId(bookid).IdOf? && Online(db, {Books, Copies}) ==>
      var k := ReadBodyId(bookid).id;
      if Js.ListGreaterThanZero(CopiesOf(db, k))
      then r == Response(Render("book_delete", "Delete Book", DeletePage(CopiesOf(db, k))), db)
      else r == DeleteBook(db, k)
  {
    match ReadBodyId(bookid)
    case NotAnId => Response(Error(Cast), db)
    case NoId =>
      if !Online(db, {Books, Copies}) then Response(Error(Datastore), db)
      else
        // the guard compares the list of every copy with 0, which never holds
        // (Js.ListGuardNeverHolds)
        DeleteFirstBook(db)
    case IdOf(k) =>
      if !Online(db, {Books, Copies}) then Response(Error(Datastore), db)
      else
        var copies := CopiesOf(db, k);
        if Js.ListGreaterThanZero(copies) then
          Response(Render("book_delete", "Delete Book", DeletePage(copies)), db)
        else
          DeleteBook(db, k)
  }

  /** As written, deleting a book removes it whatever copies it has. */
  lemma BookDeleteIgnoresCopies(db: Store, k: Id)
    requires Online(db, {Books, Copies})
    ensures BookDeletePost(db, Some(IdText(k))).db.books == db.books - {k}
    ensures BookDeletePost(db, Some(IdText(k))).outcome == Redirect("/catalog/books")
  {
    CastIdText(k);
    Js.ListGuardNeverHolds(CopiesOf(db, k));
  }

  /** A book with a copy, deleted as written: the copy is left referring to a
      book that no longer exists. */
  lemma BookDeleteLeavesDanglingCopy()
    ensures
      var db: Store := Db(map[], map[0 := Book("Odes", 2, "Poems", "0-00", [])], map[],
                          map[1 := BookInstanceModel.BookInstance(0, "Penguin", "Available", None)], 3, {});
      var after := BookDeletePost(db, Some("0")).db;
      1 in after.copies && after.copies[1].book == 0 && 0 !in after.books
  {
    var db: Store := Db(map[], map[0 := Book("Odes", 2, "Poems", "0-00", [])], map[],
                        map[1 := BookInstanceModel.BookInstance(0, "Penguin", "Available", None)], 3, {});
    assert IdText(0) == "0";
    assert ReadBodyId(Some("0")) == IdOf(0) by {
      CastIdText(0);
    }
    Js.ListGuardNeverHolds(CopiesOf(db, 0));
    var r := DeleteBook(db, 0);
    assert BookDeletePost(db, Some("0")) == r;
    assert r.db.copies == db.copies;
  }

  /** `book_delete_post` with the guard it evidently intends: a book that still
      has copies is not deleted, and the warning view lists them. Without
      `bookid` every copy is listed, and the first book is deleted only when
      there are no copies. */
  function BookDeletePostGuarded(db: Store, bookid: Option<string>): (r: Response)
    ensures ReadBodyId(bookid).NotAnId? ==> r == Response(Error(Cast), db)
    ensures !ReadBodyId(bookid).NotAnId? && !Online(db, {Books, Copies}) ==> r == Response(Error(Datastore), db)
    ensures ReadBodyId(bookid).NoId? && Online(db, {Books, Copies}) ==>
      if db.copies.Keys != {}
      then r == Response(Render("book_delete", "Delete Book", DeletePage(AllIds(db.copies, db.next))), db)
      else r == DeleteFirstBook(db)
    ensures ReadBodyId(bookid).IdOf? && Online(db, {Books, Copies}) ==>
      var k := ReadBodyId(bookid).id;
      if exists c | c in db.copies :: db.copies[c].book == k
      then r == Response(Render("book_delete", "Delete Book", DeletePage(CopiesOf(db, k))), db)
      else r == DeleteBook(db, k)
  {
    match ReadBodyId(bookid)
    case NotAnId => Response(Error(Cast), db)
    case NoId =>
      if !Online(db, {Books, Copies}) then Response(Error(Datastore), db)
      else
        var copies := AllIds(db.copies, db.next);
        if |copies| > 0 then
          assert copies[0] in db.copies;
          Response(Render("book_delete", "Delete Book", DeletePage(copies)), db)
        else
          assert db.copies.Keys == {} by {
            assert forall c | c in db.copies :: c in copies;
          }
          DeleteFirstBook(db)
    case IdOf(k) =>
      if !Online(db, {Books, Copies}) then Response(Error(Datastore), db)
      else
        var copies := CopiesOf(db, k);
        if |copies| > 0 then
          assert copies[0] in copies;
          Response(Render("book_delete", "Delete Book", DeletePage(copies)), db)
        else
          DeleteBook(db, k)
  }

  // ---------------------------------------------------------------------------
  // properties across handlers

  /** A successful create redirects to a book whose detail page shows the
      submitted title, trimmed. */
  lemma CreateThenDetail(db: Store, f: BookForm)
    requires Complete(f) && Submitted(f).Some? && Online(db, {Books, Copies})
    ensures
      var r := BookCreatePost(db, f);
      exists k :: r.outcome == Redirect(BookModel.Url(k))
        && BookDetail(r.db, IdText(k)).outcome.Render?
        && BookDetail(r.db, IdText(k)).outcome.title == Trim(Value(f.title))
  {
    var b := Submitted(f).value;
    var r := BookCreatePost(db, f);
    assert r == SaveBook(db, b);
    var k: Id;
    if b in db.books.Values {
      k :| FirstEqual(db, k, b) && r.outcome == Redirect(BookModel.Url(k));
    } else {
      k := db.next;
    }
    assert k in r.db.books && r.db.books[k] == b && Online(r.db, {Books, Copies});
    DetailShowsStored(r.db, k);
  }

  /** The detail page of a stored book is titled with its title. */
  lemma DetailShowsStored(db: Store, k: Id)
    requires Online(db, {Books, Copies}) && k in db.books
    ensures BookDetail(db, IdText(k)).outcome.Render?
    ensures BookDetail(db, IdText(k)).outcome.title == db.books[k].title
  {
    CastIdText(k);
  }

  /** Submitting the same create form twice changes nothing the second time and
      redirects to the same book. */
  lemma CreateIsIdempotent(db: Store, f: BookForm)
    ensures BookCreatePost(BookCreatePost(db, f).db, f) == BookCreatePost(db, f)
  {
    if Complete(f) && Submitted(f).Some? && Online(db, {Books}) {
      SavedCreateIsIdempotent(db, f);
    }
  }

  /** The case of the above where the first submission saves. */
  lemma SavedCreateIsIdempotent(db: Store, f: BookForm)
    requires Complete(f) && Submitted(f).Some? && Online(db, {Books})
    ensures BookCreatePost(BookCreatePost(db, f).db, f) == BookCreatePost(db, f)
  {
    var b := Submitted(f).value;
    var r1 := BookCreatePost(db, f);
    assert r1 == SaveBook(db, b);
    assert Online(r1.db, {Books});
    assert BookCreatePost(r1.db, f) == SaveBook(r1.db, b);
    SaveBookIdempotent(db, b);
  }

  /** After a valid update the book's detail page shows the submitted book,
      escaped, under the same id. */
  lemma UpdateThenDetail(db: Store, k: Id, f: BookForm)
    requires Complete(f) && Revised(f).Some? && Online(db, {Books, Copies}) && k in db.books
    ensures
      var r := BookUpdatePost(db, IdText(k), f);
      && r.outcome == Redirect(BookModel.Url(k))
      && BookDetail(r.db, IdText(k)).outcome.Render?
      && BookDetail(r.db, IdText(k)).outcome.page.book == Revised(f).value
  {
    CastIdText(k);
  }

  /** With the escaping create, the record a create adds is the one an update
      with the same form writes: the update changes nothing. */
  lemma EscapedCreateThenUpdate(db: Store, f: BookForm)
    requires Complete(f) && Revised(f).Some? && Online(db, {Books})
    requires Revised(f).value !in db.books.Values
    ensures
      var r1 := BookCreatePostEscaped(db, f);
      BookUpdatePost(r1.db, IdText(db.next), f) == r1
  {
    var r1 := BookCreatePostEscaped(db, f);
    CastIdText(db.next);
    WriteSameBook(r1.db, db.next, RevisedFields(f));
  }

  /** As written, creating a book and then updating it with the very same
      form rewrites the stored title whenever the title holds a character
      that escaping replaces: "R&D" is stored, and the update stores
      "R&amp;D". */
  lemma CreateThenUpdateRewritesTitle(db: Store, f: BookForm)
    requires Complete(f) && Submitted(f).Some? && Revised(f).Some? && Online(db, {Books})
    requires Submitted(f).value !in db.books.Values
    requires exists i | 0 <= i < |Trim(Value(f.title))| :: IsMarkup(Trim(Value(f.title))[i])
    ensures
      var r1 := BookCreatePost(db, f);
      var r2 := BookUpdatePost(r1.db, IdText(db.next), f);
      && db.next in r1.db.books && r1.db.books[db.next].title == Trim(Value(f.title))
      && db.next in r2.db.books && r2.db.books[db.next].title != r1.db.books[db.next].title
  {
    CastIdText(db.next);
    EscapeLengthens(Trim(Value(f.title)));
  }

  /** A create whose author or genre names no id stores nothing: it is
      redirected to a stored book the lookup without those keys finds, and
      refused otherwise. */
  lemma UncastCreateStoresNothing(db: Store, f: BookForm)
    requires Complete(f) && Submitted(f).None?
    ensures BookCreatePost(db, f).db == db
    ensures Online(db, {Books}) ==>
      (BookCreatePost(db, f).outcome.Redirect? <==> exists k | k in db.books :: Matches(db.books[k], SubmittedFields(f)))
  {
    if Online(db, {Books}) {
      UncastCreateRedirects(db, f);
    }
  }

  /** With the books online, such a create is redirected exactly when a
      stored book matches. */
  lemma UncastCreateRedirects(db: Store, f: BookForm)
    requires Complete(f) && Online(db, {Books}) && Submitted(f).None?
    ensures BookCreatePost(db, f).outcome.Redirect? <==>
      exists k | k in db.books :: Matches(db.books[k], SubmittedFields(f))
  {
    var x := SubmittedFields(f);
    var u := SaveUncastBook(db, x);
    assert BookCreatePost(db, f) == u;
    assert u.outcome.Redirect? <==> exists k | k in db.books :: Matches(db.books[k], x);
  }

  /** Such a create is redirected to the first stored book that matches in
      everything but the reference that names no id. */
  lemma UncastCreateFindsFirst(db: Store, f: BookForm, k: Id)
    requires Complete(f) && Online(db, {Books}) && Submitted(f).None?
    requires FirstMatching(db, k, SubmittedFields(f))
    ensures BookCreatePost(db, f) == Response(Redirect(BookModel.Url(k)), db)
  {
    var x := SubmittedFields(f);
    var r := SaveUncastBook(db, x);
    assert BookCreatePost(db, f) == r;
    var j :| FirstMatching(db, j, x) && r.outcome == Redirect(BookModel.Url(j));
    assert j == k;
  }

  /** An author that names no id finds a stored book by somebody else: the
      lookup matches title, summary, isbn and genres only. */
  lemma UncastAuthorFindsOtherBook()
    ensures
      var db: Store := Db(map[], map[0 := Book("Odes", 2, "Poems", "isbn0", [])], map[], map[], 3, {});
      var f := BookForm(Some("Odes"), Some("Ann"), Some("Poems"), Some("isbn0"), Absent);
      BookCreatePost(db, f) == Response(Redirect(BookModel.Url(0)), db)
  {
    var db: Store := Db(map[], map[0 := Book("Odes", 2, "Poems", "isbn0", [])], map[], map[], 3, {});
    var f := BookForm(Some("Odes"), Some("Ann"), Some("Poems"), Some("isbn0"), Absent);
    ExampleForm();
    ExampleFirstMatch();
    UncastCreateFindsFirst(db, f, 0);
  }

  /** In the example's store, the lookup without the author finds book 0. */
  lemma ExampleFirstMatch()
    ensures
      var db: Store := Db(map[], map[0 := Book("Odes", 2, "Poems", "isbn0", [])], map[], map[], 3, {});
      FirstMatching(db, 0, Fields("Odes", "Ann", "Poems", "isbn0", []))
  {
    var x := Fields("Odes", "Ann", "Poems", "isbn0", []);
    AnnIsNoId();
    assert GenresOf([]) == [];
  }

  /** The form of the example above is complete, and its author names no id. */
  lemma ExampleForm()
    ensures
      var f := BookForm(Some("Odes"), Some("Ann"), Some("Poems"), Some("isbn0"), Absent);
      && Complete(f) && SubmittedFields(f) == Fields("Odes", "Ann", "Poems", "isbn0", [])
      && Submitted(f).None?
  {
    ExampleComplete();
    ExampleFields();
    AnnIsNoId();
  }

  lemma ExampleComplete()
    ensures Complete(BookForm(Some("Odes"), Some("Ann"), Some("Poems"), Some("isbn0"), Absent))
  {
    PlainWord("Odes");
    PlainWord("Ann");
    PlainWord("Poems");
    PlainWord("isbn0");
  }

  lemma ExampleFields()
    ensures SubmittedFields(BookForm(Some("Odes"), Some("Ann"), Some("Poems"), Some("isbn0"), Absent))
      == Fields("Odes", "Ann", "Poems", "isbn0", [])
  {
    PlainWord("Odes");
    PlainWord("Ann");
    PlainWord("Poems");
    PlainWord("isbn0");
  }

  /** The example's words are alphanumeric, so trimming keeps them and they
      are not blank. */
  lemma PlainWord(s: string)
    requires s in {"Odes", "Ann", "Poems", "isbn0"}
    ensures Trim(s) == s && Filled(Some(s))
  {
    assert Value(Some(s)) == s;
    assert IsAlnumChar(s[0]);
    assert forall i | 0 <= i < |s| :: IsAlnumChar(s[i]);
    AlphanumericIsSanitised(s);
    assert !IsSpace(s[0]);
  }

  lemma AnnIsNoId()
    ensures CastId("Ann").None?
  {
    assert !IsDigit("Ann"[0]);
  }

  /** An update whose author names no id still writes the other fields and
      redirects; the stored author is kept, and genres that name no id clear
      the stored ones. */
  lemma UpdateKeepsAuthor(db: Store, k: Id, f: BookForm)
    requires Complete(f) && Online(db, {Books}) && k in db.books
    requires CastId(Clean(f.author)).None?
    ensures
      var r := BookUpdatePost(db, IdText(k), f);
      && r.outcome == Redirect(BookModel.Url(k))
      && k in r.db.books
      && r.db.books[k].author == db.books[k].author
      && r.db.books[k].title == Clean(f.title)
      && (CastIds(Selected(f)).None? ==> r.db.books[k].genre == [])
  {
    CastIdText(k);
  }

  /** The genre ids of a list of ids pass the `genre.*` sanitiser unchanged. */
  lemma SelectedTexts(f: BookForm, ids: seq<Id>)
    requires f.genre == Many(Texts(ids))
    ensures Selected(f) == Texts(ids)
  {
    var xs := Texts(ids);
    assert GenreList(f.genre) == xs;
    forall i | 0 <= i < |ids|
      ensures Selected(f)[i] == xs[i]
    {
      IdTextEscapes(ids[i]);
    }
  }

  /** The update form ticks the genres a failed update of the same book
      ticks when it sends back the stored genres. */
  lemma UpdateFormTicksAsFailedPost(db: Store, k: Id, f: BookForm)
    requires Online(db, {Books, Authors, Genres}) && k in db.books
    requires !Complete(f) && f.genre == Many(Texts(db.books[k].genre))
    ensures BookUpdatePost(db, IdText(k), f).outcome.Render?
    ensures BookUpdateGet(db, IdText(k)).outcome.Render?
    ensures BookUpdatePost(db, IdText(k), f).outcome.page.choices == BookUpdateGet(db, IdText(k)).outcome.page.choices
  {
    CastIdText(k);
    SelectedTexts(f, db.books[k].genre);
    CastIdsTexts(db.books[k].genre);
  }

  /** After a book with no copies is deleted, its detail page is the 404. */
  lemma DeleteThenDetail(db: Store, k: Id)
    requires Online(db, {Books, Copies})
    requires forall c | c in db.copies :: db.copies[c].book != k
    ensures
      var r := BookDeletePostGuarded(db, Some(IdText(k)));
      BookDetail(r.db, IdText(k)).outcome == NotFound("Page Not exist")
  {
    CastIdText(k);
  }
}
