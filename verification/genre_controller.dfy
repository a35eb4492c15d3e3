/** The genre request handlers: detail, create, update and delete. */
module GenreController {
  import opened Optional
  import opened Ids
  import opened Store
  import opened Validation
  import opened GenreModel
  import opened BookModel
  import Js

  const NameMessage := "Genre name required"

  /** The one rule of the genre form: a name that is not blank. */
  function GenreErrors(name: Option<string>): (r: seq<FieldError>)
    ensures r == [] <==> Filled(name)
    ensures r != [] ==> r == [FieldError(GenreName, NameMessage)]
  {
    Required(GenreName, name, NameMessage)
  }

  predicate NameTaken(db: Db, n: string) {
    exists k | k in db.genres :: db.genres[k].name == n
  }

  /** `k` is the first genre, in storage order, named `n`. */
  predicate FirstNamed(db: Db, k: Id, n: string) {
    && k in db.genres && db.genres[k].name == n
    && forall j | j in db.genres && j < k :: db.genres[j].name != n
  }

  /** The books that list genre `id`, in storage order. */
  function BooksOfGenre(db: Store, id: Id): (ids: seq<Id>)
    ensures forall k :: k in ids <==> k in db.books && id in db.books[k].genre
  {
    Select(db.books, db.next, (b: Book) => id in b.genre)
  }

  // ---------------------------------------------------------------------------
  // detail

  /** `genre_detail` as written. The handler takes no `next`, so every path
      that hands an error on (a failed query, a bad id, and the 404 for a
      missing genre) throws instead. */
  function GenreDetail(db: Store, id: string): (r: Response)
    ensures r.db == db
    ensures r.outcome.Render? <==>
      CastId(id).Some? && Online(db, {Genres, Books}) && CastId(id).value in db.genres
    ensures r.outcome.Render? ==>
      r.outcome.page == GenrePage(db.genres[CastId(id).value], BooksOfGenre(db, CastId(id).value))
    ensures !r.outcome.Render? ==> r.outcome == Error(Crash)
  {
    match CastId(id)
    case None => Response(Error(Crash), db)
    case Some(k) =>
      if !Online(db, {Genres, Books}) || k !in db.genres then Response(Error(Crash), db)
      else Response(Render("genre_detail", "Genre Detail", GenrePage(db.genres[k], BooksOfGenre(db, k))), db)
  }

  /** `genre_detail` with the error handler in reach: a missing genre is a 404. */
  function GenreDetailChecked(db: Store, id: string): (r: Response)
    ensures r.db == db
    ensures CastId(id).None? ==> r.outcome == Error(Cast)
    ensures CastId(id).Some? && !Online(db, {Genres, Books}) ==> r.outcome == Error(Datastore)
    ensures CastId(id).Some? && Online(db, {Genres, Books}) ==>
      if CastId(id).value in db.genres
      then r.outcome == Render("genre_detail", "Genre Detail",
        GenrePage(db.genres[CastId(id).value], BooksOfGenre(db, CastId(id).value)))
      else r.outcome == NotFound("Genre not found")
  {
    match CastId(id)
    case None => Response(Error(Cast), db)
    case Some(k) =>
      if !Online(db, {Genres, Books}) then Response(Error(Datastore), db)
      else if k !in db.genres then Response(NotFound("Genre not found"), db)
      else Response(Render("genre_detail", "Genre Detail", GenrePage(db.genres[k], BooksOfGenre(db, k))), db)
  }

  // ---------------------------------------------------------------------------
  // create

  /** The duplicate check and the insert of `genre_create_post`, for a name
      that passed the form's rule: the first genre already named `n` is
      reused, and otherwise one genre is added under a fresh id. */
  function SaveGenre(db: Store, n: string): (r: Response)
    ensures NameTaken(db, n) ==>
      && r.db == db
      && exists k :: FirstNamed(db, k, n) && r.outcome == Redirect(GenreModel.Url(k))
    ensures !NameTaken(db, n) ==>
      && AddsOne(db.genres, r.db.genres, db.next, Genre(n))
      && ChangesOnly(db, r.db, Genres)
      && r.outcome == Redirect(GenreModel.Url(db.next))
  {
    match FirstMatch(db.genres, db.next, (g: Genre) => g.name == n)
    case Some(k) =>
      assert FirstNamed(db, k, n);
      Response(Redirect(GenreModel.Url(k)), db)
    case None =>
      Response(Redirect(GenreModel.Url(db.next)), db.(genres := db.genres[db.next := Genre(n)], next := db.next + 1))
  }

  /** `genre_create_post`. */
  function GenreCreatePost(db: Store, name: Option<string>): (r: Response)
    ensures !Filled(name) ==>
      r == Response(Render("genre_form", "Create Genre", FormPage([FieldError(GenreName, NameMessage)], [])), db)
    ensures Filled(name) && !Online(db, {Genres}) ==> r == Response(Error(Datastore), db)
    ensures Filled(name) && Online(db, {Genres}) ==> r == SaveGenre(db, Clean(name))
  {
    var errors := GenreErrors(name);
    if errors != [] then
      Response(Render("genre_form", "Create Genre", FormPage(errors, [])), db)
    else if !Online(db, {Genres}) then
      Response(Error(Datastore), db)
    else
      SaveGenre(db, Clean(name))
  }

  // ---------------------------------------------------------------------------
  // update

  /** `genre_update_post`: no duplicate check; the record at the path's id is
      overwritten and keeps that id. A path id that is no id leaves the
      genre's generated id in place, so the update finds nothing and reading
      the redirect address of the missing result throws. */
  function GenreUpdatePost(db: Store, id: string, name: Option<string>): (r: Response)
    ensures !Filled(name) ==>
      r == Response(Render("genre_form", "Update Genre", FormPage([FieldError(GenreName, NameMessage)], [])), db)
    ensures Filled(name) && !Online(db, {Genres}) ==> r == Response(Error(Datastore), db)
    ensures Filled(name) && Online(db, {Genres}) && (CastId(id).None? || CastId(id).value !in db.genres) ==>
      r == Response(Error(Crash), db)
    ensures Filled(name) && Online(db, {Genres}) && CastId(id).Some? && CastId(id).value in db.genres ==>
      && r.db.genres == db.genres[CastId(id).value := Genre(Clean(name))]
      && r.db.genres.Keys == db.genres.Keys
      && ChangesOnly(db, r.db, Genres) && r.db.next == db.next
      && r.outcome == Redirect("/catalog/genre/" + id)
  {
    var errors := GenreErrors(name);
    if errors != [] then
      Response(Render("genre_form", "Update Genre", FormPage(errors, [])), db)
    else if !Online(db, {Genres}) then
      Response(Error(Datastore), db)
    else
      var k := BuiltId(db, id);
      if k !in db.genres then Response(Error(Crash), db)
      else Response(Redirect(GenreModel.Url(k)), db.(genres := db.genres[k := Genre(Clean(name))]))
  }

  // ---------------------------------------------------------------------------
  // delete

  /** The delete of `genre_delelte_post` without `genreid`: the delete has
      no filter and removes the first genre. */
  function DeleteFirstGenre(db: Store): (r: Response)
    ensures r.outcome == Redirect("/catalog/genres")
    ensures DropsFirst(db.genres, r.db.genres)
    ensures ChangesOnly(db, r.db, Genres)
  {
    var genres := DropFirst(db.genres, db.next);
    var after: Db := db.(genres := genres);
    assert WellFormed(after);
    Response(Redirect("/catalog/genres"), after)
  }

  /** `genre_delelte_post` as written: the guard compares the list of books
      with 0, and the handler takes no `next`, so errors throw. Without
      `genreid` the book query has no filter and the delete removes the first
      genre. */
  function GenreDeletePost(db: Store, genreid: Option<string>): (r: Response)
    ensures ReadBodyId(genreid).NotAnId? || !Online(db, {Genres, Books}) ==>
      r == Response(Error(Crash), db)
    ensures ReadBodyId(genreid).NoId? && Online(db, {Genres, Books}) ==>
      r == DeleteFirstGenre(db)
    ensures ReadBodyId(genreid).IdOf? && Online(db, {Genres, Books}) ==>
      var id := ReadBodyId(genreid).id;
      if Js.ListGreaterThanZero(BooksOfGenre(db, id))
      then r == Response(Render("genre_delete", "Delete Genre", DeletePage(BooksOfGenre(db, id))), db)
      else
        && r.outcome == Redirect("/catalog/genres")
        && r.db.genres == db.genres - {id}
        && ChangesOnly(db, r.db, Genres)
  {
    match ReadBodyId(genreid)
    case NotAnId => Response(Error(Crash), db)
    case NoId =>
      if !Online(db, {Genres, Books}) then Response(Error(Crash), db)
      // the guard compares the list of every book with 0, which never holds
      // (Js.ListGuardNeverHolds)
      else DeleteFirstGenre(db)
    case IdOf(id) =>
      if !Online(db, {Genres, Books}) then Response(Error(Crash), db)
      else
        var books := BooksOfGenre(db, id);
        if Js.ListGreaterThanZero(books) then
          Response(Render("genre_delete", "Delete Genre", DeletePage(books)), db)
        else
          var after: Db := db.(genres := db.genres - {id});
          assert WellFormed(after);
          Response(Redirect("/catalog/genres"), after)
  }

  /** As written, deleting a genre removes it whatever books still list it. */
  lemma GenreDeleteIgnoresBooks(db: Store, genreid: Option<string>)
    requires ReadBodyId(genreid).IdOf? && Online(db, {Genres, Books})
    ensures GenreDeletePost(db, genreid).db.genres == db.genres - {ReadBodyId(genreid).id}
    ensures GenreDeletePost(db, genreid).outcome == Redirect("/catalog/genres")
  {
    Js.ListGuardNeverHolds(BooksOfGenre(db, ReadBodyId(genreid).id));
  }

  /** A genre listed by a book, deleted as written: the book is left listing a
      genre that no longer exists. */
  lemma GenreDeleteLeavesDanglingBook()
    ensures
      var db: Store := Db(map[], map[1 := Book("Odes", 2, "Poems", "0-00", [0])],
                          map[0 := Genre("Poetry")], map[], 3, {});
      var after := GenreDeletePost(db, Some("0")).db;
      1 in after.books && 0 in after.books[1].genre && 0 !in after.genres
  {
    var db: Store := Db(map[], map[1 := Book("Odes", 2, "Poems", "0-00", [0])],
                        map[0 := Genre("Poetry")], map[], 3, {});
    CastIdText(0);
    assert IdText(0) == "0";
    GenreDeleteIgnoresBooks(db, Some("0"));
  }

  /** `genre_delelte_post` with the guard it evidently intends: a genre that
      some book lists is not deleted, and the warning view lists those books.
      Without `genreid` every book is listed, and the first genre is deleted
      only when there are no books. */
  function GenreDeletePostGuarded(db: Store, genreid: Option<string>): (r: Response)
    ensures ReadBodyId(genreid).NotAnId? || !Online(db, {Genres, Books}) ==>
      r == Response(Error(Crash), db)
    ensures ReadBodyId(genreid).IdOf? && Online(db, {Genres, Books}) ==>
      var id := ReadBodyId(genreid).id;
      if exists b | b in db.books :: id in db.books[b].genre
      then r == Response(Render("genre_delete", "Delete Genre", DeletePage(BooksOfGenre(db, id))), db)
      else
        && r.outcome == Redirect("/catalog/genres")
        && r.db.genres == db.genres - {id}
        && ChangesOnly(db, r.db, Genres)
    ensures ReadBodyId(genreid).NoId? && Online(db, {Genres, Books}) ==>
      if db.books.Keys != {}
      then r == Response(Render("genre_delete", "Delete Genre", DeletePage(AllIds(db.books, db.next))), db)
      else r == DeleteFirstGenre(db)
  {
    var target := ReadBodyId(genreid);
    if target.NotAnId? || !Online(db, {Genres, Books}) then
      Response(Error(Crash), db)
    else
      var books := if target.IdOf? then BooksOfGenre(db, target.id) else AllIds(db.books, db.next);
      if |books| > 0 then
        assert books[0] in books;
        Response(Render("genre_delete", "Delete Genre", DeletePage(books)), db)
      else if target.IdOf? then
        var after: Db := db.(genres := db.genres - {target.id});
        assert WellFormed(after);
        Response(Redirect("/catalog/genres"), after)
      else
        assert db.books.Keys == {} by {
          assert forall b | b in db.books :: b in books;
        }
        DeleteFirstGenre(db)
  }

  // ---------------------------------------------------------------------------
  // properties across handlers

  /** A successful create redirects to a genre whose detail page shows the
      submitted name, cleaned. */
  lemma CreateThenDetail(db: Store, name: Option<string>)
    requires Filled(name) && Online(db, {Genres, Books})
    ensures
      var r := GenreCreatePost(db, name);
      exists k :: r.outcome == Redirect(GenreModel.Url(k))
        && GenreDetail(r.db, IdText(k)).outcome.Render?
        && GenreDetail(r.db, IdText(k)).outcome.page.genre == Genre(Clean(name))
  {
    var r := GenreCreatePost(db, name);
    var k: Id;
    if NameTaken(db, Clean(name)) {
      k :| FirstNamed(db, k, Clean(name)) && r.outcome == Redirect(GenreModel.Url(k));
    } else {
      k := db.next;
    }
    CastIdText(k);
    assert r.outcome == Redirect(GenreModel.Url(k));
  }

  /** A successful update redirects to the genre's own detail page, which
      shows the submitted name, cleaned, under the same id. */
  lemma UpdateThenDetail(db: Store, k: Id, name: Option<string>)
    requires Filled(name) && Online(db, {Genres, Books}) && k in db.genres
    ensures
      var r := GenreUpdatePost(db, IdText(k), name);
      && r.outcome == Redirect(GenreModel.Url(k))
      && GenreDetailChecked(r.db, IdText(k)).outcome.Render?
      && GenreDetailChecked(r.db, IdText(k)).outcome.page.genre == Genre(Clean(name))
  {
    CastIdText(k);
  }

  /** Submitting the same create form twice changes nothing the second time and
      redirects to the same genre. */
  lemma CreateIsIdempotent(db: Store, name: Option<string>)
    ensures
      var r1 := GenreCreatePost(db, name);
      var r2 := GenreCreatePost(r1.db, name);
      r2 == Response(r1.outcome, r1.db)
  {
    var n := Clean(name);
    var r1 := GenreCreatePost(db, name);
    if Filled(name) && Online(db, {Genres}) {
      if NameTaken(db, n) {
        var k :| FirstNamed(db, k, n) && r1.outcome == Redirect(GenreModel.Url(k));
        assert FirstNamed(r1.db, k, n);
      } else {
        assert FirstNamed(r1.db, db.next, n);
        assert NameTaken(r1.db, n);
      }
    }
  }

  /** Creating a genre with an alphanumeric name, "Fantasy" say, in a catalog
      with no genres yet stores it under the first id and redirects to it;
      creating it again redirects to the same place and adds nothing. */
  lemma FirstGenreExample(db: Store, n: string)
    requires db.genres == map[] && db.next == 0 && Online(db, {Genres})
    requires Text.IsAlphanumeric(n)
    ensures
      var r1 := GenreCreatePost(db, Some(n));
      var r2 := GenreCreatePost(r1.db, Some(n));
      && r1.outcome == Redirect("/catalog/genre/0")
      && r1.db.genres == map[0 := Genre(n)]
      && r2 == r1
  {
    FirstCreate(db, n);
    FirstGenreUrl();
    CreateIsIdempotent(db, Some(n));
  }

  /** The first create in a catalog with no genres stores the genre under id 0. */
  lemma FirstCreate(db: Store, n: string)
    requires db.genres == map[] && db.next == 0 && Online(db, {Genres})
    requires Text.IsAlphanumeric(n)
    ensures
      var r := GenreCreatePost(db, Some(n));
      && r.outcome == Redirect(GenreModel.Url(0))
      && r.db.genres == map[0 := Genre(n)]
  {
    AlphanumericIsClean(n);
    FirstSave(db, n);
  }

  /** The save behind it: with no genres the name is free and id 0 is used. */
  lemma FirstSave(db: Store, n: string)
    requires db.genres == map[] && db.next == 0
    ensures SaveGenre(db, n).outcome == Redirect(GenreModel.Url(0))
    ensures SaveGenre(db, n).db.genres == map[0 := Genre(n)]
  {
    assert !NameTaken(db, n);
  }

  lemma FirstGenreUrl()
    ensures GenreModel.Url(0) == "/catalog/genre/0"
  {
    assert IdText(0) == "0";
  }

  /** After a genre that no book lists is deleted, its detail page is a 404. */
  lemma DeleteThenDetail(db: Store, id: Id)
    requires Online(db, {Genres, Books})
    requires forall b | b in db.books :: id !in db.books[b].genre
    ensures
      var r := GenreDeletePostGuarded(db, Some(IdText(id)));
      GenreDetailChecked(r.db, IdText(id)).outcome == NotFound("Genre not found")
  {
    CastIdText(id);
  }
}
