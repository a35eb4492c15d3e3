/** The book-copy request handlers: detail, create, update and delete. */
module BookInstanceController {
  import opened Optional
  import opened Dates
  import opened Ids
  import opened Store
  import opened Validation
  import opened BookInstanceModel

  /** The fields of the copy form; a field the request leaves out is `None`. */
  datatype CopyForm = CopyForm(
    book: Option<string>,
    imprint: Option<string>,
    status: Option<string>,
    dueBack: Option<string>)

  const BookMissing := "Book is required"
  const ImprintMissing := "Imprint is required"
  const StatusMissing := "Status is required"
  const DateInvalid := "Not a valid date"

  // ---------------------------------------------------------------------------
  // the form

  /** A form that passes every rule: book, imprint and status are not blank,
      and the due-back date is absent, empty or an ISO date. The status is
      not checked against the four values here. */
  predicate Acceptable(f: CopyForm) {
    Filled(f.book) && Filled(f.imprint) && Filled(f.status) && OptionalIsoDate(f.dueBack)
  }

  /** The four rules of the copy form, the same on both paths; each failing
      rule is reported with its own message. */
  function CopyErrors(f: CopyForm): (r: seq<FieldError>)
    ensures r == [] <==> Acceptable(f)
    ensures FieldError(BookRef, BookMissing) in r <==> !Filled(f.book)
    ensures FieldError(Imprint, ImprintMissing) in r <==> !Filled(f.imprint)
    ensures FieldError(StatusField, StatusMissing) in r <==> !Filled(f.status)
    ensures FieldError(DueBack, DateInvalid) in r <==> !OptionalIsoDate(f.dueBack)
  {
    var a := Required(BookRef, f.book, BookMissing);
    var b := Required(Imprint, f.imprint, ImprintMissing);
    var c := Required(StatusField, f.status, StatusMissing);
    var d := OptionalDate(DueBack, f.dueBack, DateInvalid);
    FourRules(a, b, c, d, FieldError(BookRef, BookMissing), FieldError(Imprint, ImprintMissing),
              FieldError(StatusField, StatusMissing), FieldError(DueBack, DateInvalid));
    a + b + c + d
  }

  /** The copy a form describes once sanitised: book, imprint and status
      trimmed and escaped, the book cast to an id, and the date read by the
      date sanitiser, which turns an absent date into `null` as well. There is
      no copy when the book names no id. */
  function Built(f: CopyForm): (r: Option<BookInstance>)
    ensures r.Some? <==> CastId(Clean(f.book)).Some?
    ensures r.Some? ==>
      && IdText(r.value.book) == Clean(f.book)
      && r.value.imprint == Clean(f.imprint)
      && r.value.status == Clean(f.status)
      && (r.value.dueBack.Some? <==> f.dueBack.Some? && IsIsoDate(f.dueBack.value))
      && (r.value.dueBack.Some? ==> r.value.dueBack.value == ToDate(f.dueBack.value))
  {
    match CastId(Clean(f.book))
    case None => None
    case Some(b) => Some(BookInstance(b, Clean(f.imprint), Clean(f.status), NewDate(f.dueBack)))
  }

  /** The built copy is the one the schema builds from the sanitised fields:
      the status is always given, and the date field always holds a date or
      `null`, so neither default of the schema is ever used. */
  lemma BuiltIsNew(f: CopyForm, now: CalendarDate)
    requires CastId(Clean(f.book)).Some?
    ensures Built(f) == Some(New(CastId(Clean(f.book)).value, Clean(f.imprint), Some(Clean(f.status)), DateField(f.dueBack), now))
    ensures f.dueBack.None? ==> Built(f).value.dueBack.None?
  {
  }

  /** What `findByIdAndUpdate` leaves at a stored copy when handed the copy
      built from the form: a book that names no id leaves that path unset, so
      it is not part of the update and the stored book is kept; the other
      fields are written, a `null` date clearing the stored one. */
  function ReviseCopy(stored: BookInstance, f: CopyForm): (c: BookInstance)
    ensures Built(f).Some? ==> c == Built(f).value
    ensures Built(f).None? ==> c.book == stored.book
    ensures c.imprint == Clean(f.imprint) && c.status == Clean(f.status) && c.dueBack == NewDate(f.dueBack)
  {
    var book := if CastId(Clean(f.book)).Some? then CastId(Clean(f.book)).value else stored.book;
    BookInstance(book, Clean(f.imprint), Clean(f.status), NewDate(f.dueBack))
  }

  // ---------------------------------------------------------------------------
  // the datastore

  /** Some stored copy has this book and imprint. */
  predicate KeyTaken(db: Db, book: Id, imprint: string) {
    exists k | k in db.copies :: db.copies[k].book == book && db.copies[k].imprint == imprint
  }

  /** `k` is the first copy, in storage order, with this book and imprint. */
  predicate FirstWithKey(db: Db, k: Id, book: Id, imprint: string) {
    && k in db.copies && db.copies[k].book == book && db.copies[k].imprint == imprint
    && forall j | j in db.copies && j < k :: !(db.copies[j].book == book && db.copies[j].imprint == imprint)
  }

  /** `k` is the first copy, in storage order, with this imprint. */
  predicate FirstWithImprint(db: Db, k: Id, imprint: string) {
    && k in db.copies && db.copies[k].imprint == imprint
    && forall j | j in db.copies && j < k :: db.copies[j].imprint != imprint
  }

  /** Every stored copy has one of the four statuses. */
  predicate StatusesValid(db: Db) {
    forall k | k in db.copies :: ParseStatus(db.copies[k].status).Some?
  }

  // ---------------------------------------------------------------------------
  // detail

  /** `bookinstance_detail`: a missing copy is the 404 "Book copy not found". */
  function BookInstanceDetail(db: Store, id: string): (r: Response)
    ensures r.db == db
    ensures CastId(id).None? ==> r.outcome == Error(Cast)
    ensures CastId(id).Some? && !Online(db, {Copies}) ==> r.outcome == Error(Datastore)
    ensures CastId(id).Some? && Online(db, {Copies}) ==>
      var k := CastId(id).value;
      if k in db.copies
      then r.outcome == Render("bookinstance_detail", "ID: " + id, CopyPage(db.copies[k]))
      else r.outcome == NotFound("Book copy not found")
  {
    match CastId(id)
    case None => Response(Error(Cast), db)
    case Some(k) =>
      if !Online(db, {Copies}) then Response(Error(Datastore), db)
      else if k !in db.copies then Response(NotFound("Book copy not found"), db)
      else Response(Render("bookinstance_detail", "ID: " + id, CopyPage(db.copies[k])), db)
  }

  // ---------------------------------------------------------------------------
  // create

  /** The duplicate check and the save of `bookinstance_create_post`: the
      first copy with the same book and imprint is reused whatever its status
      and date; otherwise the schema is checked and the copy is added under a
      fresh id. */
  function SaveCopy(db: Store, c: BookInstance): (r: Response)
    ensures KeyTaken(db, c.book, c.imprint) ==>
      && r.db == db
      && exists k :: FirstWithKey(db, k, c.book, c.imprint) && r.outcome == Redirect(BookInstanceModel.Url(k))
    ensures !KeyTaken(db, c.book, c.imprint) && !SchemaValid(c) ==> r == Response(Error(Invalid), db)
    ensures !KeyTaken(db, c.book, c.imprint) && SchemaValid(c) ==>
      && AddsOne(db.copies, r.db.copies, db.next, c)
      && ChangesOnly(db, r.db, Copies)
      && r.outcome == Redirect(BookInstanceModel.Url(db.next))
  {
    match FirstMatch(db.copies, db.next, (x: BookInstance) => x.book == c.book && x.imprint == c.imprint)
    case Some(k) =>
      assert FirstWithKey(db, k, c.book, c.imprint);
      Response(Redirect(BookInstanceModel.Url(k)), db)
    case None =>
      if !SchemaValid(c) then Response(Error(Invalid), db)
      else Response(Redirect(BookInstanceModel.Url(db.next)), AddCopy(db, c))
  }

  /** The duplicate check and the save of `bookinstance_create_post` when
      the book names no id: the key the cast left unset drops out of the
      lookup, so the first copy with the imprint is reused, whatever its book;
      otherwise the save fails the schema's checks and nothing is stored. */
  function SaveUncastCopy(db: Store, imprint: string): (r: Response)
    ensures r.db == db
    ensures (exists k | k in db.copies :: db.copies[k].imprint == imprint) ==>
      exists k :: FirstWithImprint(db, k, imprint) && r.outcome == Redirect(BookInstanceModel.Url(k))
    ensures !(exists k | k in db.copies :: db.copies[k].imprint == imprint) ==> r.outcome == Error(Invalid)
  {
    match FirstMatch(db.copies, db.next, (x: BookInstance) => x.imprint == imprint)
    case Some(k) =>
      assert FirstWithImprint(db, k, imprint);
      Response(Redirect(BookInstanceModel.Url(k)), db)
    case None => Response(Error(Invalid), db)
  }

  /** The form would build a copy the schema accepts. */
  predicate Saveable(f: CopyForm) {
    Built(f).Some? && SchemaValid(Built(f).value)
  }

  /** `bookinstance_create_post`. The lookup's own error is ignored; the save
      that follows runs the schema's checks before it meets the failing
      datastore, so with the copies unreachable a copy the schema refuses is
      refused as invalid. */
  function BookInstanceCreatePost(db: Store, f: CopyForm): (r: Response)
    ensures !Acceptable(f) && !Online(db, {Books}) ==> r == Response(Error(Datastore), db)
    ensures !Acceptable(f) && Online(db, {Books}) ==>
      r == Response(Render("bookinstance_form", "Create BookInstance", FormPage(CopyErrors(f), [])), db)
    ensures Acceptable(f) && !Online(db, {Copies}) ==>
      r == Response(Error(if Saveable(f) then Datastore else Invalid), db)
    ensures Acceptable(f) && Online(db, {Copies}) && Built(f).Some? ==> r == SaveCopy(db, Built(f).value)
    ensures Acceptable(f) && Online(db, {Copies}) && Built(f).None? ==> r == SaveUncastCopy(db, Clean(f.imprint))
    ensures !(Acceptable(f) && Online(db, {Copies}) && Built(f).Some?) ==> r.db == db
  {
    var errors := CopyErrors(f);
    if errors != [] then
      if !Online(db, {Books}) then Response(Error(Datastore), db)
      else Response(Render("bookinstance_form", "Create BookInstance", FormPage(errors, [])), db)
    else if !Online(db, {Copies}) then
      Response(Error(if Saveable(f) then Datastore else Invalid), db)
    else
      match Built(f)
      case Some(c) => SaveCopy(db, c)
      case None => SaveUncastCopy(db, Clean(f.imprint))
  }

  // ---------------------------------------------------------------------------
  // update

  /** The write of `bookinstance_update_post`: the record at `k` is revised
      with the form and keeps its id. A missing record is reported with an
      error whose message, not status, is 404. */
  function WriteCopy(db: Store, k: Id, f: CopyForm): (r: Response)
    ensures !Online(db, {Copies}) ==> r == Response(Error(Datastore), db)
    ensures Online(db, {Copies}) && k !in db.copies ==> r == Response(Error(Missing), db)
    ensures Online(db, {Copies}) && k in db.copies ==>
      && r.db.copies == db.copies[k := ReviseCopy(db.copies[k], f)]
      && r.db.copies.Keys == db.copies.Keys
      && ChangesOnly(db, r.db, Copies) && r.db.next == db.next
      && r.outcome == Redirect(BookInstanceModel.Url(k))
  {
    if !Online(db, {Copies}) then Response(Error(Datastore), db)
    else if k !in db.copies then Response(Error(Missing), db)
    else
      var c := ReviseCopy(db.copies[k], f);
      var after := db.(copies := db.copies[k := c]);
      assert after.copies.Keys == db.copies.Keys;
      Response(Redirect(BookInstanceModel.Url(k)), after)
  }

  /** `bookinstance_update_post` as written: an update does not run the
      schema's checks, so any status text is stored. A path id that is no id
      leaves the copy's generated id in place, so the update finds nothing. */
  function BookInstanceUpdatePost(db: Store, id: string, f: CopyForm): (r: Response)
    ensures !Acceptable(f) && !Online(db, {Books}) ==> r == Response(Error(Datastore), db)
    ensures !Acceptable(f) && Online(db, {Books}) ==>
      r == Response(Render("bookinstance_form", "Update BookInstance", FormPage(CopyErrors(f), [])), db)
    ensures Acceptable(f) && CastId(id).None? ==>
      r == Response(Error(if Online(db, {Copies}) then Missing else Datastore), db)
    ensures Acceptable(f) && CastId(id).Some? ==> r == WriteCopy(db, CastId(id).value, f)
  {
    var errors := CopyErrors(f);
    if errors != [] then
      if !Online(db, {Books}) then Response(Error(Datastore), db)
      else Response(Render("bookinstance_form", "Update BookInstance", FormPage(errors, [])), db)
    else WriteCopy(db, BuiltId(db, id), f)
  }

  /** `bookinstance_update_post` with the schema's checks run on the update,
      as they are on a save: a status outside the four values is refused
      before the datastore is asked. */
  function BookInstanceUpdatePostChecked(db: Store, id: string, f: CopyForm): (r: Response)
    ensures !Acceptable(f) && !Online(db, {Books}) ==> r == Response(Error(Datastore), db)
    ensures !Acceptable(f) && Online(db, {Books}) ==>
      r == Response(Render("bookinstance_form", "Update BookInstance", FormPage(CopyErrors(f), [])), db)
    ensures Acceptable(f) && ParseStatus(Clean(f.status)).None? ==> r == Response(Error(Invalid), db)
    ensures Acceptable(f) && ParseStatus(Clean(f.status)).Some? && CastId(id).None? ==>
      r == Response(Error(if Online(db, {Copies}) then Missing else Datastore), db)
    ensures Acceptable(f) && ParseStatus(Clean(f.status)).Some? && CastId(id).Some? ==>
      r == WriteCopy(db, CastId(id).value, f)
  {
    var errors := CopyErrors(f);
    if errors != [] then
      if !Online(db, {Books}) then Response(Error(Datastore), db)
      else Response(Render("bookinstance_form", "Update BookInstance", FormPage(errors, [])), db)
    else if ParseStatus(Clean(f.status)).None? then Response(Error(Invalid), db)
    else WriteCopy(db, BuiltId(db, id), f)
  }

  // ---------------------------------------------------------------------------
  // delete

  /** `bookinstance_delete_post`: no guard. The copy the body names is
      removed, if there is one, and the response goes to the list. Without
      `bookinstanceid` the delete has no filter and removes the first copy. */
  function BookInstanceDeletePost(db: Store, bookinstanceid: Option<string>): (r: Response)
    ensures ReadBodyId(bookinstanceid).NotAnId? ==> r == Response(Error(Cast), db)
    ensures !ReadBodyId(bookinstanceid).NotAnId? && !Online(db, {Copies}) ==> r == Response(Error(Datastore), db)
    ensures ReadBodyId(bookinstanceid).NoId? && Online(db, {Copies}) ==>
      && r.outcome == Redirect("/catalog/bookinstances")
      && DropsFirst(db.copies, r.db.copies)
      && ChangesOnly(db, r.db, Copies)
    ensures ReadBodyId(bookinstanceid).IdOf? && Online(db, {Copies}) ==>
      && r.outcome == Redirect("/catalog/bookinstances")
      && r.db.copies == db.copies - {ReadBodyId(bookinstanceid).id}
      && ChangesOnly(db, r.db, Copies)
  {
    match ReadBodyId(bookinstanceid)
    case NotAnId => Response(Error(Cast), db)
    case NoId =>
      if !Online(db, {Copies}) then Response(Error(Datastore), db)
      else
        var after: Db := db.(copies := DropFirst(db.copies, db.next));
        assert WellFormed(after);
        Response(Redirect("/catalog/bookinstances"), after)
    case IdOf(k) =>
      if !Online(db, {Copies}) then Response(Error(Datastore), db)
      else
        var after: Db := db.(copies := db.copies - {k});
        assert WellFormed(after);
        Response(Redirect("/catalog/bookinstances"), after)
  }

  // ---------------------------------------------------------------------------
  // properties across handlers

  /** A save never stores a status outside the four values: the schema
      checks every new copy. */
  lemma SaveCopyKeepsStatusesValid(db: Store, c: BookInstance)
    requires StatusesValid(db)
    ensures StatusesValid(SaveCopy(db, c).db)
  {
    if !KeyTaken(db, c.book, c.imprint) && SchemaValid(c) {
      assert SaveCopy(db, c).db.copies == db.copies[db.next := c];
    }
  }

  /** So no create stores one either. */
  lemma CreateKeepsStatusesValid(db: Store, f: CopyForm)
    requires StatusesValid(db)
    ensures StatusesValid(BookInstanceCreatePost(db, f).db)
  {
    if Acceptable(f) && Built(f).Some? && Online(db, {Copies}) {
      SaveCopyKeepsStatusesValid(db, Built(f).value);
    }
  }

  /** As written, an update stores whatever status text it is given: a form
      whose status is none of the four values, "Lost" say, leaves a copy with
      an invalid status. */
  lemma UpdateStoresAnyStatus(db: Store, k: Id, f: CopyForm)
    requires Acceptable(f) && Online(db, {Copies}) && k in db.copies
    requires ParseStatus(Validation.Clean(f.status)).None?
    ensures !StatusesValid(BookInstanceUpdatePost(db, IdText(k), f).db)
  {
    CastIdText(k);
    var r := BookInstanceUpdatePost(db, IdText(k), f);
    assert r.db.copies[k] == ReviseCopy(db.copies[k], f);
  }

  /** Writing a form with a valid status keeps every status valid. */
  lemma WriteCopyKeepsStatusesValid(db: Store, k: Id, f: CopyForm)
    requires StatusesValid(db) && ParseStatus(Validation.Clean(f.status)).Some?
    ensures StatusesValid(WriteCopy(db, k, f).db)
  {
    if Online(db, {Copies}) && k in db.copies {
      assert WriteCopy(db, k, f).db.copies == db.copies[k := ReviseCopy(db.copies[k], f)];
    }
  }

  /** With the schema's checks run on the update, no update stores an invalid
      status either. */
  lemma CheckedUpdateKeepsStatusesValid(db: Store, id: string, f: CopyForm)
    requires StatusesValid(db)
    ensures StatusesValid(BookInstanceUpdatePostChecked(db, id, f).db)
  {
    if Acceptable(f) && CastId(id).Some? && ParseStatus(Validation.Clean(f.status)).Some? {
      WriteCopyKeepsStatusesValid(db, CastId(id).value, f);
    }
  }

  /** The duplicate check looks at the book and the imprint only: once a copy
      with those exists, forms that differ in status and date alone have the
      same effect. */
  lemma CreateIgnoresStatusAndDate(db: Store, f: CopyForm, g: CopyForm)
    requires f.book == g.book && f.imprint == g.imprint
    requires Acceptable(f) && Acceptable(g) && Built(f).Some? && Online(db, {Copies})
    requires KeyTaken(db, Built(f).value.book, Built(f).value.imprint)
    ensures BookInstanceCreatePost(db, f) == BookInstanceCreatePost(db, g)
  {
    var c, d := Built(f).value, Built(g).value;
    assert c.book == d.book && c.imprint == d.imprint by {
      IdTextInjective(c.book, d.book);
    }
    var r1, r2 := SaveCopy(db, c), SaveCopy(db, d);
    var k1 :| FirstWithKey(db, k1, c.book, c.imprint) && r1.outcome == Redirect(BookInstanceModel.Url(k1));
    var k2 :| FirstWithKey(db, k2, d.book, d.imprint) && r2.outcome == Redirect(BookInstanceModel.Url(k2));
    assert k1 == k2;
  }

  /** Saving the same copy a second time finds the first save and changes
      nothing. */
  lemma SaveCopyIdempotent(db: Store, c: BookInstance)
    ensures SaveCopy(SaveCopy(db, c).db, c) == SaveCopy(db, c)
  {
    var r1 := SaveCopy(db, c);
    if KeyTaken(db, c.book, c.imprint) || SchemaValid(c) {
      var k: Id;
      if KeyTaken(db, c.book, c.imprint) {
        k :| FirstWithKey(db, k, c.book, c.imprint) && r1.outcome == Redirect(BookInstanceModel.Url(k));
      } else {
        k := db.next;
        assert r1.db.copies[k] == c;
      }
      assert FirstWithKey(r1.db, k, c.book, c.imprint);
      assert KeyTaken(r1.db, c.book, c.imprint);
      var r2 := SaveCopy(r1.db, c);
      var k2 :| FirstWithKey(r1.db, k2, c.book, c.imprint) && r2.outcome == Redirect(BookInstanceModel.Url(k2));
      assert k2 == k;
    }
  }

  /** Submitting the same create form twice changes nothing the second time. */
  lemma CreateIsIdempotent(db: Store, f: CopyForm)
    ensures
      var r1 := BookInstanceCreatePost(db, f);
      BookInstanceCreatePost(r1.db, f) == r1
  {
    if Acceptable(f) && Built(f).Some? && Online(db, {Copies}) {
      SavedCreateIsIdempotent(db, f);
    }
  }

  /** The case of the above where the first submission reaches the save. */
  lemma SavedCreateIsIdempotent(db: Store, f: CopyForm)
    requires Acceptable(f) && Built(f).Some? && Online(db, {Copies})
    ensures
      var r1 := BookInstanceCreatePost(db, f);
      BookInstanceCreatePost(r1.db, f) == r1
  {
    var c := Built(f).value;
    var r1 := BookInstanceCreatePost(db, f);
    assert r1 == SaveCopy(db, c);
    assert Online(r1.db, {Copies});
    assert BookInstanceCreatePost(r1.db, f) == SaveCopy(r1.db, c);
    SaveCopyIdempotent(db, c);
  }

  /** A create with a valid status redirects to a copy whose detail page
      shows a copy of the submitted book with the submitted imprint. */
  lemma CreateThenDetail(db: Store, f: CopyForm)
    requires Acceptable(f) && Built(f).Some? && Online(db, {Copies})
    requires ParseStatus(Validation.Clean(f.status)).Some?
    ensures
      var r := BookInstanceCreatePost(db, f);
      exists k, c :: r.outcome == Redirect(BookInstanceModel.Url(k))
        && BookInstanceDetail(r.db, IdText(k)).outcome == Render("bookinstance_detail", "ID: " + IdText(k), CopyPage(c))
        && c.book == Built(f).value.book && c.imprint == Validation.Clean(f.imprint)
  {
    var c := Built(f).value;
    CleanFilled(f.imprint);
    assert SchemaValid(c);
    var r := BookInstanceCreatePost(db, f);
    var k: Id;
    if KeyTaken(db, c.book, c.imprint) {
      k :| FirstWithKey(db, k, c.book, c.imprint) && r.outcome == Redirect(BookInstanceModel.Url(k));
    } else {
      k := db.next;
    }
    CastIdText(k);
    assert r.outcome == Redirect(BookInstanceModel.Url(k));
    assert BookInstanceDetail(r.db, IdText(k)).outcome == Render("bookinstance_detail", "ID: " + IdText(k), CopyPage(r.db.copies[k]));
  }

  /** After a valid update the copy's detail page shows the submitted copy
      under the same id. */
  lemma UpdateThenDetail(db: Store, k: Id, f: CopyForm)
    requires Acceptable(f) && Built(f).Some? && Online(db, {Copies}) && k in db.copies
    ensures
      var r := BookInstanceUpdatePost(db, IdText(k), f);
      && r.outcome == Redirect(BookInstanceModel.Url(k))
      && BookInstanceDetail(r.db, IdText(k)).outcome == Render("bookinstance_detail", "ID: " + IdText(k), CopyPage(Built(f).value))
  {
    CastIdText(k);
  }

  /** An update whose book names no id still writes the other fields and
      redirects; the stored book is kept. */
  lemma UpdateKeepsBook(db: Store, k: Id, f: CopyForm)
    requires Acceptable(f) && Online(db, {Copies}) && k in db.copies
    requires CastId(Validation.Clean(f.book)).None?
    ensures
      var r := BookInstanceUpdatePost(db, IdText(k), f);
      && r.outcome == Redirect(BookInstanceModel.Url(k))
      && k in r.db.copies
      && r.db.copies[k].book == db.copies[k].book
      && r.db.copies[k].imprint == Validation.Clean(f.imprint)
      && r.db.copies[k].status == Validation.Clean(f.status)
  {
    CastIdText(k);
  }

  /** A create whose book names no id stores nothing: it is redirected to the
      first copy with the imprint, of whatever book, and refused when there
      is none. */
  lemma UncastCreateStoresNothing(db: Store, f: CopyForm)
    requires Acceptable(f) && Built(f).None?
    ensures BookInstanceCreatePost(db, f).db == db
    ensures Online(db, {Copies}) ==>
      (BookInstanceCreatePost(db, f).outcome.Redirect? <==>
        exists k | k in db.copies :: db.copies[k].imprint == Validation.Clean(f.imprint))
  {
    if Online(db, {Copies}) {
      UncastCreateRedirects(db, f);
    }
  }

  /** With the copies online, such a create is redirected exactly when a
      stored copy has the imprint. */
  lemma UncastCreateRedirects(db: Store, f: CopyForm)
    requires Acceptable(f) && Online(db, {Copies}) && Built(f).None?
    ensures BookInstanceCreatePost(db, f).outcome.Redirect? <==>
      exists k | k in db.copies :: db.copies[k].imprint == Validation.Clean(f.imprint)
  {
    var imprint := Validation.Clean(f.imprint);
    var u := SaveUncastCopy(db, imprint);
    assert BookInstanceCreatePost(db, f) == u;
    assert u.outcome.Redirect? <==> exists k | k in db.copies :: db.copies[k].imprint == imprint;
  }

  /** Updating a copy that does not exist writes nothing and does not
      redirect. */
  lemma UpdateOfMissingCopy(db: Store, k: Id, f: CopyForm)
    requires Acceptable(f) && Online(db, {Copies}) && k !in db.copies
    ensures BookInstanceUpdatePost(db, IdText(k), f) == Response(Error(Missing), db)
  {
    CastIdText(k);
  }

  /** After a copy is deleted, its detail page is the 404. */
  lemma DeleteThenDetail(db: Store, k: Id)
    requires Online(db, {Copies})
    ensures
      var r := BookInstanceDeletePost(db, Some(IdText(k)));
      BookInstanceDetail(r.db, IdText(k)).outcome == NotFound("Book copy not found")
  {
    CastIdText(k);
  }
}
