/** The author request handlers: detail, create, update and delete. */
module AuthorController {
  import opened Optional
  import opened Text
  import opened Dates
  import opened Ids
  import opened Store
  import opened Validation
  import opened AuthorModel
  import opened BookModel
  import Js

  /** The fields of the author form; a field the request leaves out is `None`. */
  datatype AuthorForm = AuthorForm(
    firstName: Option<string>,
    familyName: Option<string>,
    dateOfBirth: Option<string>,
    dateOfDeath: Option<string>)

  const FirstNameMissing := "First Name must be specified"
  const FamilyNameMissing := "Family Name must be specified"
  const BirthInvalid := "Date of Birth should be a valid date"
  const DeathInvalid := "Date of Death should be a valid date"

  /** The alphanumeric messages differ between the two forms. */
  const FirstNameCharsetOnCreate :=
    "First Name should only contain AlphaNumeric values, no space or special characters allowed"
  const FamilyNameCharsetOnCreate :=
    "Family Name should only contain AlphaNumeric values, no space or special characters allowed"
  const FirstNameCharsetOnUpdate := "First Name should only contain AlphaNumberic values"
  const FamilyNameCharsetOnUpdate := "Family Name should only contain AlphaNumeric values"

  /** The trimmed text of a field. */
  function Trimmed(v: Option<string>): string {
    Trim(Value(v))
  }

  /** A form that passes every rule: both names alphanumeric once trimmed (so
      neither is blank), and each date absent, empty or an ISO date. */
  predicate Acceptable(f: AuthorForm) {
    && IsAlphanumeric(Trimmed(f.firstName))
    && IsAlphanumeric(Trimmed(f.familyName))
    && OptionalIsoDate(f.dateOfBirth)
    && OptionalIsoDate(f.dateOfDeath)
  }

  /** Every rule of the form reports its own message, and only when it fails. */
  predicate Reports(r: seq<FieldError>, f: AuthorForm, firstCharset: string, familyCharset: string) {
    && (FieldError(FirstName, FirstNameMissing) in r <==> !Filled(f.firstName))
    && (FieldError(FirstName, firstCharset) in r <==> !IsAlphanumeric(Trimmed(f.firstName)))
    && (FieldError(FamilyName, FamilyNameMissing) in r <==> !Filled(f.familyName))
    && (FieldError(FamilyName, familyCharset) in r <==> !IsAlphanumeric(Trimmed(f.familyName)))
    && (FieldError(DateOfBirth, BirthInvalid) in r <==> !OptionalIsoDate(f.dateOfBirth))
    && (FieldError(DateOfDeath, DeathInvalid) in r <==> !OptionalIsoDate(f.dateOfDeath))
  }

  /** One name's rule chain: not blank, then alphanumeric; both checks run. */
  function NameRules(param: Param, v: Option<string>, missing: string, charset: string): (r: seq<FieldError>)
    requires missing != charset
    ensures r == [] <==> IsAlphanumeric(Trimmed(v))
    ensures FieldError(param, missing) in r <==> !Filled(v)
    ensures FieldError(param, charset) in r <==> !IsAlphanumeric(Trimmed(v))
    ensures forall e | e in r :: e.param == param
  {
    Required(param, v, missing) + Alphanumeric(param, v, charset)
  }

  /** The four rule chains, in order. */
  function FormErrors(f: AuthorForm, firstCharset: string, familyCharset: string): (r: seq<FieldError>)
    requires firstCharset != FirstNameMissing && familyCharset != FamilyNameMissing
    ensures r == [] <==> Acceptable(f)
  {
    NameRules(FirstName, f.firstName, FirstNameMissing, firstCharset)
    + NameRules(FamilyName, f.familyName, FamilyNameMissing, familyCharset)
    + OptionalDate(DateOfBirth, f.dateOfBirth, BirthInvalid)
    + OptionalDate(DateOfDeath, f.dateOfDeath, DeathInvalid)
  }

  lemma FirstNameReported(f: AuthorForm, firstCharset: string, familyCharset: string)
    requires firstCharset != FirstNameMissing && familyCharset != FamilyNameMissing
    ensures var r := FormErrors(f, firstCharset, familyCharset);
      && (FieldError(FirstName, FirstNameMissing) in r <==> !Filled(f.firstName))
      && (FieldError(FirstName, firstCharset) in r <==> !IsAlphanumeric(Trimmed(f.firstName)))
  {
    var first := NameRules(FirstName, f.firstName, FirstNameMissing, firstCharset);
    var family := NameRules(FamilyName, f.familyName, FamilyNameMissing, familyCharset);
    var birth := OptionalDate(DateOfBirth, f.dateOfBirth, BirthInvalid);
    var death := OptionalDate(DateOfDeath, f.dateOfDeath, DeathInvalid);
    InParts(FieldError(FirstName, FirstNameMissing), first, family, birth, death);
    InParts(FieldError(FirstName, firstCharset), first, family, birth, death);
  }

  lemma FamilyNameReported(f: AuthorForm, firstCharset: string, familyCharset: string)
    requires firstCharset != FirstNameMissing && familyCharset != FamilyNameMissing
    ensures var r := FormErrors(f, firstCharset, familyCharset);
      && (FieldError(FamilyName, FamilyNameMissing) in r <==> !Filled(f.familyName))
      && (FieldError(FamilyName, familyCharset) in r <==> !IsAlphanumeric(Trimmed(f.familyName)))
  {
    var first := NameRules(FirstName, f.firstName, FirstNameMissing, firstCharset);
    var family := NameRules(FamilyName, f.familyName, FamilyNameMissing, familyCharset);
    var birth := OptionalDate(DateOfBirth, f.dateOfBirth, BirthInvalid);
    var death := OptionalDate(DateOfDeath, f.dateOfDeath, DeathInvalid);
    InParts(FieldError(FamilyName, FamilyNameMissing), first, family, birth, death);
    InParts(FieldError(FamilyName, familyCharset), first, family, birth, death);
  }

  lemma DatesReported(f: AuthorForm, firstCharset: string, familyCharset: string)
    requires firstCharset != FirstNameMissing && familyCharset != FamilyNameMissing
    ensures var r := FormErrors(f, firstCharset, familyCharset);
      && (FieldError(DateOfBirth, BirthInvalid) in r <==> !OptionalIsoDate(f.dateOfBirth))
      && (FieldError(DateOfDeath, DeathInvalid) in r <==> !OptionalIsoDate(f.dateOfDeath))
  {
    var first := NameRules(FirstName, f.firstName, FirstNameMissing, firstCharset);
    var family := NameRules(FamilyName, f.familyName, FamilyNameMissing, familyCharset);
    var birth := OptionalDate(DateOfBirth, f.dateOfBirth, BirthInvalid);
    var death := OptionalDate(DateOfDeath, f.dateOfDeath, DeathInvalid);
    InParts(FieldError(DateOfBirth, BirthInvalid), first, family, birth, death);
    InParts(FieldError(DateOfDeath, DeathInvalid), first, family, birth, death);
  }

  /** The rules of the create form. */
  function CreateErrors(f: AuthorForm): (r: seq<FieldError>)
    ensures r == [] <==> Acceptable(f)
    ensures Reports(r, f, FirstNameCharsetOnCreate, FamilyNameCharsetOnCreate)
  {
    assert |FirstNameCharsetOnCreate| != |FirstNameMissing|;
    assert |FamilyNameCharsetOnCreate| != |FamilyNameMissing|;
    FirstNameReported(f, FirstNameCharsetOnCreate, FamilyNameCharsetOnCreate);
    FamilyNameReported(f, FirstNameCharsetOnCreate, FamilyNameCharsetOnCreate);
    DatesReported(f, FirstNameCharsetOnCreate, FamilyNameCharsetOnCreate);
    FormErrors(f, FirstNameCharsetOnCreate, FamilyNameCharsetOnCreate)
  }

  /** The rules of the update form. */
  function UpdateErrors(f: AuthorForm): (r: seq<FieldError>)
    ensures r == [] <==> Acceptable(f)
    ensures Reports(r, f, FirstNameCharsetOnUpdate, FamilyNameCharsetOnUpdate)
  {
    assert |FirstNameCharsetOnUpdate| != |FirstNameMissing|;
    assert |FamilyNameCharsetOnUpdate| != |FamilyNameMissing|;
    FirstNameReported(f, FirstNameCharsetOnUpdate, FamilyNameCharsetOnUpdate);
    FamilyNameReported(f, FirstNameCharsetOnUpdate, FamilyNameCharsetOnUpdate);
    DatesReported(f, FirstNameCharsetOnUpdate, FamilyNameCharsetOnUpdate);
    FormErrors(f, FirstNameCharsetOnUpdate, FamilyNameCharsetOnUpdate)
  }

  /** The author built from an accepted form: the names as trimmed (they are
      alphanumeric, so escaping leaves them as they are), and the dates read
      from the date fields. It passes the schema exactly when both names fit
      the length limit. */
  function Submitted(f: AuthorForm): (a: Author)
    requires Acceptable(f)
    ensures a.firstName == Trimmed(f.firstName) && a.familyName == Trimmed(f.familyName)
    ensures a.dateOfBirth == NewDate(f.dateOfBirth) && a.dateOfDeath == NewDate(f.dateOfDeath)
    ensures SchemaValid(a) <==> WithinLength(f)
  {
    AcceptedNames(f);
    Author(Clean(f.firstName), Clean(f.familyName), NewDate(f.dateOfBirth), NewDate(f.dateOfDeath))
  }

  /** An accepted form's names pass the sanitiser unchanged. */
  lemma AcceptedNames(f: AuthorForm)
    requires Acceptable(f)
    ensures Clean(f.firstName) == Trimmed(f.firstName)
    ensures Clean(f.familyName) == Trimmed(f.familyName)
  {
    AlphanumericIsSanitised(Trimmed(f.firstName));
    AlphanumericIsSanitised(Trimmed(f.familyName));
  }

  /** The names fit the schema's length limit. */
  predicate WithinLength(f: AuthorForm) {
    |Trimmed(f.firstName)| <= MaxNameLength && |Trimmed(f.familyName)| <= MaxNameLength
  }

  predicate NameTaken(db: Db, first: string, family: string) {
    exists k | k in db.authors :: db.authors[k].firstName == first && db.authors[k].familyName == family
  }

  /** `k` is the first author, in storage order, with these two names. */
  predicate FirstNamed(db: Db, k: Id, first: string, family: string) {
    && k in db.authors && db.authors[k].firstName == first && db.authors[k].familyName == family
    && forall j | j in db.authors && j < k ::
      !(db.authors[j].firstName == first && db.authors[j].familyName == family)
  }

  /** The books whose author is `id`, in storage order. */
  function BooksBy(db: Store, id: Id): (ids: seq<Id>)
    ensures forall k :: k in ids <==> k in db.books && db.books[k].author == id
  {
    Select(db.books, db.next, (b: Book) => b.author == id)
  }

  // ---------------------------------------------------------------------------
  // detail

  /** `author_detail` as written. It takes no `next`, so a bad id or a failed
      query throws; it tests the list of books for `null`, which a list never
      is, so a missing author reaches `results.author.name` and throws too. */
  function AuthorDetail(db: Store, id: string): (r: Response)
    ensures r.db == db
    ensures r.outcome.Render? <==>
      CastId(id).Some? && Online(db, {Authors, Books}) && CastId(id).value in db.authors
    ensures r.outcome.Render? ==>
      var a := db.authors[CastId(id).value];
      r.outcome == Render("author_detail", Name(a), AuthorPage(a, BooksBy(db, CastId(id).value)))
    ensures !r.outcome.Render? ==> r.outcome == Error(Crash)
  {
    match CastId(id)
    case None => Response(Error(Crash), db)
    case Some(k) =>
      if !Online(db, {Authors, Books}) || k !in db.authors then Response(Error(Crash), db)
      else
        var a := db.authors[k];
        Response(Render("author_detail", Name(a), AuthorPage(a, BooksBy(db, k))), db)
  }

  /** `author_detail` as evidently intended: the missing author is the 404,
      and errors reach the error handler. */
  function AuthorDetailChecked(db: Store, id: string): (r: Response)
    ensures r.db == db
    ensures CastId(id).None? ==> r.outcome == Error(Cast)
    ensures CastId(id).Some? && !Online(db, {Authors, Books}) ==> r.outcome == Error(Datastore)
    ensures CastId(id).Some? && Online(db, {Authors, Books}) ==>
      var k := CastId(id).value;
      if k in db.authors
      then r.outcome == Render("author_detail", Name(db.authors[k]), AuthorPage(db.authors[k], BooksBy(db, k)))
      else r.outcome == NotFound("Author not found")
  {
    match CastId(id)
    case None => Response(Error(Cast), db)
    case Some(k) =>
      if !Online(db, {Authors, Books}) then Response(Error(Datastore), db)
      else if k !in db.authors then Response(NotFound("Author not found"), db)
      else
        var a := db.authors[k];
        Response(Render("author_detail", Name(a), AuthorPage(a, BooksBy(db, k))), db)
  }

  /** As written, a missing author never yields the 404. */
  lemma AuthorDetailMissingCrashes(db: Store, k: Id)
    requires Online(db, {Authors, Books}) && k !in db.authors
    ensures AuthorDetail(db, IdText(k)).outcome == Error(Crash)
    ensures AuthorDetailChecked(db, IdText(k)).outcome == NotFound("Author not found")
  {
    CastIdText(k);
  }

  // ---------------------------------------------------------------------------
  // create

  /** The duplicate check and the save of `author_create_post`: the first
      author with the same two names is reused whatever its dates; otherwise
      the schema is checked and one author is added under a fresh id. A save
      the schema refuses throws, since the handler takes no `next`. */
  function SaveAuthor(db: Store, a: Author): (r: Response)
    ensures NameTaken(db, a.firstName, a.familyName) ==>
      && r.db == db
      && exists k :: FirstNamed(db, k, a.firstName, a.familyName)
                     && r.outcome == Redirect(AuthorModel.Url(k))
    ensures !NameTaken(db, a.firstName, a.familyName) && !SchemaValid(a) ==>
      r == Response(Error(Crash), db)
    ensures !NameTaken(db, a.firstName, a.familyName) && SchemaValid(a) ==>
      && AddsOne(db.authors, r.db.authors, db.next, a)
      && ChangesOnly(db, r.db, Authors)
      && r.outcome == Redirect(AuthorModel.Url(db.next))
  {
    match FirstMatch(db.authors, db.next, (x: Author) => x.firstName == a.firstName && x.familyName == a.familyName)
    case Some(k) =>
      assert FirstNamed(db, k, a.firstName, a.familyName);
      Response(Redirect(AuthorModel.Url(k)), db)
    case None =>
      if !SchemaValid(a) then Response(Error(Crash), db)
      else Response(Redirect(AuthorModel.Url(db.next)), db.(authors := db.authors[db.next := a], next := db.next + 1))
  }

  /** At most one author is the first with a given pair of names. */
  lemma FirstNamedUnique(db: Db, k1: Id, k2: Id, first: string, family: string)
    requires FirstNamed(db, k1, first, family) && FirstNamed(db, k2, first, family)
    ensures k1 == k2
  {
  }

  /** `author_create_post`. A failed check re-renders the form and writes
      nothing; an accepted form is saved with its names as trimmed (they are
      alphanumeric, so escaping leaves them as they are). The final handler
      takes no `next`, so a failed query throws. */
  function AuthorCreatePost(db: Store, f: AuthorForm): (r: Response)
    ensures !Acceptable(f) ==>
      r == Response(Render("author_form", "Create Author", FormPage(CreateErrors(f), [])), db)
    ensures Acceptable(f) && !Online(db, {Authors}) ==> r == Response(Error(Crash), db)
    ensures Acceptable(f) && Online(db, {Authors}) ==> r == SaveAuthor(db, Submitted(f))
  {
    var errors := CreateErrors(f);
    if errors != [] then
      Response(Render("author_form", "Create Author", FormPage(errors, [])), db)
    else if !Online(db, {Authors}) then
      Response(Error(Crash), db)
    else
      SaveAuthor(db, Submitted(f))
  }

  /** The duplicate check looks at the two names only: a form that differs
      from another in its dates alone has the same effect once an author with
      those names exists. */
  lemma CreateIgnoresDates(db: Store, f: AuthorForm, g: AuthorForm)
    requires Acceptable(f) && Acceptable(g) && Online(db, {Authors})
    requires f.firstName == g.firstName && f.familyName == g.familyName
    requires NameTaken(db, Trimmed(f.firstName), Trimmed(f.familyName))
    ensures AuthorCreatePost(db, f) == AuthorCreatePost(db, g)
  {
    var n1, n2 := Trimmed(f.firstName), Trimmed(f.familyName);
    var r1, r2 := AuthorCreatePost(db, f), AuthorCreatePost(db, g);
    var k1 :| FirstNamed(db, k1, n1, n2) && r1.outcome == Redirect(AuthorModel.Url(k1));
    var k2 :| FirstNamed(db, k2, n1, n2) && r2.outcome == Redirect(AuthorModel.Url(k2));
    FirstNamedUnique(db, k1, k2, n1, n2);
  }

  /** A new author is shown under the redirect's id with the full name built
      from the trimmed names. */
  lemma CreateThenDetail(db: Store, f: AuthorForm)
    requires Acceptable(f) && WithinLength(f) && Online(db, {Authors, Books})
    requires !NameTaken(db, Trimmed(f.firstName), Trimmed(f.familyName))
    ensures
      var r := AuthorCreatePost(db, f);
      && r.outcome == Redirect(AuthorModel.Url(db.next))
      && AuthorDetailChecked(r.db, IdText(db.next)).outcome
         == Render("author_detail", Trimmed(f.familyName) + ", " + Trimmed(f.firstName),
                   AuthorPage(Submitted(f), BooksBy(r.db, db.next)))
  {
    CastIdText(db.next);
    AcceptedNames(f);
  }

  /** Submitting the same create form twice changes nothing the second time. */
  lemma CreateIsIdempotent(db: Store, f: AuthorForm)
    ensures
      var r1 := AuthorCreatePost(db, f);
      var r2 := AuthorCreatePost(r1.db, f);
      r2.db == r1.db
  {
    var r1 := AuthorCreatePost(db, f);
    if Acceptable(f) && Online(db, {Authors}) {
      var a := Submitted(f);
      assert r1 == SaveAuthor(db, a);
      if !NameTaken(db, a.firstName, a.familyName) && SchemaValid(a) {
        assert r1.db.authors[db.next] == a;
        assert NameTaken(r1.db, a.firstName, a.familyName);
        assert Online(r1.db, {Authors});
        assert AuthorCreatePost(r1.db, f) == SaveAuthor(r1.db, a);
      }
    }
  }

  // ---------------------------------------------------------------------------
  // update

  /** The write of a valid update to a stored author: the record is replaced
      under the same id by the author the form describes, and nothing else
      changes. A date the form leaves out reaches the update as `null` and
      clears the stored date. */
  function OverwriteAuthor(db: Store, k: Id, f: AuthorForm): (r: Response)
    requires Acceptable(f) && k in db.authors
    ensures r.db.authors == db.authors[k := Submitted(f)]
    ensures r.db.authors.Keys == db.authors.Keys
    ensures ChangesOnly(db, r.db, Authors) && r.db.next == db.next
    ensures r.outcome == Redirect(AuthorModel.Url(k))
  {
    Response(Redirect(AuthorModel.Url(k)), ReplaceAuthor(db, k, Submitted(f)))
  }

  /** The valid path of `author_update_post`. The update does not run the
      schema's checks, so the length limit is not enforced; an id that names
      no author leaves `null`, whose `url` throws. */
  function WriteUpdate(db: Store, id: string, f: AuthorForm): (r: Response)
    requires Acceptable(f)
    ensures CastId(id).None? ==> r == Response(Error(Cast), db)
    ensures CastId(id).Some? && !Online(db, {Authors}) ==> r == Response(Error(Datastore), db)
    ensures CastId(id).Some? && Online(db, {Authors}) ==>
      if CastId(id).value in db.authors
      then r == OverwriteAuthor(db, CastId(id).value, f) && r.outcome == Redirect("/catalog/author/" + id)
      else r == Response(Error(Crash), db)
  {
    match CastId(id)
    case None => Response(Error(Cast), db)
    case Some(k) =>
      if !Online(db, {Authors}) then Response(Error(Datastore), db)
      else if k !in db.authors then Response(Error(Crash), db)
      else OverwriteAuthor(db, k, f)
  }

  /** `author_update_post` as written. On a failed check it looks the author up
      again; inside that callback `var er` declares a fresh, unset `er`
      (JavaScript hoists it to the callback), so `er.array()` throws whenever
      the author exists. */
  function AuthorUpdatePost(db: Store, id: string, f: AuthorForm): (r: Response)
    ensures !Acceptable(f) ==> r.db == db
    ensures !Acceptable(f) && CastId(id).None? ==> r.outcome == Error(Cast)
    ensures !Acceptable(f) && CastId(id).Some? && !Online(db, {Authors}) ==> r.outcome == Error(Datastore)
    ensures !Acceptable(f) && CastId(id).Some? && Online(db, {Authors}) ==>
      r.outcome == if CastId(id).value in db.authors then Error(Crash) else Error(Missing)
    ensures Acceptable(f) ==> r == WriteUpdate(db, id, f)
  {
    if !Acceptable(f) then
      match CastId(id)
      case None => Response(Error(Cast), db)
      case Some(k) =>
        if !Online(db, {Authors}) then Response(Error(Datastore), db)
        else if k !in db.authors then Response(Error(Missing), db)
        else Response(Error(Crash), db)
    else
      WriteUpdate(db, id, f)
  }

  /** `author_update_post` with the outer `er` in reach: a failed check on an
      existing author re-renders the form with the errors, through the
      `author_form` view every other author form uses (the handler as written
      names `author-form`, which no other handler renders, but never gets
      that far). */
  function AuthorUpdatePostChecked(db: Store, id: string, f: AuthorForm): (r: Response)
    ensures !Acceptable(f) ==> r.db == db
    ensures !Acceptable(f) && CastId(id).None? ==> r.outcome == Error(Cast)
    ensures !Acceptable(f) && CastId(id).Some? && !Online(db, {Authors}) ==> r.outcome == Error(Datastore)
    ensures !Acceptable(f) && CastId(id).Some? && Online(db, {Authors}) ==>
      r.outcome == if CastId(id).value in db.authors
        then Render("author_form", "Update Author", FormPage(UpdateErrors(f), []))
        else Error(Missing)
    ensures Acceptable(f) ==> r == WriteUpdate(db, id, f)
  {
    var errors := UpdateErrors(f);
    if errors != [] then
      match CastId(id)
      case None => Response(Error(Cast), db)
      case Some(k) =>
        if !Online(db, {Authors}) then Response(Error(Datastore), db)
        else if k !in db.authors then Response(Error(Missing), db)
        else Response(Render("author_form", "Update Author", FormPage(errors, [])), db)
    else
      WriteUpdate(db, id, f)
  }

  /** As written, a failed check on an existing author never shows the form. */
  lemma UpdateErrorsNeverShown(db: Store, k: Id, f: AuthorForm)
    requires !Acceptable(f) && Online(db, {Authors}) && k in db.authors
    ensures AuthorUpdatePost(db, IdText(k), f).outcome == Error(Crash)
    ensures AuthorUpdatePostChecked(db, IdText(k), f).outcome.Render?
  {
    CastIdText(k);
  }

  /** An update shows up on the detail page under the same id, with the new
      names and the submitted dates; a date the form leaves out is cleared,
      whatever was stored. */
  lemma UpdateThenDetail(db: Store, k: Id, f: AuthorForm)
    requires Acceptable(f) && Online(db, {Authors, Books}) && k in db.authors
    ensures
      var r := AuthorUpdatePost(db, IdText(k), f);
      var d := AuthorDetailChecked(r.db, IdText(k)).outcome;
      && d.Render?
      && d.title == Trimmed(f.familyName) + ", " + Trimmed(f.firstName)
      && d.page.author.dateOfBirth == NewDate(f.dateOfBirth)
      && d.page.author.dateOfDeath == NewDate(f.dateOfDeath)
      && (f.dateOfBirth.None? ==> d.page.author.dateOfBirth.None?)
      && (f.dateOfDeath.None? ==> d.page.author.dateOfDeath.None?)
  {
    CastIdText(k);
  }

  // ---------------------------------------------------------------------------
  // delete

  /** The last step of `author_delete_post`: deleting the author that the
      body's `authorid` names. Text that is no id throws; an absent `authorid`
      deletes with no id at all, which removes the first author. */
  function DeleteAuthorNamed(db: Store, authorid: Option<string>): (r: Response)
    ensures ReadBodyId(authorid).NotAnId? ==> r == Response(Error(Crash), db)
    ensures ReadBodyId(authorid).NoId? ==>
      && r.outcome == Redirect("/catalog/authors")
      && DropsFirst(db.authors, r.db.authors)
      && ChangesOnly(db, r.db, Authors)
    ensures ReadBodyId(authorid).IdOf? ==>
      && r.outcome == Redirect("/catalog/authors")
      && r.db.authors == db.authors - {ReadBodyId(authorid).id}
      && ChangesOnly(db, r.db, Authors)
  {
    match ReadBodyId(authorid)
    case NotAnId => Response(Error(Crash), db)
    case NoId =>
      var after: Db := db.(authors := DropFirst(db.authors, db.next));
      assert WellFormed(after);
      Response(Redirect("/catalog/authors"), after)
    case IdOf(k) =>
      var after: Db := db.(authors := db.authors - {k});
      assert WellFormed(after);
      Response(Redirect("/catalog/authors"), after)
  }

  /** `author_delete_post` as written. It looks up the author named by the
      body's `id`, lists the books of the path's `:id`, and deletes the author
      named by the body's `authorid`; the guard compares the list with 0, and
      the handler takes no `next`, so errors throw. */
  function AuthorDeletePost(db: Store, pathId: string, id: Option<string>, authorid: Option<string>): (r: Response)
    ensures CastId(pathId).None? || ReadBodyId(id).NotAnId? || !Online(db, {Authors, Books}) ==>
      r == Response(Error(Crash), db)
    ensures CastId(pathId).Some? && !ReadBodyId(id).NotAnId? && Online(db, {Authors, Books}) ==>
      var books := BooksBy(db, CastId(pathId).value);
      if Js.ListGreaterThanZero(books)
      then r == Response(Render("author_delete", "Delete Author", DeletePage(books)), db)
      else r == DeleteAuthorNamed(db, authorid)
  {
    if CastId(pathId).None? || ReadBodyId(id).NotAnId? || !Online(db, {Authors, Books}) then
      Response(Error(Crash), db)
    else
      var books := BooksBy(db, CastId(pathId).value);
      if Js.ListGreaterThanZero(books) then
        Response(Render("author_delete", "Delete Author", DeletePage(books)), db)
      else
        DeleteAuthorNamed(db, authorid)
  }

  /** As written, the author named by `authorid` is deleted whatever books
      still name it, and whatever the path's id and the body's `id` say. */
  lemma AuthorDeleteIgnoresBooks(db: Store, pathId: string, id: Option<string>, k: Id)
    requires CastId(pathId).Some? && !ReadBodyId(id).NotAnId? && Online(db, {Authors, Books})
    ensures AuthorDeletePost(db, pathId, id, Some(IdText(k))).db.authors == db.authors - {k}
    ensures AuthorDeletePost(db, pathId, id, Some(IdText(k))).outcome == Redirect("/catalog/authors")
  {
    Js.ListGuardNeverHolds(BooksBy(db, CastId(pathId).value));
    CastIdText(k);
  }

  /** An author with a book, deleted as written from its own delete page: the
      book is left naming an author that no longer exists. */
  lemma AuthorDeleteLeavesDanglingBook()
    ensures
      var db: Store := Db(map[0 := Author("Ann", "Lee", None, None)],
                          map[1 := Book("Odes", 0, "Poems", "0-00", [])], map[], map[], 2, {});
      var after := AuthorDeletePost(db, "0", None, Some("0")).db;
      1 in after.books && after.books[1].author == 0 && 0 !in after.authors
  {
    var db: Store := Db(map[0 := Author("Ann", "Lee", None, None)],
                        map[1 := Book("Odes", 0, "Poems", "0-00", [])], map[], map[], 2, {});
    assert IdText(0) == "0";
    CastIdText(0);
    Js.ListGuardNeverHolds(BooksBy(db, 0));
    var r := DeleteAuthorNamed(db, Some("0"));
    assert AuthorDeletePost(db, "0", None, Some("0")) == r;
    assert r.db.books == db.books && r.db.authors == db.authors - {0};
  }

  /** `author_delete_post` as evidently intended: one id, the body's
      `authorid`, names the author to check and to delete, and an author some
      book names is not deleted. Without `authorid` both queries lose their
      filter: every book is listed, and the delete, when there are no books,
      removes the first author. */
  function AuthorDeletePostGuarded(db: Store, authorid: Option<string>): (r: Response)
    ensures ReadBodyId(authorid).NotAnId? || !Online(db, {Authors, Books}) ==>
      r == Response(Error(Crash), db)
    ensures ReadBodyId(authorid).NoId? && Online(db, {Authors, Books}) ==>
      if db.books.Keys != {}
      then r == Response(Render("author_delete", "Delete Author", DeletePage(AllIds(db.books, db.next))), db)
      else
        && r.outcome == Redirect("/catalog/authors")
        && DropsFirst(db.authors, r.db.authors)
        && ChangesOnly(db, r.db, Authors)
    ensures ReadBodyId(authorid).IdOf? && Online(db, {Authors, Books}) ==>
      var k := ReadBodyId(authorid).id;
      if exists b | b in db.books :: db.books[b].author == k
      then r == Response(Render("author_delete", "Delete Author", DeletePage(BooksBy(db, k))), db)
      else
        && r.outcome == Redirect("/catalog/authors")
        && r.db.authors == db.authors - {k}
        && ChangesOnly(db, r.db, Authors)
  {
    match ReadBodyId(authorid)
    case NotAnId => Response(Error(Crash), db)
    case NoId =>
      if !Online(db, {Authors, Books}) then Response(Error(Crash), db)
      else
        var books := AllIds(db.books, db.next);
        if |books| > 0 then
          assert books[0] in db.books;
          Response(Render("author_delete", "Delete Author", DeletePage(books)), db)
        else
          assert db.books.Keys == {} by {
            assert forall b | b in db.books :: b in books;
          }
          DeleteAuthorNamed(db, authorid)
    case IdOf(k) =>
      if !Online(db, {Authors, Books}) then Response(Error(Crash), db)
      else
        var books := BooksBy(db, k);
        if |books| > 0 then
          assert books[0] in books;
          Response(Render("author_delete", "Delete Author", DeletePage(books)), db)
        else
          DeleteAuthorNamed(db, authorid)
  }

  /** The guarded delete never leaves a book naming a missing author. */
  lemma GuardedDeleteKeepsReferences(db: Store, authorid: Option<string>)
    requires forall b | b in db.books :: db.books[b].author in db.authors
    ensures
      var after := AuthorDeletePostGuarded(db, authorid).db;
      forall b | b in after.books :: after.books[b].author in after.authors
  {
  }

  /** After the guarded delete of an author without books, its detail page is a 404. */
  lemma DeleteThenDetail(db: Store, k: Id)
    requires Online(db, {Authors, Books})
    requires forall b | b in db.books :: db.books[b].author != k
    ensures
      var r := AuthorDeletePostGuarded(db, Some(IdText(k)));
      AuthorDetailChecked(r.db, IdText(k)).outcome == NotFound("Author not found")
  {
    CastIdText(k);
  }
}
