/** The datastore the controllers talk to, reduced to four tables from id to
    record, the counter that hands out ids, and the set of collections whose
    queries currently fail. Also the outcomes a request handler produces in
    place of an HTTP response. */
module Store {
  import opened Optional
  import opened Ids
  import opened AuthorModel
  import opened BookModel
  import opened GenreModel
  import opened BookInstanceModel

  datatype Collection = Authors | Books | Genres | Copies

  datatype Db = Db(
    authors: map<Id, Author>,
    books: map<Id, Book>,
    genres: map<Id, Genre>,
    copies: map<Id, BookInstance>,
    next: Id,
    offline: set<Collection>)

  /** Every stored id was handed out before `next`. */
  predicate WellFormed(db: Db) {
    && (forall k | k in db.authors :: k < db.next)
    && (forall k | k in db.books :: k < db.next)
    && (forall k | k in db.genres :: k < db.next)
    && (forall k | k in db.copies :: k < db.next)
  }

  type Store = db: Db | WellFormed(db) witness Db(map[], map[], map[], map[], 0, {})

  /** The datastore is reachable for every collection in `cs`. */
  predicate Online(db: Db, cs: set<Collection>) {
    cs !! db.offline
  }

  // ---------------------------------------------------------------------------
  // queries over one table

  /** The ids below `bound` whose records satisfy `p`, in ascending (storage)
      order: what `find` returns. */
  function Select<T>(t: map<Id, T>, bound: nat, p: T -> bool): (ids: seq<Id>)
    ensures forall k :: k in ids <==> k in t && k < bound && p(t[k])
    ensures forall i, j | 0 <= i < j < |ids| :: ids[i] < ids[j]
  {
    if bound == 0 then []
    else
      var rest := Select(t, bound - 1, p);
      assert forall i | 0 <= i < |rest| :: rest[i] in rest;
      if bound - 1 in t && p(t[bound - 1]) then rest + [bound - 1] else rest
  }

  /** The first record in storage order that satisfies `p`: what `findOne` returns. */
  function FirstMatch<T>(t: map<Id, T>, bound: nat, p: T -> bool): (r: Option<Id>)
    ensures r.Some? ==> r.value in t && r.value < bound && p(t[r.value])
    ensures r.Some? ==> forall k | k in t && k < r.value :: !p(t[k])
    ensures r.None? <==> forall k | k in t && k < bound :: !p(t[k])
  {
    var ids := Select(t, bound, p);
    if ids == [] then None
    else
      assert forall k | k in t && k < bound && p(t[k]) :: k in ids;
      assert forall i | 0 <= i < |ids| :: ids[0] <= ids[i];
      Some(ids[0])
  }

  // ---------------------------------------------------------------------------
  // writes

  /** The datastore with the author stored under `k` replaced by `a`: the
      same ids, and no other table touched. */
  function ReplaceAuthor(db: Store, k: Id, a: Author): (r: Store)
    requires k in db.authors
    ensures r.authors == db.authors[k := a] && r.authors.Keys == db.authors.Keys
    ensures ChangesOnly(db, r, Authors) && r.next == db.next
  {
    var t := db.authors[k := a];
    assert t.Keys == db.authors.Keys;
    db.(authors := t)
  }

  /** The datastore after a book is saved: the book is stored under a fresh
      id, the next one, and the counter moves past it. */
  function AddBook(db: Store, b: Book): (r: Store)
    ensures AddsOne(db.books, r.books, db.next, b)
    ensures ChangesOnly(db, r, Books) && r.next == db.next + 1
  {
    db.(books := db.books[db.next := b], next := db.next + 1)
  }

  /** The datastore after a copy is saved, likewise. */
  function AddCopy(db: Store, c: BookInstance): (r: Store)
    ensures AddsOne(db.copies, r.copies, db.next, c)
    ensures ChangesOnly(db, r, Copies) && r.next == db.next + 1
  {
    db.(copies := db.copies[db.next := c], next := db.next + 1)
  }

  /** Every id of a table, in storage order: what `find` lists when its
      filter selects everything. */
  function AllIds<T>(t: map<Id, T>, bound: nat): (ids: seq<Id>)
    requires forall k | k in t :: k < bound
    ensures forall k :: k in ids <==> k in t
    ensures forall i, j | 0 <= i < j < |ids| :: ids[i] < ids[j]
  {
    Select(t, bound, (v: T) => true)
  }

  /** `after` is `before` without its first record in storage order, or
      `before` itself when there is none. */
  predicate DropsFirst<T(==)>(before: map<Id, T>, after: map<Id, T>) {
    if before.Keys == {} then after == before
    else exists k | k in before :: (forall j | j in before :: k <= j) && after == before - {k}
  }

  /** What `findByIdAndDelete(undefined)` does to a table. It deletes with the
      filter `{_id: undefined}`, which Mongoose treats as the empty filter, so
      the first record goes, if there is one. */
  function DropFirst<T(==)>(t: map<Id, T>, bound: nat): (r: map<Id, T>)
    requires forall k | k in t :: k < bound
    ensures DropsFirst(t, r)
    ensures forall k | k in r :: k in t && k < bound
  {
    match FirstMatch(t, bound, (v: T) => true)
    case None =>
      assert t.Keys == {};
      t
    case Some(k) =>
      assert forall j | j in t :: k <= j;
      t - {k}
  }

  /** The `_id` of a document built as `new Model({..., _id: id})`. The schema
      gives every new document a fresh id before the fields are set; when `id`
      does not cast, the failed cast is only recorded and the fresh id stays.
      That id names no stored record. */
  function BuiltId(db: Store, id: string): (k: Id)
    ensures CastId(id).Some? ==> k == CastId(id).value
    ensures CastId(id).None? ==> k !in db.authors && k !in db.books && k !in db.genres && k !in db.copies
  {
    match CastId(id)
    case Some(k) => k
    case None => db.next
  }

  // ---------------------------------------------------------------------------
  // handler results

  /** The form fields the rules check, one per field name a form submits. */
  datatype Param =
    | Title | AuthorRef | Summary | Isbn
    | FirstName | FamilyName | DateOfBirth | DateOfDeath
    | GenreName
    | BookRef | Imprint | StatusField | DueBack

  /** The name a field has in the submitted form. */
  function ParamName(p: Param): string {
    match p
    case Title => "title"
    case AuthorRef => "author"
    case Summary => "summary"
    case Isbn => "isbn"
    case FirstName => "first_name"
    case FamilyName => "family_name"
    case DateOfBirth => "date_of_birth"
    case DateOfDeath => "date_of_death"
    case GenreName => "name"
    case BookRef => "book"
    case Imprint => "imprint"
    case StatusField => "status"
    case DueBack => "due_back"
  }

  /** One failed validation rule: the field and the rule's message. */
  datatype FieldError = FieldError(param: Param, msg: string)

  /** A genre offered on the book form, with whether it is ticked. */
  datatype Choice = Choice(id: Id, name: string, checked: bool)

  /** What a rendered view is given beyond its title. */
  datatype Page =
    | FormPage(errors: seq<FieldError>, choices: seq<Choice>)
    | AuthorPage(author: Author, books: seq<Id>)
    | GenrePage(genre: Genre, books: seq<Id>)
    | BookPage(book: Book, copies: seq<Id>)
    | CopyPage(copy: BookInstance)
    | DeletePage(dependents: seq<Id>)

  /** Why a request ended in the error handler:
      a query that failed (Datastore), text that is no id (Cast), a save the
      schema refused (Invalid), an exception thrown by the handler's own code
      (Crash), or an error created with message 404 but no 404 status (Missing). */
  datatype Fault = Datastore | Cast | Invalid | Crash | Missing

  datatype Outcome =
    | Render(view: string, title: string, page: Page)
    | Redirect(url: string)
    | NotFound(message: string)
    | Error(fault: Fault)

  /** A handler's outcome together with the datastore it leaves behind. */
  datatype Response = Response(outcome: Outcome, db: Store)

  /** `after` is `before` with one new record `v` under the id `id`, which no
      record held. */
  predicate AddsOne<T(==)>(before: map<Id, T>, after: map<Id, T>, id: Id, v: T) {
    id !in before && after == before[id := v]
  }

  /** Only collection `c` (and the id counter) may differ between the two
      datastores. */
  predicate ChangesOnly(before: Db, after: Db, c: Collection) {
    && after.offline == before.offline
    && after.next >= before.next
    && (c != Authors ==> after.authors == before.authors)
    && (c != Books ==> after.books == before.books)
    && (c != Genres ==> after.genres == before.genres)
    && (c != Copies ==> after.copies == before.copies)
  }

  /** How a record id arrives in a request body for a delete: not at all, as
      text that casts to an id, or as text that does not. */
  datatype BodyId = NoId | IdOf(id: Id) | NotAnId

  function ReadBodyId(v: Option<string>): (r: BodyId)
    ensures v.None? <==> r.NoId?
    ensures r.IdOf? ==> v == Some(IdText(r.id))
  {
    match v
    case None => NoId
    case Some(s) =>
      match CastId(s)
      case Some(id) => IdOf(id)
      case None => NotAnId
  }
}
