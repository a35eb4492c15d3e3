/** The BookInstance schema: a required book reference, a required imprint,
    a status restricted to four values with a default, a due-back date that
    defaults to the moment of creation, and the derived `url` and
    `due_back_formatted`. */
module BookInstanceModel {
  import opened Optional
  import opened Text
  import opened Dates
  import opened Ids

  datatype Status = Available | Maintenance | Loaned | Reserved

  function StatusText(s: Status): string {
    match s
    case Available => "Available"
    case Maintenance => "Maintenance"
    case Loaned => "Loaned"
    case Reserved => "Reserved"
  }

  /** The schema's enum check: the status a text names, if it names one. */
  function ParseStatus(t: string): (r: Option<Status>)
    ensures r.Some? ==> StatusText(r.value) == t
  {
    if t == "Available" then Some(Available)
    else if t == "Maintenance" then Some(Maintenance)
    else if t == "Loaned" then Some(Loaned)
    else if t == "Reserved" then Some(Reserved)
    else None
  }

  /** Each of the four statuses passes the enum check as itself. */
  lemma ParseStatusText(s: Status)
    ensures ParseStatus(StatusText(s)) == Some(s)
  {
  }

  /** The status a copy gets when none is given. */
  const DefaultStatus: Status := Maintenance

  /** A stored copy. The status is kept as the text that was written: the enum
      is checked when a new copy is saved, not when one is updated. */
  datatype BookInstance = BookInstance(
    book: Id,
    imprint: string,
    status: string,
    dueBack: Option<CalendarDate>)

  /** What the schema checks when a new copy is saved: an imprint is present
      (the book reference always is, as an id) and the status is one of the
      four values. */
  predicate SchemaValid(c: BookInstance) {
    c.imprint != "" && ParseStatus(c.status).Some?
  }

  /** The due-back value handed to the schema: not given at all, `null` (what
      the date sanitiser makes of an empty or unreadable field), or a date. */
  datatype DueBackField = Unset | Null | At(date: CalendarDate)

  /** Building a copy the way `new BookInstance({...})` does: a missing status
      becomes the default, an unset due-back date becomes `now`, and `null`
      stays empty. */
  function New(book: Id, imprint: string, status: Option<string>, dueBack: DueBackField, now: CalendarDate): (c: BookInstance)
    ensures c.book == book && c.imprint == imprint
    ensures status.None? ==> ParseStatus(c.status) == Some(DefaultStatus)
    ensures status.Some? ==> c.status == status.value
    ensures dueBack.Unset? ==> c.dueBack == Some(now)
    ensures dueBack.Null? ==> c.dueBack.None?
    ensures dueBack.At? ==> c.dueBack == Some(dueBack.date)
  {
    var s := if status.Some? then status.value else StatusText(DefaultStatus);
    var d := match dueBack
      case Unset => Some(now)
      case Null => None
      case At(x) => Some(x);
    BookInstance(book, imprint, s, d)
  }

  /** A copy built with the defaults passes the schema whenever it has an imprint. */
  lemma DefaultsAreValid(book: Id, imprint: string, now: CalendarDate)
    requires imprint != ""
    ensures SchemaValid(New(book, imprint, None, Unset, now))
    ensures New(book, imprint, None, Unset, now).dueBack == Some(now)
  {
  }

  /** The `url` virtual. */
  function Url(id: Id): string {
    "/catalog/bookinstance/" + IdText(id)
  }

  /** The `due_back_formatted` virtual: empty when there is no date. */
  function DueBackFormatted(c: BookInstance): (r: string)
    ensures r == "" <==> c.dueBack.None?
  {
    Formatted(c.dueBack)
  }
}
