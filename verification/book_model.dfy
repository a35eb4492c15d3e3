/** The Book record: title, author reference, summary, ISBN and an ordered
    list of genre references. Only its fields and its `url` are used by the
    controllers. */
module BookModel {
  import opened Ids

  datatype Book = Book(title: string, author: Id, summary: string, isbn: string, genre: seq<Id>)

  /** The `url` virtual. */
  function Url(id: Id): string {
    "/catalog/book/" + IdText(id)
  }
}
