/** The Genre record: a name. Only its field and its `url` are used by the
    controllers. */
module GenreModel {
  import opened Ids

  datatype Genre = Genre(name: string)

  /** The `url` virtual. */
  function Url(id: Id): string {
    "/catalog/genre/" + IdText(id)
  }
}
