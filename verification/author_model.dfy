/** The Author schema: two required names of at most 100 characters, two
    optional dates, and the derived `name`, `url`, formatted dates and
    `lifespan`. */
module AuthorModel {
  import opened Optional
  import opened Text
  import opened Dates
  import opened Ids
  import Js

  datatype Author = Author(
    firstName: string,
    familyName: string,
    dateOfBirth: Option<CalendarDate>,
    dateOfDeath: Option<CalendarDate>)

  const MaxNameLength: nat := 100

  /** What the schema checks when a new author is saved: both names present
      (a required string may not be empty) and no longer than 100 characters. */
  predicate SchemaValid(a: Author) {
    && a.firstName != "" && |a.firstName| <= MaxNameLength
    && a.familyName != "" && |a.familyName| <= MaxNameLength
  }

  /** The `name` virtual: "family, first" when both names are present, the
      empty string otherwise. */
  function Name(a: Author): (r: string)
    ensures r != "" <==> a.firstName != "" && a.familyName != ""
    ensures r != "" ==>
      && |r| == |a.familyName| + 2 + |a.firstName|
      && r[..|a.familyName|] == a.familyName
      && r[|a.familyName|..|a.familyName| + 2] == ", "
      && r[|a.familyName| + 2..] == a.firstName
  {
    if a.firstName != "" && a.familyName != "" then a.familyName + ", " + a.firstName else ""
  }

  /** For authors whose names passed the form's alphanumeric check, the full
      name determines both names. */
  lemma NameDeterminesNames(a: Author, b: Author)
    requires IsAlphanumeric(a.firstName) && IsAlphanumeric(a.familyName)
    requires IsAlphanumeric(b.firstName) && IsAlphanumeric(b.familyName)
    requires Name(a) == Name(b)
    ensures a.firstName == b.firstName && a.familyName == b.familyName
  {
    var n := Name(a);
    var fa, fb := a.familyName, b.familyName;
    assert n == fa + ", " + a.firstName;
    assert n == fb + ", " + b.firstName;
    assert n[|fa|] == ',' && n[|fb|] == ',';
    assert forall i | 0 <= i < |fa| :: n[i] == fa[i] && n[i] != ',';
    assert forall i | 0 <= i < |fb| :: n[i] == fb[i] && n[i] != ',';
    assert |fa| == |fb|;
    assert fa == n[..|fa|] == fb;
    assert a.firstName == n[|fa| + 2..] == b.firstName;
  }

  /** The `url` virtual. */
  function Url(id: Id): string {
    "/catalog/author/" + IdText(id)
  }

  /** The `date_of_birth_formatted` virtual: empty when there is no date. */
  function DateOfBirthFormatted(a: Author): (r: string)
    ensures r == "" <==> a.dateOfBirth.None?
  {
    Formatted(a.dateOfBirth)
  }

  /** The `date_of_death_formatted` virtual: empty when there is no date. */
  function DateOfDeathFormatted(a: Author): (r: string)
    ensures r == "" <==> a.dateOfDeath.None?
  {
    Formatted(a.dateOfDeath)
  }

  /** The `lifespan` virtual as written. It calls `getYear` on both dates
      without checking that they are set, so an author without a date of
      death or birth makes the getter throw a TypeError (`None` here); with
      both dates it yields the `toString` method of the difference in years
      instead of calling it. */
  function LifespanAsWritten(a: Author): (r: Option<Js.Value>)
    ensures r.None? <==> a.dateOfDeath.None? || a.dateOfBirth.None?
    ensures r.Some? ==> !r.value.Str?
  {
    if a.dateOfDeath.None? || a.dateOfBirth.None? then None
    else Some(Js.Function("toString"))
  }

  /** The `lifespan` virtual as evidently intended: the difference in years,
      as text. */
  function Lifespan(a: Author): (r: string)
    requires a.dateOfBirth.Some? && a.dateOfDeath.Some?
    ensures ParseSigned(r) == Some(a.dateOfDeath.value.year - a.dateOfBirth.value.year)
  {
    var years := a.dateOfDeath.value.year - a.dateOfBirth.value.year;
    ParseSignedString(years);
    SignedString(years)
  }

  /** What the template shows for `lifespan` is never the number of years. */
  lemma LifespanAsWrittenIsNoNumber(a: Author)
    requires a.dateOfBirth.Some? && a.dateOfDeath.Some?
    ensures LifespanAsWritten(a) != Some(Js.Str(Lifespan(a)))
  {
  }
}
