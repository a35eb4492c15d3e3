/** Record identities. The datastore gives every record an opaque id when it is
    first saved; ids here are naturals handed out in ascending order, and the
    text form that appears in URLs and form fields is the decimal numeral. */
module Ids {
  import opened Optional
  import opened Text

  type Id = nat

  /** The text of an id (`_id.toString()`). */
  function IdText(id: Id): (r: string)
    ensures r != "" && '/' !in r
    ensures forall i | 0 <= i < |r| :: IsDigit(r[i])
  {
    var r := DecimalString(id);
    assert forall i | 0 <= i < |r| :: r[i] != '/';
    r
  }

  /** Casting submitted text to an id. Text that names no id is what the
      datastore rejects with a cast error. */
  function CastId(s: string): (r: Option<Id>)
    ensures r.Some? ==> IdText(r.value) == s
  {
    var r := ParseDecimal(s);
    if r.Some? then
      DecimalStringOfParse(s);
      r
    else r
  }

  /** The text of an id always casts back to that id. */
  lemma CastIdText(id: Id)
    ensures CastId(IdText(id)) == Some(id)
  {
    ParseDecimalString(id);
  }

  /** The text of an id holds no markup, so `escape` leaves it alone. */
  lemma IdTextEscapes(id: Id)
    ensures Escape(IdText(id)) == IdText(id)
  {
    var t := IdText(id);
    assert IsAlphanumeric(t);
    AlphanumericIsSanitised(t);
  }

  /** Escaping a text never changes the id it casts to, nor whether it casts:
      an id text has no markup, and an escaped markup character leaves an '&',
      which no id text holds. */
  lemma EscapeCastsAlike(s: string)
    ensures CastId(Escape(s)) == CastId(s)
  {
    if CastId(s).Some? {
      IdTextEscapes(CastId(s).value);
    } else if exists i | 0 <= i < |s| :: IsMarkup(s[i]) {
      EscapeShowsMarkup(s);
      forall id: Id
        ensures Escape(s) != IdText(id)
      {
        assert '&' !in IdText(id);
      }
    }
  }

  /** Different ids have different texts. */
  lemma IdTextInjective(a: Id, b: Id)
    requires IdText(a) == IdText(b)
    ensures a == b
  {
    CastIdText(a);
    CastIdText(b);
  }

  /** The literal path segment "create" is never the text of an id. */
  lemma CreateIsNoId(id: Id)
    ensures IdText(id) != "create"
  {
    assert IsDigit(IdText(id)[0]);
  }
}
