/** The per-field rules the forms are checked with. Every rule of a form runs,
    and each failing rule contributes one error with its own message, in the
    order the rules are declared. */
module Validation {
  import opened Optional
  import opened Text
  import opened Dates
  import opened Store
  import BookInstanceModel

  /** The text of a form field; a field that was not submitted reads as "". */
  function Value(v: Option<string>): string {
    v.GetOr("")
  }

  /** The field is present once trimmed. */
  predicate Filled(v: Option<string>) {
    !IsBlank(Value(v))
  }

  /** `body(param).trim().isLength({min: 1})` with message `msg`. */
  function Required(param: Param, v: Option<string>, msg: string): (r: seq<FieldError>)
    ensures r == [] <==> Filled(v)
    ensures r != [] ==> r == [FieldError(param, msg)]
  {
    if Trim(Value(v)) == "" then [FieldError(param, msg)] else []
  }

  /** `.isAlphanumeric()` on the trimmed field, with message `msg`. */
  function Alphanumeric(param: Param, v: Option<string>, msg: string): (r: seq<FieldError>)
    ensures r == [] <==> IsAlphanumeric(Trim(Value(v)))
    ensures r != [] ==> r == [FieldError(param, msg)]
  {
    if IsAlphanumeric(Trim(Value(v))) then [] else [FieldError(param, msg)]
  }

  /** `body(param).optional({checkFalsy: true}).isISO8601()` with message `msg`. */
  function OptionalDate(param: Param, v: Option<string>, msg: string): (r: seq<FieldError>)
    ensures r == [] <==> OptionalIsoDate(v)
    ensures r != [] ==> r == [FieldError(param, msg)]
  {
    if OptionalIsoDate(v) then [] else [FieldError(param, msg)]
  }

  /** An error is reported by a form with four rule chains exactly when one of
      the chains reports it. */
  lemma InParts(x: FieldError, a: seq<FieldError>, b: seq<FieldError>, c: seq<FieldError>, d: seq<FieldError>)
    ensures x in a + b + c + d <==> x in a || x in b || x in c || x in d
  {
  }

  /** Four rule chains on four different fields, each reporting at most its
      own error: the form passes exactly when every chain does, and each
      error is reported exactly when its own chain fails. */
  lemma FourRules(a: seq<FieldError>, b: seq<FieldError>, c: seq<FieldError>, d: seq<FieldError>,
                  ea: FieldError, eb: FieldError, ec: FieldError, ed: FieldError)
    requires a == [] || a == [ea]
    requires b == [] || b == [eb]
    requires c == [] || c == [ec]
    requires d == [] || d == [ed]
    requires ea.param != eb.param && ea.param != ec.param && ea.param != ed.param
    requires eb.param != ec.param && eb.param != ed.param && ec.param != ed.param
    ensures a + b + c + d == [] <==> a == [] && b == [] && c == [] && d == []
    ensures ea in a + b + c + d <==> a != []
    ensures eb in a + b + c + d <==> b != []
    ensures ec in a + b + c + d <==> c != []
    ensures ed in a + b + c + d <==> d != []
  {
    assert |a + b + c + d| == |a| + |b| + |c| + |d|;
    InParts(ea, a, b, c, d);
    InParts(eb, a, b, c, d);
    InParts(ec, a, b, c, d);
    InParts(ed, a, b, c, d);
  }

  /** The field as it is stored once trimmed and escaped. */
  function Clean(v: Option<string>): string {
    Escape(Trim(Value(v)))
  }

  /** An alphanumeric value is filled and comes through cleaning unchanged. */
  lemma AlphanumericIsClean(s: string)
    requires IsAlphanumeric(s)
    ensures Filled(Some(s)) && Clean(Some(s)) == s
  {
    assert Value(Some(s)) == s;
    assert !IsBlank(s) by {
      assert !IsSpace(s[0]);
    }
    AlphanumericIsSanitised(s);
  }

  /** A filled field is still non-empty once trimmed and escaped. */
  lemma CleanFilled(v: Option<string>)
    requires Filled(v)
    ensures Clean(v) != ""
  {
    var t := Trim(Value(v));
    assert t != [];
    EscapeLengthens(t);
  }

  /** What the date sanitiser `toDate` leaves in a field. It runs on a field
      the request left out too, reading it as empty text, so a missing field,
      like an empty or unreadable one, becomes `null`; an ISO date becomes
      that date, rolled into the next month when the day is past the end of
      its month. The field is never left unset. */
  function DateField(v: Option<string>): (r: BookInstanceModel.DueBackField)
    ensures !r.Unset?
    ensures r.Null? <==> v.None? || !IsIsoDate(v.value)
    ensures r.At? ==> v.Some? && IsIsoDate(v.value) && r.date == ToDate(v.value)
  {
    match v
    case None => BookInstanceModel.Null
    case Some(s) =>
      match SanitiseDate(s)
      case Some(d) => BookInstanceModel.At(d)
      case None => BookInstanceModel.Null
  }

  /** The date a sanitised date field stores: a date exactly when an ISO date
      was submitted; `null`, stored as no date, otherwise. The stored date
      shows as the submitted text exactly when its day exists. */
  function NewDate(v: Option<string>): (r: Option<CalendarDate>)
    ensures r.Some? <==> v.Some? && IsIsoDate(v.value)
    ensures r.Some? ==> r.value == ToDate(v.value)
    ensures r.Some? ==> (IsoString(r.value) == v.value <==> DayFits(v.value))
  {
    match DateField(v)
    case At(d) => Some(d)
    case _ => None
  }
}
