/** The few JavaScript coercions the controllers lean on. The delete guards
    compare a list of documents with the number 0 (`list > 0`): JavaScript
    turns the list into text (its elements' texts joined by commas) and that
    text into a number before comparing. */
module Js {
  import opened Text
  import opened Ids

  /** A JavaScript number, restricted to the integers and NaN that occur here. */
  datatype Number = Finite(value: int) | NaN

  /** A JavaScript value as a template would show it. */
  datatype Value = Str(text: string) | Function(name: string)

  /** `Number(s)`: blank text is 0, a decimal numeral (after trimming) is its
      value, anything else is NaN. The hexadecimal, exponent, signed,
      fractional and Infinity forms are not modelled. */
  function ToNumber(s: string): (n: Number)
    ensures IsBlank(s) ==> n == Finite(0)
  {
    var t := Trim(s);
    if t == "" then Finite(0)
    else if AllDigits(t) then Finite(DigitsValue(t))
    else NaN
  }

  /** The text a fetched document turns into: its inspected form, which opens
      with '{' and lists the document's fields, `_id` first. */
  function DocumentText(id: Id): (r: string)
    ensures |r| > 0 && r[0] == '{'
  {
    "{ _id: " + IdText(id) + " }"
  }

  /** `String(list)` for a list of documents. */
  function ListText(docs: seq<Id>): (r: string)
    ensures docs == [] <==> r == ""
    ensures docs != [] ==> r[0] == '{'
  {
    if docs == [] then ""
    else if |docs| == 1 then DocumentText(docs[0])
    else DocumentText(docs[0]) + "," + ListText(docs[1..])
  }

  /** `x > 0`; every comparison with NaN is false. */
  predicate GreaterThanZero(n: Number) {
    n.Finite? && n.value > 0
  }

  /** The guard `list > 0` on a list of fetched documents. */
  predicate ListGreaterThanZero(docs: seq<Id>) {
    GreaterThanZero(ToNumber(ListText(docs)))
  }

  lemma TrimKeepsFirst(s: string)
    requires |s| > 0 && !IsSpace(s[0])
    ensures Trim(s) != [] && Trim(s)[0] == s[0]
  {
    assert TrimStart(s) == s;
    assert !IsBlank(s);
    var e := TrimEnd(s);
    assert e == s[..|e|];
  }

  /** The guard `list > 0` holds for no list: the empty list reads as 0, and a
      list of documents reads as NaN because its text opens with '{'. */
  lemma ListGuardNeverHolds(docs: seq<Id>)
    ensures !ListGreaterThanZero(docs)
  {
    var s := ListText(docs);
    if docs != [] {
      TrimKeepsFirst(s);
      assert !IsDigit(Trim(s)[0]);
      assert ToNumber(s) == NaN;
    } else {
      assert IsBlank(s);
    }
  }
}
