/** String handling shared by the validators, the schemas and the router: the
    form sanitiser's `trim` and `escape`, the `isAlphanumeric` check, the decimal
    text of record ids (and its parse, the id cast), and splitting a path at '/'. */
module Text {
  import opened Optional

  // ---------------------------------------------------------------------------
  // trim

  /** The characters JavaScript's `\s` class matches; `trim` strips these. */
  predicate IsSpace(c: char) {
    || c == ' ' || c == '\t' || c == '\n' || c == '\r' || c == '\U{000B}' || c == '\U{000C}'
    || c == '\U{00A0}' || c == '\U{1680}' || ('\U{2000}' <= c <= '\U{200A}')
    || c == '\U{2028}' || c == '\U{2029}' || c == '\U{202F}' || c == '\U{205F}'
    || c == '\U{3000}' || c == '\U{FEFF}'
  }

  /** Every character of `s` is whitespace (so is the empty string). */
  predicate IsBlank(s: string) {
    forall i | 0 <= i < |s| :: IsSpace(s[i])
  }

  function TrimStart(s: string): (r: string)
    ensures |r| <= |s| && r == s[|s| - |r|..]
    ensures r == [] || !IsSpace(r[0])
    ensures forall i | 0 <= i < |s| - |r| :: IsSpace(s[i])
  {
    if |s| > 0 && IsSpace(s[0]) then TrimStart(s[1..]) else s
  }

  function TrimEnd(s: string): (r: string)
    ensures |r| <= |s| && r == s[..|r|]
    ensures r == [] || !IsSpace(r[|r| - 1])
    ensures forall i | |r| <= i < |s| :: IsSpace(s[i])
  {
    if |s| > 0 && IsSpace(s[|s| - 1]) then TrimEnd(s[..|s| - 1]) else s
  }

  /** The sanitiser's `trim()`: leading and trailing whitespace removed. The
      result is empty exactly when the input is blank, and otherwise starts
      and ends with a non-space character. */
  function Trim(s: string): (r: string)
    ensures r == [] <==> IsBlank(s)
    ensures r != [] ==> !IsSpace(r[0]) && !IsSpace(r[|r| - 1])
    ensures |r| <= |s|
  {
    TrimEndOfTrimStart(s);
    TrimEnd(TrimStart(s))
  }

  lemma TrimEndOfTrimStart(s: string)
    ensures TrimEnd(TrimStart(s)) == [] <==> IsBlank(s)
    ensures TrimEnd(TrimStart(s)) != [] ==> !IsSpace(TrimEnd(TrimStart(s))[0])
  {
    var t := TrimStart(s);
    TrimStartBlank(s);
    if t == [] {
      assert TrimEnd(t) == [];
    } else {
      TrimEndKeepsFirst(t);
    }
  }

  /** Trimming the start leaves nothing exactly when the text is blank. */
  lemma TrimStartBlank(s: string)
    ensures TrimStart(s) == [] <==> IsBlank(s)
  {
    var t := TrimStart(s);
    if t != [] {
      assert !IsSpace(s[|s| - |t|]);
    }
  }

  /** Trimming the end of a text that starts with a non-space keeps that
      first character. */
  lemma TrimEndKeepsFirst(t: string)
    requires t != [] && !IsSpace(t[0])
    ensures TrimEnd(t) != [] && TrimEnd(t)[0] == t[0]
  {
  }

  lemma TrimIdempotent(s: string)
    ensures Trim(Trim(s)) == Trim(s)
  {
    var r := Trim(s);
    assert TrimStart(r) == r;
    assert TrimEnd(r) == r;
  }

  // ---------------------------------------------------------------------------
  // escape

  /** The characters the sanitiser's `escape()` replaces by an HTML entity. */
  predicate IsMarkup(c: char) {
    c == '&' || c == '"' || c == '\'' || c == '<' || c == '>' || c == '/' || c == '\\' || c == '`'
  }

  function EscapeChar(c: char): string {
    match c
    case '&' => "&amp;"
    case '"' => "&quot;"
    case '\'' => "&#x27;"
    case '<' => "&lt;"
    case '>' => "&gt;"
    case '/' => "&#x2F;"
    case '\\' => "&#x5C;"
    case '`' => "&#96;"
    case _ => [c]
  }

  /** The sanitiser's `escape()`: each markup character becomes its entity. The
      result holds no markup character other than the '&' that opens an
      entity, and text without markup characters is left as it is. */
  function Escape(s: string): (r: string)
    ensures forall i | 0 <= i < |r| :: IsMarkup(r[i]) ==> r[i] == '&'
    ensures (forall i | 0 <= i < |s| :: !IsMarkup(s[i])) ==> r == s
  {
    if s == [] then [] else EscapeChar(s[0]) + Escape(s[1..])
  }

  /** Escaping never shortens a text, and lengthens any text that holds a
      markup character. */
  lemma {:induction false} EscapeLengthens(s: string)
    ensures |Escape(s)| >= |s|
    ensures (exists i | 0 <= i < |s| :: IsMarkup(s[i])) ==> |Escape(s)| > |s|
    decreases |s|
  {
    if s != [] {
      EscapeLengthens(s[1..]);
      if exists i | 0 <= i < |s| :: IsMarkup(s[i]) {
        var i :| 0 <= i < |s| && IsMarkup(s[i]);
        if i > 0 {
          assert IsMarkup(s[1..][i - 1]);
        }
      }
    }
  }

  /** A text holding a markup character escapes to one holding the '&' that
      opens its entity. */
  lemma {:induction false} EscapeShowsMarkup(s: string)
    ensures (exists i | 0 <= i < |s| :: IsMarkup(s[i])) ==> '&' in Escape(s)
    decreases |s|
  {
    if s != [] {
      EscapeShowsMarkup(s[1..]);
      assert Escape(s) == EscapeChar(s[0]) + Escape(s[1..]);
      if IsMarkup(s[0]) {
        assert EscapeChar(s[0])[0] == '&';
      } else if exists i | 0 <= i < |s| :: IsMarkup(s[i]) {
        var i :| 0 <= i < |s| && IsMarkup(s[i]);
        assert IsMarkup(s[1..][i - 1]);
      }
    }
  }

  // ---------------------------------------------------------------------------
  // isAlphanumeric

  predicate IsAlnumChar(c: char) {
    ('0' <= c <= '9') || ('a' <= c <= 'z') || ('A' <= c <= 'Z')
  }

  /** validator.js `isAlphanumeric` for the default en-US locale: one or more
      ASCII letters or digits. */
  predicate IsAlphanumeric(s: string) {
    |s| > 0 && forall i | 0 <= i < |s| :: IsAlnumChar(s[i])
  }

  /** An alphanumeric name passes through trim and escape unchanged. */
  lemma AlphanumericIsSanitised(s: string)
    requires IsAlphanumeric(s)
    ensures Trim(s) == s
    ensures Escape(s) == s
  {
    assert TrimStart(s) == s;
    assert TrimEnd(s) == s;
  }

  // ---------------------------------------------------------------------------
  // decimal text of ids

  predicate IsDigit(c: char) {
    '0' <= c <= '9'
  }

  function DigitChar(d: nat): (c: char)
    requires d < 10
    ensures IsDigit(c) && c as int - '0' as int == d
  {
    ('0' as int + d) as char
  }

  /** The decimal numeral of `n`, without leading zeros. */
  function DecimalString(n: nat): (r: string)
    ensures |r| > 0
    ensures forall i | 0 <= i < |r| :: IsDigit(r[i])
    ensures n > 0 <==> r[0] != '0'
    decreases n
  {
    if n < 10 then [DigitChar(n)] else DecimalString(n / 10) + [DigitChar(n % 10)]
  }

  predicate AllDigits(s: string) {
    forall i | 0 <= i < |s| :: IsDigit(s[i])
  }

  /** The value of a string of digits read as a decimal numeral. */
  function DigitsValue(s: string): nat
    requires AllDigits(s)
  {
    if s == [] then 0
    else DigitsValue(s[..|s| - 1]) * 10 + (s[|s| - 1] as int - '0' as int)
  }

  /** A canonical decimal numeral: digits only, no leading zero unless it is "0". */
  predicate IsCanonicalDecimal(s: string) {
    |s| > 0 && AllDigits(s) && (s[0] != '0' || |s| == 1)
  }

  /** Reading an id back from its text: only canonical numerals denote an id. */
  function ParseDecimal(s: string): (r: Option<nat>)
    ensures r.Some? <==> IsCanonicalDecimal(s)
  {
    if IsCanonicalDecimal(s) then Some(DigitsValue(s)) else None
  }

  lemma {:induction false} DigitsValueOfDecimal(n: nat)
    ensures DigitsValue(DecimalString(n)) == n
    decreases n
  {
    var s := DecimalString(n);
    if n >= 10 {
      DigitsValueOfDecimal(n / 10);
      assert s[..|s| - 1] == DecimalString(n / 10);
    }
  }

  /** Every id survives the trip to its text and back. */
  lemma ParseDecimalString(n: nat)
    ensures ParseDecimal(DecimalString(n)) == Some(n)
  {
    DigitsValueOfDecimal(n);
  }

  lemma {:induction false} LeadingDigitPositive(s: string)
    requires |s| > 0 && AllDigits(s) && s[0] != '0'
    ensures DigitsValue(s) >= 1
    decreases |s|
  {
    if |s| > 1 {
      LeadingDigitPositive(s[..|s| - 1]);
    }
  }

  lemma {:induction false} DecimalOfDigitsValue(s: string)
    requires IsCanonicalDecimal(s)
    ensures DecimalString(DigitsValue(s)) == s
    decreases |s|
  {
    var v := DigitsValue(s);
    if |s| > 1 {
      var p := s[..|s| - 1];
      LeadingDigitPositive(p);
      DecimalOfDigitsValue(p);
      assert v / 10 == DigitsValue(p) && v % 10 == s[|s| - 1] as int - '0' as int;
      assert s == p + [s[|s| - 1]];
    }
  }

  /** Every numeral that parses is the text of the id it denotes. */
  lemma DecimalStringOfParse(s: string)
    requires ParseDecimal(s).Some?
    ensures DecimalString(ParseDecimal(s).value) == s
  {
    DecimalOfDigitsValue(s);
  }

  /** JavaScript's text of an integer: a '-' before the magnitude when negative. */
  function SignedString(i: int): string {
    if i < 0 then "-" + DecimalString(-i) else DecimalString(i)
  }

  /** Reading an integer written by `SignedString`: an optional '-' followed by
      a canonical numeral; "-0" is not such a text. */
  function ParseSigned(s: string): (r: Option<int>)
    ensures r.Some? && r.value < 0 ==> |s| > 1 && s[0] == '-'
  {
    if |s| > 1 && s[0] == '-' then
      match ParseDecimal(s[1..])
      case Some(n) => if n > 0 then Some(-(n as int)) else None
      case None => None
    else
      match ParseDecimal(s)
      case Some(n) => Some(n as int)
      case None => None
  }

  /** Every integer survives the trip to its text and back. */
  lemma ParseSignedString(i: int)
    ensures ParseSigned(SignedString(i)) == Some(i)
  {
    var s := SignedString(i);
    if i < 0 {
      ParseDecimalString(-i);
      assert s[1..] == DecimalString(-i);
      assert ParseSigned(s) == Some(-(-i));
    } else {
      ParseDecimalString(i);
      assert IsDigit(s[0]);
    }
  }

  // ---------------------------------------------------------------------------
  // paths

  function IndexOf(s: string, c: char): (i: nat)
    requires c in s
    ensures i < |s| && s[i] == c
    ensures forall j | 0 <= j < i :: s[j] != c
  {
    if s[0] == c then 0 else 1 + IndexOf(s[1..], c)
  }

  /** JavaScript's `s.split('/')`: the pieces between the slashes, in order. */
  function Split(s: string): (r: seq<string>)
    ensures |r| > 0
    ensures forall i | 0 <= i < |r| :: '/' !in r[i]
    decreases |s|
  {
    if '/' in s then
      var i := IndexOf(s, '/');
      [s[..i]] + Split(s[i + 1..])
    else
      [s]
  }

  /** The pieces glued back together with '/' between them. */
  function Join(parts: seq<string>): string
    requires |parts| > 0
  {
    if |parts| == 1 then parts[0] else parts[0] + "/" + Join(parts[1..])
  }

  lemma SplitCons(x: string, rest: string)
    requires '/' !in x
    ensures Split(x + "/" + rest) == [x] + Split(rest)
  {
    var s := x + "/" + rest;
    var i := IndexOf(s, '/');
    assert s[|x|] == '/';
    assert forall j | 0 <= j < |x| :: s[j] == x[j];
    assert i == |x|;
    assert s[..i] == x;
    assert s[i + 1..] == rest;
  }

  /** Splitting undoes joining whenever no piece holds a '/'. */
  lemma {:induction false} SplitJoin(parts: seq<string>)
    requires |parts| > 0
    requires forall i | 0 <= i < |parts| :: '/' !in parts[i]
    ensures Split(Join(parts)) == parts
    decreases |parts|
  {
    if |parts| > 1 {
      SplitCons(parts[0], Join(parts[1..]));
      SplitJoin(parts[1..]);
      assert parts == [parts[0]] + parts[1..];
    }
  }
}
