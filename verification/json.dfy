/** Parsed JSON documents as org.json holds them, the classifier the parser
    applies to every visited value, and the typed binding value `JsonValue`. */
module JsonTree {
  import opened Outcomes

  /** A decoded JSON value.  Object key order is not represented: the code only
      compares key sets and normalised serialisations.  `JInt` carries an
      unbounded integer; only those within 32 bits are what org.json stores as
      `Integer`.  `JOther` stands for the values org.json keeps as
      `JSONObject.NULL`, `Double` or `BigDecimal`, with their literal text. */
  datatype Json =
    | JObject(members: map<string, Json>)
    | JArray(items: seq<Json>)
    | JString(text: string)
    | JInt(number: int)
    | JBool(flag: bool)
    | JOther(literal: string)

  type Members = map<string, Json>

  /** `JsonValueType`. */
  datatype Kind = STRING | NUMBER | BOOLEAN | OBJECT | ARRAY

  /** `JsonValue`: a bound message value together with the kind it was
      classified as.  The Java class keeps the value's `toString()`; the model
      keeps the value itself, from which that text is determined. */
  datatype JsonValue = JsonValue(kind: Kind, value: Json)

  predicate IsJavaInt(n: int)
  {
    -0x8000_0000 <= n < 0x8000_0000
  }

  /** `getValueType`: only strings, `Integer`s, booleans, objects and arrays
      are recognised; null, long and decimal values are rejected. */
  function Classify(j: Json): (r: Result<Kind>)
    ensures r == Ok(OBJECT) <==> j.JObject?
    ensures r == Ok(ARRAY) <==> j.JArray?
    ensures r == Ok(STRING) <==> j.JString?
    ensures r == Ok(BOOLEAN) <==> j.JBool?
    ensures r == Ok(NUMBER) <==> j.JInt? && IsJavaInt(j.number)
    ensures r.Err? ==> r.error == UnrecognisedValue
  {
    match j
    case JObject(_) => Ok(OBJECT)
    case JArray(_) => Ok(ARRAY)
    case JString(_) => Ok(STRING)
    case JBool(_) => Ok(BOOLEAN)
    case JInt(n) => if IsJavaInt(n) then Ok(NUMBER) else Err(UnrecognisedValue)
    case JOther(_) => Err(UnrecognisedValue)
  }

  /** A binding value whose kind is the classification of its value, as every
      binding the parser creates is. */
  predicate WellTyped(v: JsonValue)
  {
    Classify(v.value) == Ok(v.kind)
  }

  predicate IsScalar(j: Json)
  {
    !j.JObject? && !j.JArray?
  }

  function DigitChar(d: int): char
    requires 0 <= d < 10
  {
    ('0' as int + d) as char
  }

  predicate IsDigit(c: char)
  {
    '0' <= c <= '9'
  }

  function DigitValue(c: char): int
    requires IsDigit(c)
  {
    c as int - '0' as int
  }

  /** Decimal digits of a natural number, most significant first. */
  function NatText(n: nat): (r: string)
    ensures |r| >= 1
    ensures forall i | 0 <= i < |r| :: IsDigit(r[i])
  {
    if n < 10 then [DigitChar(n)] else NatText(n / 10) + [DigitChar(n % 10)]
  }

  /** `Integer.toString`: the text reads back as the same number, and it
      starts with a minus sign exactly when the number is negative. */
  function IntText(n: int): (r: string)
    ensures ReadInt(r) == Some(n)
    ensures |r| >= 1 && (r[0] == '-' <==> n < 0)
    ensures r[0] == '-' || IsDigit(r[0])
  {
    if n < 0 then
      var r := "-" + NatText(-n);
      assert r[1..] == NatText(-n) && !IsDigit(r[0]);
      ReadNatText(-n);
      r
    else
      ReadNatText(n);
      NatText(n)
  }

  function ReadDigits(s: string): nat
    requires |s| >= 1
    requires forall i | 0 <= i < |s| :: IsDigit(s[i])
  {
    if |s| == 1 then DigitValue(s[0])
    else 10 * ReadDigits(s[..|s| - 1]) + DigitValue(s[|s| - 1])
  }

  predicate AllDigits(s: string)
  {
    |s| >= 1 && forall i | 0 <= i < |s| :: IsDigit(s[i])
  }

  /** How a bare decimal literal reads back as a number. */
  function ReadInt(s: string): Option<int>
  {
    if AllDigits(s) then Some(ReadDigits(s) as int)
    else if |s| >= 2 && s[0] == '-' && AllDigits(s[1..]) then
      var n: int := ReadDigits(s[1..]); Some(-n)
    else None
  }

  lemma {:induction false} ReadNatText(n: nat)
    ensures ReadDigits(NatText(n)) == n
  {
    if n >= 10 {
      var s := NatText(n);
      assert s[..|s| - 1] == NatText(n / 10);
      ReadNatText(n / 10);
    }
  }

  /** Characters a rendered string binding does not carry through the
      re-parse. org.json's reader rejects a line break or NUL inside a quoted
      string; a quote ends the string early, and the model treats what follows
      as unreadable too, although org.json may still parse the spliced text. */
  const Unquotable: set<char> := {'"', '\n', '\r', '\0'}

  predicate Quotable(s: string)
  {
    forall i | 0 <= i < |s| :: s[i] !in Unquotable
  }

  /** The `toString()` of a scalar value. */
  function Text(j: Json): string
    requires IsScalar(j)
  {
    match j
    case JString(s) => s
    case JInt(n) => IntText(n)
    case JBool(b) => if b then "true" else "false"
    case JOther(lit) => lit
  }

  /** `getParamValue`: a string binding is written in double quotes, without
      escaping; every other kind is written bare.  Reading the rendered literal
      back gives a well-typed binding's value again, with its kind: strings stay
      strings, numbers and booleans stay bare.  In the model a string holding a
      quote, a line break or NUL does not read back as a literal. */
  function Render(v: JsonValue): (r: string)
    requires IsScalar(v.value)
    ensures WellTyped(v) && (v.kind == STRING ==> Quotable(v.value.text)) ==> ReadLiteral(r) == Some(v.value)
    ensures v.kind == STRING && v.value.JString? && !Quotable(v.value.text) ==> ReadLiteral(r) == None
  {
    if v.kind == STRING then
      var r := "\"" + Text(v.value) + "\"";
      assert r[1..|r| - 1] == Text(v.value);
      r
    else
      Text(v.value)
  }

  /** How org.json reads back a scalar literal that holds no escape sequence. */
  function ReadLiteral(s: string): Option<Json>
  {
    if |s| >= 2 && s[0] == '"' && s[|s| - 1] == '"' then
      if Quotable(s[1..|s| - 1]) then Some(JString(s[1..|s| - 1])) else None
    else if s == "true" then Some(JBool(true))
    else if s == "false" then Some(JBool(false))
    else match ReadInt(s)
      case Some(n) => Some(JInt(n))
      case None => None
  }
}
