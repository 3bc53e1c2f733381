/**
 * The parsed-JSON values the tool reads, and the few JavaScript object
 * operations it applies to them: reading a named property, enumerating
 * keys with `for ... in`, and turning a value into a property key.
 */
module Json {
  import opened Wrappers

  /**
   * A value produced by `JSON.parse`. Object fields are kept in the order
   * in which `for ... in` visits them. Numbers are integers here.
   */
  datatype Json =
    | JNull
    | JBool(b: bool)
    | JNumber(n: int)
    | JString(s: string)
    | JArray(items: seq<Json>)
    | JObject(fields: seq<Field>)

  datatype Field = Field(key: string, value: Json)

  /** The field of `fields` named `name`, if any (the first such field). */
  function FieldValue(fields: seq<Field>, name: string): (r: Option<Json>)
    ensures r.Some? <==> exists i :: 0 <= i < |fields| && fields[i].key == name
    ensures r.Some? ==> exists i :: 0 <= i < |fields| && fields[i].key == name && fields[i].value == r.value
  {
    if |fields| == 0 then None
    else if fields[0].key == name then Some(fields[0].value)
    else FieldValue(fields[1..], name)
  }

  /**
   * `v.name` for a non-null value `v`. Only objects carry the property
   * names the tool reads (`dependencies`, `dev`, `type`, ...); for every
   * other value the read is `undefined`.
   */
  function Property(v: Json, name: string): (r: Option<Json>)
    ensures !v.JObject? ==> r == None
    ensures v.JObject? ==> r == FieldValue(v.fields, name)
  {
    match v
    case JObject(fields) => FieldValue(fields, name)
    case _ => None
  }

  /** Decimal digits of a natural number, as `String(n)` writes them. */
  function NatToString(n: nat): (r: string)
    ensures |r| >= 1
    ensures forall i :: 0 <= i < |r| ==> '0' <= r[i] <= '9'
    decreases n
  {
    if n < 10 then [DigitChar(n)] else NatToString(n / 10) + [DigitChar(n % 10)]
  }

  function DigitChar(d: nat): (c: char)
    requires d < 10
    ensures '0' <= c <= '9'
  {
    "0123456789"[d]
  }

  /** `String(n)` for an integer number. */
  function IntToString(n: int): (r: string) {
    if n < 0 then "-" + NatToString(-n) else NatToString(n)
  }

  /**
   * The key/value pairs a `for (const k in v)` loop visits, where
   * `None` stands for `undefined`. Strings and arrays yield their indices,
   * objects their fields, and `undefined`, `null`, booleans and numbers
   * nothing at all. A string is indexed by `char`, where JavaScript counts
   * UTF-16 code units.
   */
  function ForIn(v: Option<Json>): (r: seq<Field>)
    ensures v.Some? && v.value.JObject? ==> r == v.value.fields
    ensures v.Some? && v.value.JArray? ==> |r| == |v.value.items|
    ensures v.Some? && v.value.JString? ==> |r| == |v.value.s|
    ensures v.None? || v.value.JNull? || v.value.JBool? || v.value.JNumber? ==> r == []
  {
    match v
    case None => []
    case Some(JObject(fields)) => fields
    case Some(JArray(items)) =>
      seq(|items|, i requires 0 <= i < |items| => Field(NatToString(i), items[i]))
    case Some(JString(s)) =>
      seq(|s|, i requires 0 <= i < |s| => Field(NatToString(i), JString([s[i]])))
    case Some(_) => []
  }

  /**
   * Whether a parsed value can be turned into a property key at all. The
   * conversion calls the value's `toString`, then its `valueOf`. A parsed
   * object with a field of its own named `toString` hides the inherited
   * method behind a value that is not callable, and the inherited `valueOf`
   * returns the object itself, so the conversion throws a `TypeError`. An
   * array converts by joining its elements, so it fails iff an element
   * fails. Every other value converts.
   */
  predicate Convertible(v: Json)
    decreases v
  {
    match v
    case JArray(items) => forall i :: 0 <= i < |items| ==> Convertible(items[i])
    case JObject(fields) => FieldValue(fields, "toString").None?
    case _ => true
  }

  /** Whether `obj[v]` can convert `v` (with `None` for `undefined`) to a key. */
  predicate KeyConvertible(v: Option<Json>) {
    v.None? || Convertible(v.value)
  }

  /**
   * The property key a value is converted to when used as `obj[v]`:
   * `undefined` becomes "undefined", arrays are joined with commas (with
   * `null` elements left empty) and objects become "[object Object]". This
   * holds for values that are `KeyConvertible`; for the others JavaScript
   * throws instead, and the string computed here is never used.
   */
  function PropertyKey(v: Option<Json>): (r: string)
    ensures v.Some? && v.value.JString? ==> r == v.value.s
    ensures v.None? ==> r == "undefined"
    ensures v.Some? && v.value.JObject? && KeyConvertible(v) ==> r == "[object Object]"
  {
    match v
    case None => "undefined"
    case Some(j) => ToText(j)
  }

  function ToText(v: Json): (r: string)
    decreases v
  {
    match v
    case JNull => "null"
    case JBool(b) => if b then "true" else "false"
    case JNumber(n) => IntToString(n)
    case JString(s) => s
    case JArray(items) =>
      JoinWithCommas(seq(|items|, i requires 0 <= i < |items| =>
        if items[i].JNull? then "" else ToText(items[i])))
    case JObject(_) => "[object Object]"
  }

  function JoinWithCommas(parts: seq<string>): (r: string) {
    if |parts| == 0 then ""
    else if |parts| == 1 then parts[0]
    else parts[0] + "," + JoinWithCommas(parts[1..])
  }
}
