/** Values a request carries and the schema checks the routes apply to them
    before any lookup: a string field, a boolean coerced from any value with a
    default, a UUID-shaped string. */
module Schema {

  datatype Option<+T> = None | Some(value: T)

  /** A JSON value as it arrives in a request body or in a GitHub response.
      Numbers are integers here (see README, "Left out"). */
  datatype Json =
    | JNull
    | JBool(b: bool)
    | JNumber(n: int)
    | JString(s: string)
    | JArray(items: seq<Json>)
    | JObject(fields: map<string, Json>)

  /** JavaScript's `Boolean(v)` on a JSON value: false exactly for the falsy
      values a JSON value can be. */
  function Truthy(v: Json): (r: bool)
    ensures !r <==> v == JNull || v == JBool(false) || v == JNumber(0) || v == JString("")
  {
    match v
    case JNull => false
    case JBool(b) => b
    case JNumber(n) => n != 0
    case JString(s) => s != ""
    case JArray(_) => true
    case JObject(_) => true
  }

  /** An object field checked as `z.string()`. */
  function StringField(body: Json, key: string): (r: Option<string>)
    ensures r.Some? <==> body.JObject? && key in body.fields && body.fields[key].JString?
    ensures r.Some? ==> body.fields[key] == JString(r.value)
  {
    if body.JObject? && key in body.fields && body.fields[key].JString? then
      Some(body.fields[key].s)
    else
      None
  }

  /** An object field checked as `z.number()`. */
  function NumberField(body: Json, key: string): (r: Option<int>)
    ensures r.Some? <==> body.JObject? && key in body.fields && body.fields[key].JNumber?
    ensures r.Some? ==> body.fields[key] == JNumber(r.value)
  {
    if body.JObject? && key in body.fields && body.fields[key].JNumber? then
      Some(body.fields[key].n)
    else
      None
  }

  /** An object field checked as `z.coerce.boolean().default(false)`: an absent
      field gives false, a present one its truthiness. The check never fails. */
  function CoercedBool(body: Json, key: string): (r: bool)
    requires body.JObject?
    ensures key !in body.fields ==> !r
    ensures key in body.fields ==> (r <==> Truthy(body.fields[key]))
  {
    key in body.fields && Truthy(body.fields[key])
  }

  predicate IsHexDigit(c: char) {
    '0' <= c <= '9' || 'a' <= c <= 'f' || 'A' <= c <= 'F'
  }

  /** Positions of the four dashes in the 8-4-4-4-12 layout. */
  predicate IsDashPosition(i: int) {
    i == 8 || i == 13 || i == 18 || i == 23
  }

  /** `z.string().uuid()`: five groups of 8, 4, 4, 4 and 12 hexadecimal
      digits, either case, separated by dashes, and nothing else. */
  function IsUuid(s: string): (r: bool)
    ensures r ==> |s| == 36
    ensures r ==> forall i :: 0 <= i < |s| ==> (s[i] == '-' <==> IsDashPosition(i))
    ensures r ==> forall i :: 0 <= i < |s| && s[i] != '-' ==> IsHexDigit(s[i])
  {
    |s| == 36 &&
    forall i :: 0 <= i < 36 ==> if IsDashPosition(i) then s[i] == '-' else IsHexDigit(s[i])
  }

  /** A UUID never contains a path separator, so it can name a file inside a
      folder and the last segment of a URL. */
  lemma UuidHasNoSlash(s: string)
    requires IsUuid(s)
    ensures '/' !in s
  {
  }
}
