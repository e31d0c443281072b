/** Parsed JSON documents and the accessors of QJsonValue the launcher relies on. A lookup of a
    missing key gives an undefined value, which every accessor treats like null. JSON numbers
    are modelled as integers. */
module Json {

  datatype Json =
    | JNull
    | JBool(b: bool)
    | JNumber(n: int)
    | JString(s: string)
    | JArray(items: seq<Json>)
    | JObject(fields: map<string, Json>)

  const IntMin: int := -0x8000_0000
  const IntMax: int := 0x7FFF_FFFF

  /** value[key] on an object; a missing key or a non-object gives the undefined value. */
  function Field(v: Json, key: string): (r: Json)
    ensures v.JObject? && key in v.fields ==> r == v.fields[key]
    ensures !(v.JObject? && key in v.fields) ==> r == JNull
  {
    if v.JObject? && key in v.fields then v.fields[key] else JNull
  }

  /** QJsonValue::toString(): the text of a string value, otherwise empty. */
  function ToText(v: Json): string {
    if v.JString? then v.s else ""
  }

  /** QJsonValue::toInt(): a number representable as a 32-bit int, otherwise 0. */
  function ToInt(v: Json): (r: int)
    ensures IntMin <= r <= IntMax
    ensures v.JNumber? && IntMin <= v.n <= IntMax ==> r == v.n
  {
    if v.JNumber? && IntMin <= v.n <= IntMax then v.n else 0
  }

  /** QJsonValue::toArray(): the elements of an array value, otherwise none. */
  function ToArray(v: Json): seq<Json> {
    if v.JArray? then v.items else []
  }
}
