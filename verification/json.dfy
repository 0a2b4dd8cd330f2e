/** An abstract JSON value, with the object operations the firmware uses: ordered
    members, `getMember` (the first member with the key), `getOrAddMember(key).set(v)`
    and `createNestedObject(key)` (overwrite the first member with the key, or append). */
module JsonValues {
  import opened Wrappers

  datatype Json =
    | JNull
    | JBool(b: bool)
    | JInt(i: int)
    | JString(s: string)
    | JArray(items: seq<Json>)
    | JObject(members: seq<Member>)

  datatype Member = Member(key: string, value: Json)

  /** The parser: a document, or `None` for any deserialisation error. */
  type Parser = string -> Option<Json>

  /** `getMember(key)`: the value of the first member with that key. */
  function Lookup(ms: seq<Member>, key: string): (r: Option<Json>)
  {
    if ms == [] then None
    else if ms[0].key == key then Some(ms[0].value)
    else
      var r := Lookup(ms[1..], key);
      assert forall i :: 1 <= i < |ms| ==> ms[i] == ms[1..][i - 1];
      r
  }

  /** `getOrAddMember(key).set(v)`: afterwards `key` maps to `v`, every other key keeps
      its value, and a member is added only when the key was absent. */
  function SetMember(ms: seq<Member>, key: string, v: Json): (r: seq<Member>)
    ensures Lookup(r, key) == Some(v)
    ensures forall k :: k != key ==> Lookup(r, k) == Lookup(ms, k)
    ensures |r| == |ms| + (if Lookup(ms, key).Some? then 0 else 1)
  {
    if ms == [] then [Member(key, v)]
    else if ms[0].key == key then [Member(key, v)] + ms[1..]
    else
      var rest := SetMember(ms[1..], key, v);
      assert forall k :: Lookup([ms[0]] + rest, k) == if ms[0].key == k then Some(ms[0].value) else Lookup(rest, k);
      [ms[0]] + rest
  }

  /** A `JsonObject` reference as ArduinoJson 6 hands it out: either bound to an object's
      members, or null (what `as<JsonObject>()` gives on a document that holds no object).
      Writes through a null reference do nothing, and it serialises as `null`. */
  datatype ObjectRef = NullRef | ObjectRef(members: seq<Member>)

  /** The value `serializeJson` writes for a reference. */
  function Serialized(ref: ObjectRef): (j: Json)
    ensures j == JNull <==> ref.NullRef?
    ensures ref.ObjectRef? ==> j == JObject(ref.members)
  {
    match ref
    case NullRef => JNull
    case ObjectRef(ms) => JObject(ms)
  }

  /** `decodeJson` as intended: an empty body, a parse error and a document that is not an
      object all give the empty object; otherwise the parsed object's members. */
  function DecodeJson(body: string, parse: Parser): (obj: seq<Member>)
    ensures |body| == 0 ==> obj == []
    ensures |body| > 0 && parse(body).Some? && parse(body).value.JObject? ==> obj == parse(body).value.members
    ensures |body| > 0 && !(parse(body).Some? && parse(body).value.JObject?) ==> obj == []
  {
    if |body| == 0 then []
    else
      match parse(body)
      case Some(JObject(ms)) => ms
      case _ => []
  }
}
