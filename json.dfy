/** The values `JSON.parse` and `response.json()` produce, the JavaScript
    truthiness and property access the client applies to them, and the chart
    resolution of `updateMessage` (script.js:154-160). Parsing itself is an
    oracle the renderer receives as a parameter. */
module Json {
  import opened Wrappers

  /** A parsed JSON value. An object keeps one binding per key (the last one
      in the text, as `JSON.parse` does). */
  datatype JsonValue =
    | JNull
    | JBool(b: bool)
    | JNumber(n: real)
    | JString(s: string)
    | JArray(elems: seq<JsonValue>)
    | JObject(fields: map<string, JsonValue>)

  /** JavaScript truthiness: `null`, `false`, `0` and `""` are falsy; arrays
      and objects are truthy even when empty. */
  predicate Truthy(v: JsonValue) {
    match v
    case JNull => false
    case JBool(b) => b
    case JNumber(n) => n != 0.0
    case JString(s) => s != ""
    case JArray(_) => true
    case JObject(_) => true
  }

  /** `v.name` on a non-null value, for a name that is not an array index
      and not a built-in property of strings or arrays ("data", "layout",
      "choices", "message", "content"): only an object can hold it. `None`
      is `undefined`. */
  function Field(v: JsonValue, name: string): (r: Option<JsonValue>)
    ensures r.Some? <==> v.JObject? && name in v.fields
    ensures r.Some? ==> r.value == v.fields[name]
  {
    match v
    case JObject(fields) => if name in fields then Some(fields[name]) else None
    case _ => None
  }

  /** `x?.name`: `undefined` when `x` is `undefined` or `null`. */
  function OptField(x: Option<JsonValue>, name: string): (r: Option<JsonValue>)
    ensures r.Some? ==> x.Some? && x.value.JObject? && name in x.value.fields
    ensures x.Some? && x.value.JObject? && name in x.value.fields ==> r == Some(x.value.fields[name])
  {
    if x.None? || x.value.JNull? then None else Field(x.value, name)
  }

  /** `x?.[0]`: an array's first element, an object's "0" property, a
      string's first character; `undefined` otherwise. */
  function OptIndex0(x: Option<JsonValue>): (r: Option<JsonValue>)
    ensures x.Some? && x.value.JArray? && x.value.elems != [] ==> r == Some(x.value.elems[0])
    ensures x.Some? && x.value.JArray? && x.value.elems == [] ==> r.None?
    ensures x.Some? && x.value.JObject? ==>
              r == if "0" in x.value.fields then Some(x.value.fields["0"]) else None
    ensures x.Some? && x.value.JString? && x.value.s != [] ==> r == Some(JString([x.value.s[0]]))
    ensures x.Some? && x.value.JString? && x.value.s == [] ==> r.None?
    ensures x.None? || x.value.JNull? || x.value.JBool? || x.value.JNumber? ==> r.None?
  {
    if x.None? then None
    else match x.value
      case JArray(elems) => if elems != [] then Some(elems[0]) else None
      case JObject(fields) => if "0" in fields then Some(fields["0"]) else None
      case JString(s) => if s != "" then Some(JString([s[0]])) else None
      case _ => None
  }

  /** `x || fallback` where `x` may be `undefined`. */
  function Or(x: Option<JsonValue>, fallback: JsonValue): (r: JsonValue)
    ensures x.Some? && Truthy(x.value) ==> r == x.value
    ensures !(x.Some? && Truthy(x.value)) ==> r == fallback
  {
    if x.Some? && Truthy(x.value) then x.value else fallback
  }

  /** The layout used when the parsed chart has no truthy `layout`
      (script.js:155-160). */
  const DefaultLayout: JsonValue := JObject(map[
    "autosize" := JBool(true),
    "margin" := JObject(map["t" := JNumber(30.0), "r" := JNumber(30.0), "l" := JNumber(40.0), "b" := JNumber(40.0)]),
    "paper_bgcolor" := JString("rgba(0,0,0,0)"),
    "plot_bgcolor" := JString("rgba(0,0,0,0)")])

  /** The arguments handed to `Plotly.newPlot`. */
  datatype Chart = Chart(data: JsonValue, layout: JsonValue)

  /** True when `v` is an object whose `name` property is truthy. */
  predicate HasTruthy(v: JsonValue, name: string) {
    v.JObject? && name in v.fields && Truthy(v.fields[name])
  }

  /** script.js:154-160: `data` is the parsed value when it is an array,
      else its `data` property, else `[graphData]`; `layout` is its `layout`
      property or the default. `None` when the parsed value is `null`: the
      property access `graphData.data` throws. */
  function ResolveChart(v: JsonValue): (r: Option<Chart>)
    ensures r.None? <==> v.JNull?
    ensures r.Some? && v.JArray? ==> r.value.data == v
    ensures r.Some? && !v.JArray? && HasTruthy(v, "data") ==> r.value.data == v.fields["data"]
    ensures r.Some? && !v.JArray? && !HasTruthy(v, "data") ==> r.value.data == JArray([v])
    ensures r.Some? && HasTruthy(v, "layout") ==> r.value.layout == v.fields["layout"]
    ensures r.Some? && !HasTruthy(v, "layout") ==> r.value.layout == DefaultLayout
  {
    if v.JNull? then None
    else
      var data := if v.JArray? then v else Or(Field(v, "data"), JArray([v]));
      var layout := Or(Field(v, "layout"), DefaultLayout);
      Some(Chart(data, layout))
  }
}
