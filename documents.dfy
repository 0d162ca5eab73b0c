/** Policy documents as the decoded JSON values Python works on (json.dumps
    and json.loads are the identity here), and the dict and iteration
    operations the secretary applies to them, with Python's exceptions. */
module Documents {
  import opened Results
  import opened Dicts

  datatype Json =
    | JNull
    | JBool(b: bool)
    | JInt(i: int)
    | JStr(s: string)
    | JArr(items: seq<Json>)
    | JObj(fields: Dict<Json>)

  /** `d[key]` on a dict. */
  function Field(d: Dict<Json>, key: string): (r: Result<Json>)
    ensures r.Ok? <==> key in Keys(d)
    ensures r.Ok? ==> Get(d, key) == Some(r.value)
    ensures r.Err? ==> r.error == KeyError(key)
  {
    match Get(d, key)
    case Some(v) => Ok(v)
    case None => Err(KeyError(key))
  }

  /** `j[key]` on any value: a dict looks the key up, anything else cannot
      be subscripted with a string. */
  function Index(j: Json, key: string): (r: Result<Json>)
    ensures r.Ok? <==> j.JObj? && key in Keys(j.fields)
    ensures !j.JObj? ==> r == Err(TypeError)
  {
    if j.JObj? then Field(j.fields, key) else Err(TypeError)
  }

  /** A value used as a dict (`.items()`, item assignment). */
  function AsDict(j: Json): (r: Result<Dict<Json>>)
  {
    if j.JObj? then Ok(j.fields) else Err(TypeError)
  }

  /** A value used as a string (a table key or a room id). */
  function AsString(j: Json): (r: Result<string>)
  {
    if j.JStr? then Ok(j.s) else Err(TypeError)
  }

  /** The one-character strings of `s`, in order. */
  function Chars(s: string): (r: seq<Json>)
    ensures |r| == |s|
    ensures forall i :: 0 <= i < |s| ==> r[i] == JStr([s[i]])
  {
    if s == [] then [] else [JStr([s[0]])] + Chars(s[1..])
  }

  /** The key strings of a dict, as values. */
  function KeyValues(d: Dict<Json>): (r: seq<Json>)
    ensures |r| == |d|
    ensures forall i :: 0 <= i < |d| ==> r[i] == JStr(d[i].0)
  {
    if d == [] then [] else [JStr(d[0].0)] + KeyValues(d[1..])
  }

  /** What `for x in j` visits: a list its items, a dict its keys, a string
      its characters; numbers, booleans and None are not iterable. */
  function Iterate(j: Json): Result<seq<Json>> {
    match j
    case JArr(items) => Ok(items)
    case JObj(fields) => Ok(KeyValues(fields))
    case JStr(s) => Ok(Chars(s))
    case _ => Err(TypeError)
  }

  /** Values that are all strings, as strings (user ids used as dict keys). */
  function Strings(vs: seq<Json>): (r: Result<seq<string>>)
    ensures r.Ok? <==> forall i :: 0 <= i < |vs| ==> vs[i].JStr?
    ensures r.Ok? ==> |r.value| == |vs| && forall i :: 0 <= i < |vs| ==> vs[i] == JStr(r.value[i])
  {
    if vs == [] then Ok([])
    else if !vs[0].JStr? then Err(TypeError)
    else match Strings(vs[1..])
      case Err(e) => Err(e)
      case Ok(rest) =>
        assert forall i :: 1 <= i < |vs| ==> vs[i] == vs[1..][i - 1];
        Ok([vs[0].s] + rest)
  }
}
