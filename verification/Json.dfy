/** Parsed JSON documents. Object keys are unique because the strict loader rejects duplicates. */
module Json {
  import opened Sequences

  datatype Json =
    | Null
    | Bool(flag: bool)
    | Int(number: int)
    | Float(value: real)
    | Str(text: string)
    | Arr(items: seq<Json>)
    | Obj(fields: map<string, Json>)

  /** Python's `record.get(key)`, None when the key is missing. */
  function Get(j: Json, key: string): Option<Json> {
    if j.Obj? && key in j.fields then Some(j.fields[key]) else None
  }

  predicate IsStringList(j: Json) {
    j.Arr? && forall i :: 0 <= i < |j.items| ==> j.items[i].Str?
  }

  function Strings(j: Json): (s: seq<string>)
    requires IsStringList(j)
    ensures |s| == |j.items|
  {
    seq(|j.items|, i requires 0 <= i < |j.items| => j.items[i].text)
  }

  function StringList(s: seq<string>): (j: Json)
    ensures IsStringList(j) && |j.items| == |s|
  {
    Arr(seq(|s|, i requires 0 <= i < |s| => Str(s[i])))
  }

  lemma StringListRoundTrip(j: Json, s: seq<string>)
    ensures Strings(StringList(s)) == s
    ensures IsStringList(j) ==> StringList(Strings(j)) == j
  {
  }
}
