/** Decoded JSON values: token claims, and the bodies the conformance comparator reads. */
module Json {
  datatype Json =
    | Null
    | Bool(b: bool)
    | Num(n: real)
    | Str(s: string)
    | Arr(elems: seq<Json>)
    | Obj(fields: map<string, Json>)

  type Claims = map<string, Json>
}
