/** The values a template document holds. */
module Values {

  /** A flat JSON value as it can stand in an environment record: `null`,
      a boolean, an integer or a string. */
  datatype Scalar = Null | Bool(b: bool) | Int(i: int) | Str(s: string)

  /** A JSON document value, for the manifest and the package metadata, whose
      fields may nest. */
  datatype Json =
    | Leaf(scalar: Scalar)
    | Array(items: seq<Json>)
    | Object(members: seq<(string, Json)>)
}
