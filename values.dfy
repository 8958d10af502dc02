/** The JSON-like values that property dictionaries hold. */
module Values {
  import opened Shapes

  /** A property value: text (GlobalIds, type names, labels, "N/A", file names),
      a number, a `(lon, lat)` centroid pair, or Python's `None`. */
  datatype Value = Text(s: string) | Number(n: real) | Pair(point: Point) | Null

  /** A Python `dict` from property name to value (key order is not modelled). */
  type Record = map<string, Value>

  const NotAvailable: Value := Text("N/A")
}
