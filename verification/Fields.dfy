/** Telemetry fields: what `map[string]any` holds after `json.Unmarshal`. */
module Fields {
  import opened Bytes

  /** The dynamic types that internal/state/state.go tells apart; floats are reals. */
  datatype Any =
    | Null
    | Float(r: real)
    | Int(i: int)
    | JsonNumber(digits: string)
    | Text(s: string)
    | Other(printed: string)

  type FieldMap = map<string, Any>

  /** `json.Unmarshal` into a map: total, and `None` where it returns an error. */
  type Unmarshal = Bytes -> Option<FieldMap>
}
