/**
 * The JSON document a user's bot configuration is stored as, the way
 * `serde_json::Value` indexes it, and the `convert_to_f64` classifier that
 * turns one coordinate entry into a float.
 */
module Json {
  import opened Wrappers
  import opened Numbers

  /** serde_json's number representation. */
  datatype Number = PosInt(u: uint64) | NegInt(i: int64) | Float(f: F64)

  datatype Value =
    | Null
    | Bool(b: bool)
    | Num(n: Number)
    | Str(s: string)
    | Array(items: seq<Value>)
    | Object(members: map<string, Value>)

  /** `value[key]`: the member, or `Null` when `value` is no object or lacks the key. */
  function Field(v: Value, key: string): Value
  {
    if v.Object? && key in v.members then v.members[key] else Null
  }

  /** `value[i]`: the element, or `Null` when `value` is no array or is too short. */
  function Item(v: Value, i: nat): Value
  {
    if v.Array? && i < |v.items| then v.items[i] else Null
  }

  /**
   * What `convert_to_f64` returns: the float, or `Err(())` together with
   * whether an error line was logged on the way.
   */
  datatype Conversion = Converted(value: F64) | Failed(logged: bool)

  /**
   * `convert_to_f64`. `parseF64` stands for `str::parse::<f64>` and `asF64`
   * for `Number::as_f64`; both are partial and foreign.
   */
  function ConvertToF64(v: Value, parseF64: string -> Option<F64>, asF64: Number -> Option<F64>): (r: Conversion)
    // the empty string is the one failure that is not logged
    ensures r == Failed(false) <==> v == Str("")
    // a float comes only from a non-empty string that parses, or from a number that converts
    ensures r.Converted? <==>
              (v.Str? && v.s != "" && parseF64(v.s).Some?) || (v.Num? && asF64(v.n).Some?)
    ensures r.Converted? && v.Str? ==> parseF64(v.s) == Some(r.value)
    ensures r.Converted? && v.Num? ==> asF64(v.n) == Some(r.value)
  {
    match v
    case Str(s) =>
      if s == "" then Failed(false)
      else (match parseF64(s) case Some(f) => Converted(f) case None => Failed(true))
    case Num(n) =>
      (match asF64(n) case Some(f) => Converted(f) case None => Failed(true))
    case _ => Failed(true)
  }

  /**
   * Indexing a path that is not there yields `Null`, which `convert_to_f64`
   * rejects with a logged error: a configuration without `locs` gives no
   * coordinate at all.
   */
  lemma MissingPathIsLoggedFailure(json: Value, key: string, i: nat,
                                   parseF64: string -> Option<F64>, asF64: Number -> Option<F64>)
    requires !json.Object? || "locs" !in json.members
    ensures ConvertToF64(Item(Field(Field(json, "locs"), key), i), parseF64, asF64) == Failed(true)
  {
  }
}
