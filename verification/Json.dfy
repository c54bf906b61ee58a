/** JSON values as Python's json.loads builds them. */
module Json {
  /** A float; the sign of a zero and NaN are what Python's == does not see or reflect. */
  datatype Float = NaN | NegativeInfinity | PositiveInfinity | NegativeZero | Finite(r: real)

  datatype Json =
    | Null
    | Bool(b: bool)
    | Int(i: int)
    | Float(f: Float)
    | Str(s: string)
    | Array(items: seq<Json>)
    | Object(members: map<string, Json>)

  function Unsigned(f: Float): Float {
    if f == NegativeZero then Finite(0.0) else f
  }

  /** Python's == of two floats. */
  predicate FloatEqual(x: Float, y: Float) {
    x != NaN && Unsigned(x) == Unsigned(y)
  }

  /** `type(x) is type(y)`. */
  predicate SameType(x: Json, y: Json) {
    || (x.Null? && y.Null?) || (x.Bool? && y.Bool?) || (x.Int? && y.Int?) || (x.Float? && y.Float?)
    || (x.Str? && y.Str?) || (x.Array? && y.Array?) || (x.Object? && y.Object?)
  }

  /** Python's == of two scalars of one type. */
  predicate ScalarEqual(x: Json, y: Json) {
    if x.Float? && y.Float? then FloatEqual(x.f, y.f) else x == y
  }

  /** NaN equals nothing, the two zeros equal each other, and everything else equals itself alone. */
  lemma FloatEqualMeans(x: Float, y: Float)
    ensures FloatEqual(x, y) <==>
            x != NaN && (x == y || (x == NegativeZero && y == Finite(0.0)) || (x == Finite(0.0) && y == NegativeZero))
  {
  }
}
