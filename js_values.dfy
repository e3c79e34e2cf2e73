/** The few JavaScript value behaviours the booth-routing code depends on.
    Numbers are modelled as unbounded integers plus NaN: every number the routing
    code computes is an integer or NaN, and NaN compares false against everything.
    An expression that would raise a TypeError (reading a property of `undefined`)
    evaluates to `TypeError`. */
module JsValues {

  datatype Option<+T> = None | Some(value: T)

  /** A JavaScript number that is an integer or NaN. */
  datatype Num = Num(v: int) | NaN

  /** The outcome of an evaluation that may throw a TypeError. */
  datatype Eval<+T> = Value(value: T) | TypeError

  /** A string-valued expression that may be `undefined`. */
  datatype Str = Str(s: string) | UndefinedStr

  /** `x[0]`: the first character of a string, `undefined` past the end, and a
      TypeError when `x` itself is `undefined`. */
  function Index0(x: Str): (r: Eval<Str>)
    ensures r.TypeError? <==> x.UndefinedStr?
    ensures x.Str? && x.s != "" ==> r == Value(Str([x.s[0]]))
    ensures x.Str? && x.s == "" ==> r == Value(UndefinedStr)
  {
    match x
    case UndefinedStr => TypeError
    case Str(s) => if s == "" then Value(UndefinedStr) else Value(Str([s[0]]))
  }

  /** The text a template literal inserts for `s[0]`: the first character, or the
      word "undefined" when `s` is empty. */
  function TemplateFirst(s: string): (r: string)
    ensures s != "" ==> r == [s[0]]
    ensures s == "" ==> r == "undefined"
  {
    if s == "" then "undefined" else [s[0]]
  }

  function Abs(x: int): (r: int)
    ensures r >= 0 && (r == x || r == -x)
  {
    if x < 0 then -x else x
  }

  /** `a < b` on numbers: false as soon as one side is NaN. */
  predicate Less(a: Num, b: Num)
  {
    a.Num? && b.Num? && a.v < b.v
  }

  /** `Math.abs(a - b)`, NaN-propagating. */
  function AbsDiff(a: Num, b: Num): (r: Num)
    ensures r.Num? <==> a.Num? && b.Num?
    ensures r.Num? ==> r.v == Abs(a.v - b.v)
  {
    if a.Num? && b.Num? then Num(Abs(a.v - b.v)) else NaN
  }

  /** `x * k + y + z` on numbers, NaN-propagating. */
  function Weighted(x: Num, k: int, y: Num, z: int): (r: Num)
    ensures r.Num? <==> x.Num? && y.Num?
    ensures r.Num? ==> r.v == x.v * k + y.v + z
  {
    if x.Num? && y.Num? then Num(x.v * k + y.v + z) else NaN
  }
}
