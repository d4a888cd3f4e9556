/** The JavaScript values that reach the core from the store: numbers that may
    be NaN or infinite, and table cells that hold null, a number or text. */
module Values {
  import Text

  /** A JavaScript number. Finite numbers are modelled as exact reals. */
  datatype JsNum = Finite(v: real) | NaN | Infinity(positive: bool) {
    predicate IsFinite() { Finite? }
  }

  /** A cell read from a row: SQL null, a JSON number, or a string. For a
      string, `parsed` is what `Number(s)` yields for it when it is not blank;
      JavaScript turns a blank string into 0. */
  datatype Cell = Null | Number(n: JsNum) | Text(s: string, parsed: JsNum)

  /** `Number(c)`: null becomes 0, a blank string becomes 0. */
  function ToNumber(c: Cell): (r: JsNum)
    ensures c.Null? ==> r == Finite(0.0)
    ensures c.Number? ==> r == c.n
    ensures c.Text? && Text.IsBlank(c.s) ==> r == Finite(0.0)
    ensures c.Text? && !Text.IsBlank(c.s) ==> r == c.parsed
  {
    match c
    case Null => Finite(0.0)
    case Number(n) => n
    case Text(s, parsed) => if Text.IsBlank(s) then Finite(0.0) else parsed
  }

  function Abs(x: real): (r: real)
    ensures r >= 0.0 && (r == x || r == -x)
  {
    if x < 0.0 then -x else x
  }

  function Max(a: real, b: real): (r: real)
    ensures r >= a && r >= b && (r == a || r == b)
  {
    if a < b then b else a
  }
}
