/**
 * The values the literal evaluator hands back for one recorder description:
 * a dictionary from sign name to either a list of recording tuples or some
 * other (non-list) metadata value, such as a version number.
 */
module Records {
  import opened Basics
  import opened Text

  /** One element of a recording tuple. */
  datatype Value = Str(s: string) | Int(n: int) | Bool(b: bool) | NoneValue

  /** Python truthiness, as used by `if is_valid` and `if not is_valid`. */
  predicate Truthy(v: Value) {
    match v
    case Str(s) => s != ""
    case Int(n) => n != 0
    case Bool(b) => b
    case NoneValue => false
  }

  /** The value stored under one sign key. */
  datatype Entry = Tuples(tuples: seq<seq<Value>>) | NotAList(v: Value)

  /** A dictionary, as its items in insertion order. */
  type Dict = seq<(string, Entry)>

  /**
   * A flattened recording: the sign name inserted at index 0 in front of the
   * tuple's own elements (file, video start, sign start, sign end, is_valid,
   * attempt in the current recorder schema).
   */
  type Row = seq<Value>

  /**
   * The exceptions of the core that end a file's processing; the last two
   * come from the encoder call (a float has no `strftime`, and `check=True`
   * turns a failed encoder run into CalledProcessError).
   */
  datatype PyError = IndexError | TypeError | ValueError | AttributeError | CalledProcessError

  function Numeric(v: Value): int
    requires v.Int? || v.Bool?
  {
    if v.Int? then v.n else if v.b then 1 else 0
  }

  /**
   * Python's `a < b`: numbers (an int or a bool) compare by value, strings
   * lexicographically, and any other pair raises TypeError (None).
   */
  function PyLess(a: Value, b: Value): (r: Option<bool>)
    ensures a.Int? && b.Int? ==> r == Some(a.n < b.n)
    ensures a.Str? && b.Str? ==> r == Some(Less(a.s, b.s))
    ensures (a.NoneValue? || b.NoneValue? || a.Str? != b.Str?) <==> r.None?
  {
    if (a.Int? || a.Bool?) && (b.Int? || b.Bool?) then Some(Numeric(a) < Numeric(b))
    else if a.Str? && b.Str? then Some(Less(a.s, b.s))
    else None
  }

  /** Python's `max(a, b)`: `b` replaces `a` only when `b > a`. */
  function PyMax(a: Value, b: Value): (r: Result<Value, PyError>)
    ensures a.Int? && b.Int? ==> r == Ok(Int(Max(a.n, b.n)))
    ensures r.Ok? ==> r.value == a || r.value == b
    ensures r.Err? <==> PyLess(a, b).None?
  {
    match PyLess(a, b)
    case None => Err(TypeError)
    case Some(less) => Ok(if less then b else a)
  }

  /** Python's `str(v)`, as an f-string field renders it. */
  function ValueText(v: Value): string {
    match v
    case Str(s) => s
    case Int(n) => IntToString(n)
    case Bool(b) => if b then "True" else "False"
    case NoneValue => "None"
  }
}
