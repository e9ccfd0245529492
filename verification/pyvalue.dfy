/**
 The dynamically typed values the validators accept (`id: str`, `nb: int|str|None`,
 `default: int`), and what Python's `str(...)` and `int(...)` make of them.
 */
module PyValues {
  import opened Wrappers
  import opened PyText

  datatype PyValue = PyNone | PyBool(b: bool) | PyInt(i: int) | PyStr(s: string)

  /** Python's `str(v)`. */
  function Str(v: PyValue): string {
    match v
    case PyNone => "None"
    case PyBool(b) => if b then "True" else "False"
    case PyInt(i) => IntToString(i)
    case PyStr(s) => s
  }

  /** Python's `int(v)`, or None where it raises. */
  function ToInt(v: PyValue): (r: Option<int>)
    ensures v.PyInt? ==> r == Some(v.i)
    ensures v.PyNone? ==> r.None?
  {
    match v
    case PyNone => None
    case PyBool(b) => Some(if b then 1 else 0)
    case PyInt(i) => Some(i)
    case PyStr(s) => ParseInt(s)
  }
}
