/** Python values as the generated code, the waiters and the paginators see them. */
module PyValues {
  import opened Wrappers

  // IEEE specials are kept apart so that finiteness checks can be stated.
  datatype Float = Finite(value: real) | Infinite(negative: bool) | NotANumber

  // `PyObject` is a frozen native response object: its properties, by attribute name.
  datatype Py =
    | PyNone
    | PyBool(truth: bool)
    | PyInt(number: int)
    | PyFloat(float: Float)
    | PyStr(text: string)
    | PyBytes(octets: seq<int>)
    | PyList(items: seq<Py>)
    | PyDict(entries: map<Py, Py>)
    | PyObject(class_: string, attrs: map<string, Py>)

  // `_safe_parameter`: a Python keyword gets a trailing underscore.
  function SafeName(keywords: set<string>, name: string): string {
    if name in keywords then name + "_" else name
  }

  /** A safe name is no keyword, and is the name itself or the name with an underscore behind it. */
  lemma SafeNames(keywords: set<string>, name: string)
    requires forall keyword | keyword in keywords :: keyword + "_" !in keywords
    ensures SafeName(keywords, name) !in keywords
    ensures name in keywords ==> |SafeName(keywords, name)| == |name| + 1
    ensures name !in keywords ==> |SafeName(keywords, name)| == |name|
    ensures name <= SafeName(keywords, name) <= name + "_"
  {}

  predicate IsNumber(p: Py) {
    p.PyInt? || p.PyFloat?
  }

  // `bool` is a numeric type to Python's equality.
  function NumberOf(p: Py): Option<Float> {
    match p
    case PyBool(b) => Some(Finite(if b then 1.0 else 0.0))
    case PyInt(i) => Some(Finite(i as real))
    case PyFloat(f) => Some(f)
    case _ => None
  }

  predicate FloatEquals(a: Float, b: Float) {
    a == b && !a.NotANumber?
  }

  predicate FloatLess(a: Float, b: Float) {
    match (a, b)
    case (Finite(x), Finite(y)) => x < y
    case (Finite(_), Infinite(negative)) => !negative
    case (Infinite(negative), Finite(_)) => negative
    case (Infinite(x), Infinite(y)) => x && !y
    case (_, _) => false
  }

  // Python's `==` on scalars. Container operands never reach it in compiled expressions.
  predicate PyEquals(a: Py, b: Py) {
    match (NumberOf(a), NumberOf(b))
    case (Some(x), Some(y)) => FloatEquals(x, y)
    case (_, _) => a == b
  }

  /** True and False equal the numbers one and zero, and no others. */
  lemma BooleansAreNumbers(b: bool, n: int)
    ensures PyEquals(PyBool(b), PyInt(n)) <==> n == if b then 1 else 0
    ensures PyEquals(PyInt(n), PyBool(b)) <==> n == if b then 1 else 0
  {}

  // `items[i]` with Python's negative indices, when it is in range.
  function AtIndex<T>(items: seq<T>, index: int): Option<T> {
    if 0 <= index < |items| then Some(items[index])
    else if -|items| <= index < 0 then Some(items[|items| + index])
    else None
  }

  /** An index counts from the front, and a negative one from the back. */
  lemma IndexFromEitherEnd<T>(before: seq<T>, x: T, after: seq<T>)
    ensures AtIndex(before + [x] + after, |before|) == Some(x)
    ensures AtIndex(before + [x] + after, -1 - |after|) == Some(x)
  {}

  /** No other index is in range. */
  lemma IndexOutOfRange<T>(items: seq<T>, index: int)
    ensures AtIndex(items, index).None? <==> index >= |items| || index < -|items|
  {}

  // A dictionary with string keys.
  function StringKeys(entries: map<string, Py>): map<Py, Py> {
    map key | key in (set name | name in entries :: PyStr(name)) :: entries[key.text]
  }
}
