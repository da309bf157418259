/** What scalar types accept of Python, and the values it becomes. */
module InputScalars {
  import opened Wrappers
  import opened PyValues
  import opened InputErrors
  import Documents
  import opened RustTypes
  import opened Converters

  // Python's `bool` is an `int`.
  function IntegerIn(p: Py): Option<int> {
    match p
    case PyBool(b) => Some(if b then 1 else 0)
    case PyInt(n) => Some(n)
    case _ => None
  }

  predicate InWidth(n: int, bits: nat) {
    if bits == 8 then -128 <= n < 128
    else if bits == 16 then -32768 <= n < 32768
    else if bits == 32 then -2147483648 <= n < 2147483648
    else -9223372036854775808 <= n < 9223372036854775808
  }

  // The octets in order: those of `bytes`, or of a list of integers below 256.
  ghost predicate Holds(p: Py, octets: seq<int>) {
    match p
    case PyBytes(bytes) => octets == bytes
    case PyList(items) =>
      |octets| == |items| &&
      forall i | 0 <= i < |items| :: IntegerIn(items[i]) == Some(octets[i]) && 0 <= octets[i] < 256
    case _ => false
  }

  // The f64 behind a Python number.
  ghost predicate IsDouble(env: Env, p: Py, f: Float) {
    if p.PyFloat? then p.float == f else IntegerIn(p).Some? && env.floatOf(IntegerIn(p).value) == Some(f)
  }

  // The table: an input, and the value of the type that it becomes.
  ghost predicate Becomes(env: Env, order: Documents.Iteration, ty: Ty, p: Py, v: RustValue)
    requires Documents.Iterates(order)
  {
    match ty
    case StringT => p.PyStr? && v == RStr(p.text)
    case EnumT(_) => p.PyStr? && v == REnum(p.text)
    case BoolT => p.PyBool? && v == RBool(p.truth)
    case IntT(bits) => v.RInt? && IntegerIn(p) == Some(v.number) && InWidth(v.number, bits)
    case FloatT(single) => exists f :: IsDouble(env, p, f) && v == RFloat(if single then env.narrow(f) else f)
    case DateTimeT => p.PyStr? && v.RTime? && env.parseTime(p.text) == Some(v.text)
    case BlobT => v.RBlob? && Holds(p, v.octets)
    case DocumentT => v.RDoc? && Documents.FromPy(order, p, 0) == Success(v.document)
    case _ => false
  }

  // Why any other input is refused; documents say so themselves.
  function Refusal(env: Env, ty: Ty, p: Py): Option<Reason> {
    match ty
    case StringT | EnumT(_) => if p.PyStr? then None else Some(WrongType)
    case BoolT => if p.PyBool? then None else Some(WrongType)
    case IntT(bits) =>
      (match IntegerIn(p)
       case None => Some(WrongType)
       case Some(n) => if InWidth(n, bits) then None else Some(OutOfRange))
    case FloatT(_) =>
      if p.PyFloat? then None
      else
        (match IntegerIn(p)
         case None => Some(WrongType)
         case Some(n) => if env.floatOf(n).Some? then None else Some(OutOfRange))
    case DateTimeT =>
      if !p.PyStr? then Some(WrongType) else if env.parseTime(p.text).Some? then None else Some(BadTimestamp)
    case BlobT => if IsBlob(p) then None else Some(WrongType)
    case _ => Some(WrongType)
  }

  predicate IsBlob(p: Py) {
    match p
    case PyBytes(_) => true
    case PyList(items) =>
      forall item | item in items :: IntegerIn(item).Some? && 0 <= IntegerIn(item).value < 256
    case _ => false
  }

  /** A scalar input is converted exactly as the table says. */
  lemma ScalarsBecome(env: Env, order: Documents.Iteration, ty: Ty, p: Py, v: RustValue)
    requires Documents.Iterates(order)
    ensures FromScalar(env, order, ty, p) == Success(v) <==> Becomes(env, order, ty, p, v)
  {
    hide Documents.FromPy;
    match ty
    case FloatT(single) =>
      if FromScalar(env, order, ty, p) == Success(v) {
        var f := if p.PyFloat? then p.float else env.floatOf(IntegerIn(p).value).value;
        assert IsDouble(env, p, f);
      }
    case BlobT =>
      if v.RBlob? && p.PyList? && Holds(p, v.octets) {
        OctetsAccepted(p, v.octets);
        assert FromScalar(env, order, ty, p).value.octets == v.octets;
      } else if p.PyList? && FromScalar(env, order, ty, p) == Success(v) {
        assert forall i | 0 <= i < |p.items| :: p.items[i] in p.items && v.octets[i] == OctetOf(p.items[i]);
      }
    case _ =>
  }

  lemma OctetsAccepted(p: Py, octets: seq<int>)
    requires p.PyList? && Holds(p, octets)
    ensures forall item | item in p.items :: IsOctet(item)
    ensures forall i | 0 <= i < |p.items| :: octets[i] == OctetOf(p.items[i])
  {
    forall item | item in p.items
      ensures IsOctet(item)
    {
      var i :| 0 <= i < |p.items| && p.items[i] == item;
      assert IntegerIn(item) == Some(octets[i]);
    }
  }

  /** Every other input is refused, for the reason in the table. */
  lemma ScalarsRefused(env: Env, order: Documents.Iteration, ty: Ty, p: Py)
    requires Documents.Iterates(order) && !ty.DocumentT?
    ensures match Refusal(env, ty, p)
            case None => FromScalar(env, order, ty, p).Success?
            case Some(reason) => FromScalar(env, order, ty, p) == Reject(reason)
  {}

  lemma DocumentScalar(env: Env, order: Documents.Iteration, p: Py)
    requires Documents.Iterates(order)
    ensures var document := Documents.FromPy(order, p, 0);
            FromScalar(env, order, DocumentT, p) ==
            if document.Success? then Success(RDoc(document.value)) else Failure(document.error)
  {
    hide Documents.FromPy;
  }

  // ---------- Iterables ----------

  // Keys of dictionaries and their parts hold no dictionaries.
  predicate IsHashable(p: Py) {
    match p
    case PyList(items) => forall item | item in items :: IsHashable(item)
    case PyDict(_) => false
    case _ => true
  }

  lemma {:induction false} LeafIsInput(env: Env, order: Documents.Iteration, ty: Ty, p: Py)
    requires Documents.Iterates(order) && IsHashable(p)
    ensures FromLeaf(env, order, ty, p) == FromPy(env, order, ty, p)
    decreases ty, 0
  {
    hide FromScalar, FromItems, FromLeaves;
    match ty
    case BoxT(inner) => LeafIsInput(env, order, inner, p);
    case OptionT(inner) => LeafIsInput(env, order, inner, p);
    case VecT(item) =>
      if p.PyList? {
        LeavesAreItems(env, order, item, p, 0);
      }
    case _ => ScalarTypesOnly(env, order, ty, p);
  }

  lemma ScalarTypesOnly(env: Env, order: Documents.Iteration, ty: Ty, p: Py)
    requires Documents.Iterates(order) && !p.PyDict? && !ty.BoxT? && !ty.OptionT? && !ty.VecT?
    ensures FromLeaf(env, order, ty, p) == FromPy(env, order, ty, p)
  {
    hide Documents.FromPy;
  }

  lemma {:induction false} LeavesAreItems(env: Env, order: Documents.Iteration, ty: Ty, p: Py, from: nat)
    requires Documents.Iterates(order) && p.PyList? && from <= |p.items| && IsHashable(p)
    ensures FromLeaves(env, order, ty, p.items, from) == FromItems(env, order, ty, p, from)
    decreases ty, 1, |p.items| - from
  {
    hide FromLeaf, FromPy;
    if from < |p.items| {
      LeafIsInput(env, order, ty, p.items[from]);
      LeavesAreItems(env, order, ty, p, from + 1);
    }
  }

  // What iterating gives, item by item.
  ghost predicate Iterates(order: Documents.Iteration, p: Py, items: seq<Py>) {
    match p
    case PyList(all) => items == all
    case PyStr(text) => |items| == |text| && forall i | 0 <= i < |text| :: items[i] == PyStr([text[i]])
    case PyBytes(octets) => |items| == |octets| && forall i | 0 <= i < |octets| :: items[i] == PyInt(octets[i])
    case PyDict(entries) => items == order(entries)
    case _ => false
  }

  lemma ItemsIterated(order: Documents.Iteration, p: Py, items: seq<Py>)
    requires Documents.Iterates(order) && Iterates(order, p, items)
    requires p.PyDict? ==> forall key | key in p.entries :: IsHashable(key)
    ensures Iterated(order, p).Some? && Iterated(order, p).value == items
    ensures !p.PyList? ==> forall item | item in items :: IsHashable(item)
  {
    if p.PyStr? || p.PyBytes? {
      assert Iterated(order, p).value == items;
    }
  }

  // Each item is converted to its value.
  ghost predicate Convert(env: Env, order: Documents.Iteration, ty: Ty, items: seq<Py>, values: seq<RustValue>)
    requires Documents.Iterates(order)
  {
    |values| == |items| && forall k | 0 <= k < |items| :: FromPy(env, order, ty, items[k]) == Success(values[k])
  }

  lemma ConvertsFirst(env: Env, order: Documents.Iteration, ty: Ty, items: seq<Py>, from: nat, values: seq<RustValue>)
    requires Documents.Iterates(order) && from < |items|
    ensures Convert(env, order, ty, items[from..], values)
       <==> values != [] && FromPy(env, order, ty, items[from]) == Success(values[0])
            && Convert(env, order, ty, items[from + 1..], values[1..])
  {
    hide FromPy;
    if values != [] {
      var rest, others := items[from + 1..], values[1..];
      assert items[from..] == [items[from]] + rest && values == [values[0]] + others;
      if Convert(env, order, ty, items[from..], values) {
        forall k | 0 <= k < |rest|
          ensures FromPy(env, order, ty, rest[k]) == Success(others[k])
        {
          assert rest[k] == items[from..][k + 1] && others[k] == values[k + 1];
        }
      }
    }
  }

  lemma {:induction false} LeavesConvert(env: Env, order: Documents.Iteration, ty: Ty, items: seq<Py>, from: nat,
                                         values: seq<RustValue>)
    requires Documents.Iterates(order) && from <= |items| && forall item | item in items :: IsHashable(item)
    ensures FromLeaves(env, order, ty, items, from) == Success(values) <==>
              Convert(env, order, ty, items[from..], values)
    decreases |items| - from
  {
    hide FromLeaf, FromPy, IsHashable, Convert;
    if from < |items| {
      LeafIsInput(env, order, ty, items[from]);
      ConvertsFirst(env, order, ty, items, from, values);
      if values != [] {
        LeavesConvert(env, order, ty, items, from + 1, values[1..]);
        assert values == [values[0]] + values[1..];
      }
    } else {
      NothingConverts(env, order, ty, items[from..], values);
    }
  }

  lemma NothingConverts(env: Env, order: Documents.Iteration, ty: Ty, items: seq<Py>, values: seq<RustValue>)
    requires Documents.Iterates(order) && items == []
    ensures Convert(env, order, ty, items, values) <==> values == []
  {}

  lemma {:induction false} ItemsConvert(env: Env, order: Documents.Iteration, ty: Ty, p: Py, from: nat,
                                        values: seq<RustValue>)
    requires Documents.Iterates(order) && p.PyList? && from <= |p.items|
    ensures FromItems(env, order, ty, p, from) == Success(values) <==>
              Convert(env, order, ty, p.items[from..], values)
    decreases |p.items| - from
  {
    hide FromPy, Convert;
    if from < |p.items| {
      ConvertsFirst(env, order, ty, p.items, from, values);
      if values != [] {
        ItemsConvert(env, order, ty, p, from + 1, values[1..]);
        assert values == [values[0]] + values[1..];
      }
    } else {
      NothingConverts(env, order, ty, p.items[from..], values);
    }
  }

  /** Lists, strings, bytes and dictionaries become vectors of their converted items, in order. */
  lemma VectorsKeepOrder(env: Env, order: Documents.Iteration, ty: Ty, p: Py, items: seq<Py>, values: seq<RustValue>)
    requires Documents.Iterates(order) && Iterates(order, p, items)
    requires p.PyDict? ==> forall key | key in p.entries :: IsHashable(key)
    ensures FromPy(env, order, VecT(ty), p) == Success(RVec(values))
       <==> |values| == |items| && forall i | 0 <= i < |items| :: FromPy(env, order, ty, items[i]) == Success(values[i])
  {
    hide FromItems, FromLeaves, FromScalar;
    assert items[0..] == items;
    if p.PyList? {
      ItemsConvert(env, order, ty, p, 0, values);
    } else {
      ItemsIterated(order, p, items);
      LeavesConvert(env, order, ty, items, 0, values);
    }
  }

  /** Nothing else becomes a vector. */
  lemma OnlyIterablesBecomeVectors(env: Env, order: Documents.Iteration, ty: Ty, p: Py)
    requires Documents.Iterates(order) && !(p.PyList? || p.PyStr? || p.PyBytes? || p.PyDict?)
    ensures FromPy(env, order, VecT(ty), p) == Reject(WrongType)
  {}
}
