/** JSON documents: `document_from_py` with its depth bound, and `document_to_py`. */
module Documents {
  import opened Wrappers
  import opened PyValues
  import opened InputErrors

  datatype Document =
    | DNull
    | DBool(truth: bool)
    | DPos(magnitude: int)    // Number::PosInt(u64)
    | DNeg(number: int)       // Number::NegInt(i64)
    | DFloat(float: Float)
    | DStr(text: string)
    | DArray(items: seq<Document>)
    | DObject(entries: map<string, Document>)

  const MAX_DEPTH := 128
  const I64_MIN := -0x8000_0000_0000_0000
  const I64_MAX := 0x7fff_ffff_ffff_ffff
  const U64_MAX := 0xffff_ffff_ffff_ffff

  // The order in which a dictionary is iterated: each key once.
  type Iteration = map<Py, Py> -> seq<Py>

  ghost predicate Enumerates(keys: seq<Py>, entries: map<Py, Py>) {
    && (forall key | key in keys :: key in entries)
    && (forall key | key in entries :: key in keys)
    && (forall i, j | 0 <= i < j < |keys| :: keys[i] != keys[j])
  }

  ghost predicate Iterates(order: Iteration) {
    forall entries :: Enumerates(order(entries), entries)
  }

  predicate WellTyped(d: Document) {
    match d
    case DPos(n) => 0 <= n < 18446744073709551616
    case DNeg(n) => -9223372036854775808 <= n < 9223372036854775808
    case DArray(items) => forall item | item in items :: WellTyped(item)
    case DObject(entries) => forall key | key in entries :: WellTyped(entries[key])
    case _ => true
  }

  function FromPy(order: Iteration, p: Py, depth: nat): Converted<Document>
    requires Iterates(order)
    decreases p, 1
  {
    if depth > MAX_DEPTH then Reject(TooDeep)
    else
      match p
      case PyNone => Success(DNull)
      case PyBool(b) => Success(DBool(b))
      case PyInt(i) =>
        if I64_MIN <= i <= I64_MAX then Success(DNeg(i))
        else if 0 <= i <= U64_MAX then Success(DPos(i))
        else Reject(OutOfRange)
      case PyFloat(f) => if f.Finite? then Success(DFloat(f)) else Reject(NotFinite)
      case PyStr(s) => Success(DStr(s))
      case PyList(items) =>
        (var converted :- FromItems(order, p, 0, depth);
         Success(DArray(converted)))
      case PyDict(entries) =>
        (var converted :- FromEntries(order, p, order(entries), 0, depth);
         Success(DObject(converted)))
      case _ => Reject(WrongType)
  }

  function FromItems(order: Iteration, p: Py, from: nat, depth: nat): Converted<seq<Document>>
    requires Iterates(order) && p.PyList? && from <= |p.items|
    decreases p, 0, |p.items| - from
  {
    if from == |p.items| then Success([])
    else
      var head :- Under(IndexSegment(from), FromPy(order, p.items[from], depth + 1));
      var tail :- FromItems(order, p, from + 1, depth);
      Success([head] + tail)
  }

  function FromEntries(order: Iteration, p: Py, keys: seq<Py>, from: nat, depth: nat): Converted<map<string, Document>>
    requires Iterates(order) && p.PyDict? && from <= |keys|
    requires forall key | key in keys :: key in p.entries
    decreases p, 0, |keys| - from
  {
    if from == |keys| then Success(map[])
    else if !keys[from].PyStr? then Under(MapKey(from), Reject(WrongType))
    else
      var head :- Under(MapValue(from), FromPy(order, p.entries[keys[from]], depth + 1));
      var tail :- FromEntries(order, p, keys, from + 1, depth);
      Success(map[keys[from].text := head] + tail)
  }

  function ToPy(d: Document): Py {
    match d
    case DNull => PyNone
    case DBool(b) => PyBool(b)
    case DPos(n) => PyInt(n)
    case DNeg(n) => PyInt(n)
    case DFloat(f) => PyFloat(f)
    case DStr(s) => PyStr(s)
    case DArray(items) => PyList(seq(|items|, i requires 0 <= i < |items| => ToPy(items[i])))
    case DObject(entries) => PyDict(StringKeys(map key | key in entries :: ToPy(entries[key])))
  }

  // The Python values a document can carry, at a depth.
  predicate Convertible(p: Py, depth: nat) {
    depth <= 128 &&
    match p
    case PyInt(i) => -9223372036854775808 <= i < 18446744073709551616
    case PyFloat(f) => f.Finite?
    case PyList(items) => forall item | item in items :: Convertible(item, depth + 1)
    case PyDict(entries) => forall key | key in entries :: key.PyStr? && Convertible(entries[key], depth + 1)
    case _ => p.PyNone? || p.PyBool? || p.PyStr?
  }

  // ---------- Accepted inputs, and the Python round trip ----------

  lemma {:induction false} AcceptsItems(order: Iteration, p: Py, from: nat, depth: nat)
    requires Iterates(order) && p.PyList? && from <= |p.items|
    ensures var r := FromItems(order, p, from, depth);
            && (r.Success? <==> forall i | from <= i < |p.items| :: Convertible(p.items[i], depth + 1))
            && (r.Success? ==> |r.value| == |p.items| - from)
            && (r.Success? ==>
                  forall i | 0 <= i < |r.value| :: WellTyped(r.value[i]) && ToPy(r.value[i]) == p.items[from + i])
    decreases p, 0, |p.items| - from
  {
    if from < |p.items| {
      hide Convertible, FromPy, ToPy;
      AcceptsExactly(order, p.items[from], depth + 1);
      AcceptsItems(order, p, from + 1, depth);
    }
  }

  // An entry is converted before the entries after it.
  lemma EntriesStep(order: Iteration, p: Py, keys: seq<Py>, from: nat, depth: nat)
    requires Iterates(order) && p.PyDict? && from <= |keys|
    requires forall key | key in keys :: key in p.entries
    ensures from == |keys| ==> FromEntries(order, p, keys, from, depth) == Success(map[])
    ensures from < |keys| ==>
              var r := FromEntries(order, p, keys, from, depth);
              var head := FromPy(order, p.entries[keys[from]], depth + 1);
              var tail := FromEntries(order, p, keys, from + 1, depth);
              && (r.Success? <==> keys[from].PyStr? && head.Success? && tail.Success?)
              && (r.Success? ==> r.value == map[keys[from].text := head.value] + tail.value)
  {
    hide FromPy;
  }

  lemma {:induction false} AcceptsEntries(order: Iteration, p: Py, keys: seq<Py>, from: nat, depth: nat)
    requires Iterates(order) && p.PyDict? && from <= |keys|
    requires forall key | key in keys :: key in p.entries
    requires forall i, j | 0 <= i < j < |keys| :: keys[i] != keys[j]
    ensures var r := FromEntries(order, p, keys, from, depth);
            && (r.Success? <==>
                  forall i | from <= i < |keys| :: keys[i].PyStr? && Convertible(p.entries[keys[i]], depth + 1))
            && (r.Success? ==>
                  && (forall i | from <= i < |keys| ::
                        && keys[i].text in r.value
                        && WellTyped(r.value[keys[i].text]) && ToPy(r.value[keys[i].text]) == p.entries[keys[i]])
                  && forall name | name in r.value :: PyStr(name) in keys[from..])
    decreases p, 0, |keys| - from
  {
    hide FromPy, FromEntries, Convertible, ToPy, WellTyped, Iterates;
    EntriesStep(order, p, keys, from, depth);
    if from < |keys| {
      AcceptsExactly(order, p.entries[keys[from]], depth + 1);
      AcceptsEntries(order, p, keys, from + 1, depth);
      var r := FromEntries(order, p, keys, from, depth);
      if r.Success? {
        var tail := FromEntries(order, p, keys, from + 1, depth).value;
        assert keys[from..] == [keys[from]] + keys[from + 1..];
        assert keys[from].text !in tail;
      }
    }
  }

  lemma ObjectForm(entries: map<Py, Py>, converted: map<string, Document>)
    requires forall key | key in entries ::
               key.PyStr? && key.text in converted && ToPy(converted[key.text]) == entries[key]
    requires forall name | name in converted :: PyStr(name) in entries
    ensures ToPy(DObject(converted)) == PyDict(entries)
  {
    var form := ToPy(DObject(converted)).entries;
    assert form.Keys == entries.Keys;
    assert form == entries;
  }

  lemma DictStep(order: Iteration, p: Py, depth: nat)
    requires Iterates(order) && p.PyDict? && depth <= MAX_DEPTH
    ensures FromPy(order, p, depth) ==
            match FromEntries(order, p, order(p.entries), 0, depth)
            case Success(converted) => Success(DObject(converted))
            case Failure(error) => Failure(error)
  {
    hide FromEntries, Convertible, ToPy;
  }

  lemma ConvertibleDict(p: Py, depth: nat)
    requires p.PyDict? && depth <= MAX_DEPTH
    ensures (Convertible(p, depth))
       <==> (forall key | key in p.entries :: key.PyStr? && Convertible(p.entries[key], depth + 1))
  {
  }

  lemma WellTypedObject(entries: map<string, Document>)
    requires forall name | name in entries :: WellTyped(entries[name])
    ensures WellTyped(DObject(entries))
  {
  }

  lemma {:induction false} AcceptsDict(order: Iteration, p: Py, depth: nat)
    requires Iterates(order) && p.PyDict? && depth <= MAX_DEPTH
    ensures var r := FromPy(order, p, depth);
            && (r.Success? <==> Convertible(p, depth))
            && (r.Success? ==> WellTyped(r.value) && ToPy(r.value) == p)
    decreases p, 1
  {
    hide ToPy, FromEntries, FromPy, Convertible, WellTyped;
    var keys := order(p.entries);
    assert Enumerates(keys, p.entries);
    AcceptsEntries(order, p, keys, 0, depth);
    DictStep(order, p, depth);
    ConvertibleDict(p, depth);
    var converted := FromEntries(order, p, keys, 0, depth);
    assert keys[0..] == keys;
    if converted.Success? {
      forall key | key in p.entries
        ensures key.PyStr? && key.text in converted.value
        ensures ToPy(converted.value[key.text]) == p.entries[key] && Convertible(p.entries[key], depth + 1)
      {
        var i :| 0 <= i < |keys| && keys[i] == key;
      }
      ObjectForm(p.entries, converted.value);
      forall name | name in converted.value
        ensures WellTyped(converted.value[name])
      {
        var i :| 0 <= i < |keys| && keys[i] == PyStr(name);
      }
      WellTypedObject(converted.value);
    } else {
      var i :| 0 <= i < |keys| && !(keys[i].PyStr? && Convertible(p.entries[keys[i]], depth + 1));
      assert keys[i] in p.entries;
    }
  }

  lemma {:induction false} AcceptsList(order: Iteration, p: Py, depth: nat)
    requires Iterates(order) && p.PyList? && depth <= MAX_DEPTH
    ensures var r := FromPy(order, p, depth);
            && (r.Success? <==> Convertible(p, depth))
            && (r.Success? ==> WellTyped(r.value) && ToPy(r.value) == p)
    decreases p, 1
  {
    hide FromItems;
    AcceptsItems(order, p, 0, depth);
    var converted := FromItems(order, p, 0, depth);
    if converted.Success? {
      assert ToPy(DArray(converted.value)).items == p.items;
    } else {
      var i :| 0 <= i < |p.items| && !Convertible(p.items[i], depth + 1);
      assert p.items[i] in p.items;
    }
  }

  /** Exactly the convertible values are accepted, and converting back gives the same Python value. */
  lemma {:induction false} AcceptsExactly(order: Iteration, p: Py, depth: nat)
    requires Iterates(order)
    ensures var r := FromPy(order, p, depth);
            && (r.Success? <==> Convertible(p, depth))
            && (r.Success? ==> WellTyped(r.value) && ToPy(r.value) == p)
    decreases p, 2
  {
    if depth <= MAX_DEPTH {
      if p.PyList? {
        AcceptsList(order, p, depth);
      } else if p.PyDict? {
        AcceptsDict(order, p, depth);
      }
    }
  }

  // ---------- The document round trip ----------

  // Documents Python integers cannot tell apart are the same after normalising.
  function Normalised(d: Document): Document {
    match d
    case DPos(n) => if n < 9223372036854775808 then DNeg(n) else d
    case DArray(items) => DArray(seq(|items|, i requires 0 <= i < |items| => Normalised(items[i])))
    case DObject(entries) => DObject(map key | key in entries :: Normalised(entries[key]))
    case _ => d
  }

  // Finite, and nested no deeper than the bound.
  predicate Bounded(d: Document, depth: nat) {
    depth <= 128 &&
    match d
    case DFloat(f) => f.Finite?
    case DArray(items) => forall item | item in items :: Bounded(item, depth + 1)
    case DObject(entries) => forall key | key in entries :: Bounded(entries[key], depth + 1)
    case _ => true
  }

  lemma {:induction false} ArrayConvertible(items: seq<Document>, depth: nat)
    requires forall item | item in items :: Convertible(ToPy(item), depth + 1) <==> Bounded(item, depth + 1)
    ensures Convertible(ToPy(DArray(items)), depth) <==> Bounded(DArray(items), depth)
  {
    var form := ToPy(DArray(items)).items;
    assert |form| == |items| && forall i | 0 <= i < |items| :: form[i] == ToPy(items[i]);
    if forall p | p in form :: Convertible(p, depth + 1) {
      forall item | item in items
        ensures Bounded(item, depth + 1)
      {
        var i :| 0 <= i < |items| && items[i] == item;
        assert form[i] in form;
      }
    }
  }

  lemma {:induction false} ObjectConvertible(entries: map<string, Document>, depth: nat)
    requires forall key | key in entries ::
               Convertible(ToPy(entries[key]), depth + 1) <==> Bounded(entries[key], depth + 1)
    ensures Convertible(ToPy(DObject(entries)), depth) <==> Bounded(DObject(entries), depth)
  {
    var form := ToPy(DObject(entries)).entries;
    forall key | key in entries
      ensures PyStr(key) in form && form[PyStr(key)] == ToPy(entries[key])
    {}
    if Convertible(ToPy(DObject(entries)), depth) {
      forall key | key in entries
        ensures Bounded(entries[key], depth + 1)
      {
        assert PyStr(key) in form;
      }
    }
  }

  lemma {:induction false} ConvertibleWhenBounded(d: Document, depth: nat)
    requires WellTyped(d)
    ensures Convertible(ToPy(d), depth) <==> Bounded(d, depth)
  {
    if d.DArray? {
      hide ToPy, Convertible, Bounded;
      forall item | item in d.items
        ensures Convertible(ToPy(item), depth + 1) <==> Bounded(item, depth + 1)
      {
        ConvertibleWhenBounded(item, depth + 1);
      }
      ArrayConvertible(d.items, depth);
    } else if d.DObject? {
      hide ToPy, Convertible, Bounded;
      forall key | key in d.entries
        ensures Convertible(ToPy(d.entries[key]), depth + 1) <==> Bounded(d.entries[key], depth + 1)
      {
        ConvertibleWhenBounded(d.entries[key], depth + 1);
      }
      ObjectConvertible(d.entries, depth);
    }
  }

  // Two documents with the same Python form have the same normal form.
  lemma {:induction false} SameFormSameNormal(a: Document, b: Document)
    requires WellTyped(a) && WellTyped(b) && ToPy(a) == ToPy(b)
    ensures Normalised(a) == Normalised(b)
  {
    match (a, b)
    case (DArray(x), DArray(y)) =>
      assert |ToPy(a).items| == |ToPy(b).items|;
      forall i | 0 <= i < |x|
        ensures Normalised(x[i]) == Normalised(y[i])
      {
        assert ToPy(a).items[i] == ToPy(b).items[i];
        SameFormSameNormal(x[i], y[i]);
      }
    case (DObject(x), DObject(y)) =>
      SameEntries(x, y);
      forall key | key in x
        ensures Normalised(x[key]) == Normalised(y[key])
      {
        SameFormSameNormal(x[key], y[key]);
      }
    case (_, _) =>
  }

  lemma SameEntries(x: map<string, Document>, y: map<string, Document>)
    requires ToPy(DObject(x)) == ToPy(DObject(y))
    ensures x.Keys == y.Keys
    ensures forall key | key in x :: ToPy(x[key]) == ToPy(y[key])
  {
    var p, q := ToPy(DObject(x)).entries, ToPy(DObject(y)).entries;
    forall key
      ensures key in x <==> PyStr(key) in p
      ensures key in y <==> PyStr(key) in q
      ensures key in x ==> p[PyStr(key)] == ToPy(x[key])
      ensures key in y ==> q[PyStr(key)] == ToPy(y[key])
    {}
  }

  /** A document survives the trip through Python exactly when it is bounded, up to normalising integers. */
  lemma DocumentRoundTrip(order: Iteration, d: Document, depth: nat)
    requires Iterates(order) && WellTyped(d)
    ensures var r := FromPy(order, ToPy(d), depth);
            && (r.Success? <==> Bounded(d, depth))
            && (r.Success? ==> r.value == Normalised(d))
  {
    AcceptsExactly(order, ToPy(d), depth);
    ConvertibleWhenBounded(d, depth);
    var r := FromPy(order, ToPy(d), depth);
    if r.Success? {
      SameFormSameNormal(r.value, d);
      ResultIsNormal(order, ToPy(d), depth);
    }
  }

  lemma {:induction false} ItemsAreNormal(order: Iteration, p: Py, from: nat, depth: nat)
    requires Iterates(order) && p.PyList? && from <= |p.items| && FromItems(order, p, from, depth).Success?
    ensures forall d | d in FromItems(order, p, from, depth).value :: Normalised(d) == d
    decreases p, 0, |p.items| - from
  {
    if from < |p.items| {
      ResultIsNormal(order, p.items[from], depth + 1);
      ItemsAreNormal(order, p, from + 1, depth);
    }
  }

  lemma {:induction false} EntriesAreNormal(order: Iteration, p: Py, keys: seq<Py>, from: nat, depth: nat)
    requires Iterates(order) && p.PyDict? && from <= |keys| && forall key | key in keys :: key in p.entries
    requires FromEntries(order, p, keys, from, depth).Success?
    ensures var entries := FromEntries(order, p, keys, from, depth).value;
            forall key | key in entries :: Normalised(entries[key]) == entries[key]
    decreases p, 0, |keys| - from
  {
    if from < |keys| {
      ResultIsNormal(order, p.entries[keys[from]], depth + 1);
      EntriesAreNormal(order, p, keys, from + 1, depth);
    }
  }

  // Conversion only produces normal documents.
  lemma {:induction false} ResultIsNormal(order: Iteration, p: Py, depth: nat)
    requires Iterates(order) && FromPy(order, p, depth).Success?
    ensures Normalised(FromPy(order, p, depth).value) == FromPy(order, p, depth).value
    decreases p, 1
  {
    if p.PyList? {
      ItemsAreNormal(order, p, 0, depth);
    } else if p.PyDict? {
      EntriesAreNormal(order, p, order(p.entries), 0, depth);
    }
  }
}
