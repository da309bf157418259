/** The six comparison operators, by their spelling. */
module WaiterComparisons {
  import opened Wrappers
  import opened PyValues
  import opened WaiterCompiler
  import opened WaiterRuntime
  import opened Responses
  import opened WaiterMeaning

  // ---------- At run time ----------

  predicate IsFinite(p: Py) {
    p.PyInt? || (p.PyFloat? && p.float.Finite?)
  }

  function RealOf(p: Py): real
    requires IsFinite(p)
  {
    if p.PyInt? then p.number as real else p.float.value
  }

  // What a comparator spelt this way evaluates to.
  function Compared(operator: string, l: Expr, r: Expr, context: Py): Outcome {
    Evaluate(Expr(Comparator, StrLit(operator), [l, r]), context)
  }

  /** Numbers compare as numbers, integers and floats alike. */
  lemma ComparesNumbers(l: Expr, r: Expr, context: Py, a: Py, b: Py)
    requires Evaluate(l, context) == Val(a) && Evaluate(r, context) == Val(b) && IsFinite(a) && IsFinite(b)
    ensures Compared("eq", l, r, context) == Val(PyBool(RealOf(a) == RealOf(b)))
    ensures Compared("ne", l, r, context) == Val(PyBool(RealOf(a) != RealOf(b)))
    ensures Compared("gt", l, r, context) == Val(PyBool(RealOf(a) > RealOf(b)))
    ensures Compared("gte", l, r, context) == Val(PyBool(RealOf(a) >= RealOf(b)))
    ensures Compared("lt", l, r, context) == Val(PyBool(RealOf(a) < RealOf(b)))
    ensures Compared("lte", l, r, context) == Val(PyBool(RealOf(a) <= RealOf(b)))
  {
    AllOperands(l, r, context, a, b);
    Spellings();
    hide ComparisonOf, Compared, Evaluate;
  }

  lemma Spellings()
    ensures ComparisonOf(StrLit("eq")) == Some(Eq) && ComparisonOf(StrLit("ne")) == Some(Ne)
    ensures ComparisonOf(StrLit("gt")) == Some(Gt) && ComparisonOf(StrLit("gte")) == Some(Gte)
    ensures ComparisonOf(StrLit("lt")) == Some(Lt) && ComparisonOf(StrLit("lte")) == Some(Lte)
  {}

  // A comparator compares what its operands evaluate to.
  lemma ComparesOperands(operator: string, l: Expr, r: Expr, context: Py, a: Py, b: Py)
    requires Evaluate(l, context) == Val(a) && Evaluate(r, context) == Val(b)
    ensures Compared(operator, l, r, context) == Compare(StrLit(operator), a, b)
  {
    hide Compare;
    var expr := Expr(Comparator, StrLit(operator), [l, r]);
    assert expr.children[0] == l && expr.children[1] == r;
    assert Evaluate(expr, context) == EvaluateBinary(expr, context);
  }

  lemma AllOperands(l: Expr, r: Expr, context: Py, a: Py, b: Py)
    requires Evaluate(l, context) == Val(a) && Evaluate(r, context) == Val(b)
    ensures forall operator | operator in ["eq", "ne", "gt", "gte", "lt", "lte"] ::
              Compared(operator, l, r, context) == Compare(StrLit(operator), a, b)
  {
    hide Compared, Compare, Evaluate;
    forall operator | operator in ["eq", "ne", "gt", "gte", "lt", "lte"]
      ensures Compared(operator, l, r, context) == Compare(StrLit(operator), a, b)
    {
      ComparesOperands(operator, l, r, context, a, b);
    }
  }

  /** Infinities lie beyond all other numbers, and nothing but inequality holds of NaN. */
  lemma ComparesSpecials(l: Expr, r: Expr, context: Py, a: Py, b: Py)
    requires Evaluate(l, context) == Val(a) && Evaluate(r, context) == Val(b)
    requires IsNumber(a) && IsNumber(b) && !(IsFinite(a) && IsFinite(b))
    ensures var nan := a == PyFloat(NotANumber) || b == PyFloat(NotANumber);
            var above := !nan && a != b && (a == PyFloat(Infinite(false)) || b == PyFloat(Infinite(true)));
            var below := !nan && a != b && (b == PyFloat(Infinite(false)) || a == PyFloat(Infinite(true)));
            && Compared("eq", l, r, context) == Val(PyBool(!nan && a == b))
            && Compared("ne", l, r, context) == Val(PyBool(nan || a != b))
            && Compared("gt", l, r, context) == Val(PyBool(above))
            && Compared("gte", l, r, context) == Val(PyBool(above || (!nan && a == b)))
            && Compared("lt", l, r, context) == Val(PyBool(below))
            && Compared("lte", l, r, context) == Val(PyBool(below || (!nan && a == b)))
  {
    AllOperands(l, r, context, a, b);
    Spellings();
    hide ComparisonOf, Compared, Evaluate;
  }

  /** Strings and booleans are equal when they are the same. */
  lemma ComparesTexts(l: Expr, r: Expr, context: Py, a: Py, b: Py)
    requires Evaluate(l, context) == Val(a) && Evaluate(r, context) == Val(b)
    requires (a.PyStr? && b.PyStr?) || (a.PyBool? && b.PyBool?)
    ensures Compared("eq", l, r, context) == Val(PyBool(a == b))
    ensures Compared("ne", l, r, context) == Val(PyBool(a != b))
  {
    AllOperands(l, r, context, a, b);
    Spellings();
    hide ComparisonOf, Compared, Evaluate;
  }

  // ---------- In meaning ----------

  predicate HasReal(v: Value) {
    v.Int? || (v.Flt? && v.float.Finite?)
  }

  function RealIn(v: Value): real
    requires HasReal(v)
  {
    if v.Int? then v.number as real else v.float.value
  }

  function Meant(operator: string, l: Node, r: Node, v: Value): Answer {
    Meaning(Node(Comparator, StrLit(operator), [l, r]), v)
  }

  lemma MeansOperands(operator: string, l: Node, r: Node, v: Value)
    ensures Meant(operator, l, r, v) == MeaningOfBinary(Comparator, StrLit(operator), Meaning(l, v), Meaning(r, v))
  {
    hide MeaningOfBinary;
    var node := Node(Comparator, StrLit(operator), [l, r]);
    assert node.children[0] == l && node.children[1] == r;
  }

  lemma AllMeanings(l: Node, r: Node, v: Value)
    ensures forall operator | operator in ["eq", "ne", "gt", "gte", "lt", "lte"] ::
              Meant(operator, l, r, v) == MeaningOfBinary(Comparator, StrLit(operator), Meaning(l, v), Meaning(r, v))
  {
    hide Meant, Meaning, MeaningOfBinary;
    forall operator | operator in ["eq", "ne", "gt", "gte", "lt", "lte"]
      ensures Meant(operator, l, r, v) == MeaningOfBinary(Comparator, StrLit(operator), Meaning(l, v), Meaning(r, v))
    {
      MeansOperands(operator, l, r, v);
    }
  }

  /** The reference meaning orders the modelled numbers the same way. */
  lemma MeansOrder(l: Node, r: Node, v: Value, a: Value, b: Value)
    requires Meaning(l, v) == Answer(a) && Meaning(r, v) == Answer(b) && HasReal(a) && HasReal(b)
    ensures Meant("eq", l, r, v) == Answer(Bool(RealIn(a) == RealIn(b)))
    ensures Meant("ne", l, r, v) == Answer(Bool(RealIn(a) != RealIn(b)))
    ensures Meant("gt", l, r, v) == Answer(Bool(RealIn(a) > RealIn(b)))
    ensures Meant("gte", l, r, v) == Answer(Bool(RealIn(a) >= RealIn(b)))
    ensures Meant("lt", l, r, v) == Answer(Bool(RealIn(a) < RealIn(b)))
    ensures Meant("lte", l, r, v) == Answer(Bool(RealIn(a) <= RealIn(b)))
  {
    AllMeanings(l, r, v);
    Spellings();
    hide ComparisonOf, Meant, Meaning;
  }
}
