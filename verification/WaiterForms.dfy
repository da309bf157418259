/**
 The Python forms of a type's values, and what looks like them where sets have been flattened one
 level too far: two relations between Python values and types that evaluation keeps, with what the
 operations on lists and members make of them.
 */
module WaiterForms {
  import opened Wrappers
  import opened PyValues
  import opened Smithy
  import opened WaiterCompiler
  import opened WaiterRuntime
  import opened Responses
  import WaiterMeaning
  import opened WaiterCorrectness

  // The Python form of some value of the type, null included.
  ghost predicate IsFormOf(svc: Service, p: Py, t: Type) {
    exists u :: Conforms(svc, u, t) && p == Represent(svc, u, t)
  }

  ghost predicate Safe(svc: Service, outcome: Outcome, t: Type) {
    outcome.Missing? || (outcome.Val? && IsFormOf(svc, outcome.value, t))
  }

  lemma FormIsSafe(svc: Service, v: Value, t: Type)
    requires Conforms(svc, v, t)
    ensures Safe(svc, Val(Represent(svc, v, t)), t)
  {
    hide Conforms, Represent;
  }

  lemma AgreementIsSafe(svc: Service, answer: WaiterMeaning.Answer, outcome: Outcome, t: Type)
    requires Agrees(svc, answer, outcome, t)
    ensures Safe(svc, outcome, t)
  {
    hide Conforms, Represent;
    if !answer.value.Null? {
      FormIsSafe(svc, answer.value, t);
    }
  }

  // ---------- Lists of forms ----------

  lemma ValueOf(svc: Service, p: Py, t: Type) returns (u: Value)
    requires IsFormOf(svc, p, t)
    ensures Conforms(svc, u, t) && p == Represent(svc, u, t)
  {
    u :| Conforms(svc, u, t) && p == Represent(svc, u, t);
  }

  lemma {:induction false} FormsOfValues(svc: Service, forms: seq<Py>, t: Type) returns (values: seq<Value>)
    requires forall p | p in forms :: IsFormOf(svc, p, t)
    ensures forms == RepresentAll(svc, values, t) && forall u | u in values :: Conforms(svc, u, t)
  {
    hide Conforms, Represent;
    if forms == [] {
      values := [];
    } else {
      var u := ValueOf(svc, forms[0], t);
      var rest := FormsOfValues(svc, forms[1..], t);
      values := [u] + rest;
      RepresentConcat(svc, [u], rest, t);
      RepresentOne(svc, u, t);
      assert forms == [forms[0]] + forms[1..];
    }
  }

  lemma ListIsForm(svc: Service, forms: seq<Py>, element: Type)
    requires forall p | p in forms :: IsFormOf(svc, p, element)
    ensures IsFormOf(svc, PyList(forms), ListOf(element))
  {
    hide Represent;
    var values := FormsOfValues(svc, forms, element);
    ListRepresented(svc, values, ListOf(element));
    assert Conforms(svc, List(values), ListOf(element));
  }

  lemma ItemsAreForms(svc: Service, v: Value, t: Type)
    requires Conforms(svc, v, t) && ItemOf(svc, t).Success? && Represent(svc, v, t).PyList?
    ensures forall p | p in Represent(svc, v, t).items :: IsFormOf(svc, p, ItemOf(svc, t).value)
  {
    hide Conforms, Represent, ItemOf;
    assert !v.Null? by {
      NullIsNone(svc, t);
    }
    ItemsConform(svc, v, t);
  }

  lemma NullIsNone(svc: Service, t: Type)
    ensures Represent(svc, Null, t) == PyNone && Conforms(svc, Null, t)
  {}

  // ---------- Lists spliced too far ----------

  // The type `levels` steps down from collections to their items.
  function ItemsAt(svc: Service, t: Type, levels: nat): Option<Type>
    decreases levels
  {
    if levels == 0 then Some(t)
    else if ItemOf(svc, t).Failure? then None
    else ItemsAt(svc, ItemOf(svc, t).value, levels - 1)
  }

  // A flattened set is typed as if it had kept its level, so a value of a type may really be one
  // of its items, or one of their items, and so on.
  ghost predicate LooksLike(svc: Service, p: Py, t: Type)
    decreases p, 1
  {
    p.PyNone? ||
    exists levels: nat :: ItemsAt(svc, t, levels).Some? && LooksExactlyLike(svc, p, ItemsAt(svc, t, levels).value)
  }

  ghost predicate LooksExactlyLike(svc: Service, p: Py, t: Type)
    decreases p, 0
  {
    if ItemOf(svc, t).Success?
    then p.PyList? && forall item | item in p.items :: LooksLike(svc, item, ItemOf(svc, t).value)
    else IsFormOf(svc, p, t)
  }

  lemma {:induction false} ItemsBelow(svc: Service, t: Type, upper: nat, lower: nat)
    requires ItemsAt(svc, t, upper).Some?
    ensures ItemsAt(svc, t, upper + lower) == ItemsAt(svc, ItemsAt(svc, t, upper).value, lower)
    decreases upper
  {
    if upper > 0 {
      ItemsBelow(svc, ItemOf(svc, t).value, upper - 1, lower);
    }
  }

  lemma LooksLikeAbove(svc: Service, p: Py, t: Type, levels: nat)
    requires ItemsAt(svc, t, levels).Some? && LooksLike(svc, p, ItemsAt(svc, t, levels).value)
    ensures LooksLike(svc, p, t)
  {
    hide LooksExactlyLike;
    if !p.PyNone? {
      var below := ItemsAt(svc, t, levels).value;
      var lower: nat :| ItemsAt(svc, below, lower).Some? && LooksExactlyLike(svc, p, ItemsAt(svc, below, lower).value);
      ItemsBelow(svc, t, levels, lower);
    }
  }

  lemma LooksExactlyIsLike(svc: Service, p: Py, t: Type)
    requires LooksExactlyLike(svc, p, t)
    ensures LooksLike(svc, p, t)
  {
    hide LooksExactlyLike;
    assert ItemsAt(svc, t, 0) == Some(t);
  }

  lemma {:induction false} FormLooksLike(svc: Service, v: Value, t: Type)
    requires Conforms(svc, v, t)
    ensures LooksLike(svc, Represent(svc, v, t), t)
    decreases v
  {
    hide Conforms, Represent, LooksLike, ItemOf;
    if v.Null? {
      NullIsNone(svc, t);
      NoneLooksLike(svc, t);
    } else if ItemOf(svc, t).Success? {
      var item := ItemOf(svc, t).value;
      ItemsConform(svc, v, t);
      forall x | x in v.items
        ensures LooksLike(svc, Represent(svc, x, item), item)
      {
        FormLooksLike(svc, x, item);
      }
      LooksExactlyIsLike(svc, Represent(svc, v, t), t);
    } else {
      LooksExactlyIsLike(svc, Represent(svc, v, t), t);
    }
  }

  lemma NoneLooksLike(svc: Service, t: Type)
    ensures LooksLike(svc, PyNone, t)
  {}

  // Only documents are lists without being collections.
  lemma DocumentItems(svc: Service, p: Py, t: Type)
    requires IsFormOf(svc, p, t) && ItemOf(svc, t).Failure? && p.PyList?
    ensures forall item | item in p.items :: IsFormOf(svc, item, t)
  {
    var v := ValueOf(svc, p, t);
    assert v.List? && KindOf(svc, t) == Success(DocumentKind);
    assert ElementType(svc, t) == t;
    forall item | item in p.items
      ensures IsFormOf(svc, item, t)
    {
      var i :| 0 <= i < |p.items| && p.items[i] == item;
      assert v.items[i] in v.items;
      assert Conforms(svc, v.items[i], t) && item == Represent(svc, v.items[i], t);
    }
  }

  lemma ItemsLookLike(svc: Service, p: Py, t: Type)
    requires LooksLike(svc, p, t) && p.PyList?
    ensures var item := if ItemOf(svc, t).Success? then ItemOf(svc, t).value else t;
            forall q | q in p.items :: LooksLike(svc, q, item)
  {
    hide LooksLike, IsFormOf, ItemOf;
    var levels := LevelOf(svc, p, t);
    var exact := ItemsAt(svc, t, levels).value;
    var item := if ItemOf(svc, t).Success? then ItemOf(svc, t).value else t;
    if ItemOf(svc, exact).Success? {
      ItemsBelow(svc, t, levels, 1);
      assert ItemsAt(svc, exact, 1) == ItemsAt(svc, ItemOf(svc, exact).value, 0);
      forall q | q in p.items
        ensures LooksLike(svc, q, item)
      {
        LooksLikeAbove(svc, q, item, levels);
      }
    } else {
      DocumentItems(svc, p, exact);
      forall q | q in p.items
        ensures LooksLike(svc, q, item)
      {
        var u := ValueOf(svc, q, exact);
        FormLooksLike(svc, u, exact);
        LooksLikeAbove(svc, q, item, if levels == 0 then 0 else levels - 1);
      }
    }
  }

  lemma LevelOf(svc: Service, p: Py, t: Type) returns (levels: nat)
    requires LooksLike(svc, p, t) && !p.PyNone?
    ensures ItemsAt(svc, t, levels).Some? && LooksExactlyLike(svc, p, ItemsAt(svc, t, levels).value)
  {
    hide LooksExactlyLike;
    levels :| ItemsAt(svc, t, levels).Some? && LooksExactlyLike(svc, p, ItemsAt(svc, t, levels).value);
  }

  // What looks like a collection and is no list looks like an item.
  lemma LooksLikeItem(svc: Service, p: Py, t: Type)
    requires LooksLike(svc, p, t) && !p.PyList? && ItemOf(svc, t).Success?
    ensures LooksLike(svc, p, ItemOf(svc, t).value)
  {
    hide LooksLike, ItemOf;
    if p.PyNone? {
      NoneLooksLike(svc, ItemOf(svc, t).value);
    } else {
      var levels := LevelOf(svc, p, t);
      assert levels > 0;
      LooksExactlyIsLike(svc, p, ItemsAt(svc, t, levels).value);
      LooksLikeAbove(svc, p, ItemOf(svc, t).value, levels - 1);
    }
  }

  lemma SplicedLookLike(svc: Service, p: Py, item: Type, element: Type)
    requires LooksLike(svc, p, item) && Unwrapped(svc, item, element)
    ensures forall q | q in FlattenItems([p]) :: LooksLike(svc, q, element)
  {
    hide LooksLike;
    assert [p][1..] == [];
    assert FlattenItems([p]) == if p.PyList? then p.items else [p];
    if p.PyList? {
      ItemsLookLike(svc, p, item);
      if ItemOf(svc, item).Success? && element == item {
        assert ItemsAt(svc, item, 1) == ItemsAt(svc, ItemOf(svc, item).value, 0);
        forall q | q in p.items
          ensures LooksLike(svc, q, element)
        {
          LooksLikeAbove(svc, q, item, 1);
        }
      }
    } else if ItemOf(svc, item).Success? {
      LooksLikeItem(svc, p, item);
    }
  }

  lemma {:induction false} FlattenedLookLike(svc: Service, items: seq<Py>, item: Type, element: Type)
    requires Unwrapped(svc, item, element) && forall p | p in items :: LooksLike(svc, p, item)
    ensures forall q | q in FlattenItems(items) :: LooksLike(svc, q, element)
  {
    hide LooksLike, Unwrapped;
    if items != [] {
      FlattenedLookLike(svc, items[1..], item, element);
      SplicedLookLike(svc, items[0], item, element);
      FlattenItemsOfConcat(items[0], items[1..]);
      assert items == [items[0]] + items[1..];
    }
  }

  // ---------- Both at once ----------

  // What evaluation keeps: a form of the type, or, where sets may be flattened, what looks like it.
  ghost predicate Suits(svc: Service, p: Py, t: Type, sets: bool) {
    if sets then LooksLike(svc, p, t) else IsFormOf(svc, p, t)
  }

  ghost predicate Yields(svc: Service, outcome: Outcome, t: Type, sets: bool) {
    outcome.Missing? || (outcome.Val? && Suits(svc, outcome.value, t, sets))
  }

  lemma FormSuits(svc: Service, p: Py, t: Type, sets: bool)
    requires IsFormOf(svc, p, t)
    ensures Suits(svc, p, t, sets)
  {
    hide LooksLike, Conforms, Represent;
    var v := ValueOf(svc, p, t);
    FormLooksLike(svc, v, t);
  }

  lemma SafeYields(svc: Service, outcome: Outcome, t: Type, sets: bool)
    requires Safe(svc, outcome, t)
    ensures Yields(svc, outcome, t, sets)
  {
    hide IsFormOf, Suits;
    if outcome.Val? {
      FormSuits(svc, outcome.value, t, sets);
    }
  }

  lemma ItemsSuit(svc: Service, p: Py, t: Type, sets: bool)
    requires Suits(svc, p, t, sets) && p.PyList? && ItemOf(svc, t).Success?
    ensures forall q | q in p.items :: Suits(svc, q, ItemOf(svc, t).value, sets)
  {
    hide LooksLike, IsFormOf, ItemOf;
    if sets {
      ItemsLookLike(svc, p, t);
    } else {
      var v := ValueOf(svc, p, t);
      ItemsAreForms(svc, v, t);
    }
  }

  lemma ListSuits(svc: Service, items: seq<Py>, element: Type, sets: bool)
    requires forall p | p in items :: Suits(svc, p, element, sets)
    ensures Suits(svc, PyList(items), ListOf(element), sets)
  {
    hide LooksLike, IsFormOf;
    if sets {
      LooksExactlyIsLike(svc, PyList(items), ListOf(element));
    } else {
      ListIsForm(svc, items, element);
    }
  }

  lemma FlattenedSuit(svc: Service, items: seq<Py>, item: Type, element: Type, sets: bool)
    requires Unwrapped(svc, item, element) && (sets || Unwraps(svc, item, element))
    requires forall p | p in items :: Suits(svc, p, item, sets)
    ensures forall q | q in FlattenItems(items) :: Suits(svc, q, element, sets)
  {
    hide LooksLike, IsFormOf, Unwrapped, Unwraps, FlattenItems;
    if sets {
      FlattenedLookLike(svc, items, item, element);
    } else {
      var values := FormsOfValues(svc, items, item);
      FlattenRepresented(svc, values, item, element);
      RepresentedAreForms(svc, WaiterMeaning.Flattened(values), element);
    }
  }

  lemma RepresentedAreForms(svc: Service, items: seq<Value>, t: Type)
    requires forall x | x in items :: Conforms(svc, x, t)
    ensures forall p | p in RepresentAll(svc, items, t) :: IsFormOf(svc, p, t)
  {
    hide Conforms, Represent;
  }

  lemma LooksLikeForm(svc: Service, p: Py, t: Type)
    requires LooksLike(svc, p, t) && ItemOf(svc, t).Failure?
    ensures IsFormOf(svc, p, t)
  {
    hide LooksLike, ItemOf, IsFormOf;
    if p.PyNone? {
      NoneIsForm(svc, t);
    } else {
      var levels := LevelOf(svc, p, t);
      assert levels == 0;
    }
  }

  lemma NoneIsForm(svc: Service, t: Type)
    ensures IsFormOf(svc, PyNone, t)
  {
    NullIsNone(svc, t);
  }

  lemma FieldIsSafe(svc: Service, value: Lit, t: Type, v: Value)
    requires WellNamed(svc) && Conforms(svc, v, t) && CompileField(svc, value, t).Success?
    ensures var typed := CompileField(svc, value, t).value;
            Safe(svc, ReadField(typed.expr.value.text, Represent(svc, v, t)), typed.ty)
  {
    hide Conforms, Represent, Agrees;
    if v.Null? {
      NullIsNone(svc, t);
    } else {
      FieldAgrees(svc, value, t, v);
      var typed := CompileField(svc, value, t).value;
      AgreementIsSafe(svc, WaiterMeaning.MeaningOfField(value.text, v),
                      ReadField(typed.expr.value.text, Represent(svc, v, t)), typed.ty);
    }
  }

  lemma FieldSuits(svc: Service, value: Lit, p: Py, t: Type, sets: bool)
    requires WellNamed(svc) && Suits(svc, p, t, sets) && CompileField(svc, value, t).Success?
    ensures var typed := CompileField(svc, value, t).value;
            Yields(svc, ReadField(typed.expr.value.text, p), typed.ty, sets)
    ensures p.PyNone? || p.PyDict? || p.PyObject?
  {
    hide LooksLike, IsFormOf, Conforms, Represent, Safe, Yields, WellNamed;
    assert ItemOf(svc, t).Failure?;
    if sets {
      LooksLikeForm(svc, p, t);
    }
    var v := ValueOf(svc, p, t);
    FieldIsSafe(svc, value, t, v);
    var typed := CompileField(svc, value, t).value;
    SafeYields(svc, ReadField(typed.expr.value.text, p), typed.ty, sets);
    MembersHaveFields(svc, t, v);
  }

  lemma MembersHaveFields(svc: Service, t: Type, v: Value)
    requires Conforms(svc, v, t) && TargetShape(svc, t).Some? && HasMembers(TargetShape(svc, t).value.kind)
    ensures var p := Represent(svc, v, t); p.PyNone? || p.PyDict? || p.PyObject?
  {}
}
