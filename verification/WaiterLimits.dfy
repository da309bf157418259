/** Where the guarantees of compiled waiter expressions stop, exactly. */
module WaiterLimits {
  import opened Wrappers
  import opened PyValues
  import opened Smithy
  import opened WaiterCompiler
  import opened WaiterRuntime
  import opened Responses
  import opened WaiterMeaning
  import opened WaiterCorrectness
  import opened WaiterForms
  import opened WaiterSoundness
  import opened WaiterReads

  // ---------- Lists of sets ----------

  // Every value of the type flattens to nothing or to a value of the compiled type.
  ghost predicate FlattenIsTyped(svc: Service, t: Type) {
    var typed := Compile(svc, FLATTEN_THIS, t);
    typed.Success? ==>
      forall v | Conforms(svc, v, t) :: Safe(svc, Evaluate(typed.value.expr, Represent(svc, v, t)), typed.value.ty)
  }

  // A type with values that are neither null nor lists.
  predicate HasAtoms(svc: Service, t: Type) {
    var kind := KindOf(svc, t);
    && t.Plain? && kind.Success?
    && match kind.value
       case Structure => TargetShape(svc, t).Some?
       case Union => TargetShape(svc, t).Some?
       case MapKind => TargetShape(svc, t).Some? && TargetShape(svc, t).value.valueTarget.Some?
       case ListKind => false
       case SetKind => false
       case UnitKind => false
       case _ => true
  }

  predicate AtomsAt(svc: Service, t: Type, levels: nat) {
    ItemsAt(svc, t, levels).Some? && HasAtoms(svc, ItemsAt(svc, t, levels).value)
  }

  // Sets whose members, taken apart level by level, end in something that is no list. A type with
  // more levels than there are shapes never ends.
  predicate SetOfAtoms(svc: Service, item: Type) {
    KindOf(svc, item) == Success(SetKind) && exists levels: nat | levels <= |svc.shapes| :: AtomsAt(svc, item, levels)
  }

  // Some member of such a set has a form that no such set has.
  ghost predicate MemberIsNoSet(svc: Service, item: Type) {
    && KindOf(svc, item) == Success(SetKind) && ItemOf(svc, item).Success?
    && exists x ::
         && Conforms(svc, x, ItemOf(svc, item).value)
         && !IsFormOf(svc, Represent(svc, x, ItemOf(svc, item).value), item)
  }

  lemma FlattenThisCompiles(svc: Service, t: Type)
    requires ItemOf(svc, t).Success? && KindOf(svc, ItemOf(svc, t).value) == Success(SetKind)
    ensures Compile(svc, FLATTEN_THIS, t) == Success(Typed(FLATTEN_THIS_EXPR, ListOf(ItemOf(svc, t).value)))
  {
    ThisCompiles(svc, t);
    assert Compile(svc, FLATTEN_THIS.children[0], t) == Success(Typed(THIS_EXPR, t));
  }

  // A list of sets of members that look like such sets flattens to a list of such sets.
  lemma {:induction false} FlattenedLookLikeSets(svc: Service, items: seq<Value>, item: Type)
    requires KindOf(svc, item) == Success(SetKind) && !MemberIsNoSet(svc, item)
    requires forall y | y in items :: Conforms(svc, y, item)
    ensures forall p | p in FlattenItems(RepresentAll(svc, items, item)) :: IsFormOf(svc, p, item)
  {
    hide Conforms, Represent, FlattenItems, MemberIsNoSet, IsFormOf, KindOf;
    if items == [] {
      NothingFlattened(svc, item, item);
      assert RepresentAll(svc, [], item) == [];
    } else {
      var rest := items[1..];
      FlattenedLookLikeSets(svc, rest, item);
      OneFlattenedLooksLikeSet(svc, items[0], item);
      FlattenItemsOfConcat(Represent(svc, items[0], item), RepresentAll(svc, rest, item));
      assert RepresentAll(svc, items, item) == [Represent(svc, items[0], item)] + RepresentAll(svc, rest, item);
    }
  }

  lemma OneFlattenedLooksLikeSet(svc: Service, y: Value, item: Type)
    requires KindOf(svc, item) == Success(SetKind) && !MemberIsNoSet(svc, item) && Conforms(svc, y, item)
    ensures forall p | p in FlattenItems([Represent(svc, y, item)]) :: IsFormOf(svc, p, item)
  {
    var represented := Represent(svc, y, item);
    assert [represented][1..] == [];
    if y.Null? {
      NullIsNone(svc, item);
      assert FlattenItems([represented]) == [represented];
      assert IsFormOf(svc, represented, item);
    } else {
      SetHasItems(svc, y, item);
      ItemsConform(svc, y, item);
      assert FlattenItems([represented]) == represented.items;
      RepresentedAreForms(svc, y.items, ItemOf(svc, item).value);
      forall p | p in represented.items
        ensures IsFormOf(svc, p, item)
      {
        var x := ValueOf(svc, p, ItemOf(svc, item).value);
      }
    }
  }

  lemma SetHasItems(svc: Service, y: Value, item: Type)
    requires KindOf(svc, item) == Success(SetKind) && Conforms(svc, y, item) && !y.Null?
    ensures ItemOf(svc, item).Success? && y.List?
  {}

  // A list of one set of one member that looks like no such set.
  lemma MemberFlattensWrongly(svc: Service, t: Type, x: Value)
    requires ItemOf(svc, t).Success? && KindOf(svc, ItemOf(svc, t).value) == Success(SetKind)
    requires ItemOf(svc, ItemOf(svc, t).value).Success?
    requires Conforms(svc, x, ItemOf(svc, ItemOf(svc, t).value).value)
    requires !IsFormOf(svc, Represent(svc, x, ItemOf(svc, ItemOf(svc, t).value).value), ItemOf(svc, t).value)
    ensures var v := List([List([x])]);
            && Conforms(svc, v, t)
            && !Safe(svc, Evaluate(FLATTEN_THIS_EXPR, Represent(svc, v, t)), ListOf(ItemOf(svc, t).value))
  {
    hide Represent;
    var set_ := ItemOf(svc, t).value;
    var member := ItemOf(svc, set_).value;
    var v := List([List([x])]);
    var leaf := Represent(svc, x, member);
    ListConforms(svc, [x], set_);
    ListConforms(svc, [List([x])], t);
    ItemIsElement(svc, t);
    ItemIsElement(svc, set_);
    ListRepresented(svc, [x], set_);
    ListRepresented(svc, [List([x])], t);
    RepresentOne(svc, x, member);
    RepresentOne(svc, List([x]), set_);
    assert Represent(svc, v, t) == PyList([PyList([leaf])]);
    FlattenThisEvaluates(Represent(svc, v, t));
    FlattenOne(leaf);
    ItemOfForm(svc, leaf, set_);
  }

  lemma ItemOfForm(svc: Service, p: Py, element: Type)
    ensures IsFormOf(svc, PyList([p]), ListOf(element)) ==> IsFormOf(svc, p, element)
  {
    hide Represent;
    if IsFormOf(svc, PyList([p]), ListOf(element)) {
      var u := ValueOf(svc, PyList([p]), ListOf(element));
      ItemsAreForms(svc, u, ListOf(element));
      assert p in [p];
    }
  }

  lemma SetFormIsList(svc: Service, p: Py, t: Type)
    requires KindOf(svc, t) == Success(SetKind)
    ensures IsFormOf(svc, p, t) ==> p.PyNone? || p.PyList?
  {
    if IsFormOf(svc, p, t) {
      var u := ValueOf(svc, p, t);
    }
  }

  lemma FlattenOne(leaf: Py)
    ensures FlattenItems([PyList([leaf])]) == [leaf]
  {
    assert [PyList([leaf])][1..] == [];
    assert FlattenItems([PyList([leaf])]) == [leaf] + FlattenItems([]);
  }

  // ---------- Members that are no such sets ----------

  lemma AtomOf(svc: Service, t: Type) returns (x: Value)
    requires HasAtoms(svc, t)
    ensures Conforms(svc, x, t) && !x.Null? && !x.List?
  {
    var kind := KindOf(svc, t).value;
    x := if kind.Structure? then Struct(map[])
         else if kind.Union? then UnknownVariant
         else if kind.MapKind? then Mapping(map[])
         else if IsNumeric(kind) then Int(0)
         else if kind.BlobKind? then Bytes([])
         else if kind.BooleanKind? then Bool(true)
         else Str("");
  }

  lemma AtomsAreValues(svc: Service, t: Type, x: Value)
    requires Conforms(svc, x, t) && !x.Null? && !x.List?
    ensures HasAtoms(svc, t)
  {}

  // A value inside `levels` lists.
  function Nest(x: Value, levels: nat): Value {
    if levels == 0 then x else List([Nest(x, levels - 1)])
  }

  lemma ListConforms(svc: Service, items: seq<Value>, t: Type)
    requires ItemOf(svc, t).Success? && forall x | x in items :: Conforms(svc, x, ItemOf(svc, t).value)
    ensures Conforms(svc, List(items), t)
  {}

  lemma {:induction false} NestedConforms(svc: Service, x: Value, t: Type, levels: nat)
    requires ItemsAt(svc, t, levels).Some? && Conforms(svc, x, ItemsAt(svc, t, levels).value)
    ensures Conforms(svc, Nest(x, levels), t)
    decreases levels
  {
    hide Conforms, ItemOf;
    if levels > 0 {
      NestedConforms(svc, x, ItemOf(svc, t).value, levels - 1);
      ListConforms(svc, [Nest(x, levels - 1)], t);
    }
  }

  lemma AtomIsNoList(svc: Service, x: Value, t: Type)
    requires Conforms(svc, x, t) && !x.Null? && !x.List?
    ensures !Represent(svc, x, t).PyNone? && !Represent(svc, x, t).PyList?
  {
    OnlyNullIsNone(svc, x, t);
  }

  // An atom of the members, as deep inside them as it lies, is not as deep inside the set.
  lemma {:induction false} NestedIsNoForm(svc: Service, x: Value, t: Type, levels: nat)
    requires ItemOf(svc, t).Success? && ItemsAt(svc, ItemOf(svc, t).value, levels).Some?
    requires Conforms(svc, x, ItemsAt(svc, ItemOf(svc, t).value, levels).value) && !x.Null? && !x.List?
    ensures !IsFormOf(svc, Represent(svc, Nest(x, levels), ItemOf(svc, t).value), t)
    decreases levels
  {
    hide Conforms, Represent, ItemOf, IsFormOf, Suits;
    var member := ItemOf(svc, t).value;
    var form := Represent(svc, Nest(x, levels), member);
    if IsFormOf(svc, form, t) {
      FormSuits(svc, form, t, false);
      CollectionIsList(svc, form, t);
      if levels == 0 {
        AtomIsNoList(svc, x, member);
      } else {
        var inner := Nest(x, levels - 1);
        NestedConforms(svc, x, member, levels);
        ItemsConform(svc, Nest(x, levels), member);
        assert form == PyList(RepresentAll(svc, [inner], ItemOf(svc, member).value));
        RepresentOne(svc, inner, ItemOf(svc, member).value);
        assert Represent(svc, inner, ItemOf(svc, member).value) in form.items;
        FormItems(svc, form, t);
        NestedIsNoForm(svc, x, member, levels - 1);
      }
    }
  }

  lemma FormItems(svc: Service, p: Py, t: Type)
    requires IsFormOf(svc, p, t) && p.PyList? && ItemOf(svc, t).Success?
    ensures forall q | q in p.items :: IsFormOf(svc, q, ItemOf(svc, t).value)
  {
    hide Conforms, Represent, ItemOf;
    var v := ValueOf(svc, p, t);
    ItemsAreForms(svc, v, t);
  }

  // Where nothing but lists and nulls comes below, a member is a value of the collection too.
  lemma {:induction false} MemberIsCollection(svc: Service, x: Value, t: Type)
    requires ItemOf(svc, t).Success? && Conforms(svc, x, ItemOf(svc, t).value)
    requires forall levels: nat :: !AtomsAt(svc, ItemOf(svc, t).value, levels)
    ensures Conforms(svc, x, t) && Represent(svc, x, t) == Represent(svc, x, ItemOf(svc, t).value)
    decreases x
  {
    hide Conforms, Represent, ItemOf, HasAtoms;
    var member := ItemOf(svc, t).value;
    if x.Null? {
      NullIsNone(svc, t);
      NullIsNone(svc, member);
    } else {
      assert !AtomsAt(svc, member, 0);
      if !x.List? {
        AtomsAreValues(svc, member, x);
      }
      ListsHaveItems(svc, x, member);
      var inner := ItemOf(svc, member).value;
      ItemsConform(svc, x, member);
      forall y | y in x.items
        ensures Conforms(svc, y, member) && Represent(svc, y, member) == Represent(svc, y, inner)
      {
        forall levels: nat
          ensures !AtomsAt(svc, inner, levels)
        {
          assert !AtomsAt(svc, member, levels + 1);
        }
        MemberIsCollection(svc, y, member);
      }
      ListConforms(svc, x.items, t);
      ItemsConform(svc, x, t);
      assert RepresentAll(svc, x.items, member) == RepresentAll(svc, x.items, inner);
    }
  }

  lemma ListsHaveItems(svc: Service, x: Value, t: Type)
    requires Conforms(svc, x, t) && x.List? && !HasAtoms(svc, t)
    ensures ItemOf(svc, t).Success?
  {}

  lemma MembersExactly(svc: Service, item: Type)
    requires KindOf(svc, item) == Success(SetKind)
    ensures MemberIsNoSet(svc, item) <==> exists levels: nat :: AtomsAt(svc, item, levels)
  {
    hide Conforms, Represent, ItemOf, IsFormOf;
    if levels: nat :| AtomsAt(svc, item, levels) {
      assert levels > 0;
      var member := ItemOf(svc, item).value;
      var x := AtomOf(svc, ItemsAt(svc, item, levels).value);
      NestedConforms(svc, x, member, levels - 1);
      NestedIsNoForm(svc, x, item, levels - 1);
    } else if MemberIsNoSet(svc, item) {
      var member := ItemOf(svc, item).value;
      var x :| Conforms(svc, x, member) && !IsFormOf(svc, Represent(svc, x, member), item);
      forall levels: nat
        ensures !AtomsAt(svc, member, levels)
      {
        assert !AtomsAt(svc, item, levels + 1);
      }
      MemberIsCollection(svc, x, item);
      IsForm(svc, x, item);
    }
  }

  lemma IsForm(svc: Service, x: Value, t: Type)
    requires Conforms(svc, x, t)
    ensures IsFormOf(svc, Represent(svc, x, t), t)
  {}

  // ---------- Levels that repeat ----------

  lemma {:induction false} Repeats(names: seq<string>, pool: set<string>) returns (i: nat, j: nat)
    requires (forall name | name in names :: name in pool) && |names| > |pool|
    ensures i < j < |names| && names[i] == names[j]
    decreases |names|
  {
    var last := |names| - 1;
    var rest := names[..last];
    if names[last] in rest {
      i :| 0 <= i < last && rest[i] == names[last];
      j := last;
    } else {
      i, j := Repeats(rest, pool - {names[last]});
    }
  }

  lemma {:induction false} ShapesBelow(svc: Service, t: Type, levels: nat)
    requires ItemsAt(svc, t, levels + 1).Some? && t.Plain?
    ensures forall level: nat | level <= levels ::
              var below := ItemsAt(svc, t, level);
              && below.Some? && below.value.Plain? && below.value.dictionary == t.dictionary
              && below.value.target.Model? && below.value.target.id in svc.shapes
    decreases levels
  {
    var item := ItemOf(svc, t).value;
    if levels > 0 {
      ShapesBelow(svc, item, levels - 1);
    }
    forall level: nat | level <= levels
      ensures var below := ItemsAt(svc, t, level);
              && below.Some? && below.value.Plain? && below.value.dictionary == t.dictionary
              && below.value.target.Model? && below.value.target.id in svc.shapes
    {
      if level > 0 {
        assert ItemsAt(svc, t, level) == ItemsAt(svc, item, level - 1);
      }
    }
  }

  // Atoms are found within as many levels as there are shapes.
  lemma {:induction false} AtomsAreNear(svc: Service, t: Type, levels: nat) returns (near: nat)
    requires t.Plain? && AtomsAt(svc, t, levels)
    ensures near <= |svc.shapes| && AtomsAt(svc, t, near)
    decreases levels
  {
    hide HasAtoms, ItemOf;
    near := levels;
    if levels > |svc.shapes| {
      ItemsBelow(svc, t, 0, levels);
      ShapesBelow(svc, t, levels - 1);
      var names := seq(levels, i requires 0 <= i < levels => ItemsAt(svc, t, i).value.target.id);
      var i, j := Repeats(names, svc.shapes.Keys);
      assert ItemsAt(svc, t, i) == ItemsAt(svc, t, j);
      ItemsBelow(svc, t, i, levels - j);
      ItemsBelow(svc, t, j, levels - j);
      near := AtomsAreNear(svc, t, i + (levels - j));
    }
  }

  lemma SetOfAtomsExactly(svc: Service, item: Type)
    requires KindOf(svc, item) == Success(SetKind)
    ensures SetOfAtoms(svc, item) <==> MemberIsNoSet(svc, item)
  {
    hide AtomsAt, MemberIsNoSet;
    MembersExactly(svc, item);
    if levels: nat :| AtomsAt(svc, item, levels) {
      var near := AtomsAreNear(svc, item, levels);
    }
  }

  /**
   Flattening is typed correctly unless the items are sets that, taken apart level by level, end in
   something that is no list.
   */
  lemma FlattenTypedExactlyOffSets(svc: Service, t: Type)
    requires WellNamed(svc) && ItemOf(svc, t).Success?
    ensures FlattenIsTyped(svc, t) <==> !SetOfAtoms(svc, ItemOf(svc, t).value)
  {
    hide Conforms, Represent, ItemOf, KindOf, Compile, Evaluate, FlattensNoSets, WellNamed;
    var item := ItemOf(svc, t).value;
    if KindOf(svc, item) == Success(SetKind) {
      FlattenThisCompiles(svc, t);
      SetOfAtomsExactly(svc, item);
      if MemberIsNoSet(svc, item) {
        var x :| Conforms(svc, x, ItemOf(svc, item).value)
            && !IsFormOf(svc, Represent(svc, x, ItemOf(svc, item).value), item);
        MemberFlattensWrongly(svc, t, x);
      } else {
        forall v | Conforms(svc, v, t)
          ensures Safe(svc, Evaluate(FLATTEN_THIS_EXPR, Represent(svc, v, t)), ListOf(item))
        {
          SetsFlattenSafely(svc, t, v);
        }
      }
    } else if Compile(svc, FLATTEN_THIS, t).Success? {
      FlattenThisHasNoSets(svc, t);
      forall v | Conforms(svc, v, t)
        ensures Safe(svc, Evaluate(Compile(svc, FLATTEN_THIS, t).value.expr, Represent(svc, v, t)),
                     Compile(svc, FLATTEN_THIS, t).value.ty)
      {
        TypeSoundness(svc, FLATTEN_THIS, t, v);
      }
    }
  }

  lemma SetsFlattenSafely(svc: Service, t: Type, v: Value)
    requires ItemOf(svc, t).Success? && KindOf(svc, ItemOf(svc, t).value) == Success(SetKind)
    requires !MemberIsNoSet(svc, ItemOf(svc, t).value) && Conforms(svc, v, t)
    ensures Safe(svc, Evaluate(FLATTEN_THIS_EXPR, Represent(svc, v, t)), ListOf(ItemOf(svc, t).value))
  {
    hide Conforms, Represent, ItemOf, KindOf, MemberIsNoSet, Evaluate, IsFormOf;
    var item := ItemOf(svc, t).value;
    FlattenThisEvaluates(Represent(svc, v, t));
    NullIsNone(svc, t);
    if !v.Null? {
      ItemsConform(svc, v, t);
      FlattenedLookLikeSets(svc, v.items, item);
      ListIsForm(svc, FlattenItems(RepresentAll(svc, v.items, item)), item);
    }
  }

  // One extreme: sets with a member that is no list, so that the members have atoms themselves.
  lemma SetsFlattenToTheWrongType(svc: Service, t: Type, x: Value)
    requires WellNamed(svc) && ItemOf(svc, t).Success? && KindOf(svc, ItemOf(svc, t).value) == Success(SetKind)
    requires ItemOf(svc, ItemOf(svc, t).value).Success?
    requires !x.Null? && !x.List? && Conforms(svc, x, ItemOf(svc, ItemOf(svc, t).value).value)
    ensures !FlattenIsTyped(svc, t)
  {
    hide Compile, Evaluate, WellNamed, FlattenIsTyped, HasAtoms, Conforms;
    var item := ItemOf(svc, t).value;
    AtomsAreValues(svc, ItemOf(svc, item).value, x);
    assert ItemsAt(svc, item, 1) == ItemsAt(svc, ItemOf(svc, item).value, 0);
    assert AtomsAt(svc, item, 1);
    var near := AtomsAreNear(svc, item, 1);
    FlattenTypedExactlyOffSets(svc, t);
  }

  // The other: sets of themselves, which never end.
  lemma SetsOfThemselvesFlattenSafely(svc: Service, t: Type)
    requires WellNamed(svc) && ItemOf(svc, t).Success?
    requires ItemOf(svc, ItemOf(svc, t).value) == ItemOf(svc, t)
    ensures FlattenIsTyped(svc, t)
  {
    hide Conforms, Represent, ItemOf, Compile, Evaluate, WellNamed, FlattenIsTyped;
    var item := ItemOf(svc, t).value;
    forall levels: nat
      ensures ItemsAt(svc, item, levels) == Some(item)
    {
      SelfItems(svc, item, levels);
    }
    FlattenTypedExactlyOffSets(svc, t);
  }

  lemma {:induction false} SelfItems(svc: Service, t: Type, levels: nat)
    requires ItemOf(svc, t) == Success(t)
    ensures ItemsAt(svc, t, levels) == Some(t)
    decreases levels
  {
    if levels > 0 {
      SelfItems(svc, t, levels - 1);
    }
  }

  // A service whose output holds a list of sets of strings.
  const TAG_SETS: Service := Service(
    map[
      "Tags" := Shape("Tags", SetKind, [], Some(Prelude(StringKind, false)), None, None, [], false, false),
      "TagsList" := Shape("TagsList", ListKind, [], Some(Model("Tags")), None, None, [], false, false),
      "Output" := Shape("Output", Structure, [Member("groups", "groups", Model("TagsList"), false)], None, None,
                        None, [], false, false)],
    (shape: Shape, member: Member) => member.rustName,
    {})

  // `groups[]`, as JMESPath parses it.
  const GROUPS_FLATTENED: Node :=
    Node(Projection, NoValue, [Node(Flatten, NoValue, [Node(Field, StrLit("groups"), [])]), THIS])

  const OUTPUT: Type := Plain(Model("Output"), false)
  const TAGS: Type := Plain(Model("Tags"), false)
  const ONE_TAG: Value := Struct(map["groups" := List([List([Str("a")])])])

  /** The concrete case: `groups[]` is typed as a list of sets, and gives a list of strings. */
  lemma TagsFlattenToStrings()
    ensures WellNamed(TAG_SETS) && Conforms(TAG_SETS, ONE_TAG, OUTPUT)
    ensures var typed := Compile(TAG_SETS, GROUPS_FLATTENED, OUTPUT);
            && typed.Success? && typed.value.ty == ListOf(TAGS)
            && Evaluate(typed.value.expr, Represent(TAG_SETS, ONE_TAG, OUTPUT)) == Val(PyList([PyStr("a")]))
            && !IsFormOf(TAG_SETS, PyList([PyStr("a")]), ListOf(TAGS))
  {
    TagsModel();
    TagsCompile();
    TagsEvaluate();
    ItemOfForm(TAG_SETS, PyStr("a"), TAGS);
    SetFormIsList(TAG_SETS, PyStr("a"), TAGS);
  }

  lemma TagsAreNamed()
    ensures WellNamed(TAG_SETS)
  {
    forall id | id in TAG_SETS.shapes
      ensures DistinctNames(TAG_SETS, TAG_SETS.shapes[id])
    {
      var shape := TAG_SETS.shapes[id];
      assert |shape.members| <= 1 && !shape.kind.Union?;
    }
  }

  lemma TagConforms()
    ensures Conforms(TAG_SETS, List([Str("a")]), TAGS)
  {
    assert TargetShape(TAG_SETS, TAGS) == Some(TAG_SETS.shapes["Tags"]) && KindOf(TAG_SETS, TAGS) == Success(SetKind);
    assert Conforms(TAG_SETS, Str("a"), Plain(Prelude(StringKind, false), false));
  }

  lemma TagsConform()
    ensures Conforms(TAG_SETS, List([List([Str("a")])]), Plain(Model("TagsList"), false))
  {
    TagConforms();
    var list := Plain(Model("TagsList"), false);
    assert TargetShape(TAG_SETS, list) == Some(TAG_SETS.shapes["TagsList"])
           && KindOf(TAG_SETS, list) == Success(ListKind);
  }

  lemma TagsModel()
    ensures WellNamed(TAG_SETS) && Conforms(TAG_SETS, ONE_TAG, OUTPUT)
  {
    hide WellNamed;
    TagsAreNamed();
    TagsConform();
    assert TargetShape(TAG_SETS, OUTPUT) == Some(TAG_SETS.shapes["Output"])
           && KindOf(TAG_SETS, OUTPUT) == Success(Structure);
    assert ONE_TAG.fields.Keys == {"groups"};
  }

  const GROUPS_EXPR: Expr :=
    Expr(Projection, NoValue, [Expr(Flatten, NoValue, [Expr(Field, StrLit("groups"), [])]), THIS_EXPR])

  lemma GroupsCompile()
    ensures Compile(TAG_SETS, GROUPS_FLATTENED.children[0], OUTPUT)
         == Success(Typed(GROUPS_EXPR.children[0], ListOf(TAGS)))
  {
    var flatten := GROUPS_FLATTENED.children[0];
    var list := Plain(Model("TagsList"), false);
    assert Compile(TAG_SETS, flatten.children[0], OUTPUT) == Success(Typed(Expr(Field, StrLit("groups"), []), list));
    assert ItemOf(TAG_SETS, list) == Success(TAGS);
  }

  lemma TagsCompile()
    ensures Compile(TAG_SETS, GROUPS_FLATTENED, OUTPUT) == Success(Typed(GROUPS_EXPR, ListOf(TAGS)))
  {
    GroupsCompile();
    ThisCompiles(TAG_SETS, TAGS);
    assert Compile(TAG_SETS, GROUPS_FLATTENED.children[1], TAGS) == Success(Typed(THIS_EXPR, TAGS));
  }

  lemma GroupsSpliced()
    ensures Evaluate(GROUPS_EXPR.children[0], Represent(TAG_SETS, ONE_TAG, OUTPUT)) == Val(PyList([PyStr("a")]))
  {
    var list := Plain(Model("TagsList"), false);
    var groups := List([List([Str("a")])]);
    var context := Represent(TAG_SETS, ONE_TAG, OUTPUT);
    ListRepresented(TAG_SETS, [List([Str("a")])], list);
    ListRepresented(TAG_SETS, [Str("a")], TAGS);
    RepresentOne(TAG_SETS, List([Str("a")]), TAGS);
    RepresentOne(TAG_SETS, Str("a"), Plain(Prelude(StringKind, false), false));
    assert Represent(TAG_SETS, groups, list) == PyList([PyList([PyStr("a")])]);
    assert context == PyObject("Output", map["groups" := Represent(TAG_SETS, groups, list)]);
    var flatten := GROUPS_EXPR.children[0];
    assert Evaluate(flatten.children[0], context) == Val(PyList([PyList([PyStr("a")])]));
    EvaluateFlattenStep(flatten, context);
    FlattenOne(PyStr("a"));
  }

  lemma TagsEvaluate()
    ensures Evaluate(GROUPS_EXPR, Represent(TAG_SETS, ONE_TAG, OUTPUT)) == Val(PyList([PyStr("a")]))
  {
    hide Represent;
    GroupsSpliced();
    EvaluateProjectionStep(GROUPS_EXPR, Represent(TAG_SETS, ONE_TAG, OUTPUT));
    StarKeepsItems(GROUPS_EXPR, [PyStr("a")]);
  }

  // `groups[][0]`
  const FIRST_TAGS: Node :=
    Node(Projection, NoValue, [GROUPS_FLATTENED.children[0],
                               Node(IndexExpression, NoValue, [THIS, Node(Index, IntLit(0), [])])])

  const FIRST_EXPR: Expr :=
    Expr(Projection, NoValue, [GROUPS_EXPR.children[0],
                               Expr(IndexExpression, NoValue, [THIS_EXPR, Expr(Index, IntLit(0), [])])])

  /** What comes of it: `groups[][0]` is accepted, and asks a string for its first item. */
  lemma SplicedTagsAreIndexed()
    ensures Compile(TAG_SETS, FIRST_TAGS, OUTPUT)
         == Success(Typed(FIRST_EXPR, ListOf(Plain(Prelude(StringKind, false), false))))
    ensures !OperandsFit(FIRST_EXPR, Represent(TAG_SETS, ONE_TAG, OUTPUT))
  {
    FirstTagsCompile();
    var context := Represent(TAG_SETS, ONE_TAG, OUTPUT);
    GroupsSpliced();
    StringIsNoList();
    ProjectionOperands(FIRST_EXPR, context);
    assert PyStr("a") in [PyStr("a")];
    assert !ItemOperandsFit(FIRST_EXPR, PyStr("a"));
  }

  lemma StringIsNoList()
    ensures !OperandsFit(FIRST_EXPR.children[1], PyStr("a"))
  {
    var steps := FIRST_EXPR.children[1].children;
    assert steps[1..] == [steps[1]];
    assert Evaluate(steps[0], PyStr("a")) == Val(PyStr("a"));
    assert !ChainOperandsFit(steps[1..], Val(PyStr("a")));
  }

  // The first item of the value at hand.
  lemma FirstCompiles(svc: Service, t: Type)
    requires ItemOf(svc, t).Success?
    ensures Compile(svc, FIRST_TAGS.children[1], t) == Success(Typed(FIRST_EXPR.children[1], ItemOf(svc, t).value))
  {
    hide ItemOf;
    var steps, item := FIRST_TAGS.children[1].children, ItemOf(svc, t).value;
    var index := Expr(Index, IntLit(0), []);
    assert steps[1..] == [steps[1]] && [steps[1]][1..] == [];
    ThisCompiles(svc, t);
    assert Compile(svc, steps[1], t) == Success(Typed(index, item));
    assert CompileChain(svc, [], item) == Success(([], item));
    assert [index] + [] == [index] && [THIS_EXPR] + [index] == [THIS_EXPR, index];
    assert CompileChain(svc, [steps[1]], t) == Success(([index], item));
    assert CompileChain(svc, steps, t) == Success(([THIS_EXPR, index], item));
  }

  lemma FirstTagsCompile()
    ensures Compile(TAG_SETS, FIRST_TAGS, OUTPUT)
         == Success(Typed(FIRST_EXPR, ListOf(Plain(Prelude(StringKind, false), false))))
  {
    GroupsCompile();
    FirstCompiles(TAG_SETS, TAGS);
    assert ItemOf(TAG_SETS, TAGS) == Success(Plain(Prelude(StringKind, false), false));
  }

  // ---------- Null items ----------

  // `[index] != literal`
  function IndexDiffers(index: int, literal: Lit): Node {
    Node(Comparator, StrLit("ne"), [Node(Index, IntLit(index), []), Node(Literal, literal, [])])
  }

  // A literal the compiler accepts against values of a scalar type.
  function LiteralFor(svc: Service, t: Type, kind: Kind): Lit {
    if kind.BooleanKind? then BoolLit(true)
    else if IsNumeric(kind) then IntLit(0)
    else
      match TargetShape(svc, t)
      case Some(shape) => StrLit(if shape.enumValues == [] then "" else shape.enumValues[0])
      case None => StrLit("")
  }

  function IndexDiffersExpr(index: int, literal: Lit): Expr {
    Expr(Comparator, StrLit("ne"), [Expr(Index, IntLit(index), []), Expr(Literal, literal, [])])
  }

  lemma PairCompiled(svc: Service, a: Node, b: Node, t: Type, x: Typed, y: Typed)
    requires Compile(svc, a, t) == Success(x) && Compile(svc, b, t) == Success(y)
    ensures CompileEach(svc, [a, b], t) == Success([x, y])
  {
    hide Compile;
    assert [a, b][1..] == [b] && [b][1..] == [];
    assert CompileEach(svc, [], t) == Success([]);
    assert [y] + [] == [y] && [x] + [y] == [x, y];
    assert CompileEach(svc, [b], t) == Success([y]);
    assert CompileEach(svc, [a, b], t) == Success([x] + [y]);
  }

  lemma PairKinds(svc: Service, x: Typed, y: Typed, j: Kind, k: Kind)
    requires KindOf(svc, x.ty) == Success(j) && KindOf(svc, y.ty) == Success(k)
    ensures Kinds(svc, [x, y]) == Success([j, k])
  {
    hide KindOf;
    assert [x, y][1..] == [y] && [y][1..] == [];
    assert [k] + [] == [k] && [j] + [k] == [j, k];
    assert Kinds(svc, [y]) == Success([k]);
    assert Kinds(svc, [x, y]) == Success([j] + [k]);
  }

  lemma IndexDiffersChecked(svc: Service, item: Type, kind: Kind, index: int)
    requires KindOf(svc, item) == Success(kind)
    requires IsNumeric(kind) || kind.StringKind? || kind.BooleanKind?
    ensures var literal := LiteralFor(svc, item, kind);
            && LiteralType(literal).Success? && KindOf(svc, LiteralType(literal).value).Success?
            && var at := Typed(Expr(Index, IntLit(index), []), item);
               var lit := Typed(Expr(Literal, literal, []), LiteralType(literal).value);
               CheckComparison(svc, StrLit("ne"), [at, lit], [kind, KindOf(svc, lit.ty).value]) == Success(())
  {}

  lemma IndexDiffersCompiles(svc: Service, t: Type, item: Type, kind: Kind, index: int)
    requires ItemOf(svc, t) == Success(item) && KindOf(svc, item) == Success(kind)
    requires IsNumeric(kind) || kind.StringKind? || kind.BooleanKind?
    ensures var literal := LiteralFor(svc, item, kind);
            var typed := Compile(svc, IndexDiffers(index, literal), t);
            && typed.Success? && FlattensNoSets(svc, IndexDiffers(index, literal), t)
            && typed.value.expr == IndexDiffersExpr(index, literal)
  {
    hide ItemOf, KindOf, CheckComparison, CompileEach, Kinds, LiteralFor;
    var literal := LiteralFor(svc, item, kind);
    var node := IndexDiffers(index, literal);
    IndexDiffersChecked(svc, item, kind, index);
    var at := Typed(Expr(Index, IntLit(index), []), item);
    var lit := Typed(Expr(Literal, literal, []), LiteralType(literal).value);
    assert Compile(svc, node.children[0], t) == Success(at);
    assert Compile(svc, node.children[1], t) == Success(lit);
    PairCompiled(svc, node.children[0], node.children[1], t, at, lit);
    PairKinds(svc, at, lit, kind, KindOf(svc, lit.ty).value);
    assert Exprs([at, lit]) == [at.expr, lit.expr];
  }

  // A null list item satisfies `!=`, although null propagates everywhere else.
  lemma NullItemDiffers(svc: Service, t: Type, items: seq<Value>, i: nat, literal: Lit)
    requires i < |items| && items[i].Null? && LiteralType(literal).Success?
    ensures Meaning(IndexDiffers(i, literal), List(items)) == Answer(Null)
    ensures Evaluate(IndexDiffersExpr(i, literal), Represent(svc, List(items), t)) == Val(PyBool(true))
  {
    var node, expr := IndexDiffers(i, literal), IndexDiffersExpr(i, literal);
    var context := Represent(svc, List(items), t);
    ListRepresented(svc, items, t);
    assert Evaluate(expr.children[0], context) == Val(PyNone);
    assert Evaluate(expr.children[1], context) == EvaluateLiteral(literal);
    assert Meaning(node.children[0], List(items)) == Answer(Null);
    assert Meaning(node.children[1], List(items)) == MeaningOfLiteral(literal);
    BinaryStep(node, expr, List(items), context);
  }

  // ---------- The exact condition ----------

  // A list whose items are dense by themselves, but hold a document that is not.
  lemma ListedDocumentBreaks(svc: Service, t: Type, items: seq<Value>, x: Value) returns (node: Node)
    requires WellNamed(svc) && Conforms(svc, List(items), t) && ItemOf(svc, t).Success? && Null !in items && x in items
    requires DenseAt(svc, x, ItemOf(svc, t).value, false) && !DenseAt(svc, x, ItemOf(svc, t).value, true)
    ensures Breaks(svc, node, t, List(items))
  {
    hide Conforms, Represent, Compile, Evaluate, Meaning, WellNamed, ItemOf, FlattensNoSets, Breaks, Reads, DenseAt;
    var item := ItemOf(svc, t).value;
    ItemsConform(svc, List(items), t);
    var path, document := PathToDocument(svc, x, item);
    var read := PathListReads(svc, path, t, items);
    var d := Compile(svc, path, item).value.ty;
    var depth := DepthOfNull(document);
    assert NullBelow(read, depth + 1);
    var rest := DocumentsBreak(svc, read, d, depth + 1);
    node := Then(StarOf(path), rest);
    BreaksAfter(svc, StarOf(path), rest, t, List(items), List(read));
  }

  /** On a value with a null item in reach, some accepted expression does not mean what it says. */
  lemma {:induction false} SparseBreaks(svc: Service, t: Type, v: Value) returns (node: Node)
    requires WellNamed(svc) && Conforms(svc, v, t) && !v.Null? && !DenseAt(svc, v, t, false)
    ensures Breaks(svc, node, t, v)
    decreases v
  {
    hide Conforms, Represent, Compile, Evaluate, Meaning, WellNamed, ItemOf, FlattensNoSets, Breaks, Reads;
    if v.List? {
      var item := ItemOf(svc, t).value;
      ItemsConform(svc, v, t);
      if Null in v.items {
        node := STAR;
        StarBreaks(svc, t, v.items);
      } else {
        var x :| x in v.items && !DenseAt(svc, x, item, true);
        if DenseAt(svc, x, item, false) {
          node := ListedDocumentBreaks(svc, t, v.items, x);
        } else {
          var i :| 0 <= i < |v.items| && v.items[i] == x;
          var rest := SparseBreaks(svc, item, x);
          IndexReads(svc, t, v.items, i);
          node := Then(Node(Index, IntLit(i), []), rest);
          BreaksAfter(svc, Node(Index, IntLit(i), []), rest, t, v, x);
        }
      }
    } else {
      var name := NameOfSparseMember(svc, v, t, false);
      MemberCompiles(svc, t, v, name);
      var read := MeaningOfField(name, v).value;
      var first := Node(Field, StrLit(name), []);
      SparseIsPresent(svc, read, CompileField(svc, StrLit(name), t).value.ty, false);
      FieldReads(svc, t, v, name);
      var rest := SparseBreaks(svc, Compile(svc, first, t).value.ty, read);
      node := Then(first, rest);
      BreaksAfter(svc, first, rest, t, v, read);
    }
  }

  /**
   Every accepted expression that flattens no sets agrees with its meaning on a value, exactly when
   the value has no null item where an expression can read it.
   */
  lemma AgreesExactlyWhenDense(svc: Service, t: Type, v: Value)
    requires WellNamed(svc) && Conforms(svc, v, t) && !v.Null?
    ensures (forall node: Node | FlattensNoSets(svc, node, t) :: AgreesOn(svc, node, t, v)) <==>
              DenseAt(svc, v, t, false)
  {
    hide Conforms, Represent, Compile, Evaluate, Meaning, WellNamed, FlattensNoSets, DenseAt;
    if DenseAt(svc, v, t, false) {
      forall node: Node | FlattensNoSets(svc, node, t)
        ensures AgreesOn(svc, node, t, v)
      {
        DenseAgrees(svc, node, t, v);
      }
    } else {
      var node := SparseBreaks(svc, t, v);
      assert FlattensNoSets(svc, node, t) && !AgreesOn(svc, node, t, v);
    }
  }

  lemma DenseAgrees(svc: Service, node: Node, t: Type, v: Value)
    requires WellNamed(svc) && Conforms(svc, v, t) && !v.Null? && DenseAt(svc, v, t, false)
    requires FlattensNoSets(svc, node, t)
    ensures AgreesOn(svc, node, t, v)
  {
    hide Conforms, Represent, Compile, Evaluate, Meaning, WellNamed, FlattensNoSets, DenseAt, Agrees;
    if Compile(svc, node, t).Success? {
      Simulation(svc, node, t, v);
    }
  }
}
