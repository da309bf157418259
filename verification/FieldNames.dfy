/** How the generator names the fields of a shape, and what the generated code exposes. */
module FieldNames {
  import opened Wrappers
  import opened PyValues
  import opened Smithy
  import opened Responses

  // A field of the Rust SDK structure behind a shape.
  datatype RustField = RustField(name: string)

  function WithoutUnderscores(name: string): string {
    if name == "" then ""
    else (if name[0] == '_' then "" else [name[0]]) + WithoutUnderscores(name[1..])
  }

  // The first SDK field with the member's name, underscores aside.
  function MemberField(fields: seq<RustField>, member: Member): (found: Option<RustField>)
    ensures found.Some? ==> found.value in fields
    ensures found.Some? ==> WithoutUnderscores(found.value.name) == WithoutUnderscores(member.rustName)
    ensures found.None? ==> forall f | f in fields :: WithoutUnderscores(f.name) != WithoutUnderscores(member.rustName)
  {
    if fields == [] then None
    else if WithoutUnderscores(fields[0].name) == WithoutUnderscores(member.rustName) then Some(fields[0])
    else MemberField(fields[1..], member)
  }

  function FieldName(fields: seq<RustField>, member: Member): string {
    var found := MemberField(fields, member);
    if found.Some? then found.value.name else member.rustName
  }

  // The SDK structure's fields. A union is an enum in the SDK, which is read without fields.
  function SdkFields(fields: Shape -> seq<RustField>, shape: Shape): seq<RustField> {
    if shape.kind.Union? then [] else fields(shape)
  }

  // The service as the generator hands it to the waiter and pagination resolvers.
  function Generated(shapes: map<string, Shape>, fields: Shape -> seq<RustField>, keywords: set<string>): Service {
    Service(shapes, (shape: Shape, member: Member) => FieldName(SdkFields(fields, shape), member), keywords)
  }

  // What the generated code exposes: the keys its union converter sets, one a member that is no
  // stream error; otherwise the properties of a native object, or the keys of its dictionary form, one an SDK field.
  function ExposedNames(svc: Service, shape: Shape, fields: seq<RustField>, dictionary: bool): set<string> {
    if shape.kind.Union? then set m | m in shape.members && !svc.IsError(m.target) :: m.rustName
    else set f | f in fields :: if dictionary then f.name else SafeName(svc.keywords, f.name)
  }

  lemma {:induction false} WithoutUnderscoresOfConcat(a: string, b: string)
    ensures WithoutUnderscores(a + b) == WithoutUnderscores(a) + WithoutUnderscores(b)
  {
    if a == "" {
      assert a + b == b;
    } else {
      assert (a + b)[1..] == a[1..] + b;
      WithoutUnderscoresOfConcat(a[1..], b);
    }
  }

  lemma AttributeKeepsLetters(svc: Service, name: string)
    ensures WithoutUnderscores(SafeName(svc.keywords, name)) == WithoutUnderscores(name)
  {
    WithoutUnderscoresOfConcat(name, "_");
    assert WithoutUnderscores("_") == "" by {
      assert "_"[1..] == "";
    }
  }

  lemma ExposedKeepsLetters(
      shapes: map<string, Shape>, fields: Shape -> seq<RustField>, keywords: set<string>,
      shape: Shape, member: Member, dictionary: bool)
    ensures var svc := Generated(shapes, fields, keywords);
            WithoutUnderscores(svc.Exposed(shape, member, dictionary)) == WithoutUnderscores(member.rustName)
  {
    var svc := Generated(shapes, fields, keywords);
    AttributeKeepsLetters(svc, FieldName(SdkFields(fields, shape), member));
  }

  /**
   The name a resolver emits for a member is one the generated code exposes: in a union exactly
   when the name is that of a member that is no stream error, and in a structure exactly when the
   SDK has the field.
   */
  lemma EmittedNameIsExposed(
      shapes: map<string, Shape>, fields: Shape -> seq<RustField>, keywords: set<string>,
      shape: Shape, member: Member, dictionary: bool)
    requires member in shape.members
    ensures var svc := Generated(shapes, fields, keywords);
            var name := svc.Exposed(shape, member, dictionary || shape.kind.Union?);
            (name in ExposedNames(svc, shape, SdkFields(fields, shape), dictionary))
            <==> if shape.kind.Union?
                 then exists m | m in shape.members ::
                        m.rustName == member.rustName
                        && !(m.target.Model? && m.target.id in shapes && shapes[m.target.id].error)
                 else MemberField(fields(shape), member).Some?
  {
    var svc := Generated(shapes, fields, keywords);
    var name := svc.Exposed(shape, member, dictionary || shape.kind.Union?);
    ExposedKeepsLetters(shapes, fields, keywords, shape, member, dictionary);
    if shape.kind.Union? {
      assert name == member.rustName;
    } else if name in ExposedNames(svc, shape, fields(shape), dictionary) {
      var f :| f in fields(shape) && name == if dictionary then f.name else SafeName(svc.keywords, f.name);
      AttributeKeepsLetters(svc, f.name);
    }
  }

  /**
   Members whose names differ by more than underscores keep distinct names in both forms: what the
   waiter theorems ask of a service follows from its model.
   */
  lemma GeneratedIsWellNamed(shapes: map<string, Shape>, fields: Shape -> seq<RustField>, keywords: set<string>)
    requires forall id, a, b | id in shapes && a in shapes[id].members && b in shapes[id].members && a != b ::
               a.name != b.name && WithoutUnderscores(a.rustName) != WithoutUnderscores(b.rustName)
    requires forall id, m | id in shapes && shapes[id].kind.Union? && m in shapes[id].members ::
               WithoutUnderscores(m.rustName) != "unknown"
    ensures WellNamed(Generated(shapes, fields, keywords))
  {
    var svc := Generated(shapes, fields, keywords);
    forall id | id in svc.shapes
      ensures DistinctNames(svc, shapes[id])
    {
      forall m, dictionary | m in shapes[id].members
        ensures WithoutUnderscores(svc.Exposed(shapes[id], m, dictionary)) == WithoutUnderscores(m.rustName)
      {
        ExposedKeepsLetters(shapes, fields, keywords, shapes[id], m, dictionary);
      }
      LettersDistinguish(svc, shapes[id]);
    }
  }

  // Names told apart by their letters are distinct.
  lemma LettersDistinguish(svc: Service, shape: Shape)
    requires forall m, dictionary | m in shape.members ::
               WithoutUnderscores(svc.Exposed(shape, m, dictionary)) == WithoutUnderscores(m.rustName)
    requires forall a, b | a in shape.members && b in shape.members && a != b ::
               a.name != b.name && WithoutUnderscores(a.rustName) != WithoutUnderscores(b.rustName)
    requires shape.kind.Union? ==>
               forall m | m in shape.members ::
                 svc.Exposed(shape, m, true) == m.rustName && WithoutUnderscores(m.rustName) != "unknown"
    ensures DistinctNames(svc, shape)
  {
    hide WithoutUnderscores;
    PlainLetters("unknown");
  }

  lemma {:induction false} PlainLetters(name: string)
    requires '_' !in name
    ensures WithoutUnderscores(name) == name
  {
    if name != "" {
      PlainLetters(name[1..]);
      assert name == [name[0]] + name[1..];
    }
  }
}
