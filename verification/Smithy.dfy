/** Smithy shapes, and response values of the shapes they describe. */
module Smithy {
  import opened Wrappers
  import opened PyValues

  datatype Kind =
    | Structure | Union | ListKind | SetKind | MapKind
    | StringKind | EnumKind | BooleanKind
    | ByteKind | ShortKind | IntegerKind | LongKind | FloatKind | DoubleKind
    | BlobKind | TimestampKind | DocumentKind | UnitKind | OtherKind(name: string)

  // A prelude target `smithy.api#Boolean` or `smithy.api#PrimitiveBoolean` names its kind
  // directly and has no shape of its own in the model.
  datatype Target = Prelude(kind: Kind, primitive: bool) | Model(id: string)

  datatype Member = Member(name: string, rustName: string, target: Target, streaming: bool)

  datatype Shape = Shape(
    name: string,
    kind: Kind,
    members: seq<Member>,
    memberTarget: Option<Target>,
    keyTarget: Option<Target>,
    valueTarget: Option<Target>,
    enumValues: seq<string>,
    streaming: bool,
    error: bool)

  // `fieldName` is the callback naming a member in generated code; `keywords` is Python's
  // keyword table.
  datatype Service = Service(
    shapes: map<string, Shape>,
    fieldName: (Shape, Member) -> string,
    keywords: set<string>)
  {
    function Find(target: Target): Option<Shape> {
      if target.Model? && target.id in shapes then Some(shapes[target.id]) else None
    }

    // Stream errors are modelled as members of a union, but are no variants of it in the SDK.
    predicate IsError(target: Target) {
      Find(target).Some? && Find(target).value.error
    }

    // The name a member goes by: an attribute of a native object, or a dictionary key.
    function Exposed(shape: Shape, member: Member, dictionary: bool): string {
      var name := fieldName(shape, member);
      if dictionary then name else SafeName(keywords, name)
    }
  }

  predicate IsNumeric(kind: Kind) {
    kind in {ByteKind, ShortKind, IntegerKind, LongKind, FloatKind, DoubleKind}
  }

  predicate HasMembers(kind: Kind) {
    kind.Structure? || kind.Union?
  }

  predicate IsCollection(kind: Kind) {
    kind.ListKind? || kind.SetKind?
  }

  // The first member of that name, as `next(m for m in members if m.name == name)`.
  function FindMember(members: seq<Member>, name: string): (found: Option<Member>)
    ensures found.Some? ==> found.value in members && found.value.name == name
    ensures found.None? ==> forall m | m in members :: m.name != name
  {
    if members == [] then None
    else if members[0].name == name then Some(members[0])
    else FindMember(members[1..], name)
  }

  lemma {:induction false} FindsFirst(members: seq<Member>, i: nat)
    requires i < |members| && forall earlier | 0 <= earlier < i :: members[earlier].name != members[i].name
    ensures FindMember(members, members[i].name) == Some(members[i])
  {
    if i > 0 {
      FindsFirst(members[1..], i - 1);
    }
  }
}
