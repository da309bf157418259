/** The walks over a service's shapes: what operations reach, and where streams hide. */
module ShapeWalks {
  import opened Wrappers
  import opened Smithy
  import opened Graphs

  function Listed(target: Option<Target>): seq<Target> {
    if target.Some? then [target.value] else []
  }

  function MemberTargets(members: seq<Member>): (targets: seq<Target>)
    ensures |targets| == |members| && forall i | 0 <= i < |members| :: targets[i] == members[i].target
  {
    if members == [] then [] else [members[0].target] + MemberTargets(members[1..])
  }

  // The targets a walk follows from a shape; only some walks follow map keys.
  function Children(shape: Shape, keys: bool): seq<Target> {
    MemberTargets(shape.members) + Listed(shape.memberTarget)
    + (if keys then Listed(shape.keyTarget) else []) + Listed(shape.valueTarget)
  }

  function Ids(service: Service, targets: seq<Target>): set<string> {
    set t | t in targets && t.Model? && t.id in service.shapes :: t.id
  }

  // What a shape refers to: its members, items and map values, and the keys of a map if asked.
  predicate Refers(shape: Shape, target: Target, keys: bool) {
    || (exists m | m in shape.members :: m.target == target)
    || shape.memberTarget == Some(target) || shape.valueTarget == Some(target)
    || (keys && shape.keyTarget == Some(target))
  }

  function Walk(service: Service, keys: bool): Graph {
    map id | id in service.shapes ::
      set other | other in service.shapes && Refers(service.shapes[id], Model(other), keys)
  }

  lemma ChildrenAreReferred(shape: Shape, keys: bool)
    ensures forall t :: t in Children(shape, keys) <==> Refers(shape, t, keys)
  {
    forall m | m in shape.members
      ensures m.target in MemberTargets(shape.members)
    {
      var i :| 0 <= i < |shape.members| && shape.members[i] == m;
      assert MemberTargets(shape.members)[i] == m.target;
    }
    forall t | t in MemberTargets(shape.members)
      ensures exists m | m in shape.members :: m.target == t
    {
      var i :| 0 <= i < |shape.members| && MemberTargets(shape.members)[i] == t;
      assert shape.members[i] in shape.members;
    }
  }

  lemma WalkFollowsChildren(service: Service, keys: bool)
    ensures forall id | id in service.shapes ::
              id in Walk(service, keys) && Walk(service, keys)[id] == Ids(service, Children(service.shapes[id], keys))
  {
    hide Children, Refers;
    forall id | id in service.shapes
      ensures Walk(service, keys)[id] == Ids(service, Children(service.shapes[id], keys))
    {
      ChildrenAreReferred(service.shapes[id], keys);
    }
  }

  // ---------- Shapes reachable from operations ----------

  predicate Visitable(service: Service, target: Option<Target>) {
    target.Some? && service.Find(target.value).Some? && !service.Find(target.value).value.error
  }

  function Pending(service: Service, targets: seq<Option<Target>>): set<string> {
    set t | t in targets && Visitable(service, t) :: t.value.id
  }

  function Extension(shape: Shape): seq<Option<Target>> {
    seq(|shape.members|, i requires 0 <= i < |shape.members| => Some(shape.members[i].target))
    + [shape.memberTarget, shape.keyTarget, shape.valueTarget]
  }

  // Error shapes are neither entered nor passed through.
  function DataWalk(service: Service): Graph {
    map id | id in service.shapes && !service.shapes[id].error ::
      set other | other in service.shapes && !service.shapes[other].error
                  && Refers(service.shapes[id], Model(other), true)
  }

  lemma ExtensionIsReferred(shape: Shape)
    ensures forall t: Target :: Some(t) in Extension(shape) <==> Refers(shape, t, true)
  {
    var members := seq(|shape.members|, i requires 0 <= i < |shape.members| => Some(shape.members[i].target));
    forall m | m in shape.members
      ensures Some(m.target) in members
    {
      var i :| 0 <= i < |shape.members| && shape.members[i] == m;
      assert members[i] == Some(m.target);
    }
    assert Extension(shape) == members + [shape.memberTarget, shape.keyTarget, shape.valueTarget];
  }

  lemma PendingIsReferred(service: Service, shape: Shape)
    ensures Pending(service, Extension(shape))
         == set other | other in service.shapes && !service.shapes[other].error && Refers(shape, Model(other), true)
  {
    ExtensionIsReferred(shape);
    hide Extension, Refers;
    forall id | id in Pending(service, Extension(shape))
      ensures Some(Model(id)) in Extension(shape)
    {
      var t :| t in Extension(shape) && Visitable(service, t) && t.value.id == id;
      assert t == Some(Model(id));
    }
    forall id | id in service.shapes && !service.shapes[id].error && Some(Model(id)) in Extension(shape)
      ensures id in Pending(service, Extension(shape))
    {
      assert Visitable(service, Some(Model(id)));
    }
  }

  lemma PendingParts(service: Service, left: seq<Option<Target>>, right: seq<Option<Target>>)
    ensures Pending(service, left + right) == Pending(service, left) + Pending(service, right)
  {
  }

  lemma PendingOne(service: Service, target: Option<Target>)
    ensures Pending(service, [target]) == if Visitable(service, target) then {target.value.id} else {}
  {
  }

  lemma VisitableIsNode(service: Service, target: Option<Target>)
    requires Visitable(service, target)
    ensures var id := target.value.id;
            id in service.shapes && id in DataWalk(service)
            && DataWalk(service)[id] == Pending(service, Extension(service.shapes[id]))
  {
    PendingIsReferred(service, service.shapes[target.value.id]);
    hide Pending, Extension, Refers;
  }

  // Between iterations: what is seen is reached, and nothing past the visited is forgotten.
  ghost predicate Frontier(walk: Graph, entries: set<string>, visited: set<string>, pending: set<string>) {
    && visited <= walk.Keys
    && entries <= visited + pending
    && (forall x | x in visited + pending :: Reaches(walk, entries, x))
    && (forall x | x in visited :: walk[x] <= visited + pending)
  }

  lemma FrontierStarts(walk: Graph, entries: set<string>)
    ensures Frontier(walk, entries, {}, entries)
  {
    forall id | id in entries
      ensures Reaches(walk, entries, id)
    {
      RootIsReached(walk, entries, id);
    }
  }

  // A pending node joins the visited, and its successors the pending.
  lemma FrontierMoves(walk: Graph, entries: set<string>, visited: set<string>, rest: set<string>, id: string)
    requires Frontier(walk, entries, visited, rest + {id}) && id in walk
    ensures Frontier(walk, entries, visited + {id}, rest + walk[id])
  {
    hide Reaches;
    forall y | y in walk[id]
      ensures Reaches(walk, entries, y)
    {
      SuccessorIsReached(walk, entries, id, y);
    }
    forall x | x in visited + {id}
      ensures walk[x] <= (visited + {id}) + (rest + walk[id])
    {
      if x in visited {
        assert walk[x] <= visited + (rest + {id});
      }
    }
  }

  lemma FrontierSkips(walk: Graph, entries: set<string>, visited: set<string>, rest: set<string>, skipped: set<string>)
    requires Frontier(walk, entries, visited, rest + skipped) && skipped <= visited
    ensures Frontier(walk, entries, visited, rest)
  {
    hide Reaches;
    assert visited + (rest + skipped) == visited + rest;
  }

  lemma FrontierEnds(walk: Graph, entries: set<string>, visited: set<string>)
    requires Frontier(walk, entries, visited, {})
    ensures forall id :: id in visited <==> Reaches(walk, entries, id)
  {
    hide Reaches;
    assert Closed(walk, visited);
    ClosedIsReachable(walk, entries, visited);
  }

  // `_reachable_shapes`: a worklist of targets, the last added taken first.
  method ReachableShapes(service: Service, roots: seq<Option<Target>>) returns (visited: set<string>)
    ensures forall id :: id in visited <==> Reaches(DataWalk(service), Pending(service, roots), id)
  {
    hide Pending, DataWalk, Extension, Reaches, Frontier;
    ghost var walk := DataWalk(service);
    ghost var entries := Pending(service, roots);
    var pending := roots;
    visited := {};
    FrontierStarts(walk, entries);
    while pending != []
      invariant Frontier(walk, entries, visited, Pending(service, pending))
      decreases |walk.Keys - visited|, |pending|
    {
      var target := pending[|pending| - 1];
      var rest := pending[..|pending| - 1];
      assert pending == rest + [target];
      PendingParts(service, rest, [target]);
      PendingOne(service, target);
      pending := rest;
      if Visitable(service, target) && target.value.id !in visited {
        var id := target.value.id;
        VisitableIsNode(service, target);
        FrontierMoves(walk, entries, visited, Pending(service, rest), id);
        SmallerSet(walk.Keys - (visited + {id}), walk.Keys - visited);
        visited := visited + {id};
        pending := rest + Extension(service.shapes[id]);
        PendingParts(service, rest, Extension(service.shapes[id]));
      } else {
        FrontierSkips(walk, entries, visited, Pending(service, rest), Pending(service, [target]));
      }
    }
    NothingPending(service);
    FrontierEnds(walk, entries, visited);
  }

  lemma NothingPending(service: Service)
    ensures Pending(service, []) == {}
  {
  }

  // ---------- Streams ----------

  predicate OwnsStream(shape: Shape) {
    shape.streaming || exists m | m in shape.members :: m.streaming
  }

  ghost predicate LeadsToStream(service: Service, target: Target, keys: bool) {
    exists id ::
      && Reaches(Walk(service, keys), Ids(service, [target]), id)
      && id in service.shapes && HoldsStream(service.shapes[id])
  }

  // The shape is a stream, or a member of it is.
  ghost predicate HoldsStream(shape: Shape) {
    shape.streaming || exists m :: m in shape.members && m.streaming
  }

  lemma OwnersHold(shape: Shape)
    ensures OwnsStream(shape) <==> HoldsStream(shape)
  {}

  lemma IdsOfOne(service: Service, target: Target)
    ensures Ids(service, [target]) == if target.Model? && target.id in service.shapes then {target.id} else {}
  {
  }

  // The successors of a shape are the shapes its children name.
  lemma ChildrenAreSuccessors(service: Service, id: string, keys: bool, found: set<string>)
    requires id in service.shapes
    ensures id in Walk(service, keys)
    ensures forall child | child in Children(service.shapes[id], keys) ::
              Ids(service, [child]) <= Walk(service, keys)[id]
    ensures (forall child | child in Children(service.shapes[id], keys) :: Ids(service, [child]) <= found)
            ==> Walk(service, keys)[id] <= found
  {
    WalkFollowsChildren(service, keys);
    hide Children, Walk;
    var children := Children(service.shapes[id], keys);
    forall child | child in children
      ensures Ids(service, [child]) <= Ids(service, children)
    {
      IdsOfOne(service, child);
    }
    if forall child | child in children :: Ids(service, [child]) <= found {
      forall y | y in Ids(service, children)
        ensures y in found
      {
        var t :| t in children && t.Model? && t.id == y;
        IdsOfOne(service, t);
      }
    }
  }

  lemma StreamHere(service: Service, target: Target, keys: bool)
    requires target.Model? && target.id in service.shapes && OwnsStream(service.shapes[target.id])
    ensures LeadsToStream(service, target, keys)
  {
    hide Walk;
    IdsOfOne(service, target);
    RootIsReached(Walk(service, keys), {target.id}, target.id);
  }

  lemma StreamBelow(service: Service, target: Target, child: Target, keys: bool)
    requires target.Model? && target.id in service.shapes && child in Children(service.shapes[target.id], keys)
    requires LeadsToStream(service, child, keys)
    ensures LeadsToStream(service, target, keys)
  {
    hide Walk, Children, HoldsStream;
    IdsOfOne(service, target);
    ChildrenAreSuccessors(service, target.id, keys, {});
    var walk := Walk(service, keys);
    var stream :| Reaches(walk, Ids(service, [child]), stream) && stream in service.shapes
        && HoldsStream(service.shapes[stream]);
    ReachedThrough(walk, target.id, Ids(service, [child]), stream);
  }

  // The shapes of a completed part of the walk: streamless, their successors all visited.
  ghost predicate Cleared(service: Service, keys: bool, shapes: set<string>, visited: set<string>) {
    forall x | x in shapes && x in service.shapes ::
      !OwnsStream(service.shapes[x]) && Ids(service, Children(service.shapes[x], keys)) <= visited
  }

  // `_reject_streams` (`keys` false) and `_validate_cursor` (`keys` true): depth first, every
  // call adding to one visited set.
  method FindStream(service: Service, target: Target, before: set<string>, keys: bool)
    returns (found: bool, visited: set<string>)
    requires before <= service.shapes.Keys
    ensures before <= visited <= service.shapes.Keys
    ensures found ==> LeadsToStream(service, target, keys)
    ensures !found ==> Ids(service, [target]) <= visited && Cleared(service, keys, visited - before, visited)
    decreases |service.shapes.Keys - before|
  {
    hide LeadsToStream, Children, OwnsStream, Ids;
    visited := before;
    IdsOfOne(service, target);
    if !target.Model? || target.id in visited || target.id !in service.shapes {
      return false, visited;
    }
    var id := target.id;
    visited := visited + {id};
    var shape := service.shapes[id];
    if OwnsStream(shape) {
      StreamHere(service, target, keys);
      return true, visited;
    }
    var children := Children(shape, keys);
    for i := 0 to |children|
      invariant before + {id} <= visited <= service.shapes.Keys
      invariant forall j | 0 <= j < i :: Ids(service, [children[j]]) <= visited
      invariant Cleared(service, keys, visited - before - {id}, visited)
    {
      SmallerSet(service.shapes.Keys - visited, service.shapes.Keys - before);
      ghost var earlier := visited;
      found, visited := FindStream(service, children[i], visited, keys);
      if found {
        StreamBelow(service, target, children[i], keys);
        return;
      }
      assert visited - before - {id} == (visited - earlier) + (earlier - before - {id});
    }
    found := false;
    ChildrenAreSuccessors(service, id, keys, visited);
    assert visited - before == (visited - before - {id}) + {id};
    SuccessorsOf(service, id, keys);
  }

  lemma SuccessorsOf(service: Service, id: string, keys: bool)
    requires id in service.shapes
    ensures id in Walk(service, keys) && Walk(service, keys)[id] == Ids(service, Children(service.shapes[id], keys))
  {
    WalkFollowsChildren(service, keys);
    hide Walk, Children, Ids;
  }

  // Raises exactly when a stream can be reached.
  method RejectsStreams(service: Service, target: Target, keys: bool) returns (raised: bool)
    ensures raised <==> LeadsToStream(service, target, keys)
  {
    var visited;
    raised, visited := FindStream(service, target, {}, keys);
    if !raised {
      ghost var walk := Walk(service, keys);
      WalkFollowsChildren(service, keys);
      forall id | id in service.shapes
        ensures OwnsStream(service.shapes[id]) <==> HoldsStream(service.shapes[id])
      {
        OwnersHold(service.shapes[id]);
      }
      hide Walk, OwnsStream, HoldsStream, Children, Ids;
      assert Cleared(service, keys, visited, visited);
      assert Closed(walk, visited);
      forall id | Reaches(walk, Ids(service, [target]), id)
        ensures id in visited
      {
        var path :| Chain(walk, path) && path[0] in Ids(service, [target]) && path[|path| - 1] == id;
        ChainStaysInside(walk, visited, path);
      }
    }
  }

  // ---------- The two checks compared ----------

  // Smithy keys maps by strings: a key shape leads nowhere and owns nothing.
  ghost predicate PlainKeys(service: Service) {
    forall id | id in service.shapes && service.shapes[id].keyTarget.Some? ::
      var key := service.Find(service.shapes[id].keyTarget.value);
      key.Some? ==> !HoldsStream(key.value) && Children(key.value, true) == []
  }

  lemma {:induction false} ChainAvoidsKeys(service: Service, path: seq<string>, id: string)
    requires PlainKeys(service)
    requires Chain(Walk(service, true), path) && path[|path| - 1] == id && id in service.shapes
    requires HoldsStream(service.shapes[id])
    ensures Chain(Walk(service, false), path)
    decreases |path|
  {
    var all, data := Walk(service, true), Walk(service, false);
    if |path| > 1 {
      var tail := path[1..];
      TailIsChain(all, path);
      ChainAvoidsKeys(service, tail, id);
      if |path| > 2 {
        assert path[2] in all[path[1]];
      }
      EdgeIsData(service, path[0], path[1]);
      forall i | 0 <= i < |path| - 1
        ensures path[i] in data && path[i + 1] in data[path[i]]
      {
        if i > 0 {
          assert tail[i - 1] == path[i] && tail[i] == path[i + 1];
        }
      }
    }
  }

  // An edge to a shape that matters is not a key edge.
  lemma EdgeIsData(service: Service, x: string, y: string)
    requires PlainKeys(service) && x in service.shapes && y in Walk(service, true)[x] && y in service.shapes
    requires HoldsStream(service.shapes[y]) || Walk(service, true)[y] != {}
    ensures y in Walk(service, false)[x]
  {
    var shape := service.shapes[x];
    var t :| t in Children(shape, true) && t.Model? && t.id in service.shapes && t.id == y;
    assert t in Children(shape, false) || t in Listed(shape.keyTarget);
  }

  // With plain map keys, following them or not makes no difference.
  lemma ChecksAgree(service: Service, target: Target)
    requires PlainKeys(service)
    ensures LeadsToStream(service, target, true) <==> LeadsToStream(service, target, false)
  {
    var all, data, roots := Walk(service, true), Walk(service, false), Ids(service, [target]);
    if LeadsToStream(service, target, true) {
      var id :| Reaches(all, roots, id) && id in service.shapes && HoldsStream(service.shapes[id]);
      var path :| Chain(all, path) && path[0] in roots && path[|path| - 1] == id;
      ChainAvoidsKeys(service, path, id);
      assert Reaches(data, roots, id);
    }
    if LeadsToStream(service, target, false) {
      var id :| Reaches(data, roots, id) && id in service.shapes && HoldsStream(service.shapes[id]);
      var path :| Chain(data, path) && path[0] in roots && path[|path| - 1] == id;
      forall i | 0 <= i < |path| - 1
        ensures path[i] in all && path[i + 1] in all[path[i]]
      {
        assert path[i + 1] in data[path[i]];
      }
      assert Chain(all, path);
      assert Reaches(all, roots, id);
    }
  }
}
