/** Gathering the operations of a service from its tree, or graph, of resources. */
module ResourceWalk {
  import opened Graphs

  // A service or resource: the operations it lists or binds to its lifecycle, and its resources.
  datatype Container = Container(operations: seq<string>, resources: seq<string>)

  function Elements(names: seq<string>): set<string> {
    set n | n in names
  }

  function ResourceGraph(resources: map<string, Container>): Graph {
    map id | id in resources :: Elements(resources[id].resources)
  }

  function OperationsOf(resources: map<string, Container>, nodes: set<string>): set<string> {
    set id, op | id in nodes && id in resources && op in resources[id].operations :: op
  }

  ghost predicate Dangling(resources: map<string, Container>, roots: set<string>) {
    exists id :: Reaches(ResourceGraph(resources), roots, id) && id !in resources
  }

  // What a completed call has added to the visited resources.
  ghost predicate Gathered(resources: map<string, Container>, roots: set<string>, added: set<string>,
                           visited: set<string>) {
    && added <= resources.Keys
    && (forall id | id in added :: Reaches(ResourceGraph(resources), roots, id))
    && (forall id | id in added && id in resources :: Elements(resources[id].resources) <= visited)
  }

  lemma OperationsOfUnion(resources: map<string, Container>, left: set<string>, right: set<string>)
    ensures OperationsOf(resources, left + right) == OperationsOf(resources, left) + OperationsOf(resources, right)
  {
  }

  lemma OperationsOfOne(resources: map<string, Container>, id: string)
    requires id in resources
    ensures OperationsOf(resources, {id}) == Elements(resources[id].operations)
  {
  }

  // A resource and what the call below it gathered.
  lemma GatheredBelow(resources: map<string, Container>, roots: set<string>, id: string, below: set<string>,
                      visited: set<string>)
    requires id in roots && id in resources
    requires Gathered(resources, Elements(resources[id].resources), below, visited)
    requires Elements(resources[id].resources) <= visited
    ensures Gathered(resources, roots, below + {id}, visited)
  {
    hide Reaches;
    var g := ResourceGraph(resources);
    RootIsReached(g, roots, id);
    forall x | x in below
      ensures Reaches(g, roots, x)
    {
      ReachedThrough(g, id, Elements(resources[id].resources), x);
      MoreRootsReachMore(g, {id}, roots, x);
    }
  }

  lemma GatheredTogether(resources: map<string, Container>, roots: set<string>, first: set<string>, mid: set<string>,
                         second: set<string>, visited: set<string>)
    requires Gathered(resources, roots, first, mid) && Gathered(resources, roots, second, visited) && mid <= visited
    ensures Gathered(resources, roots, first + second, visited)
  {
    hide Reaches;
  }

  // One more resource, entered after `earlier`, and what the call below it gathered.
  lemma GatheredNext(resources: map<string, Container>, roots: set<string>, visited: set<string>,
                     earlier: set<string>, id: string, seen: set<string>)
    requires id in roots && id in resources && id !in earlier && visited <= earlier && earlier + {id} <= seen
    requires Gathered(resources, roots, earlier - visited, earlier)
    requires Gathered(resources, Elements(resources[id].resources), seen - (earlier + {id}), seen)
    requires Elements(resources[id].resources) <= seen
    ensures Gathered(resources, roots, seen - visited, seen)
    ensures OperationsOf(resources, seen - visited)
         == OperationsOf(resources, earlier - visited) + Elements(resources[id].operations) + OperationsOf(resources,
                 seen - (earlier + {id}))
  {
    hide Gathered, OperationsOf, Elements;
    var below := seen - (earlier + {id});
    GatheredBelow(resources, roots, id, below, seen);
    GatheredTogether(resources, roots, earlier - visited, earlier, below + {id}, seen);
    assert seen - visited == (earlier - visited) + (below + {id});
    OperationsOfUnion(resources, earlier - visited, below + {id});
    OperationsOfUnion(resources, below, {id});
    OperationsOfOne(resources, id);
  }

  lemma DanglingHere(resources: map<string, Container>, roots: set<string>, id: string)
    requires id in roots && id !in resources
    ensures Dangling(resources, roots)
  {
    RootIsReached(ResourceGraph(resources), roots, id);
  }

  lemma DanglingBelow(resources: map<string, Container>, roots: set<string>, id: string)
    requires id in roots && id in resources && Dangling(resources, Elements(resources[id].resources))
    ensures Dangling(resources, roots)
  {
    hide Reaches;
    var g, next := ResourceGraph(resources), Elements(resources[id].resources);
    var x :| Reaches(g, next, x) && x !in resources;
    ReachedThrough(g, id, next, x);
    MoreRootsReachMore(g, {id}, roots, x);
  }

  lemma NoElements()
    ensures Elements([]) == {}
  {
  }

  lemma ElementsGrow(names: seq<string>, i: nat)
    requires i < |names|
    ensures Elements(names[..i + 1]) == Elements(names[..i]) + {names[i]}
    ensures names[i] in Elements(names)
  {
    assert names[..i + 1] == names[..i] + [names[i]];
  }

  // `collect`: the operations of a container, then of each of its resources not yet visited.
  // `operations` is None where the source raises.
  method Collect(resources: map<string, Container>, container: Container, operations: set<string>, visited: set<string>)
    returns (ok: bool, collected: set<string>, seen: set<string>)
    requires visited <= resources.Keys
    ensures visited <= seen <= resources.Keys
    ensures ok ==> Gathered(resources, Elements(container.resources), seen - visited, seen)
    ensures ok ==> Elements(container.resources) <= seen
    ensures ok ==> collected == operations + Elements(container.operations) + OperationsOf(resources, seen - visited)
    ensures !ok ==> Dangling(resources, Elements(container.resources))
    decreases |resources.Keys - visited|
  {
    hide Gathered, Dangling, OperationsOf, Elements;
    assert Elements([]) == {} by {
      NoElements();
    }
    ghost var roots := Elements(container.resources);
    ok := true;
    collected := operations + Elements(container.operations);
    seen := visited;
    NothingGathered(resources, roots, seen);
    assert seen - visited == {};
    for i := 0 to |container.resources|
      invariant ok && visited <= seen <= resources.Keys
      invariant Elements(container.resources[..i]) <= seen
      invariant Gathered(resources, roots, seen - visited, seen)
      invariant collected == operations + Elements(container.operations) + OperationsOf(resources, seen - visited)
    {
      var id := container.resources[i];
      ElementsGrow(container.resources, i);
      if id !in seen {
        if id !in resources {
          DanglingHere(resources, roots, id);
          return false, collected, seen;
        }
        ghost var earlier := seen;
        seen := seen + {id};
        SmallerSet(resources.Keys - seen, resources.Keys - visited);
        ok, collected, seen := Collect(resources, resources[id], collected, seen);
        if !ok {
          DanglingBelow(resources, roots, id);
          return;
        }
        GatheredNext(resources, roots, visited, earlier, id, seen);
      }
    }
    assert container.resources[..|container.resources|] == container.resources;
  }

  lemma NothingGathered(resources: map<string, Container>, roots: set<string>, visited: set<string>)
    ensures Gathered(resources, roots, {}, visited) && OperationsOf(resources, {}) == {}
  {
  }

  // A service's operations: its own and those of exactly the resources it reaches. It is an
  // error exactly when one of these is not defined.
  method ServiceOperations(resources: map<string, Container>, service: Container)
    returns (ok: bool, operations: set<string>)
    ensures ok <==> !Dangling(resources, Elements(service.resources))
    ensures ok ==> forall op :: op in operations <==>
      (op in service.operations ||
       exists id :: Reaches(ResourceGraph(resources), Elements(service.resources),
                            id) && id in resources && op in resources[id].operations)
  {
    var seen;
    ok, operations, seen := Collect(resources, service, {}, {});
    if ok {
      assert seen - {} == seen;
      ClosedIsReachable(ResourceGraph(resources), Elements(service.resources), seen);
    }
  }
}
