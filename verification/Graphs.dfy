/** Reachability in a finite directed graph of names. */
module Graphs {
  // The successors of each node; a name outside the domain has none.
  type Graph = map<string, set<string>>

  ghost predicate Chain(g: Graph, path: seq<string>) {
    |path| > 0 && forall i | 0 <= i < |path| - 1 :: path[i] in g && path[i + 1] in g[path[i]]
  }

  ghost predicate Reaches(g: Graph, roots: set<string>, node: string) {
    exists path :: Chain(g, path) && path[0] in roots && path[|path| - 1] == node
  }

  ghost predicate Closed(g: Graph, nodes: set<string>) {
    forall x, y | x in nodes && x in g && y in g[x] :: y in nodes
  }

  lemma SmallerSet<T>(a: set<T>, b: set<T>)
    requires a < b
    ensures |a| < |b|
  {
    assert b == a + (b - a);
    assert |b| == |a| + |b - a|;
  }

  lemma RootIsReached(g: Graph, roots: set<string>, node: string)
    requires node in roots
    ensures Reaches(g, roots, node)
  {
    assert Chain(g, [node]);
  }

  lemma SuccessorIsReached(g: Graph, roots: set<string>, x: string, y: string)
    requires Reaches(g, roots, x) && x in g && y in g[x]
    ensures Reaches(g, roots, y)
  {
    var path :| Chain(g, path) && path[0] in roots && path[|path| - 1] == x;
    var longer := path + [y];
    assert Chain(g, longer) && longer[|longer| - 1] == y;
  }

  // What successors of `x` reach, `x` reaches.
  lemma ReachedThrough(g: Graph, x: string, next: set<string>, node: string)
    requires x in g && next <= g[x] && Reaches(g, next, node)
    ensures Reaches(g, {x}, node)
  {
    var path :| Chain(g, path) && path[0] in next && path[|path| - 1] == node;
    var longer := [x] + path;
    forall i | 0 <= i < |longer| - 1
      ensures longer[i] in g && longer[i + 1] in g[longer[i]]
    {
      if i > 0 {
        assert longer[i] == path[i - 1] && longer[i + 1] == path[i];
      }
    }
    assert Chain(g, longer) && longer[|longer| - 1] == node;
  }

  lemma MoreRootsReachMore(g: Graph, roots: set<string>, more: set<string>, node: string)
    requires roots <= more && Reaches(g, roots, node)
    ensures Reaches(g, more, node)
  {
    var path :| Chain(g, path) && path[0] in roots && path[|path| - 1] == node;
    assert path[0] in more;
  }

  lemma TailIsChain(g: Graph, path: seq<string>)
    requires Chain(g, path) && |path| > 1
    ensures Chain(g, path[1..]) && path[0] in g && path[1] in g[path[0]]
  {
    var tail := path[1..];
    forall i | 0 <= i < |tail| - 1
      ensures tail[i] in g && tail[i + 1] in g[tail[i]]
    {
      assert tail[i] == path[i + 1] && tail[i + 1] == path[i + 2];
    }
  }

  lemma {:induction false} ChainStaysInside(g: Graph, nodes: set<string>, path: seq<string>)
    requires Closed(g, nodes) && Chain(g, path) && path[0] in nodes
    ensures path[|path| - 1] in nodes
    decreases |path|
  {
    if |path| > 1 {
      TailIsChain(g, path);
      ChainStaysInside(g, nodes, path[1..]);
    }
  }

  // A closed set holding the roots, all of it reached, is exactly what they reach.
  lemma ClosedIsReachable(g: Graph, roots: set<string>, nodes: set<string>)
    requires roots <= nodes && Closed(g, nodes)
    requires forall x | x in nodes :: Reaches(g, roots, x)
    ensures forall x :: x in nodes <==> Reaches(g, roots, x)
  {
    forall x | Reaches(g, roots, x)
      ensures x in nodes
    {
      var path :| Chain(g, path) && path[0] in roots && path[|path| - 1] == x;
      ChainStaysInside(g, nodes, path);
    }
  }
}
