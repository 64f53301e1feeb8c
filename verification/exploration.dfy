/**
 * The state `buildLayout` keeps while it grows its spanning forest
 * (src/components/app/tree/skill-tree-canvas.tsx): `visited`, `parentMap`,
 * `childrenMap` and `roots`, the invariant they keep, and one lemma per step
 * of `traverse` showing that the step keeps it.
 */
module Exploration {
  import opened SkillTypes
  import opened Adjacency
  import opened ForestShape

  /** Every neighbour of a key is a key (true of `AdjacencyOf`). */
  ghost predicate AdjClosed(adj: Adj)
  {
    forall k, v :: v in Nbrs(adj, k) ==> v in adj
  }

  /**
   * The invariant of `visited` and `parentMap`: exactly the visited nodes
   * have an entry in `parentMap`, they are nodes of the adjacency, and every
   * parent is a neighbour of its child. (That `parentMap`, `childrenMap` and
   * `roots` form a well-formed forest is kept separately, as
   * `WellFormed(f, Ranking(rank, n))` with `n` the number of nodes visited.)
   */
  ghost predicate Explored(adj: Adj, f: Forest, visited: set<string>)
  {
    && f.parent.Keys == visited
    && visited <= adj.Keys
    && (forall x :: x in f.parent && f.parent[x].Some? ==> x in Nbrs(adj, f.parent[x].value))
  }

  /** No neighbour of a visited node is left unvisited. */
  ghost predicate Closed(adj: Adj, visited: set<string>)
  {
    forall x, v :: x in visited && v in Nbrs(adj, x) ==> v in visited
  }

  /** The forest with `kids` recorded as the children of `p` (when there are any). */
  function WithKids(f: Forest, p: string, kids: seq<string>): Forest
  {
    if |kids| == 0 then f else f.(children := f.children[p := kids])
  }

  /** Adding a new root keeps the forest well formed. */
  lemma ForestAddRoot(f: Forest, rank: map<string, nat>, n: nat, root: string)
    requires WellFormed(f, Ranking(rank, n)) && root !in f.parent
    ensures WellFormed(f.(parent := f.parent[root := None], roots := f.roots + [root]),
      Ranking(rank[root := n], n + 1))
  {
    var f2 := f.(parent := f.parent[root := None], roots := f.roots + [root]);
    var r2 := Ranking(rank[root := n], n + 1);
    WellFormedParts(f, Ranking(rank, n));
    AddRootKids(f, rank, n, root);
    AddRootRoots(f, rank, n, root);
    assert RankedNodes(f2, r2);
    WellFormedParts(f2, r2);
  }

  lemma AddRootKids(f: Forest, rank: map<string, nat>, n: nat, root: string)
    requires RankedNodes(f, Ranking(rank, n)) && KidsLinked(f, Ranking(rank, n)) && ParentsListed(f)
    requires root !in f.parent
    ensures KidsLinked(f.(parent := f.parent[root := None], roots := f.roots + [root]),
      Ranking(rank[root := n], n + 1))
    ensures ParentsListed(f.(parent := f.parent[root := None], roots := f.roots + [root]))
  {
    var f2 := f.(parent := f.parent[root := None], roots := f.roots + [root]);
    var r2 := Ranking(rank[root := n], n + 1);
    forall p, c | p in f2.children && c in f2.children[p]
      ensures c in r2.rank && r2.rank[p] < r2.rank[c] && f2.parent[c] == Some(p)
    {
      assert c in f.children[p];
    }
  }

  lemma AddRootRoots(f: Forest, rank: map<string, nat>, n: nat, root: string)
    requires RootsListed(f) && root !in f.parent
    ensures RootsListed(f.(parent := f.parent[root := None], roots := f.roots + [root]))
  {
    var f2 := f.(parent := f.parent[root := None], roots := f.roots + [root]);
    assert root !in f.roots;
    NoDupJoin(f.roots, [root]);
    forall x | x in f2.parent
      ensures f2.parent[x].None? <==> x in f2.roots
    {
      if x != root {
        assert x in f.parent;
      }
    }
  }

  /** Claiming `x` as the next child of `current` keeps the forest (with the pending children) well formed. */
  lemma ForestAddChild(f: Forest, rank: map<string, nat>, n: nat, current: string, kids: seq<string>, x: string)
    requires WellFormed(WithKids(f, current, kids), Ranking(rank, n))
    requires current in rank && current !in f.children
    requires forall c :: c in kids ==> c in rank
    requires x !in rank && rank[current] < n
    ensures WellFormed(WithKids(f.(parent := f.parent[x := Some(current)]), current, kids + [x]),
      Ranking(rank[x := n], n + 1))
  {
    var f1 := WithKids(f, current, kids);
    var f2 := WithKids(f.(parent := f.parent[x := Some(current)]), current, kids + [x]);
    var r2 := Ranking(rank[x := n], n + 1);
    WellFormedParts(f1, Ranking(rank, n));
    AddChildKids(f, rank, n, current, kids, x);
    AddChildParents(f, rank, n, current, kids, x);
    AddChildRoots(f, rank, n, current, kids, x);
    assert RankedNodes(f2, r2);
    WellFormedParts(f2, r2);
  }

  lemma AddChildKids(f: Forest, rank: map<string, nat>, n: nat, current: string, kids: seq<string>, x: string)
    requires RankedNodes(WithKids(f, current, kids), Ranking(rank, n))
    requires KidsLinked(WithKids(f, current, kids), Ranking(rank, n))
    requires current in rank && current !in f.children
    requires forall c :: c in kids ==> c in rank
    requires x !in rank && rank[current] < n
    ensures KidsLinked(WithKids(f.(parent := f.parent[x := Some(current)]), current, kids + [x]),
      Ranking(rank[x := n], n + 1))
  {
    var f1 := WithKids(f, current, kids);
    var f2 := WithKids(f.(parent := f.parent[x := Some(current)]), current, kids + [x]);
    var r2 := Ranking(rank[x := n], n + 1);
    assert x !in kids;
    if |kids| > 0 {
      assert current in f1.children;
    }
    NoDupJoin(kids, [x]);
    assert f2.children == f.children[current := kids + [x]];
    forall p | p in f2.children
      ensures p in r2.rank && NoDup(f2.children[p])
    {
      if p != current {
        assert f2.children[p] == f1.children[p];
      }
    }
    forall p, c | p in f2.children && c in f2.children[p]
      ensures c in r2.rank && c in f2.parent && r2.rank[p] < r2.rank[c] && f2.parent[c] == Some(p)
    {
      if p != current {
        assert f2.children[p] == f1.children[p];
        assert c in f1.children[p];
      } else if c != x {
        assert c in f1.children[current];
      }
    }
  }

  lemma AddChildParents(f: Forest, rank: map<string, nat>, n: nat, current: string, kids: seq<string>, x: string)
    requires ParentsListed(WithKids(f, current, kids))
    requires current !in f.children
    requires x !in f.parent
    ensures ParentsListed(WithKids(f.(parent := f.parent[x := Some(current)]), current, kids + [x]))
  {
    var f1 := WithKids(f, current, kids);
    var f2 := WithKids(f.(parent := f.parent[x := Some(current)]), current, kids + [x]);
    assert f2.children == f.children[current := kids + [x]];
    forall y | y in f2.parent && f2.parent[y].Some?
      ensures f2.parent[y].value in f2.children && y in f2.children[f2.parent[y].value]
    {
      if y != x {
        var q := f1.parent[y].value;
        assert y in f1.children[q];
      }
    }
  }

  lemma AddChildRoots(f: Forest, rank: map<string, nat>, n: nat, current: string, kids: seq<string>, x: string)
    requires RootsListed(WithKids(f, current, kids))
    requires x !in f.parent
    ensures RootsListed(WithKids(f.(parent := f.parent[x := Some(current)]), current, kids + [x]))
  {
    var f1 := WithKids(f, current, kids);
    var f2 := WithKids(f.(parent := f.parent[x := Some(current)]), current, kids + [x]);
    assert f2.roots == f1.roots;
    assert x !in f1.roots;
    forall y | y in f2.parent
      ensures f2.parent[y].None? <==> y in f2.roots
    {
      if y != x {
        assert y in f1.parent;
      }
    }
  }

  /** Starting `traverse(root)` keeps the invariant. */
  lemma AddRoot(adj: Adj, f: Forest, visited: set<string>, root: string)
    requires Explored(adj, f, visited)
    requires root in adj && root !in visited
    ensures Explored(adj, f.(parent := f.parent[root := None], roots := f.roots + [root]), visited + {root})
  {
  }

  // ---------------------------------------------------------------------
  // Claiming the neighbours of one node
  // ---------------------------------------------------------------------

  /** The forest, the visited set and the children claimed so far by the neighbour loop. */
  datatype Claim = Claim(forest: Forest, visited: set<string>, kids: seq<string>)

  /**
   * The `for (const neighbor of neighbors)` loop of `traverse`, run over the
   * neighbours `ns` of `current`: each one not yet visited is marked visited,
   * gets `current` as its parent and is appended to the children. The
   * claimed children are exactly the listed neighbours that were unvisited,
   * each once; every listed neighbour ends up visited; no other node changes
   * parent.
   */
  function Claimed(f: Forest, visited: set<string>, current: string, ns: seq<string>): Claim
  {
    if |ns| == 0 then Claim(f, visited, [])
    else
      var c := Claimed(f, visited, current, ns[..|ns| - 1]);
      var n := ns[|ns| - 1];
      if n in c.visited then c
      else Claim(c.forest.(parent := c.forest.parent[n := Some(current)]), c.visited + {n}, c.kids + [n])
  }

  /**
   * The claimed children are exactly the listed neighbours that were
   * unvisited, each once; every listed neighbour ends up visited; the
   * children get `current` as parent and no other node changes parent.
   */
  lemma {:induction false} ClaimedFacts(f: Forest, visited: set<string>, current: string, ns: seq<string>)
    ensures var c := Claimed(f, visited, current, ns);
      && c.forest.roots == f.roots && c.forest.children == f.children
      && NoDup(c.kids)
      && (forall x :: x in c.kids <==> x in ns && x !in visited)
      && (forall x :: x in c.visited <==> x in visited || x in c.kids)
      && (forall x :: x in c.forest.parent <==> x in f.parent || x in c.kids)
      && (forall x :: x in c.kids ==> c.forest.parent[x] == Some(current))
      && (forall x :: x in f.parent && x !in c.kids ==> c.forest.parent[x] == f.parent[x])
  {
    if |ns| > 0 {
      var c := Claimed(f, visited, current, ns[..|ns| - 1]);
      var n := ns[|ns| - 1];
      ClaimedFacts(f, visited, current, ns[..|ns| - 1]);
      assert forall x :: x in ns <==> x in ns[..|ns| - 1] || x == n;
      if n !in c.visited {
        NoDupJoin(c.kids, [n]);
      }
    }
  }

  /**
   * Claiming neighbours keeps the invariant: the claimed children are
   * neighbours of `current`, so they are nodes of the adjacency and their
   * parent is adjacent to them.
   */
  lemma ClaimedExplored(adj: Adj, f: Forest, visited: set<string>, current: string, ns: seq<string>)
    requires AdjClosed(adj) && Explored(adj, f, visited) && current in visited
    requires forall x :: x in ns ==> x in Nbrs(adj, current)
    ensures Explored(adj, Claimed(f, visited, current, ns).forest, Claimed(f, visited, current, ns).visited)
  {
    ClaimedFacts(f, visited, current, ns);
  }

  /** Each claimed child was an unvisited node of the adjacency, so the unvisited part shrinks by one per child. */
  lemma {:induction false} ClaimedCount(adj: Adj, f: Forest, visited: set<string>, current: string, ns: seq<string>)
    requires forall x :: x in ns ==> x in adj
    ensures var c := Claimed(f, visited, current, ns);
      |adj.Keys - c.visited| + |c.kids| == |adj.Keys - visited|
  {
    if |ns| > 0 {
      var c := Claimed(f, visited, current, ns[..|ns| - 1]);
      var n := ns[|ns| - 1];
      ClaimedCount(adj, f, visited, current, ns[..|ns| - 1]);
      ClaimedFacts(f, visited, current, ns[..|ns| - 1]);
      if n !in c.visited {
        assert adj.Keys - (c.visited + {n}) == (adj.Keys - c.visited) - {n};
      }
    }
  }

  /** One more neighbour: `Claimed` unfolded at the end of `ns`. */
  lemma ClaimedSnoc(f: Forest, visited: set<string>, current: string, ns: seq<string>)
    requires |ns| > 0
    ensures var c := Claimed(f, visited, current, ns[..|ns| - 1]);
      var n := ns[|ns| - 1];
      Claimed(f, visited, current, ns) ==
        if n in c.visited then c
        else Claim(c.forest.(parent := c.forest.parent[n := Some(current)]), c.visited + {n}, c.kids + [n])
  {
  }

  /**
   * Claiming one more child `x` of `current` keeps the forest with the
   * pending children well formed; the new state is passed in as `f2`,
   * `kids2`, `rank2` and `n2`.
   */
  lemma AddChildWellFormed(f: Forest, current: string, kids: seq<string>, x: string, rank: map<string, nat>, n: nat,
                           f2: Forest, kids2: seq<string>, rank2: map<string, nat>, n2: nat)
    requires WellFormed(WithKids(f, current, kids), Ranking(rank, n))
    requires current in rank && current !in f.children && x !in rank
    requires forall c :: c in kids ==> c in rank
    requires f2 == f.(parent := f.parent[x := Some(current)]) && kids2 == kids + [x]
    requires rank2 == rank[x := n] && n2 == n + 1
    ensures WellFormed(WithKids(f2, current, kids2), Ranking(rank2, n2))
  {
    assert current in WithKids(f, current, kids).parent;
    ForestAddChild(f, rank, n, current, kids, x);
  }

  /**
   * Claiming neighbours keeps the forest, with the claimed children
   * recorded under `current`, well formed: the claimed children are ranked
   * after every node visited before, in the order they were claimed. The
   * ranking is built alongside and returned.
   */
  lemma {:induction false} ClaimedWellFormed(f: Forest, visited: set<string>, current: string, ns: seq<string>,
                                             rank: map<string, nat>, count: nat)
    returns (c: Claim, rank2: map<string, nat>, count2: nat)
    requires WellFormed(f, Ranking(rank, count)) && f.parent.Keys == visited
    requires current in visited && current !in f.children
    ensures c == Claimed(f, visited, current, ns)
    ensures WellFormed(WithKids(c.forest, current, c.kids), Ranking(rank2, count2))
  {
    if |ns| == 0 {
      c, rank2, count2 := Claim(f, visited, []), rank, count;
    } else {
      var n := ns[|ns| - 1];
      var c1, r, m := ClaimedWellFormed(f, visited, current, ns[..|ns| - 1], rank, count);
      ClaimedSnoc(f, visited, current, ns);
      if n in c1.visited {
        c, rank2, count2 := c1, r, m;
      } else {
        ClaimedFacts(f, visited, current, ns[..|ns| - 1]);
        c := Claim(c1.forest.(parent := c1.forest.parent[n := Some(current)]), c1.visited + {n}, c1.kids + [n]);
        rank2, count2 := r[n := m], m + 1;
        AddChildWellFormed(c1.forest, current, c1.kids, n, r, m, c.forest, c.kids, rank2, count2);
      }
    }
  }

  /**
   * After the head of the queue has claimed its neighbours, every visited
   * node that is no longer queued has all its neighbours visited.
   */
  lemma CloseStep(adj: Adj, visited0: set<string>, queue0: seq<string>, visited: set<string>, kids: seq<string>)
    requires |queue0| > 0
    requires forall x, v :: x in visited0 && x !in queue0 && v in Nbrs(adj, x) ==> v in visited0
    requires forall x :: x in visited <==> x in visited0 || x in kids
    requires forall v :: v in Nbrs(adj, queue0[0]) ==> v in visited
    ensures forall x, v :: x in visited && x !in queue0[1..] + kids && v in Nbrs(adj, x) ==> v in visited
  {
    forall x, v | x in visited && x !in queue0[1..] + kids && v in Nbrs(adj, x)
      ensures v in visited
    {
      assert queue0 == [queue0[0]] + queue0[1..];
      if x != queue0[0] {
        assert x !in queue0;
      }
    }
  }

  /**
   * The queue after one dequeue and the enqueueing of `kids` still holds
   * distinct visited nodes, none of which has recorded children yet.
   */
  lemma QueueStep(queue0: seq<string>, kids: seq<string>, visited0: set<string>, visited: set<string>,
                  children0: map<string, seq<string>>, children: map<string, seq<string>>)
    requires |queue0| > 0 && NoDup(queue0) && NoDup(kids)
    requires forall x :: x in queue0 ==> x in visited0 && x !in children0
    requires forall x :: x in children0 ==> x in visited0
    requires forall x :: x in kids ==> x !in visited0
    requires forall x :: x in visited <==> x in visited0 || x in kids
    requires forall x :: x in children ==> x in children0 || x == queue0[0]
    ensures NoDup(queue0[1..] + kids)
    ensures forall x :: x in queue0[1..] + kids ==> x in visited && x !in children
  {
    var q := queue0[1..];
    assert queue0 == [queue0[0]] + q;
    NoDupJoin(q, kids);
    forall x | x in q + kids
      ensures x in visited && x !in children
    {
      if x in q {
        assert x in queue0;
        assert x != queue0[0];
      }
    }
  }
}
