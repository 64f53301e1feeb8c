/**
 * The spanning forest `buildLayout` grows over the adjacency
 * (src/components/app/tree/skill-tree-canvas.tsx): skills are tried as roots
 * by descending progress, and each new root starts a breadth-first `traverse`
 * that claims every node it reaches, visiting neighbours in name order.
 */
module Traversal {
  import opened SkillTypes
  import opened Collation
  import opened Sorting
  import opened Adjacency
  import opened ForestShape
  import opened Exploration

  // ---------------------------------------------------------------------
  // Comparators
  // ---------------------------------------------------------------------

  /**
   * The neighbour comparator: by name when both ids are skills of the list
   * (the last skill with the id, as `skillMap` keeps it), by id otherwise.
   */
  predicate NeighborLess(skills: seq<SkillNode>, a: string, b: string)
  {
    match (Lookup(skills, a), Lookup(skills, b))
    case (Some(x), Some(y)) => StrLess(x.name, y.name)
    case _ => StrLess(a, b)
  }

  /** The comparator of `sortedByPriority`: higher progress first, then by name. */
  predicate PriorityLess(a: SkillNode, b: SkillNode)
  {
    a.progress > b.progress || (a.progress == b.progress && StrLess(a.name, b.name))
  }

  /** The neighbour comparator never orders two ids both ways, so sorting by it is well defined. */
  lemma NeighborLessAsymmetric(skills: seq<SkillNode>)
    ensures Asymmetric((a: string, b: string) => NeighborLess(skills, a, b))
  {
    forall a: string, b: string
      ensures NeighborLess(skills, a, b) ==> !NeighborLess(skills, b, a)
    {
      StrLessAsymmetric(a, b);
      match (Lookup(skills, a), Lookup(skills, b))
      case (Some(x), Some(y)) => StrLessAsymmetric(x.name, y.name);
      case _ =>
    }
  }

  /** The priority comparator is a strict weak order, so the priority order is fully sorted. */
  lemma PriorityLessWeakOrder()
    ensures StrictWeakOrder(PriorityLess)
  {
    forall a: SkillNode, b: SkillNode
      ensures PriorityLess(a, b) ==> !PriorityLess(b, a)
    {
      StrLessAsymmetric(a.name, b.name);
    }
    forall a: SkillNode, b: SkillNode, c: SkillNode | PriorityLess(c, a)
      ensures PriorityLess(c, b) || PriorityLess(b, a)
    {
      StrLessTotal(c.name, b.name);
      StrLessTotal(b.name, a.name);
      StrLessTransitive(c.name, b.name, a.name);
      StrLessTransitive(b.name, c.name, a.name);
      StrLessTransitive(c.name, a.name, b.name);
    }
  }

  // ---------------------------------------------------------------------
  // traverse
  // ---------------------------------------------------------------------

  /** The neighbour order of lines 86-93 and 124-131, as a function value. */
  function ByName(skills: seq<SkillNode>): (string, string) -> bool
  {
    (a: string, b: string) => NeighborLess(skills, a, b)
  }

  /** `Array.from(adjacency.get(current) ?? []).sort(...)`: the neighbours of `current` in name order. */
  function SortedNbrs(skills: seq<SkillNode>, adj: Adj, current: string): seq<string>
  {
    SortBy(Nbrs(adj, current), ByName(skills))
  }

  /** The sorted neighbours are the neighbours, so they are nodes of a closed adjacency. */
  lemma SortedNbrsAre(skills: seq<SkillNode>, adj: Adj, current: string)
    requires AdjClosed(adj)
    ensures forall x :: x in SortedNbrs(skills, adj, current) <==> x in Nbrs(adj, current)
    ensures forall x :: x in SortedNbrs(skills, adj, current) ==> x in adj
  {
    var ns := SortedNbrs(skills, adj, current);
    forall x
      ensures x in ns <==> x in Nbrs(adj, current)
    {
      assert x in ns <==> x in multiset(ns);
      assert x in Nbrs(adj, current) <==> x in multiset(Nbrs(adj, current));
    }
  }

  /** The result of a walk: the forest and the visited set. */
  datatype Walk = Walk(forest: Forest, visited: set<string>)

  /**
   * The `while (queue.length)` loop of `traverse`: the head of the queue is
   * dequeued, claims its unvisited neighbours in name order as its
   * children, records them when there are any, and they join the queue.
   * The visited set only grows and stays within the adjacency.
   */
  function Drain(skills: seq<SkillNode>, adj: Adj, f: Forest, visited: set<string>, queue: seq<string>): (w: Walk)
    requires AdjClosed(adj) && visited <= adj.Keys
    ensures visited <= w.visited <= adj.Keys
    decreases |adj.Keys - visited|, |queue|
  {
    if |queue| == 0 then Walk(f, visited)
    else
      var current := queue[0];
      var ns := SortedNbrs(skills, adj, current);
      var c := Claimed(f, visited, current, ns);
      SortedNbrsAre(skills, adj, current);
      ClaimedCount(adj, f, visited, current, ns);
      ClaimedFacts(f, visited, current, ns);
      Drain(skills, adj, WithKids(c.forest, current, c.kids), c.visited, queue[1..] + c.kids)
  }

  /** `traverse(root)`: `root` becomes a new root and the queue starts from it. */
  function Traversed(skills: seq<SkillNode>, adj: Adj, root: string, f: Forest, visited: set<string>): (w: Walk)
    requires AdjClosed(adj) && visited <= adj.Keys && root in adj
    ensures visited + {root} <= w.visited <= adj.Keys
  {
    Drain(skills, adj, AddedRoot(f, root), visited + {root}, [root])
  }

  /** `Drain` unfolded once: the step the loop body takes. */
  lemma DrainStep(skills: seq<SkillNode>, adj: Adj, f: Forest, visited: set<string>, queue: seq<string>, c: Claim)
    requires AdjClosed(adj) && visited <= adj.Keys && |queue| > 0
    requires c == Claimed(f, visited, queue[0], SortedNbrs(skills, adj, queue[0]))
    ensures c.visited <= adj.Keys
    ensures |adj.Keys - c.visited| + |c.kids| == |adj.Keys - visited|
    ensures Drain(skills, adj, f, visited, queue) ==
      Drain(skills, adj, WithKids(c.forest, queue[0], c.kids), c.visited, queue[1..] + c.kids)
  {
    SortedNbrsAre(skills, adj, queue[0]);
    ClaimedCount(adj, f, visited, queue[0], SortedNbrs(skills, adj, queue[0]));
    ClaimedFacts(f, visited, queue[0], SortedNbrs(skills, adj, queue[0]));
  }

  /**
   * After one step the queue still holds distinct visited nodes without
   * recorded children, and exactly the visited nodes have a parent entry.
   */
  lemma QueueKept(f: Forest, visited: set<string>, queue: seq<string>, ns: seq<string>, c: Claim)
    requires |queue| > 0 && c == Claimed(f, visited, queue[0], ns)
    requires f.parent.Keys == visited && forall x :: x in f.children ==> x in visited
    requires NoDup(queue) && forall x :: x in queue ==> x in visited && x !in f.children
    ensures WithKids(c.forest, queue[0], c.kids).parent.Keys == c.visited
    ensures NoDup(queue[1..] + c.kids)
    ensures forall x :: x in queue[1..] + c.kids ==> x in c.visited && x !in WithKids(c.forest, queue[0], c.kids).children
  {
    ClaimedFacts(f, visited, queue[0], ns);
    QueueStep(queue, c.kids, visited, c.visited, f.children, WithKids(c.forest, queue[0], c.kids).children);
  }

  /**
   * Draining keeps the invariant of `visited` and `parentMap`, adds no root
   * and leaves the parents of the nodes visited before untouched.
   */
  lemma {:induction false} DrainExplored(skills: seq<SkillNode>, adj: Adj, f: Forest, visited: set<string>, queue: seq<string>)
    requires AdjClosed(adj) && Explored(adj, f, visited)
    requires forall x :: x in queue ==> x in visited
    ensures var w := Drain(skills, adj, f, visited, queue);
      && Explored(adj, w.forest, w.visited)
      && w.forest.roots == f.roots
      && (forall x :: x in visited ==> w.forest.parent[x] == f.parent[x])
    decreases |adj.Keys - visited|, |queue|
  {
    if |queue| > 0 {
      var current := queue[0];
      var ns := SortedNbrs(skills, adj, current);
      var c := Claimed(f, visited, current, ns);
      DrainStep(skills, adj, f, visited, queue, c);
      SortedNbrsAre(skills, adj, current);
      ClaimedFacts(f, visited, current, ns);
      ClaimedExplored(adj, f, visited, current, ns);
      var g := WithKids(c.forest, current, c.kids);
      assert g.parent == c.forest.parent && g.roots == c.forest.roots;
      DrainExplored(skills, adj, g, c.visited, queue[1..] + c.kids);
    }
  }

  /** Draining keeps the forest well formed; the ranking is extended alongside. */
  lemma {:induction false} DrainWellFormed(skills: seq<SkillNode>, adj: Adj, f: Forest, visited: set<string>, queue: seq<string>,
                                           rank: map<string, nat>, count: nat)
    returns (w: Walk, rank2: map<string, nat>, count2: nat)
    requires AdjClosed(adj) && visited <= adj.Keys
    requires WellFormed(f, Ranking(rank, count)) && f.parent.Keys == visited
    requires NoDup(queue) && forall x :: x in queue ==> x in visited && x !in f.children
    ensures w == Drain(skills, adj, f, visited, queue)
    ensures WellFormed(w.forest, Ranking(rank2, count2))
    decreases |adj.Keys - visited|, |queue|
  {
    if |queue| == 0 {
      w, rank2, count2 := Walk(f, visited), rank, count;
    } else {
      var current := queue[0];
      var ns := SortedNbrs(skills, adj, current);
      var c, r, m := ClaimedWellFormed(f, visited, current, ns, rank, count);
      DrainStep(skills, adj, f, visited, queue, c);
      assert forall x :: x in f.children ==> x in visited;
      QueueKept(f, visited, queue, ns, c);
      w, rank2, count2 := DrainWellFormed(skills, adj, WithKids(c.forest, current, c.kids), c.visited, queue[1..] + c.kids, r, m);
    }
  }

  /**
   * Draining closes the visited set under adjacency, given that every
   * visited node off the queue already has all its neighbours visited.
   */
  lemma {:induction false} DrainClosed(skills: seq<SkillNode>, adj: Adj, f: Forest, visited: set<string>, queue: seq<string>)
    requires AdjClosed(adj) && visited <= adj.Keys
    requires forall x :: x in queue ==> x in visited
    requires forall x, v :: x in visited && x !in queue && v in Nbrs(adj, x) ==> v in visited
    ensures Closed(adj, Drain(skills, adj, f, visited, queue).visited)
    decreases |adj.Keys - visited|, |queue|
  {
    if |queue| > 0 {
      var current := queue[0];
      var ns := SortedNbrs(skills, adj, current);
      var c := Claimed(f, visited, current, ns);
      DrainStep(skills, adj, f, visited, queue, c);
      SortedNbrsAre(skills, adj, current);
      ClaimedFacts(f, visited, current, ns);
      CloseStep(adj, visited, queue, c.visited, c.kids);
      DrainClosed(skills, adj, WithKids(c.forest, current, c.kids), c.visited, queue[1..] + c.kids);
    }
  }

  // ---------------------------------------------------------------------
  // traverse(root) and the loop over the skills by priority
  // ---------------------------------------------------------------------

  /** The forest `traverse(root)` starts from: `root` is pushed on `roots` with no parent. */
  function AddedRoot(f: Forest, root: string): Forest
  {
    f.(parent := f.parent[root := None], roots := f.roots + [root])
  }

  /**
   * `traverse(root)` keeps the invariant of `visited` and `parentMap` and
   * closes the visited set: afterwards it holds the whole connected
   * component of `root`. Exactly `root` is added to the roots, and the
   * nodes visited before keep their parents.
   */
  lemma TraversedExplored(skills: seq<SkillNode>, adj: Adj, root: string, f: Forest, visited: set<string>)
    requires AdjClosed(adj) && Explored(adj, f, visited) && Closed(adj, visited)
    requires root in adj && root !in visited
    ensures var w := Traversed(skills, adj, root, f, visited);
      && Explored(adj, w.forest, w.visited)
      && Closed(adj, w.visited)
      && w.forest.roots == f.roots + [root]
      && (forall x :: x in visited ==> w.forest.parent[x] == f.parent[x])
  {
    AddRoot(adj, f, visited, root);
    DrainExplored(skills, adj, AddedRoot(f, root), visited + {root}, [root]);
    DrainClosed(skills, adj, AddedRoot(f, root), visited + {root}, [root]);
  }

  /** `traverse(root)` keeps the forest well formed; the ranking is extended alongside. */
  lemma TraversedWellFormed(skills: seq<SkillNode>, adj: Adj, root: string, f: Forest, visited: set<string>,
                            rank: map<string, nat>, count: nat)
    returns (w: Walk, rank2: map<string, nat>, count2: nat)
    requires AdjClosed(adj) && visited <= adj.Keys && root in adj && root !in visited
    requires WellFormed(f, Ranking(rank, count)) && f.parent.Keys == visited
    ensures w == Traversed(skills, adj, root, f, visited)
    ensures WellFormed(w.forest, Ranking(rank2, count2))
  {
    ForestAddRoot(f, rank, count, root);
    assert root !in f.children;
    w, rank2, count2 := DrainWellFormed(skills, adj, AddedRoot(f, root), visited + {root}, [root], rank[root := count], count + 1);
  }

  /**
   * The `for (const skill of sortedByPriority)` loop, run over `order`:
   * each skill not yet visited starts a traversal from its id.
   */
  function Grow(skills: seq<SkillNode>, adj: Adj, order: seq<SkillNode>): (w: Walk)
    requires AdjClosed(adj) && forall i :: 0 <= i < |order| ==> order[i].id in adj
    ensures w.visited <= adj.Keys
  {
    if |order| == 0 then Walk(Forest(map[], map[], []), {})
    else
      var w := Grow(skills, adj, order[..|order| - 1]);
      var id := order[|order| - 1].id;
      if id in w.visited then w else Traversed(skills, adj, id, w.forest, w.visited)
  }

  /**
   * After the loop over `order`, the invariant holds, the visited set is
   * closed under adjacency, every skill of `order` is visited, and every
   * root is the id of a skill of `order`.
   */
  lemma {:induction false} GrowExplored(skills: seq<SkillNode>, adj: Adj, order: seq<SkillNode>)
    requires AdjClosed(adj) && forall i :: 0 <= i < |order| ==> order[i].id in adj
    ensures var w := Grow(skills, adj, order);
      && Explored(adj, w.forest, w.visited)
      && Closed(adj, w.visited)
      && (forall i :: 0 <= i < |order| ==> order[i].id in w.visited)
      && (forall x :: x in w.forest.roots ==> x in Ids(order))
  {
    if |order| > 0 {
      var prefix := order[..|order| - 1];
      var id := order[|order| - 1].id;
      var w0 := Grow(skills, adj, prefix);
      GrowExplored(skills, adj, prefix);
      assert Ids(order) == Ids(prefix) + [id];
      if id !in w0.visited {
        TraversedExplored(skills, adj, id, w0.forest, w0.visited);
      }
    }
  }

  /** After the loop over `order` the forest is well formed; the ranking is built alongside. */
  lemma {:induction false} GrowWellFormed(skills: seq<SkillNode>, adj: Adj, order: seq<SkillNode>)
    returns (w: Walk, rank: map<string, nat>, count: nat)
    requires AdjClosed(adj) && forall i :: 0 <= i < |order| ==> order[i].id in adj
    ensures w == Grow(skills, adj, order)
    ensures WellFormed(w.forest, Ranking(rank, count))
  {
    if |order| == 0 {
      w, rank, count := Walk(Forest(map[], map[], []), {}), map[], 0;
    } else {
      var prefix := order[..|order| - 1];
      var id := order[|order| - 1].id;
      var w0, r0, n0 := GrowWellFormed(skills, adj, prefix);
      if id in w0.visited {
        w, rank, count := w0, r0, n0;
      } else {
        GrowExplored(skills, adj, prefix);
        w, rank, count := TraversedWellFormed(skills, adj, id, w0.forest, w0.visited, r0, n0);
      }
    }
  }

  // ---------------------------------------------------------------------
  // The whole spanning forest
  // ---------------------------------------------------------------------

  /** `sortedByPriority`: the skills by descending progress, then by name. */
  function PriorityOrder(skills: seq<SkillNode>): seq<SkillNode>
  {
    SortBy(skills, PriorityLess)
  }

  /** The priority order is a sorted rearrangement of the skills. */
  lemma PriorityOrderFacts(skills: seq<SkillNode>)
    ensures |PriorityOrder(skills)| == |skills|
    ensures forall s :: s in PriorityOrder(skills) <==> s in skills
    ensures Sorted(PriorityOrder(skills), PriorityLess)
    ensures forall i :: 0 <= i < |PriorityOrder(skills)| ==> PriorityOrder(skills)[i].id in AdjacencyOf(skills)
  {
    var order := PriorityOrder(skills);
    forall s
      ensures s in order <==> s in skills
    {
      assert s in order <==> s in multiset(order);
      assert s in skills <==> s in multiset(skills);
    }
    PriorityLessWeakOrder();
    SortBySorted(skills, PriorityLess);
    AdjacencySymmetric(skills);
    forall i | 0 <= i < |order|
      ensures order[i].id in AdjacencyOf(skills)
    {
      assert order[i] in skills;
    }
  }

  /** Both loops over the skills: the first reaches every skill, so the second never starts a traversal. */
  function Explore(skills: seq<SkillNode>): Walk
  {
    AdjacencySymmetric(skills);
    PriorityOrderFacts(skills);
    Grow(skills, AdjacencyOf(skills), PriorityOrder(skills))
  }

  /** `childrenMap.forEach(... childIds.sort(...))`: every child list in name order. */
  function SortChildren(skills: seq<SkillNode>, f: Forest): Forest
  {
    f.(children := map p | p in f.children :: SortBy(f.children[p], ByName(skills)))
  }

  /** The forest `buildLayout` lays out. */
  function SpanningForest(skills: seq<SkillNode>): Forest
  {
    SortChildren(skills, Explore(skills).forest)
  }

  /** Sorting a list keeps its members, and keeps it duplicate-free. */
  lemma SortBySame<T(!new)>(s: seq<T>, less: (T, T) -> bool)
    ensures forall x :: x in SortBy(s, less) <==> x in s
    ensures NoDup(s) ==> NoDup(SortBy(s, less))
  {
    var t := SortBy(s, less);
    forall x
      ensures x in t <==> x in s
    {
      assert x in t <==> x in multiset(t);
      assert x in s <==> x in multiset(s);
    }
    if NoDup(s) {
      NoDupPerm(s, t);
    }
  }

  /** Sorting the child lists rearranges each of them, so the forest stays well formed. */
  lemma SortChildrenWellFormed(skills: seq<SkillNode>, f: Forest, r: Ranking)
    requires WellFormed(f, r)
    ensures WellFormed(SortChildren(skills, f), r)
  {
    var g := SortChildren(skills, f);
    forall p | p in f.children
      ensures NoDup(g.children[p])
      ensures forall c :: c in g.children[p] <==> c in f.children[p]
    {
      SortBySame(f.children[p], ByName(skills));
    }
    assert g.children.Keys == f.children.Keys;
    RearrangedWellFormed(f, g, r);
  }

  /** The spanning forest is well formed under some discovery ranking. */
  lemma SpanningForestWellFormed(skills: seq<SkillNode>) returns (rank: map<string, nat>, count: nat)
    ensures WellFormed(SpanningForest(skills), Ranking(rank, count))
  {
    AdjacencySymmetric(skills);
    PriorityOrderFacts(skills);
    var w;
    w, rank, count := GrowWellFormed(skills, AdjacencyOf(skills), PriorityOrder(skills));
    SortChildrenWellFormed(skills, w.forest, Ranking(rank, count));
  }

  /** Every skill of a rearrangement `order` of the skills that is visited makes every skill visited. */
  lemma SkillsVisited(skills: seq<SkillNode>, order: seq<SkillNode>, visited: set<string>)
    requires forall s :: s in order <==> s in skills
    requires forall i :: 0 <= i < |order| ==> order[i].id in visited
    ensures forall i :: 0 <= i < |skills| ==> skills[i].id in visited
  {
    forall i | 0 <= i < |skills|
      ensures skills[i].id in visited
    {
      assert skills[i] in order;
      var j :| 0 <= j < |order| && order[j] == skills[i];
    }
  }

  /** A closed visited set holding every skill id holds every node of the adjacency. */
  lemma ClosedCovers(skills: seq<SkillNode>, visited: set<string>)
    requires Closed(AdjacencyOf(skills), visited)
    requires forall i :: 0 <= i < |skills| ==> skills[i].id in visited
    ensures AdjacencyOf(skills).Keys <= visited
  {
    AdjacencyKeys(skills);
    AdjacencyLinks(skills);
    forall x | x in AdjacencyOf(skills)
      ensures x in visited
    {
      assert Mentioned(skills, x);
      var i :| 0 <= i < |skills| && (skills[i].id == x || x in skills[i].connections);
      if skills[i].id != x {
        assert Linked(skills, skills[i].id, x);
      }
    }
  }

  /** A root drawn from the ids of a rearrangement of the skills is a skill id. */
  lemma RootsAreIds(skills: seq<SkillNode>, order: seq<SkillNode>, roots: seq<string>)
    requires forall s :: s in order <==> s in skills
    requires forall x :: x in roots ==> x in Ids(order)
    ensures forall x :: x in roots ==> x in Ids(skills)
  {
    forall x | x in roots
      ensures x in Ids(skills)
    {
      var j :| 0 <= j < |order| && Ids(order)[j] == x;
      assert order[j] in skills;
      var i :| 0 <= i < |skills| && skills[i] == order[j];
      assert Ids(skills)[i] == x;
    }
  }

  /**
   * Both loops over the skills visit the whole graph: every skill id and
   * every id a skill connects to gets an entry in `parentMap`, and nothing
   * else does; every parent is adjacent to its child, and every root is a
   * skill id.
   */
  lemma ExploreCovers(skills: seq<SkillNode>)
    ensures var w := Explore(skills);
      && Explored(AdjacencyOf(skills), w.forest, w.visited)
      && w.visited == AdjacencyOf(skills).Keys
      && (forall x :: x in w.forest.roots ==> x in Ids(skills))
  {
    var adj := AdjacencyOf(skills);
    var order := PriorityOrder(skills);
    AdjacencySymmetric(skills);
    PriorityOrderFacts(skills);
    GrowExplored(skills, adj, order);
    var w := Grow(skills, adj, order);
    SkillsVisited(skills, order, w.visited);
    ClosedCovers(skills, w.visited);
    RootsAreIds(skills, order, w.forest.roots);
  }

  /**
   * The spanning forest covers the graph: `parentMap` has an entry for
   * exactly the skill ids and the ids skills connect to, every parent is
   * adjacent to its child, and every root is a skill id.
   */
  lemma SpanningForestCovers(skills: seq<SkillNode>)
    ensures var f := SpanningForest(skills);
      && f.parent.Keys == AdjacencyOf(skills).Keys
      && (forall x :: x in f.parent && f.parent[x].Some? ==> x in Nbrs(AdjacencyOf(skills), f.parent[x].value))
      && (forall x :: x in f.roots ==> x in Ids(skills))
  {
    ExploreCovers(skills);
  }

  /**
   * Among skill ids the neighbour order is by name alone, a strict weak
   * order (ids outside the list are where it can fail to be one).
   */
  lemma ByNameWeakOrder(skills: seq<SkillNode>)
    ensures WeakOrderOn(ByName(skills), (x: string) => x in Ids(skills))
  {
    var less := ByName(skills);
    var dom := (x: string) => x in Ids(skills);
    forall a: string, b: string | dom(a) && dom(b) && less(a, b)
      ensures !less(b, a)
    {
      StrLessAsymmetric(Lookup(skills, a).value.name, Lookup(skills, b).value.name);
    }
    forall a: string, b: string, c: string | dom(a) && dom(b) && dom(c) && less(c, a)
      ensures less(c, b) || less(b, a)
    {
      var na, nb, nc := Lookup(skills, a).value.name, Lookup(skills, b).value.name, Lookup(skills, c).value.name;
      StrLessTotal(nc, nb);
      StrLessTotal(nb, na);
      StrLessTransitive(nc, nb, na);
      StrLessTransitive(nb, nc, na);
      StrLessTransitive(nc, na, nb);
    }
  }

  /**
   * With a connection to an id that no skill has, the neighbour order can be
   * cyclic: skills `a` (named "z") and `c` (named "a") and the dangling id
   * `b` give `a` before `b` and `b` before `c` by id, but `c` before `a` by name.
   */
  lemma ByNameCyclic()
    ensures var skills := [SkillNode("a", "z", "", Strong, 0.5, ["b"]), SkillNode("c", "a", "", Strong, 0.5, [])];
      && "b" !in Ids(skills)
      && NeighborLess(skills, "a", "b") && NeighborLess(skills, "b", "c") && NeighborLess(skills, "c", "a")
  {
    var skills := [SkillNode("a", "z", "", Strong, 0.5, ["b"]), SkillNode("c", "a", "", Strong, 0.5, [])];
    assert Lookup(skills, "a") == Some(skills[0]);
    assert Lookup(skills, "c") == Some(skills[1]);
    assert Ids(skills) == ["a", "c"];
  }

  /**
   * Every child list of the spanning forest has no child before its
   * predecessor, and is sorted by name outright when all its children are
   * skills of the list.
   */
  lemma SpanningForestChildrenSorted(skills: seq<SkillNode>)
    ensures forall p :: p in SpanningForest(skills).children ==>
      && LocallySorted(SpanningForest(skills).children[p], ByName(skills))
      && ((forall c :: c in SpanningForest(skills).children[p] ==> c in Ids(skills)) ==>
            Sorted(SpanningForest(skills).children[p], ByName(skills)))
  {
    NeighborLessAsymmetric(skills);
    ByNameWeakOrder(skills);
    var dom := (x: string) => x in Ids(skills);
    var f := Explore(skills).forest;
    forall p | p in SpanningForest(skills).children
      ensures LocallySorted(SpanningForest(skills).children[p], ByName(skills))
      ensures (forall c :: c in SpanningForest(skills).children[p] ==> c in Ids(skills)) ==>
                Sorted(SpanningForest(skills).children[p], ByName(skills))
    {
      var s := f.children[p];
      SortByLocallySorted(s, ByName(skills));
      SortBySame(s, ByName(skills));
      if forall c :: c in SortBy(s, ByName(skills)) ==> c in Ids(skills) {
        assert Within(s, dom) by {
          forall i | 0 <= i < |s|
            ensures dom(s[i])
          {
            assert s[i] in SortBy(s, ByName(skills));
          }
        }
        SortBySortedOn(s, ByName(skills), dom);
      }
    }
  }
}
