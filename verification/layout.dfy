/**
 * `buildLayout` (src/components/app/tree/skill-tree-canvas.tsx) as the
 * imperative code it is: the adjacency, the visited set, `parentMap`,
 * `childrenMap`, `roots`, `widthMap` and `positionUnits` are filled step by
 * step, and each loop is proved against the specification functions of
 * `Traversal` and `ForestShape`.
 */
module Layout {
  import opened SkillTypes
  import opened Sorting
  import opened Adjacency
  import opened ForestShape
  import opened Exploration
  import opened Traversal

  // ---------------------------------------------------------------------
  // The spanning forest (lines 55-132)
  // ---------------------------------------------------------------------

  /**
   * The `for (const neighbor of neighbors)` loop of `traverse`: every
   * unvisited neighbour is marked visited, gets `current` as parent, and
   * joins both `currentChildren` and the queue, in list order.
   */
  method ClaimNeighbors(f0: Forest, visited0: set<string>, queue0: seq<string>, current: string, neighbors: seq<string>)
    returns (f: Forest, visited: set<string>, currentChildren: seq<string>, queue: seq<string>)
    ensures Claim(f, visited, currentChildren) == Claimed(f0, visited0, current, neighbors)
    ensures queue == queue0 + currentChildren
  {
    f, visited, currentChildren, queue := f0, visited0, [], queue0;
    for j := 0 to |neighbors|
      invariant Claim(f, visited, currentChildren) == Claimed(f0, visited0, current, neighbors[..j])
      invariant queue == queue0 + currentChildren
    {
      var neighbor := neighbors[j];
      assert neighbors[..j + 1][..j] == neighbors[..j];
      if neighbor in visited {
        continue;
      }
      visited := visited + {neighbor};
      f := f.(parent := f.parent[neighbor := Some(current)]);
      AppendOne(queue0, currentChildren, neighbor);
      currentChildren := currentChildren + [neighbor];
      queue := queue + [neighbor];
    }
    assert neighbors[..|neighbors|] == neighbors;
  }

  /**
   * `traverse(rootId)`: `root` becomes a root, and the breadth-first search
   * from it gives every node it discovers its discoverer as parent and
   * records each node's newly discovered neighbours, in name order, as its
   * children.
   */
  method Traverse(skills: seq<SkillNode>, adj: Adj, root: string, f0: Forest, visited0: set<string>)
    returns (f: Forest, visited: set<string>)
    requires AdjClosed(adj) && visited0 <= adj.Keys && root in adj && root !in visited0
    ensures Walk(f, visited) == Traversed(skills, adj, root, f0, visited0)
  {
    f := f0.(roots := f0.roots + [root]);
    visited := visited0 + {root};
    f := f.(parent := f.parent[root := None]);
    var queue := [root];
    assert f == AddedRoot(f0, root);
    while |queue| > 0
      invariant visited <= adj.Keys
      invariant Drain(skills, adj, f, visited, queue) == Traversed(skills, adj, root, f0, visited0)
      decreases |adj.Keys - visited|, |queue|
    {
      var current := queue[0];
      ghost var fS, vS, qS := f, visited, queue;
      var neighbors := SortedNbrs(skills, adj, current);
      var currentChildren;
      f, visited, currentChildren, queue := ClaimNeighbors(f, visited, queue[1..], current, neighbors);
      ghost var c := Claim(f, visited, currentChildren);
      if |currentChildren| > 0 {
        f := f.(children := f.children[current := currentChildren]);
      }
      assert f == WithKids(c.forest, current, c.kids);
      DrainStep(skills, adj, fS, vS, qS, c);
    }
  }

  /**
   * The `for (const skill of sortedByPriority)` loop: a traversal starts
   * from every skill of `order` that is still unvisited.
   */
  method GrowForest(skills: seq<SkillNode>, adj: Adj, order: seq<SkillNode>) returns (f: Forest, visited: set<string>)
    requires AdjClosed(adj) && forall i :: 0 <= i < |order| ==> order[i].id in adj
    ensures Walk(f, visited) == Grow(skills, adj, order)
  {
    f := Forest(map[], map[], []);
    visited := {};
    for i := 0 to |order|
      invariant Walk(f, visited) == Grow(skills, adj, order[..i])
    {
      assert order[..i + 1][..i] == order[..i];
      var skill := order[i];
      if skill.id !in visited {
        f, visited := Traverse(skills, adj, skill.id, f, visited);
      }
    }
    assert order[..|order|] == order;
  }

  /**
   * `visited`, `parentMap`, `childrenMap` and `roots` after both loops over
   * the skills and the re-sort of every child list: the spanning forest.
   * The second loop never starts a traversal, since the first one visits
   * the whole graph.
   */
  method BuildForest(skills: seq<SkillNode>) returns (f: Forest)
    ensures f == SpanningForest(skills)
  {
    var adj := BuildAdjacency(skills);
    AdjacencySymmetric(skills);
    var sortedByPriority := PriorityOrder(skills);
    PriorityOrderFacts(skills);
    var visited;
    f, visited := GrowForest(skills, adj, sortedByPriority);
    ExploreCovers(skills);
    for i := 0 to |skills|
      invariant Walk(f, visited) == Explore(skills)
    {
      if skills[i].id !in visited {
        assert false;
      }
    }
    f := f.(children := map p | p in f.children :: SortBy(f.children[p], ByName(skills)));
  }

  // ---------------------------------------------------------------------
  // Widths (`measure`, lines 134-153)
  // ---------------------------------------------------------------------

  /**
   * What `widthMap` holds at any time: a correct width for each node it
   * has, and a width for every node under such a node (`measure` records a
   * node only after all of its children).
   */
  ghost predicate Memo(f: Forest, r: Ranking, widths: map<string, int>)
    requires WellFormed(f, r)
  {
    forall k :: k in widths ==> k in r.rank && widths[k] == Width(f, r, k) && Sub(f, r, k) <= widths.Keys
  }

  /** `widthMap.get(id) ?? 1`. */
  function WidthOr(widths: map<string, int>, id: string): int
  {
    if id in widths then widths[id] else 1
  }

  /** `ids.reduce((sum, id) => sum + (widthMap.get(id) ?? 1), 0)`. */
  function SumWidths(widths: map<string, int>, ids: seq<string>): int
  {
    if |ids| == 0 then 0 else SumWidths(widths, ids[..|ids| - 1]) + WidthOr(widths, ids[|ids| - 1])
  }

  /**
   * With every width recorded, the first `k` children's widths plus one
   * sibling gap after each of them is their span (the last child has no gap
   * after it).
   */
  lemma {:induction false} SumWidthsSpan(f: Forest, r: Ranking, widths: map<string, int>, p: string, k: nat)
    requires WellFormed(f, r) && p in r.rank && Complete(f, r, widths) && k <= |Kids(f, p)|
    ensures SumWidths(widths, Kids(f, p)[..k]) + k * SiblingSpacingUnits ==
      SpanUpTo(f, r, p, k) + (if k == |Kids(f, p)| && k > 0 then SiblingSpacingUnits else 0)
  {
    if k > 0 {
      var c := Kids(f, p)[k - 1];
      assert Kids(f, p)[..k][..k - 1] == Kids(f, p)[..k - 1];
      assert c in f.children[p];
      SumWidthsSpan(f, r, widths, p, k - 1);
    }
  }

  /** `assign` centres the children's span, gaps included, under the parent: it fills the parent's width. */
  lemma ChildrenUnits(f: Forest, r: Ranking, widths: map<string, int>, p: string)
    requires WellFormed(f, r) && p in r.rank && Complete(f, r, widths) && |Kids(f, p)| > 0
    ensures SumWidths(widths, Kids(f, p)) + (|Kids(f, p)| - 1) * SiblingSpacingUnits == Width(f, r, p)
    ensures Width(f, r, p) == SpanUpTo(f, r, p, |Kids(f, p)|)
  {
    assert Kids(f, p)[..|Kids(f, p)|] == Kids(f, p);
    SumWidthsSpan(f, r, widths, p, |Kids(f, p)|);
    WidthOfParent(f, r, p);
  }

  /** One more child: the child is discovered after `p`, and the span and the subtrees grow by its own. */
  lemma KidStep(f: Forest, r: Ranking, p: string, k: nat)
    requires WellFormed(f, r) && p in r.rank && k < |Kids(f, p)|
    ensures Kids(f, p)[k] in r.rank && r.rank[p] < r.rank[Kids(f, p)[k]]
    ensures SpanUpTo(f, r, p, k + 1) ==
      SpanUpTo(f, r, p, k) + Width(f, r, Kids(f, p)[k]) + (if k < |Kids(f, p)| - 1 then SiblingSpacingUnits else 0)
    ensures SubFirst(f, r, p, k + 1) == SubFirst(f, r, p, k) + Sub(f, r, Kids(f, p)[k])
  {
    assert Kids(f, p)[k] in f.children[p];
  }

  /** Recording the width of `id` once its children's subtrees are measured keeps the memo right. */
  lemma MemoSet(f: Forest, r: Ranking, widths: map<string, int>, id: string)
    requires WellFormed(f, r) && id in r.rank && Memo(f, r, widths)
    requires SubFirst(f, r, id, |Kids(f, id)|) <= widths.Keys
    ensures Memo(f, r, widths[id := Width(f, r, id)])
    ensures Sub(f, r, id) <= widths[id := Width(f, r, id)].Keys
  {
  }

  /**
   * `measure(nodeId)`: the width of the subtree of `id`, memoised in
   * `widthMap`; afterwards every node of that subtree has its width there.
   */
  method Measure(f: Forest, ghost r: Ranking, id: string, widths0: map<string, int>)
    returns (width: int, widths: map<string, int>)
    requires WellFormed(f, r) && id in r.rank && Memo(f, r, widths0)
    ensures width == Width(f, r, id)
    ensures Memo(f, r, widths) && widths0.Keys <= widths.Keys && Sub(f, r, id) <= widths.Keys
    decreases r.n - r.rank[id]
  {
    if id in widths0 {
      return widths0[id], widths0;
    }
    var children := Kids(f, id);
    if |children| == 0 {
      MemoSet(f, r, widths0, id);
      widths := widths0[id := 1];
      return 1, widths;
    }
    var total := 0;
    widths := widths0;
    for index := 0 to |children|
      invariant total == SpanUpTo(f, r, id, index)
      invariant Memo(f, r, widths) && widths0.Keys <= widths.Keys
      invariant SubFirst(f, r, id, index) <= widths.Keys
    {
      KidStep(f, r, id, index);
      var childWidth;
      childWidth, widths := Measure(f, r, children[index], widths);
      total := total + childWidth;
      if index < |children| - 1 {
        total := total + SiblingSpacingUnits;
      }
    }
    width := if total > 1 then total else 1;
    MemoSet(f, r, widths, id);
    widths := widths[id := width];
  }

  // ---------------------------------------------------------------------
  // Placement (`assign`, lines 163-199)
  // ---------------------------------------------------------------------

  /** `widthMap` holds the width of every node of the forest. */
  ghost predicate Complete(f: Forest, r: Ranking, widths: map<string, int>)
    requires WellFormed(f, r)
  {
    forall k {:trigger WidthOr(widths, k)} :: k in r.rank ==> k in widths && WidthOr(widths, k) == Width(f, r, k)
  }

  /** A node with children is exactly as wide as the span its children and their spacing take. */
  lemma WidthOfParent(f: Forest, r: Ranking, p: string)
    requires WellFormed(f, r) && p in r.rank && |Kids(f, p)| > 0
    ensures Width(f, r, p) == SpanUpTo(f, r, p, |Kids(f, p)|)
  {
    KidStep(f, r, p, |Kids(f, p)| - 1);
  }

  /** One more child: its subtree is placed at the start of its own slot. */
  lemma PlaceStep(f: Forest, r: Ranking, p: string, k: nat, left2: int, depth: nat, c: string, start2: int)
    requires WellFormed(f, r) && p in r.rank && k < |Kids(f, p)|
    requires c == Kids(f, p)[k] && start2 == left2 + 2 * SpanUpTo(f, r, p, k)
    ensures c in r.rank
    ensures PlaceFirst(f, r, p, k + 1, left2, depth) == PlaceFirst(f, r, p, k, left2, depth) + Place(f, r, c, start2, depth)
  {
    assert c in f.children[p];
  }

  /** `assign` records `id` at the centre of its span, then places its children's subtrees one level deeper. */
  lemma PlaceHead(f: Forest, r: Ranking, id: string, left2: int, depth: nat, center2: int)
    requires WellFormed(f, r) && id in r.rank && center2 == left2 + Width(f, r, id)
    ensures Place(f, r, id, left2, depth) == [Entry(id, center2, depth)] + PlaceFirst(f, r, id, |Kids(f, id)|, left2, depth + 1)
  {
  }

  /** `assign` moves its cursor past one child and the gap after it: to the start of the next slot. */
  lemma CursorStep(f: Forest, r: Ranking, widths: map<string, int>, p: string, k: nat, left2: int, c: string, cursor2: int)
    requires WellFormed(f, r) && p in r.rank && Complete(f, r, widths) && k < |Kids(f, p)|
    requires c == Kids(f, p)[k] && cursor2 == left2 + 2 * SpanUpTo(f, r, p, k)
    ensures c in r.rank && r.rank[p] < r.rank[c]
    ensures cursor2 + 2 * WidthOr(widths, c) + (if k < |Kids(f, p)| - 1 then 2 * SiblingSpacingUnits else 0) ==
      left2 + 2 * SpanUpTo(f, r, p, k + 1)
  {
    KidStep(f, r, p, k);
  }

  /** The next child of `p` is a node of the forest, discovered after `p`. */
  lemma KidRank(f: Forest, r: Ranking, p: string, k: nat, c: string)
    requires WellFormed(f, r) && p in r.rank && k < |Kids(f, p)| && c == Kids(f, p)[k]
    ensures c in f.children[p] && c in r.rank && r.rank[p] < r.rank[c]
  {
    assert c in f.children[p];
  }

  /**
   * After `assign` has placed child `k` of `p` at the cursor and moved the
   * cursor on, the entries and the cursor are those of the first `k + 1`
   * children, and the levels reached grow by the child's.
   */
  lemma NextChild(f: Forest, r: Ranking, widths: map<string, int>, p: string, k: nat, k1: nat, c: string,
                  left2: int, depth: nat, cursor2: int, cursor3: int, prefix: seq<Entry>, before: seq<Entry>, after: seq<Entry>)
    requires WellFormed(f, r) && p in r.rank && Complete(f, r, widths) && k < |Kids(f, p)| && k1 == k + 1
    requires c == Kids(f, p)[k] && c in r.rank
    requires cursor2 == left2 + 2 * SpanUpTo(f, r, p, k)
    requires cursor3 == cursor2 + 2 * WidthOr(widths, c) + (if k < |Kids(f, p)| - 1 then 2 * SiblingSpacingUnits else 0)
    requires before == prefix + PlaceFirst(f, r, p, k, left2, depth)
    requires after == before + Place(f, r, c, cursor2, depth)
    ensures after == prefix + PlaceFirst(f, r, p, k1, left2, depth)
    ensures cursor3 == left2 + 2 * SpanUpTo(f, r, p, k1)
    ensures HeightFirst(f, r, p, k1) >= HeightFirst(f, r, p, k)
    ensures HeightFirst(f, r, p, k1) >= 1 + Height(f, r, c)
    ensures HeightFirst(f, r, p, k1) == HeightFirst(f, r, p, k) || HeightFirst(f, r, p, k1) == 1 + Height(f, r, c)
  {
    CursorStep(f, r, widths, p, k, left2, c, cursor2);
    PlaceStep(f, r, p, k, left2, depth, c, cursor2);
    HeightStep(f, r, p, k, c);
    Extend(prefix, PlaceFirst(f, r, p, k, left2, depth), Place(f, r, c, cursor2, depth),
      before, after, PlaceFirst(f, r, p, k + 1, left2, depth));
  }

  /**
   * `maxDepth` after one more child: if it was the larger of `m0` and
   * `depth + before`, and the child's subtree took it to the larger of that
   * and `depth + 1 + below`, then it is the larger of `m0` and `depth + after`
   * where `after` is the larger of `before` and `1 + below`.
   */
  lemma DeeperStep(m0: int, depth: int, before: int, below: int, after: int, max1: int, max2: int)
    requires max1 >= m0 && max1 >= depth + before && (max1 == m0 || max1 == depth + before)
    requires max2 >= max1 && max2 >= depth + 1 + below && (max2 == max1 || max2 == depth + 1 + below)
    requires after >= before && after >= 1 + below && (after == before || after == 1 + below)
    ensures max2 >= m0 && max2 >= depth + after && (max2 == m0 || max2 == depth + after)
  {
  }

  /** Appending the next subtree's entries extends the entries placed so far. */
  lemma Extend(prefix: seq<Entry>, placed: seq<Entry>, next: seq<Entry>, before: seq<Entry>, after: seq<Entry>, placed2: seq<Entry>)
    requires before == prefix + placed && after == before + next && placed2 == placed + next
    ensures after == prefix + placed2
  {
  }

  /**
   * `assign(nodeId, leftUnit, depth)`, in doubled units: the entries of the
   * subtree of `id` are appended to `positionUnits` in placement order, and
   * `maxDepth` becomes the larger of its old value and the deepest level of
   * the subtree.
   */
  method Assign(f: Forest, ghost r: Ranking, widths: map<string, int>, id: string, left2: int, depth: nat,
                entries0: seq<Entry>, maxDepth0: nat)
    returns (entries: seq<Entry>, maxDepth: nat)
    requires WellFormed(f, r) && id in r.rank && Complete(f, r, widths)
    ensures entries == entries0 + Place(f, r, id, left2, depth)
    ensures maxDepth >= maxDepth0 && maxDepth >= depth + Height(f, r, id)
    ensures maxDepth == maxDepth0 || maxDepth == depth + Height(f, r, id)
    decreases r.n - r.rank[id], 1
  {
    var widthUnits := WidthOr(widths, id);
    var center2 := left2 + widthUnits;
    var head := Entry(id, center2, depth);
    entries := entries0 + [head];
    maxDepth := if maxDepth0 >= depth then maxDepth0 else depth;
    PlaceHead(f, r, id, left2, depth, center2);
    var children := Kids(f, id);
    if |children| == 0 {
      assert entries == entries0 + Place(f, r, id, left2, depth);
      return;
    }
    var childrenTotalUnits := SumWidths(widths, children);
    var totalWithSpacing := childrenTotalUnits + (if |children| - 1 > 0 then |children| - 1 else 0) * SiblingSpacingUnits;
    var cursor2 := center2 - totalWithSpacing;
    ChildrenUnits(f, r, widths, id);
    assert cursor2 == left2;
    ghost var withHead := entries;
    entries, maxDepth := AssignChildren(f, r, widths, id, cursor2, depth, entries, maxDepth);
    AppendAssoc(entries0, [head], PlaceFirst(f, r, id, |children|, left2, depth + 1));
  }

  /**
   * The `children.forEach` of `assign`: each child's subtree is assigned at
   * the cursor, which then moves past the child's width and, between
   * siblings, the sibling gap.
   */
  method AssignChildren(f: Forest, ghost r: Ranking, widths: map<string, int>, id: string, left2: int, depth: nat,
                        entries0: seq<Entry>, maxDepth0: nat)
    returns (entries: seq<Entry>, maxDepth: nat)
    requires WellFormed(f, r) && id in r.rank && Complete(f, r, widths) && maxDepth0 >= depth
    ensures entries == entries0 + PlaceFirst(f, r, id, |Kids(f, id)|, left2, depth + 1)
    ensures maxDepth >= maxDepth0 && maxDepth >= depth + HeightFirst(f, r, id, |Kids(f, id)|)
    ensures maxDepth == maxDepth0 || maxDepth == depth + HeightFirst(f, r, id, |Kids(f, id)|)
    decreases r.n - r.rank[id], 0
  {
    var children := Kids(f, id);
    var childDepth := depth + 1;
    var cursor2 := left2;
    entries, maxDepth := entries0, maxDepth0;
    var index := 0;
    while index < |children|
      invariant index <= |children|
      invariant cursor2 == left2 + 2 * SpanUpTo(f, r, id, index)
      invariant entries == entries0 + PlaceFirst(f, r, id, index, left2, childDepth)
      invariant maxDepth >= maxDepth0 && maxDepth >= depth + HeightFirst(f, r, id, index)
      invariant maxDepth == maxDepth0 || maxDepth == depth + HeightFirst(f, r, id, index)
    {
      var childId := children[index];
      KidRank(f, r, id, index, childId);
      ghost var k, before, max1, cursor1 := index, entries, maxDepth, cursor2;
      var childWidth := WidthOr(widths, childId);
      entries, maxDepth := Assign(f, r, widths, childId, cursor2, childDepth, entries, maxDepth);
      cursor2 := cursor2 + 2 * childWidth;
      if index < |children| - 1 {
        cursor2 := cursor2 + 2 * SiblingSpacingUnits;
      }
      index := index + 1;
      NextChild(f, r, widths, id, k, index, childId, left2, childDepth, cursor1, cursor2, entries0, before, entries);
      DeeperStep(maxDepth0, depth, HeightFirst(f, r, id, k), Height(f, r, childId),
        HeightFirst(f, r, id, index), max1, maxDepth);
    }
  }

  // ---------------------------------------------------------------------
  // The roots: `rootWidths`, `totalUnits` and the placement loop
  // ---------------------------------------------------------------------

  /** A memo holding every node of the forest is complete. */
  lemma MemoComplete(f: Forest, r: Ranking, widths: map<string, int>)
    requires WellFormed(f, r) && Memo(f, r, widths) && r.rank.Keys <= widths.Keys
    ensures Complete(f, r, widths)
  {
  }

  /**
   * `roots.map((rootId) => measure(rootId))`: the width of every root, in
   * root order; afterwards the memo holds the width of every node.
   */
  method MeasureRoots(f: Forest, ghost r: Ranking) returns (rootWidths: seq<int>, widths: map<string, int>)
    requires WellFormed(f, r)
    ensures |rootWidths| == |f.roots|
    ensures forall j :: 0 <= j < |f.roots| ==> f.roots[j] in r.rank && rootWidths[j] == Width(f, r, f.roots[j])
    ensures Complete(f, r, widths)
  {
    widths := map[];
    rootWidths := [];
    var index := 0;
    while index < |f.roots|
      invariant index <= |f.roots|
      invariant Memo(f, r, widths) && RootsSub(f, r, index) <= widths.Keys
      invariant |rootWidths| == index
      invariant forall j :: 0 <= j < index ==> f.roots[j] in r.rank && rootWidths[j] == Width(f, r, f.roots[j])
    {
      var rootId := f.roots[index];
      assert rootId in f.parent;
      ghost var k, widths1, widths0 := index, rootWidths, widths;
      var width;
      width, widths := Measure(f, r, rootId, widths);
      rootWidths := rootWidths + [width];
      index := index + 1;
      MeasuredRoot(f, r, k, index, rootId, widths0, widths);
      RootWidthsStep(f, r, k, index, rootId, widths1, width, rootWidths);
    }
    RootsSubAll(f, r);
    MemoComplete(f, r, widths);
  }

  /** After `measure(roots[k])`, the nodes under the first `k + 1` roots are in the memo. */
  lemma MeasuredRoot(f: Forest, r: Ranking, k: nat, k1: nat, root: string, widths0: map<string, int>, widths: map<string, int>)
    requires WellFormed(f, r) && k < |f.roots| && k1 == k + 1 && root == f.roots[k] && root in r.rank
    requires RootsSub(f, r, k) <= widths0.Keys && widths0.Keys <= widths.Keys && Sub(f, r, root) <= widths.Keys
    ensures RootsSub(f, r, k1) <= widths.Keys
  {
    assert RootsSub(f, r, k1) == RootsSub(f, r, k) + Sub(f, r, root);
  }

  /** Appending the width of `roots[k]` extends the list of root widths by one correct entry. */
  lemma RootWidthsStep(f: Forest, r: Ranking, k: nat, k1: nat, root: string, rootWidths0: seq<int>, width: int, rootWidths: seq<int>)
    requires WellFormed(f, r) && k < |f.roots| && k1 == k + 1 && root == f.roots[k] && root in r.rank
    requires |rootWidths0| == k && rootWidths == rootWidths0 + [width] && width == Width(f, r, root)
    requires forall j :: 0 <= j < k ==> f.roots[j] in r.rank && rootWidths0[j] == Width(f, r, f.roots[j])
    ensures |rootWidths| == k1
    ensures forall j :: 0 <= j < k1 ==> f.roots[j] in r.rank && rootWidths[j] == Width(f, r, f.roots[j])
  {
    forall j | 0 <= j < k1
      ensures f.roots[j] in r.rank && rootWidths[j] == Width(f, r, f.roots[j])
    {
      if j < k {
        assert rootWidths[j] == rootWidths0[j];
      } else {
        assert j == k;
        assert rootWidths[j] == width;
      }
    }
  }

  /** `rootWidths.reduce((sum, width, index) => sum + width + (index > 0 ? 3 : 0), 0)`. */
  function TotalUnits(rootWidths: seq<int>): int
  {
    if |rootWidths| == 0 then 0
    else
      TotalUnits(rootWidths[..|rootWidths| - 1]) + rootWidths[|rootWidths| - 1]
        + (if |rootWidths| - 1 > 0 then ComponentSpacingUnits else 0)
  }

  /**
   * The widths of the first `k` roots with the component gaps between them,
   * plus the gap after the `k`-th when another root follows, is where root
   * `k` starts.
   */
  lemma {:induction false} TotalUnitsSpan(f: Forest, r: Ranking, rootWidths: seq<int>, k: nat)
    requires WellFormed(f, r) && |rootWidths| == |f.roots| && k <= |f.roots|
    requires forall j :: 0 <= j < |f.roots| ==> f.roots[j] in r.rank && rootWidths[j] == Width(f, r, f.roots[j])
    ensures TotalUnits(rootWidths[..k]) + (if 0 < k < |f.roots| then ComponentSpacingUnits else 0) == RootSpan(f, r, k)
  {
    if k > 0 {
      assert rootWidths[..k][..k - 1] == rootWidths[..k - 1];
      TotalUnitsSpan(f, r, rootWidths, k - 1);
    }
  }

  /** `totalUnits` is the span of all the roots' trees with the gaps between them. */
  lemma TotalUnitsAll(f: Forest, r: Ranking, rootWidths: seq<int>)
    requires WellFormed(f, r) && |rootWidths| == |f.roots|
    requires forall j :: 0 <= j < |f.roots| ==> f.roots[j] in r.rank && rootWidths[j] == Width(f, r, f.roots[j])
    ensures TotalUnits(rootWidths) == RootSpan(f, r, |f.roots|)
  {
    assert rootWidths[..|f.roots|] == rootWidths;
    TotalUnitsSpan(f, r, rootWidths, |f.roots|);
  }

  /** After root `k` has been assigned at its offset, the entries are those of the first `k + 1` roots. */
  lemma RootPlaced(f: Forest, r: Ranking, k: nat, k1: nat, root: string, offset2: int, before: seq<Entry>, after: seq<Entry>)
    requires WellFormed(f, r) && k < |f.roots| && k1 == k + 1 && root == f.roots[k] && root in r.rank
    requires offset2 == 2 * RootSpan(f, r, k)
    requires before == PlaceRoots(f, r, k) && after == before + Place(f, r, root, offset2, 0)
    ensures after == PlaceRoots(f, r, k1)
  {
    assert k1 - 1 == k;
  }

  /** Moving the offset past root `k` and, unless it is the last, the component gap gives where root `k + 1` starts. */
  lemma RootOffset(f: Forest, r: Ranking, widths: map<string, int>, k: nat, k1: nat, root: string, offset2: int, offset3: int)
    requires WellFormed(f, r) && Complete(f, r, widths) && k < |f.roots| && k1 == k + 1 && root == f.roots[k] && root in r.rank
    requires offset2 == 2 * RootSpan(f, r, k)
    requires offset3 == offset2 + 2 * WidthOr(widths, root) + (if k < |f.roots| - 1 then 2 * ComponentSpacingUnits else 0)
    ensures offset3 == 2 * RootSpan(f, r, k1)
  {
    assert k1 - 1 == k;
  }

  /** `maxDepth` after assigning root `k` is the deepest level of the first `k + 1` trees. */
  lemma RootHeight(f: Forest, r: Ranking, k: nat, k1: nat, root: string, max1: int, max2: int)
    requires WellFormed(f, r) && k < |f.roots| && k1 == k + 1 && root == f.roots[k] && root in r.rank
    requires max1 == RootsHeight(f, r, k)
    requires max2 >= max1 && max2 >= 0 + Height(f, r, root) && (max2 == max1 || max2 == 0 + Height(f, r, root))
    ensures max2 == RootsHeight(f, r, k1)
  {
    assert k1 - 1 == k;
  }

  /**
   * `roots.forEach` with `assign(rootId, offsetUnits, 0)`: every root's tree
   * is placed at depth 0 from the offset, which then moves past the tree and,
   * between trees, the component gap. The entries are those of `PlaceRoots`
   * and `maxDepth` is the deepest level of the forest.
   */
  method AssignRoots(f: Forest, ghost r: Ranking, widths: map<string, int>) returns (entries: seq<Entry>, maxDepth: nat)
    requires WellFormed(f, r) && Complete(f, r, widths)
    ensures entries == PlaceRoots(f, r, |f.roots|)
    ensures maxDepth == RootsHeight(f, r, |f.roots|)
  {
    var offset2 := 0;
    entries, maxDepth := [], 0;
    var index := 0;
    while index < |f.roots|
      invariant index <= |f.roots|
      invariant offset2 == 2 * RootSpan(f, r, index)
      invariant entries == PlaceRoots(f, r, index)
      invariant maxDepth == RootsHeight(f, r, index)
    {
      var rootId := f.roots[index];
      assert rootId in f.parent;
      ghost var k, before, max1, offset1 := index, entries, maxDepth, offset2;
      var widthUnits := WidthOr(widths, rootId);
      entries, maxDepth := Assign(f, r, widths, rootId, offset2, 0, entries, maxDepth);
      offset2 := offset2 + 2 * widthUnits;
      if index < |f.roots| - 1 {
        offset2 := offset2 + 2 * ComponentSpacingUnits;
      }
      index := index + 1;
      RootPlaced(f, r, k, index, rootId, offset1, before, entries);
      RootOffset(f, r, widths, k, index, rootId, offset1, offset2);
      RootHeight(f, r, k, index, rootId, max1, maxDepth);
    }
  }
}
