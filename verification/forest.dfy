/**
 * The spanning forest `buildLayout` builds (src/components/app/tree/skill-tree-canvas.tsx)
 * and the meaning of its unit layer: subtree widths (`measure`), the subtree
 * of a node, and where `assign` places every node of a subtree.
 *
 * Unit coordinates are kept DOUBLED (`left2 == 2 * leftUnit`,
 * `center2 == 2 * centerUnit`) so that the half-unit centres stay integers.
 */
module ForestShape {
  import opened SkillTypes

  /** The forest: `parentMap`, `childrenMap` and `roots` of the source. */
  datatype Forest = Forest(
    parent: map<string, Option<string>>,
    children: map<string, seq<string>>,
    roots: seq<string>)

  /**
   * The order in which the breadth-first search discovered the nodes:
   * `rank[x]` is the position of `x`, below the bound `n`. It exists only in
   * the proofs (the source keeps no such number); every child is discovered
   * after its parent, which is what makes the recursions below terminate.
   */
  datatype Ranking = Ranking(rank: map<string, nat>, n: nat)

  /** One `positionUnits` entry: a node, its doubled centre and its depth. */
  datatype Entry = Entry(id: string, center2: int, depth: nat)

  /** Units between two siblings' subtrees (`SIBLING_SPACING_UNITS`). */
  const SiblingSpacingUnits: nat := 1

  /** Units between two roots' trees (`COMPONENT_SPACING_UNITS`). */
  const ComponentSpacingUnits: nat := 3

  /** The children of `p`; `childrenMap.get(p) ?? []`. */
  function Kids(f: Forest, p: string): seq<string>
  {
    if p in f.children then f.children[p] else []
  }

  /** Ranks are given to exactly the nodes of the forest, below the bound. */
  ghost predicate RankedNodes(f: Forest, r: Ranking)
  {
    && r.rank.Keys == f.parent.Keys
    && (forall x :: x in r.rank ==> r.rank[x] < r.n)
  }

  /** Every child list is duplicate-free, and each child was discovered after its parent and points to it. */
  ghost predicate KidsLinked(f: Forest, r: Ranking)
  {
    && (forall p :: p in f.children ==> p in r.rank)
    && (forall p {:trigger NoDup(f.children[p])} :: p in f.children ==> NoDup(f.children[p]))
    && (forall p, c {:trigger c in f.children[p]} :: p in f.children && c in f.children[p] ==>
          c in r.rank && c in f.parent && r.rank[p] < r.rank[c] && f.parent[c] == Some(p))
  }

  /** Every node with a parent is listed among that parent's children. */
  ghost predicate ParentsListed(f: Forest)
  {
    forall x :: x in f.parent && f.parent[x].Some? ==>
      f.parent[x].value in f.children && x in f.children[f.parent[x].value]
  }

  /** The roots are exactly the nodes without a parent, each listed once. */
  ghost predicate RootsListed(f: Forest)
  {
    && NoDup(f.roots)
    && (forall x :: x in f.roots ==> x in f.parent)
    && (forall x :: x in f.parent ==> (f.parent[x].None? <==> x in f.roots))
  }

  /**
   * The forest is a well-formed, discovery-ordered spanning forest: the four
   * parts above, written out.
   */
  ghost predicate WellFormed(f: Forest, r: Ranking)
  {
    && r.rank.Keys == f.parent.Keys
    && (forall x :: x in r.rank ==> r.rank[x] < r.n)
    && (forall p :: p in f.children ==> p in r.rank)
    && (forall p {:trigger NoDup(f.children[p])} :: p in f.children ==> NoDup(f.children[p]))
    && (forall p, c {:trigger c in f.children[p]} :: p in f.children && c in f.children[p] ==>
          c in r.rank && r.rank[p] < r.rank[c] && f.parent[c] == Some(p))
    && (forall x {:trigger f.parent[x]} :: x in f.parent && f.parent[x].Some? ==>
          f.parent[x].value in f.children && x in f.children[f.parent[x].value])
    && NoDup(f.roots)
    && (forall x :: x in f.roots ==> x in f.parent)
    && (forall x {:trigger f.parent[x]} :: x in f.parent ==> (f.parent[x].None? <==> x in f.roots))
  }

  /** `WellFormed` is exactly its four parts. */
  lemma WellFormedParts(f: Forest, r: Ranking)
    ensures WellFormed(f, r) <==> RankedNodes(f, r) && KidsLinked(f, r) && ParentsListed(f) && RootsListed(f)
  {
  }

  /** Rearranging the child lists, each within itself, keeps the forest well formed. */
  lemma RearrangedWellFormed(f: Forest, g: Forest, r: Ranking)
    requires WellFormed(f, r)
    requires g.parent == f.parent && g.roots == f.roots && g.children.Keys == f.children.Keys
    requires forall p :: p in f.children ==>
      NoDup(g.children[p]) && forall c :: c in g.children[p] <==> c in f.children[p]
    ensures WellFormed(g, r)
  {
  }

  // ---------------------------------------------------------------------
  // Widths (`measure`)
  // ---------------------------------------------------------------------

  /** The width of the subtree of `id`, in units: 1 for a leaf. */
  function Width(f: Forest, r: Ranking, id: string): (w: nat)
    requires WellFormed(f, r) && id in r.rank
    ensures w >= 1
    decreases r.n - r.rank[id], 1
  {
    var kids := Kids(f, id);
    if |kids| == 0 then 1
    else
      var total := SpanUpTo(f, r, id, |kids|);
      if total > 1 then total else 1
  }

  /**
   * The units taken by the first `k` children of `p`, each followed by the
   * 1-unit sibling spacing unless it is the last child: where child `k`
   * starts, relative to the left edge of `p`.
   */
  function SpanUpTo(f: Forest, r: Ranking, p: string, k: nat): nat
    requires WellFormed(f, r) && p in r.rank && k <= |Kids(f, p)|
    decreases r.n - r.rank[p], 0, k
  {
    if k == 0 then 0
    else
      var c := Kids(f, p)[k - 1];
      assert c in f.children[p];
      SpanUpTo(f, r, p, k - 1) + Width(f, r, c) + (if k < |Kids(f, p)| then SiblingSpacingUnits else 0)
  }

  // ---------------------------------------------------------------------
  // Subtrees
  // ---------------------------------------------------------------------

  /** The nodes of the subtree rooted at `id`. */
  function Sub(f: Forest, r: Ranking, id: string): set<string>
    requires WellFormed(f, r) && id in r.rank
    decreases r.n - r.rank[id], 1
  {
    {id} + SubFirst(f, r, id, |Kids(f, id)|)
  }

  /** The nodes of the subtrees of the first `k` children of `p`. */
  function SubFirst(f: Forest, r: Ranking, p: string, k: nat): set<string>
    requires WellFormed(f, r) && p in r.rank && k <= |Kids(f, p)|
    decreases r.n - r.rank[p], 0, k
  {
    if k == 0 then {}
    else
      var c := Kids(f, p)[k - 1];
      assert c in f.children[p];
      SubFirst(f, r, p, k - 1) + Sub(f, r, c)
  }

  /** The depth of a node: 0 for a root, one more than its parent's otherwise. */
  function Depth(f: Forest, r: Ranking, x: string): nat
    requires WellFormed(f, r) && x in r.rank
    decreases r.rank[x]
  {
    match f.parent[x]
    case None => 0
    case Some(p) =>
      assert x in f.children[p];
      Depth(f, r, p) + 1
  }

  // ---------------------------------------------------------------------
  // Placement (`assign`)
  // ---------------------------------------------------------------------

  /**
   * The entries `assign(id, left, depth)` adds, in the order it adds them:
   * the node centred on its own span, then the subtrees of its children from
   * left to right.
   */
  function Place(f: Forest, r: Ranking, id: string, left2: int, depth: nat): (es: seq<Entry>)
    requires WellFormed(f, r) && id in r.rank
    ensures |es| > 0 && es[0] == Entry(id, left2 + Width(f, r, id), depth)
    decreases r.n - r.rank[id], 1
  {
    [Entry(id, left2 + Width(f, r, id), depth)] + PlaceFirst(f, r, id, |Kids(f, id)|, left2, depth + 1)
  }

  /** The entries for the subtrees of the first `k` children of `p`, whose span starts at `left2`. */
  function PlaceFirst(f: Forest, r: Ranking, p: string, k: nat, left2: int, depth: nat): seq<Entry>
    requires WellFormed(f, r) && p in r.rank && k <= |Kids(f, p)|
    decreases r.n - r.rank[p], 0, k
  {
    if k == 0 then []
    else
      var c := Kids(f, p)[k - 1];
      assert c in f.children[p];
      PlaceFirst(f, r, p, k - 1, left2, depth) + Place(f, r, c, left2 + 2 * SpanUpTo(f, r, p, k - 1), depth)
  }

  /** The ids of a list of entries, in order. */
  function EntryIds(es: seq<Entry>): (ids: seq<string>)
    ensures |ids| == |es| && forall i {:trigger ids[i]} :: 0 <= i < |es| ==> ids[i] == es[i].id
  {
    seq(|es|, i requires 0 <= i < |es| => es[i].id)
  }

  /** How many levels the subtree of `id` reaches below `id`: 0 for a leaf. */
  function Height(f: Forest, r: Ranking, id: string): nat
    requires WellFormed(f, r) && id in r.rank
    decreases r.n - r.rank[id], 1
  {
    HeightFirst(f, r, id, |Kids(f, id)|)
  }

  /** The levels reached below `p` through its first `k` children: 0 for none. */
  function HeightFirst(f: Forest, r: Ranking, p: string, k: nat): nat
    requires WellFormed(f, r) && p in r.rank && k <= |Kids(f, p)|
    decreases r.n - r.rank[p], 0, k
  {
    if k == 0 then 0
    else
      var c := Kids(f, p)[k - 1];
      assert c in f.children[p];
      var h := 1 + Height(f, r, c);
      var before := HeightFirst(f, r, p, k - 1);
      if before >= h then before else h
  }

  // ---------------------------------------------------------------------
  // Roots (the loop over `roots` and `totalUnits`)
  // ---------------------------------------------------------------------

  /** Where root `k` starts: the widths of the earlier roots, each followed by 3 units. */
  function RootSpan(f: Forest, r: Ranking, k: nat): nat
    requires WellFormed(f, r) && k <= |f.roots|
  {
    if k == 0 then 0
    else
      RootSpan(f, r, k - 1) + Width(f, r, f.roots[k - 1]) + (if k < |f.roots| then ComponentSpacingUnits else 0)
  }

  /** The entries for the first `k` roots' trees, in placement order. */
  function PlaceRoots(f: Forest, r: Ranking, k: nat): seq<Entry>
    requires WellFormed(f, r) && k <= |f.roots|
  {
    if k == 0 then []
    else PlaceRoots(f, r, k - 1) + Place(f, r, f.roots[k - 1], 2 * RootSpan(f, r, k - 1), 0)
  }

  /** The deepest level reached by the trees of the first `k` roots, each root at depth 0. */
  function RootsHeight(f: Forest, r: Ranking, k: nat): nat
    requires WellFormed(f, r) && k <= |f.roots|
  {
    if k == 0 then 0
    else
      var root := f.roots[k - 1];
      assert root in f.parent;
      var h := Height(f, r, root);
      var before := RootsHeight(f, r, k - 1);
      if before >= h then before else h
  }

  /** The nodes under the first `k` roots. */
  function RootsSub(f: Forest, r: Ranking, k: nat): set<string>
    requires WellFormed(f, r) && k <= |f.roots|
  {
    if k == 0 then {} else RootsSub(f, r, k - 1) + Sub(f, r, f.roots[k - 1])
  }

  // ---------------------------------------------------------------------
  // Subtree facts
  // ---------------------------------------------------------------------

  /** Every node under `id` was discovered no earlier than `id`, and hangs from a parent under `id`. */
  lemma {:induction false} SubFacts(f: Forest, r: Ranking, id: string)
    requires WellFormed(f, r) && id in r.rank
    ensures forall x :: x in Sub(f, r, id) ==> x in r.rank && r.rank[id] <= r.rank[x]
    ensures forall x :: x in Sub(f, r, id) && x != id ==>
      f.parent[x].Some? && f.parent[x].value in Sub(f, r, id)
    decreases r.n - r.rank[id], 1
  {
    SubFirstFacts(f, r, id, |Kids(f, id)|);
  }

  lemma {:induction false} SubFirstFacts(f: Forest, r: Ranking, p: string, k: nat)
    requires WellFormed(f, r) && p in r.rank && k <= |Kids(f, p)|
    ensures forall x :: x in SubFirst(f, r, p, k) ==>
      && x in r.rank && r.rank[p] < r.rank[x] && f.parent[x].Some?
      && (f.parent[x].value == p || f.parent[x].value in SubFirst(f, r, p, k))
    decreases r.n - r.rank[p], 0, k
  {
    if k > 0 {
      var c := Kids(f, p)[k - 1];
      assert c in f.children[p];
      SubFirstFacts(f, r, p, k - 1);
      SubFacts(f, r, c);
    }
  }

  /** The first `k` children's subtrees are part of `SubFirst(p, k)`. */
  lemma {:induction false} SubFirstHas(f: Forest, r: Ranking, p: string, k: nat)
    requires WellFormed(f, r) && p in r.rank && k <= |Kids(f, p)|
    ensures forall j :: 0 <= j < k ==>
      Kids(f, p)[j] in r.rank && Sub(f, r, Kids(f, p)[j]) <= SubFirst(f, r, p, k)
    decreases k
  {
    if k > 0 {
      assert Kids(f, p)[k - 1] in f.children[p];
      SubFirstHas(f, r, p, k - 1);
    }
  }

  /** Every node of `SubFirst(p, k)` lies under one of the first `k` children. */
  lemma {:induction false} SubFirstFrom(f: Forest, r: Ranking, p: string, k: nat)
    requires WellFormed(f, r) && p in r.rank && k <= |Kids(f, p)|
    ensures forall x :: x in SubFirst(f, r, p, k) ==>
      exists j :: 0 <= j < k && Kids(f, p)[j] in r.rank && x in Sub(f, r, Kids(f, p)[j])
    decreases k
  {
    if k > 0 {
      assert Kids(f, p)[k - 1] in f.children[p];
      SubFirstFrom(f, r, p, k - 1);
    }
  }

  /** Two subtrees that share a node are nested. */
  lemma {:induction false} SubMeet(f: Forest, r: Ranking, a: string, b: string, x: string)
    requires WellFormed(f, r) && a in r.rank && b in r.rank
    requires x in r.rank && x in Sub(f, r, a) && x in Sub(f, r, b)
    ensures a in Sub(f, r, b) || b in Sub(f, r, a)
    decreases r.rank[x]
  {
    if x != a && x != b {
      SubFacts(f, r, a);
      SubFacts(f, r, b);
      var q := f.parent[x].value;
      assert x in f.children[q];
      SubMeet(f, r, a, b, q);
    }
  }

  /** No child of `p` lies under one of its siblings. */
  lemma KidNotUnderSibling(f: Forest, r: Ranking, p: string, i: nat, j: nat)
    requires WellFormed(f, r) && p in r.rank && i < |Kids(f, p)| && j < |Kids(f, p)| && i != j
    ensures Kids(f, p)[i] in r.rank && Kids(f, p)[j] in r.rank
    ensures Kids(f, p)[i] !in Sub(f, r, Kids(f, p)[j])
  {
    assert p in f.children;
    var ci, cj := f.children[p][i], f.children[p][j];
    assert ci in f.children[p] && cj in f.children[p];
    assert NoDup(f.children[p]);
    assert ci != cj;
    assert f.parent[ci] == Some(p);
    assert r.rank[p] < r.rank[cj];
    SubFacts(f, r, cj);
    assert p !in Sub(f, r, cj);
  }

  /** The subtrees of two different children of `p` share no node. */
  lemma SiblingPairDisjoint(f: Forest, r: Ranking, p: string, i: nat, j: nat)
    requires WellFormed(f, r) && p in r.rank && i < |Kids(f, p)| && j < |Kids(f, p)| && i != j
    ensures Kids(f, p)[i] in r.rank && Kids(f, p)[j] in r.rank
    ensures Sub(f, r, Kids(f, p)[i]) !! Sub(f, r, Kids(f, p)[j])
  {
    KidNotUnderSibling(f, r, p, i, j);
    KidNotUnderSibling(f, r, p, j, i);
    forall x | x in Sub(f, r, Kids(f, p)[i]) && x in Sub(f, r, Kids(f, p)[j])
      ensures false
    {
      SubFacts(f, r, Kids(f, p)[i]);
      SubMeet(f, r, Kids(f, p)[i], Kids(f, p)[j], x);
    }
  }

  /** The subtree of child `t` shares no node with those of the first `k <= t` children. */
  lemma SiblingsDisjoint(f: Forest, r: Ranking, p: string, k: nat, t: nat)
    requires WellFormed(f, r) && p in r.rank && k <= t < |Kids(f, p)|
    ensures Kids(f, p)[t] in r.rank
    ensures SubFirst(f, r, p, k) !! Sub(f, r, Kids(f, p)[t])
  {
    assert Kids(f, p)[t] in f.children[p];
    SubFirstFrom(f, r, p, k);
    forall x | x in SubFirst(f, r, p, k) && x in Sub(f, r, Kids(f, p)[t])
      ensures false
    {
      var j :| 0 <= j < k && Kids(f, p)[j] in r.rank && x in Sub(f, r, Kids(f, p)[j]);
      SiblingPairDisjoint(f, r, p, j, t);
    }
  }

  /** The trees of two different roots share no node. */
  lemma RootsPairDisjoint(f: Forest, r: Ranking, i: nat, j: nat)
    requires WellFormed(f, r) && i < |f.roots| && j < |f.roots| && i != j
    ensures Sub(f, r, f.roots[i]) !! Sub(f, r, f.roots[j])
  {
    var a, b := f.roots[i], f.roots[j];
    SubFacts(f, r, a);
    SubFacts(f, r, b);
    forall x | x in Sub(f, r, a) && x in Sub(f, r, b)
      ensures false
    {
      SubMeet(f, r, a, b, x);
    }
  }

  /** The tree of root `t` shares no node with the trees of the roots before it. */
  lemma {:induction false} RootsDisjoint(f: Forest, r: Ranking, k: nat, t: nat)
    requires WellFormed(f, r) && k <= t < |f.roots|
    ensures RootsSub(f, r, k) !! Sub(f, r, f.roots[t])
  {
    if k > 0 {
      RootsDisjoint(f, r, k - 1, t);
      RootsPairDisjoint(f, r, k - 1, t);
    }
  }

  // ---------------------------------------------------------------------
  // Placement facts
  // ---------------------------------------------------------------------

  /** Child `j` of `p` hangs from `p` and was discovered after it. */
  lemma KidRanked(f: Forest, r: Ranking, p: string, j: nat)
    requires WellFormed(f, r) && j < |Kids(f, p)|
    ensures p in f.children && Kids(f, p)[j] in f.children[p]
    ensures Kids(f, p)[j] in r.rank && p in r.rank && r.rank[p] < r.rank[Kids(f, p)[j]]
    ensures f.parent[Kids(f, p)[j]] == Some(p)
  {
    assert Kids(f, p)[j] in f.children[p];
  }

  /** The last of the first `k` children's subtrees is placed after the others. */
  lemma PlaceFirstLast(f: Forest, r: Ranking, p: string, k: nat, left2: int, depth: nat)
    requires WellFormed(f, r) && p in r.rank && 0 < k <= |Kids(f, p)|
    ensures Kids(f, p)[k - 1] in r.rank
    ensures PlaceFirst(f, r, p, k, left2, depth)
      == PlaceFirst(f, r, p, k - 1, left2, depth) + Place(f, r, Kids(f, p)[k - 1], left2 + 2 * SpanUpTo(f, r, p, k - 1), depth)
  {
    KidRanked(f, r, p, k - 1);
  }

  lemma EntryIdsAppend(a: seq<Entry>, b: seq<Entry>)
    ensures EntryIds(a + b) == EntryIds(a) + EntryIds(b)
  {
  }

  /** Joining two duplicate-free lists with no common element gives a duplicate-free list. */
  lemma NoDupJoin<T>(a: seq<T>, b: seq<T>)
    requires NoDup(a) && NoDup(b)
    requires forall x :: x in a ==> x !in b
    ensures NoDup(a + b)
  {
    var s := a + b;
    forall i, j | 0 <= i < j < |s|
      ensures s[i] != s[j]
    {
      if j < |a| {
        assert s[i] == a[i] && s[j] == a[j];
      } else if i < |a| {
        assert s[i] == a[i] && s[j] == b[j - |a|];
        assert a[i] in a;
      } else {
        assert s[i] == b[i - |a|] && s[j] == b[j - |a|];
      }
    }
  }

  /** The entries `es` are for exactly the nodes in `s`, each once. */
  ghost predicate Lists(es: seq<Entry>, s: set<string>)
  {
    NoDup(EntryIds(es)) && forall x :: x in EntryIds(es) <==> x in s
  }

  /** `assign(id, …)` places exactly the nodes of the subtree of `id`, each once. */
  lemma {:induction false} PlaceIds(f: Forest, r: Ranking, id: string, left2: int, depth: nat)
    requires WellFormed(f, r) && id in r.rank
    ensures Lists(Place(f, r, id, left2, depth), Sub(f, r, id))
    decreases r.n - r.rank[id], 1
  {
    var head := Entry(id, left2 + Width(f, r, id), depth);
    var kids := PlaceFirst(f, r, id, |Kids(f, id)|, left2, depth + 1);
    var below := SubFirst(f, r, id, |Kids(f, id)|);
    PlaceFirstIds(f, r, id, |Kids(f, id)|, left2, depth + 1);
    SubFirstFacts(f, r, id, |Kids(f, id)|);
    assert id !in below;
    assert id !in EntryIds(kids);
    EntryIdsAppend([head], kids);
    assert EntryIds([head]) == [id];
    NoDupJoin([id], EntryIds(kids));
    assert Sub(f, r, id) == {id} + below;
  }

  lemma {:induction false} PlaceFirstIds(f: Forest, r: Ranking, p: string, k: nat, left2: int, depth: nat)
    requires WellFormed(f, r) && p in r.rank && k <= |Kids(f, p)|
    ensures Lists(PlaceFirst(f, r, p, k, left2, depth), SubFirst(f, r, p, k))
    decreases r.n - r.rank[p], 0, k
  {
    if k > 0 {
      KidRanked(f, r, p, k - 1);
      PlaceFirstIds(f, r, p, k - 1, left2, depth);
      PlaceIds(f, r, Kids(f, p)[k - 1], left2 + 2 * SpanUpTo(f, r, p, k - 1), depth);
      PlaceFirstIdsStep(f, r, p, k, left2, depth);
    } else {
      ListsEmpty(PlaceFirst(f, r, p, k, left2, depth), SubFirst(f, r, p, k));
    }
  }

  /** One more child's subtree extends the placement of the earlier ones. */
  lemma PlaceFirstIdsStep(f: Forest, r: Ranking, p: string, k: nat, left2: int, depth: nat)
    requires WellFormed(f, r) && p in r.rank && 0 < k <= |Kids(f, p)| && Kids(f, p)[k - 1] in r.rank
    requires Lists(PlaceFirst(f, r, p, k - 1, left2, depth), SubFirst(f, r, p, k - 1))
    requires Lists(Place(f, r, Kids(f, p)[k - 1], left2 + 2 * SpanUpTo(f, r, p, k - 1), depth), Sub(f, r, Kids(f, p)[k - 1]))
    ensures Lists(PlaceFirst(f, r, p, k, left2, depth), SubFirst(f, r, p, k))
  {
    var c := Kids(f, p)[k - 1];
    PlaceFirstLast(f, r, p, k, left2, depth);
    var before := PlaceFirst(f, r, p, k - 1, left2, depth);
    var here := Place(f, r, c, left2 + 2 * SpanUpTo(f, r, p, k - 1), depth);
    assert SubFirst(f, r, p, k) == SubFirst(f, r, p, k - 1) + Sub(f, r, c);
    SiblingsDisjoint(f, r, p, k - 1, k - 1);
    JoinIds(PlaceFirst(f, r, p, k, left2, depth), SubFirst(f, r, p, k), before, here, SubFirst(f, r, p, k - 1), Sub(f, r, c));
  }

  /** No entries place no nodes. */
  lemma ListsEmpty(es: seq<Entry>, s: set<string>)
    requires es == [] && s == {}
    ensures Lists(es, s)
  {
  }

  /** Two placements with disjoint node sets join into a placement of their union. */
  lemma JoinIds(all: seq<Entry>, u: set<string>, before: seq<Entry>, here: seq<Entry>, a: set<string>, b: set<string>)
    requires all == before + here && u == a + b
    ensures Lists(before, a) && Lists(here, b) && a !! b ==> Lists(all, u)
  {
    if Lists(before, a) && Lists(here, b) && a !! b {
      EntryIdsAppend(before, here);
      forall x | x in EntryIds(before)
        ensures x !in EntryIds(here)
      {
        assert x in a;
      }
      NoDupJoin(EntryIds(before), EntryIds(here));
    }
  }

  /**
   * Every node `assign(id, left, …)` places lies, with its whole span, inside
   * the span `[left, left + 2 * Width(id)]` of `id`.
   */
  lemma {:induction false} PlaceSpan(f: Forest, r: Ranking, id: string, left2: int, depth: nat)
    requires WellFormed(f, r) && id in r.rank
    ensures forall e :: e in Place(f, r, id, left2, depth) ==>
      && e.id in r.rank
      && left2 <= e.center2 - Width(f, r, e.id)
      && e.center2 + Width(f, r, e.id) <= left2 + 2 * Width(f, r, id)
    decreases r.n - r.rank[id], 1
  {
    PlaceFirstSpan(f, r, id, |Kids(f, id)|, left2, depth + 1);
  }

  lemma {:induction false} PlaceFirstSpan(f: Forest, r: Ranking, p: string, k: nat, left2: int, depth: nat)
    requires WellFormed(f, r) && p in r.rank && k <= |Kids(f, p)|
    ensures forall e :: e in PlaceFirst(f, r, p, k, left2, depth) ==>
      && e.id in r.rank
      && left2 <= e.center2 - Width(f, r, e.id)
      && e.center2 + Width(f, r, e.id) <= left2 + 2 * SpanUpTo(f, r, p, k)
    decreases r.n - r.rank[p], 0, k
  {
    if k > 0 {
      var c := Kids(f, p)[k - 1];
      KidRanked(f, r, p, k - 1);
      PlaceFirstLast(f, r, p, k, left2, depth);
      var start := left2 + 2 * SpanUpTo(f, r, p, k - 1);
      var before, here := PlaceFirst(f, r, p, k - 1, left2, depth), Place(f, r, c, start, depth);
      assert SpanUpTo(f, r, p, k - 1) + Width(f, r, c) <= SpanUpTo(f, r, p, k);
      PlaceFirstSpan(f, r, p, k - 1, left2, depth);
      PlaceSpan(f, r, c, start, depth);
    }
  }

  /** Placing a node at its own depth places every node under it at its own depth. */
  lemma {:induction false} PlaceDepth(f: Forest, r: Ranking, id: string, left2: int, depth: nat)
    requires WellFormed(f, r) && id in r.rank && depth == Depth(f, r, id)
    ensures forall e :: e in Place(f, r, id, left2, depth) ==> e.id in r.rank && e.depth == Depth(f, r, e.id)
    decreases r.n - r.rank[id], 1
  {
    PlaceFirstDepth(f, r, id, |Kids(f, id)|, left2, depth + 1);
  }

  lemma {:induction false} PlaceFirstDepth(f: Forest, r: Ranking, p: string, k: nat, left2: int, depth: nat)
    requires WellFormed(f, r) && p in r.rank && k <= |Kids(f, p)| && depth == Depth(f, r, p) + 1
    ensures forall e :: e in PlaceFirst(f, r, p, k, left2, depth) ==> e.id in r.rank && e.depth == Depth(f, r, e.id)
    decreases r.n - r.rank[p], 0, k
  {
    if k > 0 {
      var c := Kids(f, p)[k - 1];
      KidRanked(f, r, p, k - 1);
      PlaceFirstLast(f, r, p, k, left2, depth);
      var start := left2 + 2 * SpanUpTo(f, r, p, k - 1);
      var before, here := PlaceFirst(f, r, p, k - 1, left2, depth), Place(f, r, c, start, depth);
      PlaceFirstDepth(f, r, p, k - 1, left2, depth);
      PlaceDepth(f, r, c, start, depth);
      forall e | e in PlaceFirst(f, r, p, k, left2, depth)
        ensures e.id in r.rank && e.depth == Depth(f, r, e.id)
      {
        if e !in before {
          assert e in here;
        }
      }
    }
  }

  /** One more child: the levels reached grow to those of its subtree. */
  lemma HeightStep(f: Forest, r: Ranking, p: string, k: nat, c: string)
    requires WellFormed(f, r) && p in r.rank && k < |Kids(f, p)| && c == Kids(f, p)[k]
    ensures c in r.rank
    ensures HeightFirst(f, r, p, k + 1) >= HeightFirst(f, r, p, k)
    ensures HeightFirst(f, r, p, k + 1) >= 1 + Height(f, r, c)
    ensures HeightFirst(f, r, p, k + 1) == HeightFirst(f, r, p, k) || HeightFirst(f, r, p, k + 1) == 1 + Height(f, r, c)
  {
    assert c in f.children[p];
    assert c in r.rank;
  }

  /** Placing a subtree at `depth` puts no entry deeper than `depth + Height`. */
  lemma {:induction false} PlaceBelow(f: Forest, r: Ranking, id: string, left2: int, depth: nat)
    requires WellFormed(f, r) && id in r.rank
    ensures forall e :: e in Place(f, r, id, left2, depth) ==> e.depth <= depth + Height(f, r, id)
    decreases r.n - r.rank[id], 1
  {
    var all := Place(f, r, id, left2, depth);
    var rest := PlaceFirst(f, r, id, |Kids(f, id)|, left2, depth + 1);
    assert all == [all[0]] + rest;
    PlaceFirstBelow(f, r, id, |Kids(f, id)|, left2, depth + 1);
  }

  lemma {:induction false} PlaceFirstBelow(f: Forest, r: Ranking, p: string, k: nat, left2: int, depth: nat)
    requires WellFormed(f, r) && p in r.rank && k <= |Kids(f, p)|
    ensures forall e :: e in PlaceFirst(f, r, p, k, left2, depth) ==> e.depth + 1 <= depth + HeightFirst(f, r, p, k)
    decreases r.n - r.rank[p], 0, k
  {
    if k > 0 {
      var j := k - 1;
      var c := Kids(f, p)[j];
      KidRanked(f, r, p, j);
      PlaceFirstLast(f, r, p, k, left2, depth);
      HeightStep(f, r, p, j, c);
      assert j + 1 == k;
      var start := left2 + 2 * SpanUpTo(f, r, p, j);
      var before := PlaceFirst(f, r, p, j, left2, depth);
      var here := Place(f, r, c, start, depth);
      PlaceFirstBelow(f, r, p, j, left2, depth);
      PlaceBelow(f, r, c, start, depth);
      var top := depth + HeightFirst(f, r, p, k);
      forall e | e in PlaceFirst(f, r, p, k, left2, depth)
        ensures e.depth + 1 <= top
      {
        assert e in before + here;
        if e !in before {
          assert e in here;
        }
      }
    }
  }

  /** Placing a subtree at `depth` puts some entry exactly at `depth + Height`. */
  lemma {:induction false} PlaceReaches(f: Forest, r: Ranking, id: string, left2: int, depth: nat)
    requires WellFormed(f, r) && id in r.rank
    ensures exists e :: e in Place(f, r, id, left2, depth) && e.depth == depth + Height(f, r, id)
    decreases r.n - r.rank[id], 1
  {
    var n := |Kids(f, id)|;
    var all := Place(f, r, id, left2, depth);
    var rest := PlaceFirst(f, r, id, n, left2, depth + 1);
    assert all == [all[0]] + rest;
    if n == 0 {
      assert Height(f, r, id) == HeightFirst(f, r, id, 0) == 0;
      assert all[0] in all;
    } else {
      PlaceFirstReaches(f, r, id, n, left2, depth + 1);
      var e :| e in rest && e.depth + 1 == depth + 1 + HeightFirst(f, r, id, n);
      assert e in all;
    }
  }

  lemma {:induction false} PlaceFirstReaches(f: Forest, r: Ranking, p: string, k: nat, left2: int, depth: nat)
    requires WellFormed(f, r) && p in r.rank && 0 < k <= |Kids(f, p)|
    ensures exists e :: e in PlaceFirst(f, r, p, k, left2, depth) && e.depth + 1 == depth + HeightFirst(f, r, p, k)
    decreases r.n - r.rank[p], 0, k
  {
    var j := k - 1;
    var c := Kids(f, p)[j];
    KidRanked(f, r, p, j);
    PlaceFirstLast(f, r, p, k, left2, depth);
    HeightStep(f, r, p, j, c);
    assert j + 1 == k;
    var start := left2 + 2 * SpanUpTo(f, r, p, j);
    var before := PlaceFirst(f, r, p, j, left2, depth);
    var here := Place(f, r, c, start, depth);
    if j > 0 && HeightFirst(f, r, p, k) == HeightFirst(f, r, p, j) {
      PlaceFirstReaches(f, r, p, j, left2, depth);
      var e :| e in before && e.depth + 1 == depth + HeightFirst(f, r, p, j);
      assert e in before + here;
    } else {
      PlaceReaches(f, r, c, start, depth);
      var e :| e in here && e.depth == depth + Height(f, r, c);
      assert e in before + here;
    }
  }

  /** Child `k` of the first `m` children is placed at the centre of its own slot. */
  lemma {:induction false} PlaceFirstHead(f: Forest, r: Ranking, p: string, m: nat, k: nat, left2: int, depth: nat)
    requires WellFormed(f, r) && p in r.rank && k < m <= |Kids(f, p)|
    ensures Kids(f, p)[k] in r.rank
    ensures Entry(Kids(f, p)[k], left2 + 2 * SpanUpTo(f, r, p, k) + Width(f, r, Kids(f, p)[k]), depth)
      in PlaceFirst(f, r, p, m, left2, depth)
    decreases m
  {
    var c := Kids(f, p)[m - 1];
    KidRanked(f, r, p, m - 1);
    KidRanked(f, r, p, k);
    PlaceFirstLast(f, r, p, m, left2, depth);
    var before := PlaceFirst(f, r, p, m - 1, left2, depth);
    var here := Place(f, r, c, left2 + 2 * SpanUpTo(f, r, p, m - 1), depth);
    var e := Entry(Kids(f, p)[k], left2 + 2 * SpanUpTo(f, r, p, k) + Width(f, r, Kids(f, p)[k]), depth);
    if k < m - 1 {
      PlaceFirstHead(f, r, p, m - 1, k, left2, depth);
      assert e in before;
    } else {
      assert here[0] == e;
    }
    assert e in before + here;
  }

  /** Slot starts grow by at least the earlier children's widths plus spacing. */
  lemma {:induction false} SpanGrows(f: Forest, r: Ranking, p: string, i: nat, j: nat)
    requires WellFormed(f, r) && p in r.rank && i < j < |Kids(f, p)|
    ensures Kids(f, p)[i] in r.rank
    ensures SpanUpTo(f, r, p, i) + Width(f, r, Kids(f, p)[i]) + 1 <= SpanUpTo(f, r, p, j)
    decreases j
  {
    KidRanked(f, r, p, i);
    if i < j - 1 {
      SpanGrows(f, r, p, i, j - 1);
    }
  }

  /**
   * The children of `p` tile its span: the first starts at its left edge,
   * each next one 1 unit after the previous one ends, and the last ends at
   * its right edge.
   */
  lemma ChildrenTile(f: Forest, r: Ranking, p: string)
    requires WellFormed(f, r) && p in r.rank && |Kids(f, p)| > 0
    ensures SpanUpTo(f, r, p, 0) == 0
    ensures SpanUpTo(f, r, p, |Kids(f, p)|) == Width(f, r, p)
    ensures forall k :: 0 <= k < |Kids(f, p)| - 1 ==>
      Kids(f, p)[k] in r.rank &&
      SpanUpTo(f, r, p, k + 1) == SpanUpTo(f, r, p, k) + Width(f, r, Kids(f, p)[k]) + 1
  {
    var n := |Kids(f, p)|;
    assert Kids(f, p)[n - 1] in f.children[p];
    forall k | 0 <= k < n - 1
      ensures Kids(f, p)[k] in r.rank
      ensures SpanUpTo(f, r, p, k + 1) == SpanUpTo(f, r, p, k) + Width(f, r, Kids(f, p)[k]) + 1
    {
      assert Kids(f, p)[k] in f.children[p];
    }
  }

  /**
   * `assign(p, left, depth)` puts `p` at the centre of its span and child `k`
   * at the centre of the `k`-th slot of that span, one level deeper.
   */
  lemma ChildPlaced(f: Forest, r: Ranking, p: string, left2: int, depth: nat, k: nat)
    requires WellFormed(f, r) && p in r.rank && k < |Kids(f, p)|
    ensures Kids(f, p)[k] in r.rank
    ensures Entry(p, left2 + Width(f, r, p), depth) in Place(f, r, p, left2, depth)
    ensures Entry(Kids(f, p)[k], left2 + 2 * SpanUpTo(f, r, p, k) + Width(f, r, Kids(f, p)[k]), depth + 1)
      in Place(f, r, p, left2, depth)
  {
    var all := Place(f, r, p, left2, depth);
    assert all[0] in all;
    var rest := PlaceFirst(f, r, p, |Kids(f, p)|, left2, depth + 1);
    PlaceFirstHead(f, r, p, |Kids(f, p)|, k, left2, depth + 1);
    assert all == [all[0]] + rest;
  }

  /** Two different children's subtrees are placed side by side, never overlapping. */
  lemma SiblingSpansDisjoint(f: Forest, r: Ranking, p: string, left2: int, depth: nat, i: nat, j: nat)
    requires WellFormed(f, r) && p in r.rank && i < j < |Kids(f, p)|
    ensures Kids(f, p)[i] in r.rank && Kids(f, p)[j] in r.rank
    ensures forall a, b ::
      a in Place(f, r, Kids(f, p)[i], left2 + 2 * SpanUpTo(f, r, p, i), depth) &&
      b in Place(f, r, Kids(f, p)[j], left2 + 2 * SpanUpTo(f, r, p, j), depth) ==>
        a.id in r.rank && b.id in r.rank &&
        a.center2 + Width(f, r, a.id) < b.center2 - Width(f, r, b.id)
  {
    assert Kids(f, p)[i] in f.children[p] && Kids(f, p)[j] in f.children[p];
    SpanGrows(f, r, p, i, j);
    PlaceSpan(f, r, Kids(f, p)[i], left2 + 2 * SpanUpTo(f, r, p, i), depth);
    PlaceSpan(f, r, Kids(f, p)[j], left2 + 2 * SpanUpTo(f, r, p, j), depth);
  }

  // ---------------------------------------------------------------------
  // The whole forest
  // ---------------------------------------------------------------------

  /** A node's children lie in its subtree. */
  lemma KidUnder(f: Forest, r: Ranking, z: string, x: string)
    requires WellFormed(f, r) && z in f.children && x in f.children[z]
    ensures z in r.rank && x in r.rank
    ensures x in Sub(f, r, z)
  {
    var n := |Kids(f, z)|;
    SubFirstHas(f, r, z, n);
    var j :| 0 <= j < n && Kids(f, z)[j] == x;
    assert x in Sub(f, r, x);
  }

  /** A subtree contains the children of each of its nodes. */
  lemma {:induction false} SubClosed(f: Forest, r: Ranking, z: string, p: string, x: string)
    requires WellFormed(f, r) && z in r.rank && p in f.children && x in f.children[p]
    requires p in Sub(f, r, z)
    ensures x in r.rank && x in Sub(f, r, z)
    decreases r.n - r.rank[z]
  {
    if p == z {
      KidUnder(f, r, z, x);
    } else {
      var n := |Kids(f, z)|;
      assert p in SubFirst(f, r, z, n);
      SubFirstFrom(f, r, z, n);
      var j :| 0 <= j < n && Kids(f, z)[j] in r.rank && p in Sub(f, r, Kids(f, z)[j]);
      var c := Kids(f, z)[j];
      assert c in f.children[z];
      SubClosed(f, r, c, p, x);
      SubFirstHas(f, r, z, n);
      assert Sub(f, r, c) <= SubFirst(f, r, z, n);
    }
  }

  lemma {:induction false} RootsSubClosed(f: Forest, r: Ranking, k: nat, p: string, x: string)
    requires WellFormed(f, r) && k <= |f.roots| && p in f.children && x in f.children[p]
    requires p in RootsSub(f, r, k)
    ensures x in RootsSub(f, r, k)
  {
    if p in RootsSub(f, r, k - 1) {
      RootsSubClosed(f, r, k - 1, p, x);
    } else {
      SubClosed(f, r, f.roots[k - 1], p, x);
    }
  }

  /** Every node of the forest lies under one of its roots. */
  lemma {:induction false} UnderSomeRoot(f: Forest, r: Ranking, x: string)
    requires WellFormed(f, r) && x in r.rank
    ensures x in RootsSub(f, r, |f.roots|)
    decreases r.rank[x]
  {
    match f.parent[x]
    case None =>
      var j :| 0 <= j < |f.roots| && f.roots[j] == x;
      RootsSubCovers(f, r, |f.roots|, j);
    case Some(p) =>
      assert x in f.children[p];
      UnderSomeRoot(f, r, p);
      RootsSubClosed(f, r, |f.roots|, p, x);
  }

  lemma {:induction false} RootsSubCovers(f: Forest, r: Ranking, k: nat, j: nat)
    requires WellFormed(f, r) && j < k <= |f.roots|
    ensures f.roots[j] in RootsSub(f, r, k)
  {
    if j < k - 1 {
      RootsSubCovers(f, r, k - 1, j);
    }
  }

  /** The trees of all roots hold exactly the nodes of the forest. */
  lemma RootsSubAll(f: Forest, r: Ranking)
    requires WellFormed(f, r)
    ensures forall x :: x in RootsSub(f, r, |f.roots|) <==> x in r.rank
  {
    forall x | x in r.rank
      ensures x in RootsSub(f, r, |f.roots|)
    {
      UnderSomeRoot(f, r, x);
    }
    RootsSubInForest(f, r, |f.roots|);
  }

  lemma {:induction false} RootsSubInForest(f: Forest, r: Ranking, k: nat)
    requires WellFormed(f, r) && k <= |f.roots|
    ensures RootsSub(f, r, k) <= r.rank.Keys
  {
    if k > 0 {
      RootsSubInForest(f, r, k - 1);
      SubFacts(f, r, f.roots[k - 1]);
    }
  }

  /** The root loop places the nodes under the first `k` roots, each exactly once. */
  lemma {:induction false} PlaceRootsIds(f: Forest, r: Ranking, k: nat)
    requires WellFormed(f, r) && k <= |f.roots|
    ensures Lists(PlaceRoots(f, r, k), RootsSub(f, r, k))
  {
    if k > 0 {
      var before := PlaceRoots(f, r, k - 1);
      var here := Place(f, r, f.roots[k - 1], 2 * RootSpan(f, r, k - 1), 0);
      PlaceRootsIds(f, r, k - 1);
      PlaceIds(f, r, f.roots[k - 1], 2 * RootSpan(f, r, k - 1), 0);
      RootsDisjoint(f, r, k - 1, k - 1);
      JoinIds(PlaceRoots(f, r, k), RootsSub(f, r, k), before, here, RootsSub(f, r, k - 1), Sub(f, r, f.roots[k - 1]));
    }
  }

  /**
   * The root loop keeps every node's span inside `[0, 2 * RootSpan(k)]` and
   * places every node at its depth.
   */
  lemma {:induction false} PlaceRootsBounds(f: Forest, r: Ranking, k: nat)
    requires WellFormed(f, r) && k <= |f.roots|
    ensures forall e :: e in PlaceRoots(f, r, k) ==>
      && e.id in r.rank
      && 0 <= e.center2 - Width(f, r, e.id)
      && e.center2 + Width(f, r, e.id) <= 2 * RootSpan(f, r, k)
      && e.depth == Depth(f, r, e.id)
  {
    if k > 0 {
      var root := f.roots[k - 1];
      assert f.parent[root] == None;
      PlaceRootsBounds(f, r, k - 1);
      PlaceSpan(f, r, root, 2 * RootSpan(f, r, k - 1), 0);
      PlaceDepth(f, r, root, 2 * RootSpan(f, r, k - 1), 0);
    }
  }

  /**
   * Root starts grow by at least the earlier root's width plus the
   * 3-unit component spacing.
   */
  lemma {:induction false} RootSpanGrows(f: Forest, r: Ranking, i: nat, j: nat)
    requires WellFormed(f, r) && i < j < |f.roots|
    ensures f.roots[i] in r.rank
    ensures RootSpan(f, r, i) + Width(f, r, f.roots[i]) + ComponentSpacingUnits <= RootSpan(f, r, j)
    decreases j
  {
    if i < j - 1 {
      RootSpanGrows(f, r, i, j - 1);
    }
  }

  /**
   * The trees of two different roots are placed side by side, the earlier
   * one to the left and at least the component spacing apart.
   */
  lemma RootSpansDisjoint(f: Forest, r: Ranking, i: nat, j: nat)
    requires WellFormed(f, r) && i < j < |f.roots|
    ensures f.roots[i] in r.rank && f.roots[j] in r.rank
    ensures forall a, b ::
      a in Place(f, r, f.roots[i], 2 * RootSpan(f, r, i), 0) &&
      b in Place(f, r, f.roots[j], 2 * RootSpan(f, r, j), 0) ==>
        a.id in r.rank && b.id in r.rank &&
        a.center2 + Width(f, r, a.id) + 2 * ComponentSpacingUnits <= b.center2 - Width(f, r, b.id)
  {
    RootSpanGrows(f, r, i, j);
    PlaceSpan(f, r, f.roots[i], 2 * RootSpan(f, r, i), 0);
    PlaceSpan(f, r, f.roots[j], 2 * RootSpan(f, r, j), 0);
  }

  /** No entry of the root loop lies deeper than `RootsHeight`. */
  lemma {:induction false} PlaceRootsHeight(f: Forest, r: Ranking, k: nat)
    requires WellFormed(f, r) && k <= |f.roots|
    ensures forall e :: e in PlaceRoots(f, r, k) ==> e.depth <= RootsHeight(f, r, k)
  {
    if k > 0 {
      var root := f.roots[k - 1];
      assert root in f.parent;
      var before := PlaceRoots(f, r, k - 1);
      var here := Place(f, r, root, 2 * RootSpan(f, r, k - 1), 0);
      assert PlaceRoots(f, r, k) == before + here;
      PlaceRootsHeight(f, r, k - 1);
      PlaceBelow(f, r, root, 2 * RootSpan(f, r, k - 1), 0);
      PlaceReaches(f, r, root, 2 * RootSpan(f, r, k - 1), 0);
      var m := RootsHeight(f, r, k);
      assert m >= RootsHeight(f, r, k - 1) && m >= Height(f, r, root);
      forall e | e in PlaceRoots(f, r, k)
        ensures e.depth <= m
      {
        if e !in before {
          assert e in here;
        }
      }
    }
  }

  /** Once a root is placed, some entry of the root loop lies exactly at depth `RootsHeight`. */
  lemma {:induction false} PlaceRootsDeepest(f: Forest, r: Ranking, k: nat)
    requires WellFormed(f, r) && 0 < k <= |f.roots|
    ensures exists e :: e in PlaceRoots(f, r, k) && e.depth == RootsHeight(f, r, k)
  {
    var root := f.roots[k - 1];
    assert root in f.parent;
    var before := PlaceRoots(f, r, k - 1);
    var here := Place(f, r, root, 2 * RootSpan(f, r, k - 1), 0);
    assert PlaceRoots(f, r, k) == before + here;
    if RootsHeight(f, r, k - 1) >= Height(f, r, root) && k > 1 {
      PlaceRootsDeepest(f, r, k - 1);
      var e :| e in before && e.depth == RootsHeight(f, r, k - 1);
      assert e in before + here;
    } else {
      PlaceBelow(f, r, root, 2 * RootSpan(f, r, k - 1), 0);
      PlaceReaches(f, r, root, 2 * RootSpan(f, r, k - 1), 0);
      var e :| e in here && e.depth == Height(f, r, root);
      assert e in before + here;
    }
  }
}
