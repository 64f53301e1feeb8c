/**
 * The pixel layer of `buildLayout` (src/components/app/tree/skill-tree-canvas.tsx):
 * unit positions become pixel centres inside the margins of a `size` x `size`
 * canvas, and the nodes are sorted by depth, then by x.
 *
 * JavaScript numbers are modelled as reals: the margins, the unit width and
 * the vertical gap are exact here.
 */
module Positioned {
  import opened SkillTypes
  import opened Sorting
  import opened Adjacency
  import opened ForestShape
  import opened Traversal
  import opened Layout

  /** `PositionedSkill`: a skill with its pixel centre and its depth in the forest. */
  datatype PositionedSkill = PositionedSkill(skill: SkillNode, x: real, y: real, depth: nat)

  /**
   * The object the source builds for a positioned id, `{...skillMap.get(id)!, x, y, depth}`.
   * For an id that no skill has, the spread adds nothing: `fields` is None.
   */
  datatype SpreadNode = SpreadNode(fields: Option<SkillNode>, x: real, y: real, depth: nat)

  /** `LayoutResult`: the sorted nodes and `parentMap` (None for a root). */
  datatype LayoutResult = LayoutResult(nodes: seq<PositionedSkill>, parents: map<string, Option<string>>)

  /** The result of `buildLayout` as written, whose nodes may lack the skill fields. */
  datatype SpreadLayout = SpreadLayout(nodes: seq<SpreadNode>, parents: map<string, Option<string>>)

  // ---------------------------------------------------------------------
  // Margins and scales (lines 160-162 and 201-203)
  // ---------------------------------------------------------------------

  /** `horizontalMargin`: a tenth of the canvas on the left and on the right. */
  function HorizontalMargin(size: real): real
  {
    size * 0.1
  }

  /** `topMargin` (and `bottomMargin`): 12% of the canvas. */
  function TopMargin(size: real): real
  {
    size * 0.12
  }

  /**
   * `unitWidth`: the width between the margins shared out over the units;
   * the whole of it when there are no units.
   */
  function UnitWidth(size: real, totalUnits: int): (w: real)
    ensures totalUnits > 0 ==> w * totalUnits as real == size - 2.0 * HorizontalMargin(size)
    ensures totalUnits <= 0 ==> w == size - 2.0 * HorizontalMargin(size)
  {
    var availableWidth := size - HorizontalMargin(size) * 2.0;
    if totalUnits > 0 then availableWidth / totalUnits as real else availableWidth
  }

  /** `verticalGap`: the height between the margins shared out over the levels, 0 for a single level. */
  function VerticalGap(size: real, maxDepth: nat): (g: real)
    ensures maxDepth > 0 ==> g * maxDepth as real == size - 2.0 * TopMargin(size)
    ensures maxDepth == 0 ==> g == 0.0
  {
    if maxDepth > 0 then (size - TopMargin(size) - TopMargin(size)) / maxDepth as real else 0.0
  }

  /** `horizontalMargin + position.center * unitWidth`, from the doubled centre. */
  function PixelX(size: real, totalUnits: int, center2: int): real
  {
    HorizontalMargin(size) + (center2 as real / 2.0) * UnitWidth(size, totalUnits)
  }

  /** `topMargin + position.depth * verticalGap`. */
  function PixelY(size: real, maxDepth: nat, depth: nat): real
  {
    TopMargin(size) + depth as real * VerticalGap(size, maxDepth)
  }

  lemma ScaleMono(a: real, b: real, u: real)
    requires a <= b && u >= 0.0
    ensures a * u <= b * u
  {
    assert b * u - a * u == (b - a) * u;
  }

  /** A centre inside `[0, 2 * totalUnits]` lands between the horizontal margins. */
  lemma PixelXInside(size: real, totalUnits: int, center2: int)
    requires size >= 0.0 && totalUnits > 0 && 0 <= center2 <= 2 * totalUnits
    ensures size * 0.1 <= PixelX(size, totalUnits, center2) <= size * 0.9
  {
    var u := UnitWidth(size, totalUnits);
    var t := totalUnits as real;
    var c := center2 as real / 2.0;
    assert u == size * 0.8 / t;
    ScaleMono(0.0, c, u);
    ScaleMono(c, t, u);
  }

  /** A depth of at most `maxDepth` lands between the top and bottom margins. */
  lemma PixelYInside(size: real, maxDepth: nat, depth: nat)
    requires size >= 0.0 && depth <= maxDepth
    ensures size * 0.12 <= PixelY(size, maxDepth, depth) <= size * 0.88
  {
    var g := VerticalGap(size, maxDepth);
    if maxDepth > 0 {
      assert g == size * 0.76 / maxDepth as real;
      ScaleMono(0.0, depth as real, g);
      ScaleMono(depth as real, maxDepth as real, g);
    }
  }

  /** Equal depths share a row, and on a canvas of positive size a deeper node lies lower. */
  lemma PixelYRows(size: real, maxDepth: nat, d1: nat, d2: nat)
    requires d1 < d2 <= maxDepth && size > 0.0
    ensures PixelY(size, maxDepth, d1) < PixelY(size, maxDepth, d2)
  {
    var g := VerticalGap(size, maxDepth);
    assert g == size * 0.76 / maxDepth as real;
    assert g > 0.0;
    assert d2 as real * g - d1 as real * g == (d2 - d1) as real * g;
  }

  // ---------------------------------------------------------------------
  // The node list (lines 205-215)
  // ---------------------------------------------------------------------

  /** The comparator `a.depth === b.depth ? a.x - b.x : a.depth - b.depth` is negative. */
  predicate Before(d1: nat, x1: real, d2: nat, x2: real)
  {
    if d1 == d2 then x1 < x2 else d1 < d2
  }

  predicate NodeBefore(a: PositionedSkill, b: PositionedSkill)
  {
    Before(a.depth, a.x, b.depth, b.x)
  }

  predicate SpreadBefore(a: SpreadNode, b: SpreadNode)
  {
    Before(a.depth, a.x, b.depth, b.x)
  }

  /** Ordering by depth, then by x, is a strict weak order, for both kinds of node. */
  lemma BeforeWeakOrder()
    ensures StrictWeakOrder(NodeBefore)
    ensures StrictWeakOrder(SpreadBefore)
  {
    forall a: PositionedSkill, b: PositionedSkill, c: PositionedSkill
      ensures NodeBefore(c, a) ==> NodeBefore(c, b) || NodeBefore(b, a)
    {
      BeforeTransitive(a.depth, a.x, b.depth, b.x, c.depth, c.x);
    }
    forall a: SpreadNode, b: SpreadNode, c: SpreadNode
      ensures SpreadBefore(c, a) ==> SpreadBefore(c, b) || SpreadBefore(b, a)
    {
      BeforeTransitive(a.depth, a.x, b.depth, b.x, c.depth, c.x);
    }
  }

  lemma BeforeTransitive(da: nat, xa: real, db: nat, xb: real, dc: nat, xc: real)
    ensures Before(dc, xc, da, xa) ==> Before(dc, xc, db, xb) || Before(db, xb, da, xa)
    ensures Before(da, xa, db, xb) ==> !Before(db, xb, da, xa)
  {
  }

  /** The node map as written: one object per entry, in entry order. */
  function Spread(skills: seq<SkillNode>, size: real, totalUnits: int, maxDepth: nat, entries: seq<Entry>): seq<SpreadNode>
  {
    seq(|entries|, i requires 0 <= i < |entries| =>
      SpreadNode(Lookup(skills, entries[i].id), PixelX(size, totalUnits, entries[i].center2),
                 PixelY(size, maxDepth, entries[i].depth), entries[i].depth))
  }

  /** The node one entry yields when some skill has its id. */
  function NodeOf(skill: SkillNode, size: real, totalUnits: int, maxDepth: nat, e: Entry): PositionedSkill
  {
    PositionedSkill(skill, PixelX(size, totalUnits, e.center2), PixelY(size, maxDepth, e.depth), e.depth)
  }

  /** The ids of a list of nodes, in order. */
  function NodeIds(nodes: seq<PositionedSkill>): (ids: seq<string>)
    ensures |ids| == |nodes| && forall i :: 0 <= i < |nodes| ==> ids[i] == nodes[i].skill.id
  {
    seq(|nodes|, i requires 0 <= i < |nodes| => nodes[i].skill.id)
  }

  /**
   * The node map with the entries no skill has left out: one node per entry
   * whose id is a skill's, in entry order.
   */
  function Skilled(skills: seq<SkillNode>, size: real, totalUnits: int, maxDepth: nat, entries: seq<Entry>): seq<PositionedSkill>
  {
    if |entries| == 0 then []
    else
      var rest := Skilled(skills, size, totalUnits, maxDepth, entries[..|entries| - 1]);
      var e := entries[|entries| - 1];
      match Lookup(skills, e.id)
      case None => rest
      case Some(s) => rest + [NodeOf(s, size, totalUnits, maxDepth, e)]
  }

  /** Every node comes from an entry, carries the skill with that entry's id and sits at its pixels. */
  lemma {:induction false} SkilledFrom(skills: seq<SkillNode>, size: real, totalUnits: int, maxDepth: nat, entries: seq<Entry>)
    ensures forall n :: n in Skilled(skills, size, totalUnits, maxDepth, entries) ==>
      (exists e :: e in entries && Lookup(skills, e.id) == Some(n.skill) && n == NodeOf(n.skill, size, totalUnits, maxDepth, e))
  {
    if |entries| > 0 {
      var init := entries[..|entries| - 1];
      var e := entries[|entries| - 1];
      SkilledFrom(skills, size, totalUnits, maxDepth, init);
      assert entries == init + [e];
    }
  }

  /** The nodes have exactly the entry ids that are skill ids, each once when the entries' ids are. */
  lemma {:induction false} SkilledIds(skills: seq<SkillNode>, size: real, totalUnits: int, maxDepth: nat, entries: seq<Entry>)
    ensures forall x :: x in NodeIds(Skilled(skills, size, totalUnits, maxDepth, entries)) <==> x in EntryIds(entries) && x in Ids(skills)
    ensures NoDup(EntryIds(entries)) ==> NoDup(NodeIds(Skilled(skills, size, totalUnits, maxDepth, entries)))
  {
    if |entries| > 0 {
      var init := entries[..|entries| - 1];
      var e := entries[|entries| - 1];
      var rest := Skilled(skills, size, totalUnits, maxDepth, init);
      SkilledIds(skills, size, totalUnits, maxDepth, init);
      var ids := EntryIds(entries);
      assert ids == EntryIds(init) + [e.id];
      if NoDup(ids) {
        assert forall i, j :: 0 <= i < j < |init| ==> EntryIds(init)[i] == ids[i] && EntryIds(init)[j] == ids[j];
        assert forall i :: 0 <= i < |init| ==> EntryIds(init)[i] == ids[i] != ids[|init|] == e.id;
      }
      match Lookup(skills, e.id)
      case None =>
      case Some(s) =>
        assert NodeIds(rest + [NodeOf(s, size, totalUnits, maxDepth, e)]) == NodeIds(rest) + [e.id];
    }
  }

  /** A rearrangement of nodes has the same ids, and distinct ones if the original's are. */
  lemma NodeIdsPerm(a: seq<PositionedSkill>, b: seq<PositionedSkill>)
    requires multiset(a) == multiset(b)
    ensures forall x :: x in NodeIds(b) <==> x in NodeIds(a)
    ensures NoDup(NodeIds(a)) ==> NoDup(NodeIds(b))
  {
    forall x
      ensures x in NodeIds(b) ==> x in NodeIds(a)
      ensures x in NodeIds(a) ==> x in NodeIds(b)
    {
      if x in NodeIds(b) {
        var j :| 0 <= j < |b| && NodeIds(b)[j] == x;
        assert b[j] in multiset(a);
        var i :| 0 <= i < |a| && a[i] == b[j];
        assert NodeIds(a)[i] == x;
      }
      if x in NodeIds(a) {
        var j :| 0 <= j < |a| && NodeIds(a)[j] == x;
        assert a[j] in multiset(b);
        var i :| 0 <= i < |b| && b[i] == a[j];
        assert NodeIds(b)[i] == x;
      }
    }
    if NoDup(NodeIds(a)) {
      NodeIdsDistinct(a, b);
    }
  }

  lemma NodeIdsDistinct(a: seq<PositionedSkill>, b: seq<PositionedSkill>)
    requires NoDup(NodeIds(a)) && multiset(a) == multiset(b)
    ensures NoDup(NodeIds(b))
  {
    assert NoDup(a) by {
      forall i, j | 0 <= i < j < |a|
        ensures a[i] != a[j]
      {
        assert NodeIds(a)[i] != NodeIds(a)[j];
      }
    }
    NoDupPerm(a, b);
    forall i, j | 0 <= i < j < |b|
      ensures b[i].skill.id != b[j].skill.id
    {
      assert b[i] in multiset(a) && b[j] in multiset(a);
      var p :| 0 <= p < |a| && a[p] == b[i];
      var q :| 0 <= q < |a| && a[q] == b[j];
      if p < q {
        assert NodeIds(a)[p] != NodeIds(a)[q];
      } else {
        assert NodeIds(a)[q] != NodeIds(a)[p];
      }
    }
  }

  /** Every skill id is a node of the adjacency. */
  lemma IdsInAdjacency(skills: seq<SkillNode>)
    ensures forall x :: x in Ids(skills) ==> x in AdjacencyOf(skills)
  {
    AdjacencySymmetric(skills);
    forall x | x in Ids(skills)
      ensures x in AdjacencyOf(skills)
    {
      var i :| 0 <= i < |skills| && Ids(skills)[i] == x;
      assert skills[i].id in AdjacencyOf(skills);
    }
  }

  // ---------------------------------------------------------------------
  // buildLayout (lines 50-218)
  // ---------------------------------------------------------------------

  /**
   * What `buildLayout` returns as written, on the spanning forest `f` of the
   * skills: every placed id becomes a node, sorted by depth, then by x.
   */
  function SpreadLaidOut(skills: seq<SkillNode>, size: real, f: Forest, r: Ranking): SpreadLayout
    requires WellFormed(f, r)
  {
    var k := |f.roots|;
    var nodes := Spread(skills, size, RootSpan(f, r, k), RootsHeight(f, r, k), PlaceRoots(f, r, k));
    SpreadLayout(SortBy(nodes, SpreadBefore), f.parent)
  }

  /** `buildLayout` with the ids that no skill has left out of the nodes. */
  function LaidOut(skills: seq<SkillNode>, size: real, f: Forest, r: Ranking): LayoutResult
    requires WellFormed(f, r)
  {
    var k := |f.roots|;
    var nodes := Skilled(skills, size, RootSpan(f, r, k), RootsHeight(f, r, k), PlaceRoots(f, r, k));
    LayoutResult(SortBy(nodes, NodeBefore), f.parent)
  }

  /**
   * Everything `buildLayout` does before the pixels: the spanning forest,
   * `rootWidths` and `totalUnits`, and the unit positions with `maxDepth`.
   */
  method UnitLayer(skills: seq<SkillNode>)
    returns (f: Forest, ghost r: Ranking, entries: seq<Entry>, totalUnits: int, maxDepth: nat)
    ensures f == SpanningForest(skills) && WellFormed(f, r)
    ensures entries == PlaceRoots(f, r, |f.roots|)
    ensures totalUnits == RootSpan(f, r, |f.roots|)
    ensures maxDepth == RootsHeight(f, r, |f.roots|)
  {
    f := BuildForest(skills);
    ghost var rank, count := SpanningForestWellFormed(skills);
    r := Ranking(rank, count);
    var rootWidths, widths := MeasureRoots(f, r);
    totalUnits := TotalUnits(rootWidths);
    TotalUnitsAll(f, r, rootWidths);
    entries, maxDepth := AssignRoots(f, r, widths);
  }

  /** `buildLayout(skills, size)` as written. */
  method BuildLayoutAsWritten(skills: seq<SkillNode>, size: real) returns (result: SpreadLayout, ghost r: Ranking)
    ensures |skills| == 0 ==> result == SpreadLayout([], map[])
    ensures |skills| > 0 ==>
      WellFormed(SpanningForest(skills), r) && result == SpreadLaidOut(skills, size, SpanningForest(skills), r)
  {
    if |skills| == 0 {
      return SpreadLayout([], map[]), Ranking(map[], 0);
    }
    var f, entries, totalUnits, maxDepth;
    f, r, entries, totalUnits, maxDepth := UnitLayer(skills);
    var nodes := Spread(skills, size, totalUnits, maxDepth, entries);
    nodes := SortBy(nodes, SpreadBefore);
    result := SpreadLayout(nodes, f.parent);
  }

  /** `buildLayout(skills, size)`, building a node only for the ids some skill has. */
  method BuildLayout(skills: seq<SkillNode>, size: real) returns (result: LayoutResult, ghost r: Ranking)
    ensures |skills| == 0 ==> result == LayoutResult([], map[])
    ensures |skills| > 0 ==>
      WellFormed(SpanningForest(skills), r) && result == LaidOut(skills, size, SpanningForest(skills), r)
  {
    if |skills| == 0 {
      return LayoutResult([], map[]), Ranking(map[], 0);
    }
    var f, entries, totalUnits, maxDepth;
    f, r, entries, totalUnits, maxDepth := UnitLayer(skills);
    var nodes := Skilled(skills, size, totalUnits, maxDepth, entries);
    nodes := SortBy(nodes, NodeBefore);
    result := LayoutResult(nodes, f.parent);
  }

  /** The nodes come out sorted by depth, then by x. */
  lemma LaidOutSorted(skills: seq<SkillNode>, size: real, f: Forest, r: Ranking)
    requires WellFormed(f, r)
    ensures Sorted(LaidOut(skills, size, f, r).nodes, NodeBefore)
  {
    var k := |f.roots|;
    BeforeWeakOrder();
    SortBySorted(Skilled(skills, size, RootSpan(f, r, k), RootsHeight(f, r, k), PlaceRoots(f, r, k)), NodeBefore);
  }

  /** The nodes of `buildLayout` as written come out sorted by depth, then by x. */
  lemma SpreadLaidOutSorted(skills: seq<SkillNode>, size: real, f: Forest, r: Ranking)
    requires WellFormed(f, r)
    ensures Sorted(SpreadLaidOut(skills, size, f, r).nodes, SpreadBefore)
  {
    var k := |f.roots|;
    BeforeWeakOrder();
    SortBySorted(Spread(skills, size, RootSpan(f, r, k), RootsHeight(f, r, k), PlaceRoots(f, r, k)), SpreadBefore);
  }

  /** A node with the skill's fields, as the object the source spreads them into. */
  function AsSpread(n: PositionedSkill): SpreadNode
  {
    SpreadNode(Some(n.skill), n.x, n.y, n.depth)
  }

  /** When every entry is a skill's, the node map as written is the skilled one, spread. */
  lemma {:induction false} SkilledLift(skills: seq<SkillNode>, size: real, totalUnits: int, maxDepth: nat, entries: seq<Entry>)
    requires forall i :: 0 <= i < |entries| ==> entries[i].id in Ids(skills)
    ensures Spread(skills, size, totalUnits, maxDepth, entries) ==
      MapSeq(Skilled(skills, size, totalUnits, maxDepth, entries), AsSpread)
  {
    if |entries| > 0 {
      var init := entries[..|entries| - 1];
      var e := entries[|entries| - 1];
      SkilledLift(skills, size, totalUnits, maxDepth, init);
      var rest := Skilled(skills, size, totalUnits, maxDepth, init);
      var s := Lookup(skills, e.id).value;
      MapSeqSnoc(rest, NodeOf(s, size, totalUnits, maxDepth, e), AsSpread);
      assert Spread(skills, size, totalUnits, maxDepth, entries) ==
        Spread(skills, size, totalUnits, maxDepth, init) + [AsSpread(NodeOf(s, size, totalUnits, maxDepth, e))];
    }
  }

  /** With every connection naming a skill, every placed id is a skill id. */
  lemma EntriesAreSkills(skills: seq<SkillNode>, r: Ranking, entries: seq<Entry>)
    requires WellFormed(SpanningForest(skills), r)
    requires entries == PlaceRoots(SpanningForest(skills), r, |SpanningForest(skills).roots|)
    requires forall i, c :: 0 <= i < |skills| && c in skills[i].connections ==> c in Ids(skills)
    ensures forall i :: 0 <= i < |entries| ==> entries[i].id in Ids(skills)
  {
    PlacedOnce(skills, r);
    AdjacencyKeys(skills);
    forall i | 0 <= i < |entries|
      ensures entries[i].id in Ids(skills)
    {
      var x := entries[i].id;
      assert EntryIds(entries)[i] == x;
      assert Mentioned(skills, x);
      MentionedSkill(skills, x);
    }
  }

  /** With every connection naming a skill, every mentioned id is a skill id. */
  lemma MentionedSkill(skills: seq<SkillNode>, x: string)
    requires forall i, c :: 0 <= i < |skills| && c in skills[i].connections ==> c in Ids(skills)
    requires Mentioned(skills, x)
    ensures x in Ids(skills)
  {
    var j :| 0 <= j < |skills| && (skills[j].id == x || x in skills[j].connections);
    if skills[j].id == x {
      assert Ids(skills)[j] == x;
    }
  }

  /**
   * When every connection names a skill, the nodes `buildLayout` returns as
   * written are exactly the skilled nodes with their fields spread in, in the
   * same order and with the same parents.
   */
  lemma SpreadAgrees(skills: seq<SkillNode>, size: real, r: Ranking)
    requires WellFormed(SpanningForest(skills), r)
    requires forall i, c :: 0 <= i < |skills| && c in skills[i].connections ==> c in Ids(skills)
    ensures var f := SpanningForest(skills);
      && SpreadLaidOut(skills, size, f, r).nodes == MapSeq(LaidOut(skills, size, f, r).nodes, AsSpread)
      && SpreadLaidOut(skills, size, f, r).parents == LaidOut(skills, size, f, r).parents
  {
    var f := SpanningForest(skills);
    var k := |f.roots|;
    var entries := PlaceRoots(f, r, k);
    EntriesAreSkills(skills, r, entries);
    SkilledLift(skills, size, RootSpan(f, r, k), RootsHeight(f, r, k), entries);
    assert forall a, b :: SpreadBefore(AsSpread(a), AsSpread(b)) == NodeBefore(a, b);
    SortByMap(Skilled(skills, size, RootSpan(f, r, k), RootsHeight(f, r, k), entries), AsSpread, NodeBefore, SpreadBefore);
  }

  /**
   * `positionUnits` holds every node of the graph, skill ids and the ids
   * skills connect to, each exactly once.
   */
  lemma PlacedOnce(skills: seq<SkillNode>, r: Ranking)
    requires WellFormed(SpanningForest(skills), r)
    ensures var f := SpanningForest(skills);
      var ids := EntryIds(PlaceRoots(f, r, |f.roots|));
      && NoDup(ids)
      && (forall x :: x in ids <==> x in AdjacencyOf(skills))
  {
    var f := SpanningForest(skills);
    PlaceRootsIds(f, r, |f.roots|);
    RootsSubAll(f, r);
    SpanningForestCovers(skills);
  }

  /** Every skill gets exactly one node, and no other node is built. */
  lemma LaidOutCovers(skills: seq<SkillNode>, size: real, r: Ranking)
    requires WellFormed(SpanningForest(skills), r)
    ensures var nodes := LaidOut(skills, size, SpanningForest(skills), r).nodes;
      && NoDup(NodeIds(nodes))
      && (forall x :: x in NodeIds(nodes) <==> x in Ids(skills))
  {
    var f := SpanningForest(skills);
    var k := |f.roots|;
    var entries := PlaceRoots(f, r, k);
    var unsorted := Skilled(skills, size, RootSpan(f, r, k), RootsHeight(f, r, k), entries);
    var nodes := SortBy(unsorted, NodeBefore);
    PlacedOnce(skills, r);
    IdsInAdjacency(skills);
    SkilledIds(skills, size, RootSpan(f, r, k), RootsHeight(f, r, k), entries);
    NodeIdsPerm(unsorted, nodes);
  }

  /** Each node carries the skill `skillMap` holds for its id: the last one with that id. */
  lemma LaidOutSkills(skills: seq<SkillNode>, size: real, f: Forest, r: Ranking)
    requires WellFormed(f, r)
    ensures forall n :: n in LaidOut(skills, size, f, r).nodes ==> Lookup(skills, n.skill.id) == Some(n.skill)
  {
    var k := |f.roots|;
    var entries := PlaceRoots(f, r, k);
    var unsorted := Skilled(skills, size, RootSpan(f, r, k), RootsHeight(f, r, k), entries);
    SkilledFrom(skills, size, RootSpan(f, r, k), RootsHeight(f, r, k), entries);
    SortBySame(unsorted, NodeBefore);
    forall n | n in LaidOut(skills, size, f, r).nodes
      ensures Lookup(skills, n.skill.id) == Some(n.skill)
    {
      assert n in unsorted;
    }
  }

  /** On a canvas of non-negative size every node lies inside the margins. */
  lemma LaidOutInside(skills: seq<SkillNode>, size: real, f: Forest, r: Ranking)
    requires WellFormed(f, r) && size >= 0.0
    ensures forall n :: n in LaidOut(skills, size, f, r).nodes ==>
      size * 0.1 <= n.x <= size * 0.9 && size * 0.12 <= n.y <= size * 0.88
  {
    var k := |f.roots|;
    var entries := PlaceRoots(f, r, k);
    var total, height := RootSpan(f, r, k), RootsHeight(f, r, k);
    var unsorted := Skilled(skills, size, total, height, entries);
    PlaceRootsBounds(f, r, k);
    PlaceRootsHeight(f, r, k);
    SkilledFrom(skills, size, total, height, entries);
    SortBySame(unsorted, NodeBefore);
    forall n | n in LaidOut(skills, size, f, r).nodes
      ensures size * 0.1 <= n.x <= size * 0.9 && size * 0.12 <= n.y <= size * 0.88
    {
      assert n in unsorted;
      var e :| e in entries && Lookup(skills, e.id) == Some(n.skill) && n == NodeOf(n.skill, size, total, height, e);
      PixelXInside(size, total, e.center2);
      PixelYInside(size, height, e.depth);
    }
  }

  /**
   * Every node sits at the depth of its skill in the forest, no deeper than
   * `maxDepth`; nodes of one depth share a row, and deeper rows lie lower.
   */
  lemma LaidOutRows(skills: seq<SkillNode>, size: real, f: Forest, r: Ranking)
    requires WellFormed(f, r)
    ensures var nodes := LaidOut(skills, size, f, r).nodes;
      && (forall n :: n in nodes ==>
            n.skill.id in r.rank && n.depth == Depth(f, r, n.skill.id) && n.depth <= RootsHeight(f, r, |f.roots|))
      && (forall a, b :: a in nodes && b in nodes && a.depth == b.depth ==> a.y == b.y)
      && (forall a, b :: a in nodes && b in nodes && a.depth < b.depth && size > 0.0 ==> a.y < b.y)
  {
    var k := |f.roots|;
    var entries := PlaceRoots(f, r, k);
    var total, height := RootSpan(f, r, k), RootsHeight(f, r, k);
    var unsorted := Skilled(skills, size, total, height, entries);
    var nodes := LaidOut(skills, size, f, r).nodes;
    PlaceRootsBounds(f, r, k);
    PlaceRootsHeight(f, r, k);
    SkilledFrom(skills, size, total, height, entries);
    SortBySame(unsorted, NodeBefore);
    forall n | n in nodes
      ensures n.skill.id in r.rank && n.depth == Depth(f, r, n.skill.id) && n.depth <= height
      ensures n.y == PixelY(size, height, n.depth)
    {
      assert n in unsorted;
      var e :| e in entries && Lookup(skills, e.id) == Some(n.skill) && n == NodeOf(n.skill, size, total, height, e);
    }
    forall a, b | a in nodes && b in nodes && a.depth < b.depth && size > 0.0
      ensures a.y < b.y
    {
      PixelYRows(size, height, a.depth, b.depth);
    }
  }

  /**
   * A skill that connects to an id no skill has makes `buildLayout` as
   * written build a node without any skill fields for that id.
   */
  lemma PhantomLaid(skills: seq<SkillNode>, size: real, r: Ranking, i: nat, c: string)
    requires WellFormed(SpanningForest(skills), r)
    requires i < |skills| && c in skills[i].connections && c !in Ids(skills)
    ensures exists n :: n in SpreadLaidOut(skills, size, SpanningForest(skills), r).nodes && n.fields.None?
  {
    var f := SpanningForest(skills);
    var k := |f.roots|;
    var entries := PlaceRoots(f, r, k);
    var unsorted := Spread(skills, size, RootSpan(f, r, k), RootsHeight(f, r, k), entries);
    AdjacencyKeys(skills);
    assert Mentioned(skills, c);
    SpanningForestCovers(skills);
    RootsSubAll(f, r);
    PlaceRootsIds(f, r, k);
    assert c in EntryIds(entries);
    var j :| 0 <= j < |entries| && EntryIds(entries)[j] == c;
    assert unsorted[j].fields.None?;
    SortBySame(unsorted, SpreadBefore);
    assert unsorted[j] in SortBy(unsorted, SpreadBefore);
  }
}
