/**
 * What the canvas draws from the laid-out nodes
 * (src/components/app/tree/skill-tree-canvas.tsx): the dragged positions
 * that override the layout, the connector anchor of a node, the
 * de-duplicated edge list, the hit test of a connection drag and the
 * clamping of pointer coordinates.
 */
module Projection {
  import opened SkillTypes
  import opened Collation
  import opened Positioned

  /** A point of the canvas, or a normalised position in `[0, 1]²`. */
  datatype Point = Point(x: real, y: real)

  /** The part of `getBoundingClientRect()` the canvas reads. */
  datatype Rect = Rect(left: real, top: real, width: real, height: real)

  const NodeSizeDefault: real := 136.0
  const NodeSizeSelected: real := 148.0
  const ConnectorSize: real := 28.0
  const ConnectorRightOffset: real := 24.0
  const ConnectorBottomOffset: real := 12.0
  const ConnectorRadius: real := ConnectorSize / 2.0
  const ConnectTargetRadius: real := 72.0

  // ---------------------------------------------------------------------
  // Position overrides (lines 265-277)
  // ---------------------------------------------------------------------

  /** One node of `nodesWithOverrides`: a stored position, scaled to the canvas, replaces x and y. */
  function Overridden(node: PositionedSkill, positions: map<string, Point>, size: real): PositionedSkill
  {
    if node.skill.id in positions then
      node.(x := positions[node.skill.id].x * size, y := positions[node.skill.id].y * size)
    else node
  }

  /** `nodesWithOverrides`. */
  function WithOverrides(nodes: seq<PositionedSkill>, positions: map<string, Point>, size: real): (r: seq<PositionedSkill>)
    ensures |r| == |nodes|
  {
    seq(|nodes|, i requires 0 <= i < |nodes| => Overridden(nodes[i], positions, size))
  }

  /**
   * An override moves a node to its stored position times the canvas size
   * and keeps everything else, depth included; a node without one is left
   * as it is. The list keeps its order and its ids.
   */
  lemma OverridesKeep(nodes: seq<PositionedSkill>, positions: map<string, Point>, size: real)
    ensures var r := WithOverrides(nodes, positions, size);
      && NodeIds(r) == NodeIds(nodes)
      && (forall i :: 0 <= i < |nodes| ==> r[i].skill == nodes[i].skill && r[i].depth == nodes[i].depth)
      && (forall i :: 0 <= i < |nodes| && nodes[i].skill.id !in positions ==> r[i] == nodes[i])
      && (forall i :: 0 <= i < |nodes| && nodes[i].skill.id in positions ==>
            r[i].x == positions[nodes[i].skill.id].x * size && r[i].y == positions[nodes[i].skill.id].y * size)
  {
    var r := WithOverrides(nodes, positions, size);
    assert forall i :: 0 <= i < |nodes| ==> r[i] == Overridden(nodes[i], positions, size);
  }

  /** Applying the overrides a second time changes nothing. */
  lemma OverridesIdempotent(nodes: seq<PositionedSkill>, positions: map<string, Point>, size: real)
    ensures WithOverrides(WithOverrides(nodes, positions, size), positions, size) == WithOverrides(nodes, positions, size)
  {
    var once := WithOverrides(nodes, positions, size);
    var twice := WithOverrides(once, positions, size);
    forall i | 0 <= i < |nodes|
      ensures twice[i] == once[i]
    {
      assert once[i] == Overridden(nodes[i], positions, size);
      assert twice[i] == Overridden(once[i], positions, size);
    }
  }

  // ---------------------------------------------------------------------
  // The connector anchor (lines 284-293)
  // ---------------------------------------------------------------------

  /** The drawn size of a node: larger when it is the selected one. */
  function NodeSize(node: PositionedSkill, selected: Option<string>): real
  {
    if selected == Some(node.skill.id) then NodeSizeSelected else NodeSizeDefault
  }

  /**
   * `resolveConnectorPoint`: the centre of the connector handle near the
   * node's bottom-right corner.
   */
  function ConnectorPoint(node: PositionedSkill, selected: Option<string>): (p: Point)
    ensures selected == Some(node.skill.id) ==> p == Point(node.x + 36.0, node.y + 86.0)
    ensures selected != Some(node.skill.id) ==> p == Point(node.x + 30.0, node.y + 80.0)
  {
    var nodeSize := NodeSize(node, selected);
    Point(node.x + nodeSize / 2.0 - ConnectorRightOffset - ConnectorRadius,
          node.y + nodeSize / 2.0 + ConnectorBottomOffset)
  }

  // ---------------------------------------------------------------------
  // Edges (lines 295-310)
  // ---------------------------------------------------------------------

  datatype Edge = Edge(source: PositionedSkill, target: PositionedSkill)

  /** `nodeLookup.get(id)`: the last node with that id, since later entries of a `Map` win. */
  function NodeLookup(nodes: seq<PositionedSkill>, id: string): (r: Option<PositionedSkill>)
    ensures r.None? <==> id !in NodeIds(nodes)
    ensures r.Some? ==> r.value in nodes && r.value.skill.id == id
  {
    if |nodes| == 0 then None
    else if nodes[|nodes| - 1].skill.id == id then Some(nodes[|nodes| - 1])
    else
      var r := NodeLookup(nodes[..|nodes| - 1], id);
      assert NodeIds(nodes) == NodeIds(nodes[..|nodes| - 1]) + [nodes[|nodes| - 1].skill.id];
      assert r.Some? ==> r.value in nodes;
      r
  }

  /** The key `edges` files a pair under as written: both ids, the smaller first, joined by `-`. */
  function StringKey(a: string, b: string): string
  {
    if StrLess(a, b) then a + "-" + b else b + "-" + a
  }

  /** The key of the corrected dedup: the two ids themselves, the smaller first. */
  function PairKey(a: string, b: string): (string, string)
  {
    if StrLess(a, b) then (a, b) else (b, a)
  }

  /** Two pairs of ids get the same pair key exactly when they are the same unordered pair. */
  lemma PairKeyUnordered(a: string, b: string, c: string, d: string)
    ensures PairKey(a, b) == PairKey(c, d) <==> (a == c && b == d) || (a == d && b == c)
  {
    StrLessAsymmetric(a, b);
    StrLessAsymmetric(c, d);
    StrLessTotal(a, b);
    StrLessTotal(c, d);
    StrLessIrreflexive(a);
    StrLessIrreflexive(c);
  }

  /** The string key is not one-to-one: `("a-b", "c")` and `("a", "b-c")` are both filed as `"a-b-c"`. */
  lemma StringKeyCollides()
    ensures StringKey("a-b", "c") == StringKey("a", "b-c") == "a-b-c"
  {
    assert StrLess("a-b", "c");
    assert StrLess("a", "b-c");
  }

  /** Four nodes built from any skill: `a-b` connects to `c`, and `a` to `b-c`. */
  function CollidingNodes(s: SkillNode): seq<PositionedSkill>
  {
    [ PositionedSkill(s.(id := "a-b", connections := ["c"]), 0.0, 0.0, 0),
      PositionedSkill(s.(id := "c", connections := []), 0.0, 0.0, 0),
      PositionedSkill(s.(id := "a", connections := ["b-c"]), 0.0, 0.0, 0),
      PositionedSkill(s.(id := "b-c", connections := []), 0.0, 0.0, 0) ]
  }

  lemma CollidingVisits(s: SkillNode)
    ensures var nodes := CollidingNodes(s);
      Visits(nodes) == [(nodes[0], "c"), (nodes[2], "b-c")]
  {
    var nodes := CollidingNodes(s);
    var n1, n2, n3 := nodes[..1], nodes[..2], nodes[..3];
    assert n1[..0] == [] && n2[..1] == n1 && n3[..2] == n2 && nodes[..3] == n3;
    assert Visits(n1) == [(nodes[0], "c")];
    assert Visits(n2) == [(nodes[0], "c")];
    assert Visits(n3) == [(nodes[0], "c"), (nodes[2], "b-c")];
  }

  lemma CollidingLookups(s: SkillNode)
    ensures var nodes := CollidingNodes(s);
      && NodeLookup(nodes, "c") == Some(nodes[1])
      && NodeLookup(nodes, "b-c") == Some(nodes[3])
  {
    var nodes := CollidingNodes(s);
    assert nodes[..3][..2][..1] == nodes[..1];
  }

  /**
   * With string keys a connection between two drawn nodes can go undrawn:
   * `a`'s connection to `b-c` is filed under the key of `a-b` and `c`, which
   * is already seen, so only the first edge is drawn.
   */
  lemma StringKeyLosesEdge(s: SkillNode)
    ensures var nodes := CollidingNodes(s);
      && "b-c" in nodes[2].skill.connections && "b-c" in NodeIds(nodes)
      && ScanAll(nodes, StringKey, Visits(nodes)).edges == [Edge(nodes[0], nodes[1])]
  {
    var nodes := CollidingNodes(s);
    StringKeyCollides();
    CollidingVisits(s);
    CollidingLookups(s);
    assert NodeIds(nodes)[3] == "b-c";
    var vs := Visits(nodes);
    assert vs[..1][..0] == [];
    assert vs[..1] == [(nodes[0], "c")];
    assert ScanAll(nodes, StringKey, vs[..1][..0]) == Scan([], {});
    assert StringKey(nodes[0].skill.id, nodes[1].skill.id) == "a-b-c";
    var first := ScanAll(nodes, StringKey, vs[..1]);
    assert first == Scan([Edge(nodes[0], nodes[1])], {"a-b-c"});
  }

  /** Every (node, connection id) pair the nested `flatMap`/`map` visits, in order. */
  function Visits(nodes: seq<PositionedSkill>): seq<(PositionedSkill, string)>
  {
    if |nodes| == 0 then []
    else Visits(nodes[..|nodes| - 1]) + ConnectionsOf(nodes[|nodes| - 1])
  }

  /** The visits of one node: its connections in order. */
  function ConnectionsOf(node: PositionedSkill): (vs: seq<(PositionedSkill, string)>)
    ensures |vs| == |node.skill.connections|
    ensures forall j :: 0 <= j < |vs| ==> vs[j] == (node, node.skill.connections[j])
  {
    seq(|node.skill.connections|, j requires 0 <= j < |node.skill.connections| => (node, node.skill.connections[j]))
  }

  /** The edges found so far and the `seen` set of keys. */
  datatype Scan<K(==)> = Scan(edges: seq<Edge>, seen: set<K>)

  /**
   * One visit: a connection to a drawn node whose key is new adds the edge
   * and records the key; anything else is dropped.
   */
  function Step<K(==)>(all: seq<PositionedSkill>, key: (string, string) -> K, s: Scan<K>, v: (PositionedSkill, string)): Scan<K>
  {
    match NodeLookup(all, v.1)
    case None => s
    case Some(target) =>
      var k := key(v.0.skill.id, target.skill.id);
      if k in s.seen then s else Scan(s.edges + [Edge(v.0, target)], s.seen + {k})
  }

  /** The scan over a list of visits, from an empty `seen` set. */
  function ScanAll<K(==)>(all: seq<PositionedSkill>, key: (string, string) -> K, vs: seq<(PositionedSkill, string)>): Scan<K>
  {
    if |vs| == 0 then Scan([], {})
    else Step(all, key, ScanAll(all, key, vs[..|vs| - 1]), vs[|vs| - 1])
  }

  /**
   * The `edges` computation, with the key as a parameter: a `seen` set is
   * filled while every connection of every node is visited in order.
   * `Edges(nodes, StringKey)` is the code as written.
   */
  method Edges<K(==)>(nodes: seq<PositionedSkill>, key: (string, string) -> K) returns (edges: seq<Edge>)
    ensures edges == ScanAll(nodes, key, Visits(nodes)).edges
  {
    var seen: set<K> := {};
    edges := [];
    for i := 0 to |nodes|
      invariant Scan(edges, seen) == ScanAll(nodes, key, Visits(nodes[..i]))
    {
      assert nodes[..i + 1][..i] == nodes[..i];
      edges, seen := EdgesOf(nodes, key, nodes[i], Visits(nodes[..i]), edges, seen);
    }
    assert nodes[..|nodes|] == nodes;
  }

  /**
   * The inner `skill.connections.map(...)` of `edges`: each connection to a
   * drawn node whose key is not yet in `seen` adds its edge and its key.
   */
  method EdgesOf<K(==)>(nodes: seq<PositionedSkill>, key: (string, string) -> K, skill: PositionedSkill,
                        ghost before: seq<(PositionedSkill, string)>, edges0: seq<Edge>, seen0: set<K>)
    returns (edges: seq<Edge>, seen: set<K>)
    requires Scan(edges0, seen0) == ScanAll(nodes, key, before)
    ensures Scan(edges, seen) == ScanAll(nodes, key, before + ConnectionsOf(skill))
  {
    edges, seen := edges0, seen0;
    var connections := skill.skill.connections;
    ghost var cs := ConnectionsOf(skill);
    assert before + cs[..0] == before;
    for j := 0 to |connections|
      invariant Scan(edges, seen) == ScanAll(nodes, key, before + cs[..j])
    {
      ScanExtend(nodes, key, before, cs, j);
      assert cs[j] == (skill, connections[j]);
      var target := NodeLookup(nodes, connections[j]);
      if target.Some? {
        var k := key(skill.skill.id, target.value.skill.id);
        if k !in seen {
          seen := seen + {k};
          edges := edges + [Edge(skill, target.value)];
        }
      }
    }
    assert cs[..|connections|] == cs;
  }

  /** Scanning one more visit is one more `Step`. */
  lemma ScanExtend<K>(all: seq<PositionedSkill>, key: (string, string) -> K,
                          before: seq<(PositionedSkill, string)>, cs: seq<(PositionedSkill, string)>, j: nat)
    requires j < |cs|
    ensures ScanAll(all, key, before + cs[..j + 1]) == Step(all, key, ScanAll(all, key, before + cs[..j]), cs[j])
  {
    var vs := before + cs[..j + 1];
    assert vs[..|vs| - 1] == before + cs[..j];
  }

  /** The key of an edge. */
  function EdgeKey<K>(key: (string, string) -> K, e: Edge): K
  {
    key(e.source.skill.id, e.target.skill.id)
  }

  /** `seen` holds exactly the keys of the edges, and no two edges share a key. */
  ghost predicate Keyed<K(!new)>(key: (string, string) -> K, s: Scan<K>)
  {
    && (forall k :: k in s.seen <==> exists e :: e in s.edges && EdgeKey(key, e) == k)
    && (forall i, j :: 0 <= i < j < |s.edges| ==> EdgeKey(key, s.edges[i]) != EdgeKey(key, s.edges[j]))
  }

  /** Each edge joins the node of a visit to the drawn node of that visit's connection id. */
  ghost predicate Sourced(all: seq<PositionedSkill>, vs: seq<(PositionedSkill, string)>, edges: seq<Edge>)
  {
    forall e :: e in edges ==> exists v :: v in vs && v.0 == e.source && NodeLookup(all, v.1) == Some(e.target)
  }

  /** The scan's invariant, for keys. */
  lemma {:induction false} ScanKeyed<K(!new)>(all: seq<PositionedSkill>, key: (string, string) -> K, vs: seq<(PositionedSkill, string)>)
    ensures Keyed(key, ScanAll(all, key, vs))
  {
    if |vs| > 0 {
      var init := vs[..|vs| - 1];
      var v := vs[|vs| - 1];
      var s0 := ScanAll(all, key, init);
      ScanKeyed(all, key, init);
      var s := ScanAll(all, key, vs);
      if s != s0 {
        var e := Edge(v.0, NodeLookup(all, v.1).value);
        assert s.edges == s0.edges + [e];
        assert EdgeKey(key, e) !in s0.seen;
        assert s.seen == s0.seen + {EdgeKey(key, e)};
        forall k | k in s.seen
          ensures exists e' :: e' in s.edges && EdgeKey(key, e') == k
        {
          if k in s0.seen {
            var e' :| e' in s0.edges && EdgeKey(key, e') == k;
            assert e' in s.edges;
          } else {
            assert e in s.edges;
          }
        }
      }
    }
  }

  /** The scan's invariant, for where the edges come from. */
  lemma {:induction false} ScanSourced<K>(all: seq<PositionedSkill>, key: (string, string) -> K, vs: seq<(PositionedSkill, string)>)
    ensures Sourced(all, vs, ScanAll(all, key, vs).edges)
  {
    if |vs| > 0 {
      var init := vs[..|vs| - 1];
      var v := vs[|vs| - 1];
      var s0 := ScanAll(all, key, init);
      ScanSourced(all, key, init);
      var s := ScanAll(all, key, vs);
      if s != s0 {
        var e := Edge(v.0, NodeLookup(all, v.1).value);
        assert s.edges == s0.edges + [e];
        forall e' | e' in s.edges
          ensures exists w :: w in vs && w.0 == e'.source && NodeLookup(all, w.1) == Some(e'.target)
        {
          if e' in s0.edges {
            var w :| w in init && w.0 == e'.source && NodeLookup(all, w.1) == Some(e'.target);
            assert w in vs;
          } else {
            assert v in vs;
          }
        }
      }
    }
  }

  /**
   * Every visit whose connection id names a drawn node ends up with its key
   * in `seen`: an edge under that key exists.
   */
  lemma {:induction false} ScanCovers<K>(all: seq<PositionedSkill>, key: (string, string) -> K, vs: seq<(PositionedSkill, string)>)
    ensures forall v :: v in vs && NodeLookup(all, v.1).Some? ==>
      key(v.0.skill.id, NodeLookup(all, v.1).value.skill.id) in ScanAll(all, key, vs).seen
  {
    if |vs| > 0 {
      var init := vs[..|vs| - 1];
      ScanCovers(all, key, init);
      assert vs == init + [vs[|vs| - 1]];
      assert ScanAll(all, key, init).seen <= ScanAll(all, key, vs).seen;
    }
  }

  /** A visit of `nodes` is a node of the list and one of its connection ids. */
  lemma {:induction false} VisitsOf(nodes: seq<PositionedSkill>)
    ensures forall v :: v in Visits(nodes) <==> v.0 in nodes && v.1 in v.0.skill.connections
  {
    if |nodes| > 0 {
      var init := nodes[..|nodes| - 1];
      var last := nodes[|nodes| - 1];
      VisitsOf(init);
      assert nodes == init + [last];
      forall v: (PositionedSkill, string) | v.0 in nodes && v.1 in v.0.skill.connections
        ensures v in Visits(nodes)
      {
        if v.0 != last {
          assert v.0 in init;
        } else {
          var j :| 0 <= j < |last.skill.connections| && last.skill.connections[j] == v.1;
          assert ConnectionsOf(last)[j] == v;
        }
      }
    }
  }

  /**
   * With pair keys the edge list is what the canvas means to draw: every
   * edge joins a node to a drawn node it connects to, no unordered pair of
   * ids is drawn twice, and every connection between two drawn nodes is
   * drawn, in one direction or the other.
   */
  lemma EdgesByPair(nodes: seq<PositionedSkill>)
    ensures var edges := ScanAll(nodes, PairKey, Visits(nodes)).edges;
      && (forall e :: e in edges ==>
            e.source in nodes && e.target.skill.id in e.source.skill.connections &&
            NodeLookup(nodes, e.target.skill.id) == Some(e.target))
      && (forall i, j :: 0 <= i < j < |edges| ==>
            !SameEnds(edges[i], edges[j].source.skill.id, edges[j].target.skill.id))
      && (forall n, c :: n in nodes && c in n.skill.connections && c in NodeIds(nodes) ==>
            exists e :: e in edges && SameEnds(e, n.skill.id, c))
  {
    var vs := Visits(nodes);
    var s := ScanAll(nodes, PairKey, vs);
    ScanKeyed(nodes, PairKey, vs);
    ScanSourced(nodes, PairKey, vs);
    assert Keyed(PairKey, s) && Sourced(nodes, vs, s.edges);
    ScanCovers(nodes, PairKey, vs);
    VisitsOf(nodes);
    forall e | e in s.edges
      ensures e.source in nodes && e.target.skill.id in e.source.skill.connections
      ensures NodeLookup(nodes, e.target.skill.id) == Some(e.target)
    {
      var v :| v in vs && v.0 == e.source && NodeLookup(nodes, v.1) == Some(e.target);
    }
    forall i, j | 0 <= i < j < |s.edges|
      ensures !SameEnds(s.edges[i], s.edges[j].source.skill.id, s.edges[j].target.skill.id)
    {
      var a, b := s.edges[i], s.edges[j];
      PairKeyUnordered(a.source.skill.id, a.target.skill.id, b.source.skill.id, b.target.skill.id);
    }
    forall n, c | n in nodes && c in n.skill.connections && c in NodeIds(nodes)
      ensures exists e :: e in s.edges && SameEnds(e, n.skill.id, c)
    {
      assert (n, c) in vs;
      var t := NodeLookup(nodes, c).value;
      var e :| e in s.edges && EdgeKey(PairKey, e) == PairKey(n.skill.id, t.skill.id);
      PairKeyUnordered(e.source.skill.id, e.target.skill.id, n.skill.id, c);
    }
  }

  /** The edge joins `a` and `b`, in either direction. */
  predicate SameEnds(e: Edge, a: string, b: string)
  {
    (e.source.skill.id == a && e.target.skill.id == b) || (e.source.skill.id == b && e.target.skill.id == a)
  }

  // ---------------------------------------------------------------------
  // The hit test of a connection drag (lines 363-369)
  // ---------------------------------------------------------------------

  /** `Math.hypot(dx, dy) <= CONNECT_TARGET_RADIUS`, squared. */
  predicate Near(anchor: Point, p: Point)
  {
    (anchor.x - p.x) * (anchor.x - p.x) + (anchor.y - p.y) * (anchor.y - p.y) <= ConnectTargetRadius * ConnectTargetRadius
  }

  /** The `find` callback: a node other than the source whose connector anchor is near the point. */
  predicate Hits(node: PositionedSkill, sourceId: string, p: Point, selected: Option<string>)
  {
    node.skill.id != sourceId && Near(ConnectorPoint(node, selected), p)
  }

  /** `nodesWithOverrides.find(...)`: the first node the cursor hits. */
  function FindTarget(nodes: seq<PositionedSkill>, sourceId: string, p: Point, selected: Option<string>): (r: Option<PositionedSkill>)
    ensures r.Some? ==> r.value in nodes && r.value.skill.id != sourceId && Near(ConnectorPoint(r.value, selected), p)
    ensures r.None? ==> forall n :: n in nodes ==> !Hits(n, sourceId, p, selected)
  {
    if |nodes| == 0 then None
    else if Hits(nodes[0], sourceId, p, selected) then Some(nodes[0])
    else FindTarget(nodes[1..], sourceId, p, selected)
  }

  /** The node found is the first one hit: no node before it is. */
  lemma {:induction false} FindTargetFirst(nodes: seq<PositionedSkill>, sourceId: string, p: Point, selected: Option<string>)
    requires FindTarget(nodes, sourceId, p, selected).Some?
    ensures exists i ::
      && 0 <= i < |nodes|
      && nodes[i] == FindTarget(nodes, sourceId, p, selected).value
      && (forall j :: 0 <= j < i ==> !Hits(nodes[j], sourceId, p, selected))
  {
    if !Hits(nodes[0], sourceId, p, selected) {
      FindTargetFirst(nodes[1..], sourceId, p, selected);
      var i :| 0 <= i < |nodes[1..]| && nodes[1..][i] == FindTarget(nodes[1..], sourceId, p, selected).value &&
        (forall j :: 0 <= j < i ==> !Hits(nodes[1..][j], sourceId, p, selected));
      assert nodes[i + 1] == nodes[1..][i];
      forall j | 0 <= j < i + 1
        ensures !Hits(nodes[j], sourceId, p, selected)
      {
        if j > 0 {
          assert nodes[j] == nodes[1..][j - 1];
        }
      }
    } else {
      assert nodes[0] == FindTarget(nodes, sourceId, p, selected).value;
    }
  }

  // ---------------------------------------------------------------------
  // Clamping pointer coordinates (lines 338-341 and 547-548)
  // ---------------------------------------------------------------------

  /** `Math.min(Math.max(value, lo), hi)`. */
  function Clamp(value: real, lo: real, hi: real): (r: real)
    ensures r <= hi
    ensures lo <= hi ==> lo <= r
    ensures lo <= value <= hi ==> r == value
    ensures value < lo <= hi ==> r == lo
    ensures lo <= hi < value ==> r == hi
  {
    var atLeast := if value > lo then value else lo;
    if atLeast < hi then atLeast else hi
  }

  /** `toPoint`: a client position made relative to the container and clamped inside it; `(0, 0)` without one. */
  function ToPoint(client: Point, rect: Option<Rect>): (p: Point)
    ensures rect.None? ==> p == Point(0.0, 0.0)
    ensures rect.Some? && rect.value.width >= 0.0 && rect.value.height >= 0.0 ==>
      0.0 <= p.x <= rect.value.width && 0.0 <= p.y <= rect.value.height
  {
    match rect
    case None => Point(0.0, 0.0)
    case Some(box) => Point(Clamp(client.x - box.left, 0.0, box.width), Clamp(client.y - box.top, 0.0, box.height))
  }

  /** A pointer inside the container keeps its offset from the container's corner. */
  lemma ToPointInside(client: Point, box: Rect)
    requires box.left <= client.x <= box.left + box.width && box.top <= client.y <= box.top + box.height
    ensures ToPoint(client, Some(box)) == Point(client.x - box.left, client.y - box.top)
  {
  }

  /** `Math.min(Math.max(center / extent, 0), 1)`: a drop coordinate as a fraction of the container. */
  function Normalized(center: real, extent: real): (r: real)
    requires extent > 0.0
    ensures 0.0 <= r <= 1.0
  {
    Clamp(center / extent, 0.0, 1.0)
  }

  /**
   * On a container as wide and tall as the canvas, dropping a node inside
   * it stores the position the override then draws it at: the drop point.
   */
  lemma DropRoundTrip(node: PositionedSkill, drop: Point, box: Rect, size: real)
    requires box.width == size && box.height == size && size > 0.0
    requires box.left <= drop.x <= box.left + size && box.top <= drop.y <= box.top + size
    ensures var stored := Point(Normalized(drop.x - box.left, box.width), Normalized(drop.y - box.top, box.height));
      var moved := Overridden(node, map[node.skill.id := stored], size);
      moved.x == drop.x - box.left && moved.y == drop.y - box.top
  {
    FractionInside(drop.x - box.left, size);
    FractionInside(drop.y - box.top, size);
  }

  /** A length between 0 and `extent` is a fraction of it between 0 and 1 that scales back to it. */
  lemma FractionInside(c: real, extent: real)
    requires 0.0 <= c <= extent && extent > 0.0
    ensures 0.0 <= c / extent <= 1.0 && c / extent * extent == c
  {
    var q := c / extent;
    assert q * extent == c;
  }
}
