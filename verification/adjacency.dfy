/**
 * The undirected adjacency `buildLayout` derives from the skills'
 * `connections` (src/components/app/tree/skill-tree-canvas.tsx). A JavaScript
 * `Set` iterates in insertion order, so each neighbour set is a
 * duplicate-free sequence in the order its members were added.
 */
module Adjacency {
  import opened SkillTypes

  type Adj = map<string, seq<string>>

  /** The neighbours of `k`; `adjacency.get(k) ?? []`. */
  function Nbrs(adj: Adj, k: string): seq<string>
  {
    if k in adj then adj[k] else []
  }

  /** `if (!adjacency.has(k)) adjacency.set(k, new Set())` */
  function EnsureKey(adj: Adj, k: string): Adj
  {
    if k in adj then adj else adj[k := []]
  }

  /** `adjacency.get(k)!.add(v)` */
  function AddNbr(adj: Adj, k: string, v: string): Adj
  {
    adj[k := if v in Nbrs(adj, k) then Nbrs(adj, k) else Nbrs(adj, k) + [v]]
  }

  /** The body of the inner `forEach`, for the connection `c` of skill `id`. */
  function LinkOne(adj: Adj, id: string, c: string): Adj
  {
    AddNbr(AddNbr(EnsureKey(adj, c), id, c), c, id)
  }

  /** The inner `forEach` over the first connections `cs` of skill `id`. */
  function LinkAll(adj: Adj, id: string, cs: seq<string>): Adj
  {
    if |cs| == 0 then adj
    else LinkOne(LinkAll(adj, id, cs[..|cs| - 1]), id, cs[|cs| - 1])
  }

  /** The adjacency after the outer `forEach` has visited `skills`. */
  function AdjacencyOf(skills: seq<SkillNode>): Adj
  {
    if |skills| == 0 then map[]
    else
      var s := skills[|skills| - 1];
      LinkAll(EnsureKey(AdjacencyOf(skills[..|skills| - 1]), s.id), s.id, s.connections)
  }

  /** `x` is a skill id or a connection of some skill. */
  predicate Mentioned(skills: seq<SkillNode>, x: string)
  {
    exists i :: 0 <= i < |skills| && (skills[i].id == x || x in skills[i].connections)
  }

  /** Some skill `k` lists `v`, or some skill `v` lists `k`: the undirected edge `{k, v}`. */
  predicate Linked(skills: seq<SkillNode>, k: string, v: string)
  {
    exists i :: 0 <= i < |skills| &&
      ((skills[i].id == k && v in skills[i].connections) || (skills[i].id == v && k in skills[i].connections))
  }

  /** Every neighbour list is duplicate-free. */
  ghost predicate SetLike(adj: Adj)
  {
    forall k :: k in adj ==> NoDup(adj[k])
  }

  lemma LinkOneFacts(adj: Adj, id: string, c: string)
    requires id in adj && SetLike(adj)
    ensures var a := LinkOne(adj, id, c);
      && SetLike(a)
      && (forall x :: x in a <==> x in adj || x == c)
      && (forall k, v :: v in Nbrs(a, k) <==>
            v in Nbrs(adj, k) || (k == id && v == c) || (k == c && v == id))
  {
  }

  lemma {:induction false} LinkAllSetLike(adj: Adj, id: string, cs: seq<string>)
    requires id in adj && SetLike(adj)
    ensures SetLike(LinkAll(adj, id, cs))
    ensures forall x :: x in LinkAll(adj, id, cs) <==> x in adj || x in cs
  {
    if |cs| > 0 {
      var init := cs[..|cs| - 1];
      assert cs == init + [cs[|cs| - 1]];
      LinkAllSetLike(adj, id, init);
      LinkOneFacts(LinkAll(adj, id, init), id, cs[|cs| - 1]);
    }
  }

  lemma {:induction false} LinkAllNbr(adj: Adj, id: string, cs: seq<string>, k: string, v: string)
    requires id in adj && SetLike(adj)
    ensures v in Nbrs(LinkAll(adj, id, cs), k) <==>
      (v in Nbrs(adj, k) || (k == id && v in cs) || (k in cs && v == id))
  {
    if |cs| > 0 {
      var init := cs[..|cs| - 1];
      var c := cs[|cs| - 1];
      assert cs == init + [c];
      LinkAllNbr(adj, id, init, k, v);
      LinkAllSetLike(adj, id, init);
      LinkOneFacts(LinkAll(adj, id, init), id, c);
    }
  }

  lemma MentionedStep(skills: seq<SkillNode>, x: string)
    requires |skills| > 0
    ensures var s := skills[|skills| - 1];
      Mentioned(skills, x) <==> (Mentioned(skills[..|skills| - 1], x) || s.id == x || x in s.connections)
  {
    var init := skills[..|skills| - 1];
    assert forall i :: 0 <= i < |init| ==> init[i] == skills[i];
  }

  lemma LinkedStep(skills: seq<SkillNode>, k: string, v: string)
    requires |skills| > 0
    ensures var s := skills[|skills| - 1];
      Linked(skills, k, v) <==>
        (Linked(skills[..|skills| - 1], k, v) ||
         (s.id == k && v in s.connections) || (s.id == v && k in s.connections))
  {
    var init := skills[..|skills| - 1];
    assert forall i :: 0 <= i < |init| ==> init[i] == skills[i];
  }

  /** Every neighbour list of the adjacency is duplicate-free. */
  lemma {:induction false} AdjacencySetLike(skills: seq<SkillNode>)
    ensures SetLike(AdjacencyOf(skills))
  {
    if |skills| > 0 {
      var s := skills[|skills| - 1];
      AdjacencySetLike(skills[..|skills| - 1]);
      LinkAllSetLike(EnsureKey(AdjacencyOf(skills[..|skills| - 1]), s.id), s.id, s.connections);
    }
  }

  /** The adjacency has a key for every skill id and every connection, and for nothing else. */
  lemma {:induction false} AdjacencyKeys(skills: seq<SkillNode>)
    ensures forall x :: x in AdjacencyOf(skills) <==> Mentioned(skills, x)
  {
    if |skills| > 0 {
      var init := skills[..|skills| - 1];
      var s := skills[|skills| - 1];
      AdjacencyKeys(init);
      AdjacencySetLike(init);
      LinkAllSetLike(EnsureKey(AdjacencyOf(init), s.id), s.id, s.connections);
      forall x
        ensures x in AdjacencyOf(skills) <==> Mentioned(skills, x)
      {
        MentionedStep(skills, x);
      }
    }
  }

  /**
   * `v` is a neighbour of `k` exactly when the two are linked by some skill's
   * connections, in either direction.
   */
  lemma {:induction false} AdjacencyLinks(skills: seq<SkillNode>)
    ensures forall k, v :: v in Nbrs(AdjacencyOf(skills), k) <==> Linked(skills, k, v)
  {
    if |skills| > 0 {
      var init := skills[..|skills| - 1];
      var s := skills[|skills| - 1];
      AdjacencyLinks(init);
      AdjacencySetLike(init);
      var a0 := EnsureKey(AdjacencyOf(init), s.id);
      forall k, v
        ensures v in Nbrs(AdjacencyOf(skills), k) <==> Linked(skills, k, v)
      {
        LinkAllNbr(a0, s.id, s.connections, k, v);
        assert v in Nbrs(a0, k) <==> v in Nbrs(AdjacencyOf(init), k);
        assert v in Nbrs(AdjacencyOf(skills), k) <==>
          (v in Nbrs(a0, k) || (k == s.id && v in s.connections) || (k in s.connections && v == s.id));
        LinkedStep(skills, k, v);
      }
    }
  }

  /** The adjacency is symmetric and closed: every neighbour is itself a key. */
  lemma AdjacencySymmetric(skills: seq<SkillNode>)
    ensures forall k, v :: v in Nbrs(AdjacencyOf(skills), k) <==> k in Nbrs(AdjacencyOf(skills), v)
    ensures forall k, v :: v in Nbrs(AdjacencyOf(skills), k) ==> v in AdjacencyOf(skills)
    ensures forall i :: 0 <= i < |skills| ==> skills[i].id in AdjacencyOf(skills)
  {
    AdjacencyKeys(skills);
    AdjacencyLinks(skills);
    forall k, v | v in Nbrs(AdjacencyOf(skills), k)
      ensures v in AdjacencyOf(skills)
    {
      var i :| 0 <= i < |skills| &&
        ((skills[i].id == k && v in skills[i].connections) || (skills[i].id == v && k in skills[i].connections));
    }
    forall i | 0 <= i < |skills|
      ensures skills[i].id in AdjacencyOf(skills)
    {
      assert Mentioned(skills, skills[i].id);
    }
  }

  /** The nested `forEach` loops that fill `adjacency`. */
  method BuildAdjacency(skills: seq<SkillNode>) returns (adj: Adj)
    ensures adj == AdjacencyOf(skills)
  {
    adj := map[];
    for i := 0 to |skills|
      invariant adj == AdjacencyOf(skills[..i])
    {
      var skill := skills[i];
      assert skills[..i + 1][..i] == skills[..i];
      assert skills[..i + 1][i] == skill;
      if skill.id !in adj {
        adj := adj[skill.id := []];
      }
      ghost var start := adj;
      assert start == EnsureKey(AdjacencyOf(skills[..i]), skill.id);
      for j := 0 to |skill.connections|
        invariant adj == LinkAll(start, skill.id, skill.connections[..j])
      {
        var connection := skill.connections[j];
        assert skill.connections[..j + 1][..j] == skill.connections[..j];
        ghost var before := adj;
        if connection !in adj {
          adj := adj[connection := []];
        }
        adj := AddNbr(adj, skill.id, connection);
        adj := AddNbr(adj, connection, skill.id);
        assert adj == LinkOne(before, skill.id, connection);
      }
      assert skill.connections[..|skill.connections|] == skill.connections;
    }
    assert skills[..|skills|] == skills;
  }
}
