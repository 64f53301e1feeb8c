/**
 * The skill graph store (src/store/skill-store.ts): the list of skills and
 * the selected id, and the commands that rewrite them. Each command's list
 * rewrite is a function below; the `Store` class holds the state and its
 * methods replace it the way the zustand `set` calls do.
 */
module SkillStore {
  import opened SkillTypes
  import MockData

  // ---------------------------------------------------------------------
  // connectSkills
  // ---------------------------------------------------------------------

  /** What `connectSkills(source, target)` does to one skill. */
  function ConnectOne(skill: SkillNode, source: string, target: string): SkillNode
  {
    if skill.id == source && target !in skill.connections then
      skill.(connections := skill.connections + [target])
    else if skill.id == target && source !in skill.connections then
      skill.(connections := skill.connections + [source])
    else skill
  }

  /** The list `connectSkills(source, target)` computes. */
  function Connect(skills: seq<SkillNode>, source: string, target: string): (r: seq<SkillNode>)
    ensures |r| == |skills|
  {
    seq(|skills|, i requires 0 <= i < |skills| => ConnectOne(skills[i], source, target))
  }

  // ---------------------------------------------------------------------
  // disconnectSkills
  // ---------------------------------------------------------------------

  /** What `disconnectSkills(source, target)` does to one skill. */
  function DisconnectOne(skill: SkillNode, source: string, target: string): SkillNode
  {
    if skill.id == source && target in skill.connections then
      skill.(connections := Without(skill.connections, target))
    else if skill.id == target && source in skill.connections then
      skill.(connections := Without(skill.connections, source))
    else skill
  }

  /** The list `disconnectSkills(source, target)` computes. */
  function Disconnect(skills: seq<SkillNode>, source: string, target: string): (r: seq<SkillNode>)
    ensures |r| == |skills|
  {
    seq(|skills|, i requires 0 <= i < |skills| => DisconnectOne(skills[i], source, target))
  }

  // ---------------------------------------------------------------------
  // removeSkill
  // ---------------------------------------------------------------------

  /** `skills.find(skill => skill.id === id)`: the first skill with that id. */
  function FindFirst(skills: seq<SkillNode>, id: string): (r: Option<SkillNode>)
    ensures r.None? <==> id !in Ids(skills)
    ensures r.Some? ==> r.value in skills && r.value.id == id
  {
    if |skills| == 0 then None
    else if skills[0].id == id then Some(skills[0])
    else
      var r := FindFirst(skills[1..], id);
      assert forall i :: 0 <= i < |skills| - 1 ==> skills[1..][i] == skills[i + 1];
      r
  }

  /** Index `i` holds the first skill with the id. */
  predicate FirstWith(skills: seq<SkillNode>, id: string, i: int)
  {
    0 <= i < |skills| && skills[i].id == id && forall j :: 0 <= j < i ==> skills[j].id != id
  }

  /** The skill found is the first one with the id: no earlier skill carries it. */
  lemma {:induction false} FindFirstFirst(skills: seq<SkillNode>, id: string)
    ensures var r := FindFirst(skills, id);
      r.Some? ==> exists i :: FirstWith(skills, id, i) && skills[i] == r.value
  {
    if |skills| == 0 {
    } else if skills[0].id == id {
      assert FirstWith(skills, id, 0);
    } else {
      var rest := skills[1..];
      FindFirstFirst(rest, id);
      if FindFirst(rest, id).Some? {
        var i :| FirstWith(rest, id, i) && rest[i] == FindFirst(rest, id).value;
        assert FirstWith(skills, id, i + 1) by {
          assert forall j :: 1 <= j < i + 1 ==> skills[j] == rest[j - 1];
        }
        assert skills[i + 1] == rest[i];
      }
    }
  }

  /** The list `removeSkill(id)` computes: drop the skill, purge the id from the rest. */
  function Purge(skills: seq<SkillNode>, id: string): seq<SkillNode>
  {
    if |skills| == 0 then []
    else if skills[0].id == id then Purge(skills[1..], id)
    else [skills[0].(connections := Without(skills[0].connections, id))] + Purge(skills[1..], id)
  }

  // ---------------------------------------------------------------------
  // updateSkill
  // ---------------------------------------------------------------------

  /**
   * A partial update. It has no `id` and no `connections` field, as the
   * source's `Partial<Omit<SkillNode, "id" | "connections">>`; `None` is a
   * field the update object does not carry.
   */
  datatype SkillPatch = SkillPatch(
    name: Option<string>,
    emoji: Option<string>,
    level: Option<SkillLevel>,
    progress: Option<real>)

  /** `{ ...skill, ...updates }`. */
  function Merge(skill: SkillNode, u: SkillPatch): (r: SkillNode)
    ensures r.id == skill.id && r.connections == skill.connections
    ensures r.name == (if u.name.Some? then u.name.value else skill.name)
    ensures r.emoji == (if u.emoji.Some? then u.emoji.value else skill.emoji)
    ensures r.level == (if u.level.Some? then u.level.value else skill.level)
    ensures r.progress == (if u.progress.Some? then u.progress.value else skill.progress)
  {
    SkillNode(
      skill.id,
      match u.name case Some(n) => n case None => skill.name,
      match u.emoji case Some(e) => e case None => skill.emoji,
      match u.level case Some(l) => l case None => skill.level,
      match u.progress case Some(p) => p case None => skill.progress,
      skill.connections)
  }

  /** The list `updateSkill(id, u)` computes. */
  function Patch(skills: seq<SkillNode>, id: string, u: SkillPatch): (r: seq<SkillNode>)
    ensures |r| == |skills|
  {
    seq(|skills|, i requires 0 <= i < |skills| =>
      if skills[i].id == id then Merge(skills[i], u) else skills[i])
  }

  /** What `updateSkill` returns: the merge of the last skill with the id. */
  function MergedLast(skills: seq<SkillNode>, id: string, u: SkillPatch): (r: Option<SkillNode>)
    ensures r.None? <==> id !in Ids(skills)
  {
    match Lookup(skills, id)
    case Some(s) => Some(Merge(s, u))
    case None => None
  }

  /**
   * The reported skill is the merge of the last skill with the id, and it is
   * an element of the updated list.
   */
  lemma MergedLastIn(skills: seq<SkillNode>, id: string, u: SkillPatch)
    ensures var r := MergedLast(skills, id, u);
      r.Some? ==>
        && (exists i :: 0 <= i < |skills| && skills[i].id == id && r.value == Merge(skills[i], u)
                        && forall j :: i < j < |skills| ==> skills[j].id != id)
        && r.value in Patch(skills, id, u)
  {
    if id in Ids(skills) {
      LookupLast(skills, id);
      var s := Lookup(skills, id).value;
      var i :| 0 <= i < |skills| && skills[i] == s && forall j :: i < j < |skills| ==> skills[j].id != id;
      assert Patch(skills, id, u)[i] == Merge(s, u);
    }
  }

  /** One more skill: it is the last match exactly when it has the id. */
  lemma MergedLastStep(skills: seq<SkillNode>, i: nat, id: string, u: SkillPatch)
    requires i < |skills|
    ensures MergedLast(skills[..i + 1], id, u) ==
      if skills[i].id == id then Some(Merge(skills[i], u)) else MergedLast(skills[..i], id, u)
  {
    assert skills[..i + 1][..i] == skills[..i];
  }

  // ---------------------------------------------------------------------
  // addSkill
  // ---------------------------------------------------------------------

  /** The default progress for a level: 0.85, 0.5 or 0.15. */
  function DefaultProgress(level: SkillLevel): real
  {
    match level
    case Strong => 0.85
    case Learning => 0.5
    case Planned => 0.15
  }

  /** `Array.from(new Set(s))`: the first occurrence of each element, in order. */
  function Dedup(s: seq<string>): (r: seq<string>)
    ensures NoDup(r)
    ensures forall x :: x in r <==> x in s
  {
    if |s| == 0 then []
    else
      var init := s[..|s| - 1];
      var d := Dedup(init);
      assert forall x :: x in s <==> x in init || x == s[|s| - 1];
      if s[|s| - 1] in init then d else d + [s[|s| - 1]]
  }

  /** The existing skills after `addSkill` links them to the new id. */
  function LinkNew(skills: seq<SkillNode>, connectsTo: seq<string>, newId: string): (r: seq<SkillNode>)
    ensures |r| == |skills|
  {
    seq(|skills|, i requires 0 <= i < |skills| =>
      if skills[i].id in connectsTo then
        skills[i].(connections := Dedup(skills[i].connections + [newId]))
      else skills[i])
  }

  /** ASCII whitespace, as matched by `\s`. */
  predicate IsSpace(c: char)
  {
    c == ' ' || c == '\t' || c == '\n' || c == '\r' || c as int == 0x0B || c as int == 0x0C
  }

  /** ASCII lower-casing. */
  function Lower(c: char): (r: char)
    ensures 'A' <= c <= 'Z' ==> 'a' <= r <= 'z' && r as int - 'a' as int == c as int - 'A' as int
    ensures !('A' <= c <= 'Z') ==> r == c
    ensures !IsSpace(c) ==> !IsSpace(r)
  {
    if 'A' <= c <= 'Z' then (c as int - 'A' as int + 'a' as int) as char else c
  }

  /**
   * `s.toLowerCase().replace(/\s+/g, "-")`; `inRun` says the previous
   * character was whitespace already replaced by a hyphen.
   */
  function SlugFrom(s: string, inRun: bool): (r: string)
    ensures forall i :: 0 <= i < |r| ==> !IsSpace(r[i])
    ensures |r| <= |s|
    ensures (forall i :: 0 <= i < |s| ==> !IsSpace(s[i])) ==> r == LowerAll(s)
  {
    if |s| == 0 then ""
    else if IsSpace(s[0]) then
      if inRun then SlugFrom(s[1..], true) else "-" + SlugFrom(s[1..], true)
    else [Lower(s[0])] + SlugFrom(s[1..], false)
  }

  /** Every character lower-cased. */
  function LowerAll(s: string): string
  {
    seq(|s|, i requires 0 <= i < |s| => Lower(s[i]))
  }

  /** A whitespace run becomes one hyphen, whatever follows it. */
  lemma {:induction false} SlugGap(w: string, v: string, inRun: bool)
    requires |w| > 0 && forall i :: 0 <= i < |w| ==> IsSpace(w[i])
    ensures SlugFrom(w + v, inRun) == (if inRun then "" else "-") + SlugFrom(v, true)
  {
    assert (w + v)[1..] == w[1..] + v;
    if |w| > 1 {
      SlugGap(w[1..], v, true);
    }
  }

  /**
   * Two whitespace-free words around a whitespace run slug to the lower-cased
   * words joined by a single hyphen.
   */
  lemma SlugJoin(a: string, w: string, b: string)
    requires forall i :: 0 <= i < |a| ==> !IsSpace(a[i])
    requires |w| > 0 && forall i :: 0 <= i < |w| ==> IsSpace(w[i])
    requires forall i :: 0 <= i < |b| ==> !IsSpace(b[i])
    ensures SlugFrom(a + w + b, false) == LowerAll(a) + "-" + LowerAll(b)
  {
    SlugWordThen(a, w + b);
    assert a + w + b == a + (w + b);
    SlugGap(w, b, false);
    if |b| > 0 {
      assert SlugFrom(b, true) == SlugFrom(b, false);
    }
  }

  /** A whitespace-free prefix is lower-cased in place. */
  lemma {:induction false} SlugWordThen(a: string, v: string)
    requires forall i :: 0 <= i < |a| ==> !IsSpace(a[i])
    ensures SlugFrom(a + v, false) == LowerAll(a) + SlugFrom(v, false)
  {
    if |a| > 0 {
      assert (a + v)[1..] == a[1..] + v;
      SlugWordThen(a[1..], v);
      assert LowerAll(a) == [Lower(a[0])] + LowerAll(a[1..]);
    } else {
      assert a + v == v;
    }
  }

  /** The id `addSkill` builds from the name and the random suffix. */
  function SkillId(name: string, suffix: string): (id: string)
    ensures |id| > |suffix| && id[|id| - |suffix| - 1..] == "-" + suffix
  {
    SlugFrom(name, false) + "-" + suffix
  }

  // ---------------------------------------------------------------------
  // A consistent graph: the shape the commands aim to keep.
  // ---------------------------------------------------------------------

  /** No two skills share an id. */
  ghost predicate UniqueIds(skills: seq<SkillNode>)
  {
    NoDup(Ids(skills))
  }

  /** Every connection names an existing skill. */
  ghost predicate RefsExist(skills: seq<SkillNode>)
  {
    forall i, c :: 0 <= i < |skills| && c in skills[i].connections ==> c in Ids(skills)
  }

  /** Every connection is listed on both of its ends. */
  ghost predicate Symmetric(skills: seq<SkillNode>)
  {
    forall i, j :: 0 <= i < |skills| && 0 <= j < |skills| ==>
      (skills[i].id in skills[j].connections <==> skills[j].id in skills[i].connections)
  }

  /** The graph shape the commands aim to keep. */
  ghost predicate Consistent(skills: seq<SkillNode>)
  {
    UniqueIds(skills) && RefsExist(skills) && Symmetric(skills)
  }

  // ---------------------------------------------------------------------
  // Laws of the list rewrites
  // ---------------------------------------------------------------------

  /**
   * `connectSkills(a, b)`: every skill with id `a` lists `b` and every skill
   * with id `b` lists `a`; a missing id is appended at the end; no other field
   * and no other skill changes.
   */
  lemma ConnectLinksBoth(skills: seq<SkillNode>, a: string, b: string)
    ensures forall i :: 0 <= i < |skills| ==>
      var c := Connect(skills, a, b)[i];
      && (skills[i].id == a ==> b in c.connections)
      && (skills[i].id == b ==> a in c.connections)
      && (skills[i].id != a && skills[i].id != b ==> c == skills[i])
      && c == skills[i].(connections := c.connections)
      && (c.connections == skills[i].connections
          || (skills[i].id == a && c.connections == skills[i].connections + [b])
          || (skills[i].id == b && c.connections == skills[i].connections + [a]))
  {
  }

  /** Connecting twice is connecting once. */
  lemma ConnectIdempotent(skills: seq<SkillNode>, a: string, b: string)
    ensures Connect(Connect(skills, a, b), a, b) == Connect(skills, a, b)
  {
  }

  /**
   * There is no existence check: when only the target exists, the target
   * gains a reference to the missing source, and a consistent graph stops
   * being consistent.
   */
  lemma ConnectDangling(skills: seq<SkillNode>, a: string, b: string)
    requires a !in Ids(skills) && b in Ids(skills)
    ensures exists i :: 0 <= i < |skills| && skills[i].id == b && a in Connect(skills, a, b)[i].connections
    ensures !RefsExist(Connect(skills, a, b))
  {
    var i :| 0 <= i < |skills| && skills[i].id == b;
    var r := Connect(skills, a, b);
    ConnectKeepsIds(skills, a, b);
    assert a in r[i].connections;
  }

  /** `connectSkills` and `disconnectSkills` never change an id. */
  lemma ConnectKeepsIds(skills: seq<SkillNode>, a: string, b: string)
    ensures Ids(Connect(skills, a, b)) == Ids(skills)
    ensures Ids(Disconnect(skills, a, b)) == Ids(skills)
  {
  }

  /** Connecting a skill to itself appends its own id once. */
  lemma ConnectSelf(skills: seq<SkillNode>, a: string)
    ensures forall i :: 0 <= i < |skills| && skills[i].id == a ==>
      Count(Connect(skills, a, a)[i].connections, a) ==
        (if a in skills[i].connections then Count(skills[i].connections, a) else 1)
  {
    forall i | 0 <= i < |skills| && skills[i].id == a
      ensures Count(Connect(skills, a, a)[i].connections, a) ==
        (if a in skills[i].connections then Count(skills[i].connections, a) else 1)
    {
      var cs := skills[i].connections;
      if a !in cs {
        assert multiset(cs + [a]) == multiset(cs) + multiset{a};
      }
    }
  }

  /**
   * `disconnectSkills(a, b)`: afterwards no skill with id `a` lists `b` and
   * no skill with id `b` lists `a`; the other ids of those lists keep their
   * occurrences; every other skill is unchanged.
   */
  lemma DisconnectUnlinks(skills: seq<SkillNode>, a: string, b: string)
    ensures forall i :: 0 <= i < |skills| ==>
      var d := Disconnect(skills, a, b)[i];
      && (skills[i].id == a ==> b !in d.connections)
      && (skills[i].id == b ==> a !in d.connections)
      && (skills[i].id != a && skills[i].id != b ==> d == skills[i])
      && d == skills[i].(connections := d.connections)
      && (forall x :: x != a && x != b ==>
            multiset(d.connections)[x] == multiset(skills[i].connections)[x])
  {
  }

  /** `Without` undoes appending the element it removes. */
  lemma {:induction false} WithoutAppend(s: seq<string>, x: string)
    requires x !in s
    ensures Without(s + [x], x) == s
  {
    assert (s + [x])[..|s + [x]| - 1] == s;
  }

  /**
   * Connecting two skills that were not linked and then disconnecting them
   * gives back the original list.
   */
  lemma ConnectThenDisconnect(skills: seq<SkillNode>, a: string, b: string)
    requires forall i :: 0 <= i < |skills| && skills[i].id == a ==> b !in skills[i].connections
    requires forall i :: 0 <= i < |skills| && skills[i].id == b ==> a !in skills[i].connections
    ensures Disconnect(Connect(skills, a, b), a, b) == skills
  {
    var r := Disconnect(Connect(skills, a, b), a, b);
    forall i | 0 <= i < |skills|
      ensures r[i] == skills[i]
    {
      var cs := skills[i].connections;
      if skills[i].id == a {
        WithoutAppend(cs, b);
      } else if skills[i].id == b {
        WithoutAppend(cs, a);
      }
    }
  }

  /** After `removeSkill(id)` no remaining skill has the id or lists it. */
  lemma {:induction false} PurgeRemoves(skills: seq<SkillNode>, id: string)
    ensures forall k :: 0 <= k < |Purge(skills, id)| ==>
      Purge(skills, id)[k].id != id && id !in Purge(skills, id)[k].connections
  {
    if |skills| > 0 {
      PurgeRemoves(skills[1..], id);
    }
  }

  /** `removeSkill(id)` drops exactly the skills with that id. */
  lemma {:induction false} PurgeLength(skills: seq<SkillNode>, id: string)
    ensures |Purge(skills, id)| == |skills| - Count(Ids(skills), id)
  {
    if |skills| > 0 {
      PurgeLength(skills[1..], id);
      assert Ids(skills) == [skills[0].id] + Ids(skills[1..]);
      assert multiset(Ids(skills)) == multiset{skills[0].id} + multiset(Ids(skills[1..]));
    }
  }

  /** The skills kept by `removeSkill(id)` are the others, with the id purged from their lists. */
  lemma {:induction false} PurgeKeeps(skills: seq<SkillNode>, id: string)
    ensures forall x :: x in skills && x.id != id ==>
      x.(connections := Without(x.connections, id)) in Purge(skills, id)
    ensures forall y :: y in Purge(skills, id) ==>
      exists x :: x in skills && x.id != id && y == x.(connections := Without(x.connections, id))
  {
    if |skills| > 0 {
      PurgeKeeps(skills[1..], id);
      var p := Purge(skills, id);
      var rest := Purge(skills[1..], id);
      forall x | x in skills && x.id != id
        ensures x.(connections := Without(x.connections, id)) in p
      {
        if x != skills[0] {
          assert x in skills[1..];
        }
      }
      forall y | y in p
        ensures exists x :: x in skills && x.id != id && y == x.(connections := Without(x.connections, id))
      {
        if y in rest {
          var x :| x in skills[1..] && x.id != id && y == x.(connections := Without(x.connections, id));
          assert x in skills;
        } else {
          assert skills[0] in skills;
        }
      }
    }
  }

  /** `addSkill` gives each skill in `connectsTo` the new id exactly once and leaves the rest alone. */
  lemma LinkNewOnce(skills: seq<SkillNode>, connectsTo: seq<string>, newId: string)
    ensures forall i :: 0 <= i < |skills| ==>
      var l := LinkNew(skills, connectsTo, newId)[i];
      && l.id == skills[i].id
      && (skills[i].id in connectsTo ==>
            && Count(l.connections, newId) == 1
            && (forall x :: x in l.connections <==> x in skills[i].connections || x == newId)
            && l == skills[i].(connections := l.connections))
      && (skills[i].id !in connectsTo ==> l == skills[i])
  {
    forall i | 0 <= i < |skills| && skills[i].id in connectsTo
      ensures Count(LinkNew(skills, connectsTo, newId)[i].connections, newId) == 1
    {
      var d := Dedup(skills[i].connections + [newId]);
      assert newId in d;
      NoDupCount(d, newId);
    }
  }

  /** On a duplicate-free list the set-dedup of `addSkill` is a plain append (or nothing). */
  lemma {:induction false} DedupAppend(s: seq<string>, x: string)
    requires NoDup(s)
    ensures Dedup(s + [x]) == if x in s then s else s + [x]
  {
    DedupNoDup(s);
    assert (s + [x])[..|s + [x]| - 1] == s;
  }

  /** `Array.from(new Set(s))` leaves a duplicate-free list as it is. */
  lemma {:induction false} DedupNoDup(s: seq<string>)
    requires NoDup(s)
    ensures Dedup(s) == s
  {
    if |s| > 0 {
      var init := s[..|s| - 1];
      assert s == init + [s[|s| - 1]];
      DedupNoDup(init);
    }
  }

  /** `updateSkill` keeps the list's length, order, ids and connections. */
  lemma PatchKeepsShape(skills: seq<SkillNode>, id: string, u: SkillPatch)
    ensures forall i :: 0 <= i < |skills| ==>
      && Patch(skills, id, u)[i].id == skills[i].id
      && Patch(skills, id, u)[i].connections == skills[i].connections
      && (skills[i].id != id ==> Patch(skills, id, u)[i] == skills[i])
    ensures id !in Ids(skills) ==> Patch(skills, id, u) == skills
  {
  }

  // ---------------------------------------------------------------------
  // Which commands keep a graph consistent
  // ---------------------------------------------------------------------

  /** Connecting two existing skills keeps the graph consistent. */
  lemma ConnectKeepsConsistent(skills: seq<SkillNode>, a: string, b: string)
    requires Consistent(skills)
    requires a in Ids(skills) && b in Ids(skills)
    ensures Consistent(Connect(skills, a, b))
  {
    var r := Connect(skills, a, b);
    ConnectKeepsIds(skills, a, b);
    forall i, c | 0 <= i < |r| && c in r[i].connections
      ensures c in Ids(r)
    {
      assert c in skills[i].connections || c == a || c == b;
    }
    forall i, j | 0 <= i < |r| && 0 <= j < |r|
      ensures r[i].id in r[j].connections <==> r[j].id in r[i].connections
    {
      assert skills[i].id in skills[j].connections <==> skills[j].id in skills[i].connections;
    }
  }

  /** Disconnecting keeps a consistent graph consistent. */
  lemma DisconnectKeepsConsistent(skills: seq<SkillNode>, a: string, b: string)
    requires Consistent(skills)
    ensures Consistent(Disconnect(skills, a, b))
  {
    var r := Disconnect(skills, a, b);
    ConnectKeepsIds(skills, a, b);
    forall i, c | 0 <= i < |r| && c in r[i].connections
      ensures c in Ids(r)
    {
      assert c in skills[i].connections;
    }
    forall i, j | 0 <= i < |r| && 0 <= j < |r|
      ensures r[i].id in r[j].connections <==> r[j].id in r[i].connections
    {
      assert skills[i].id in skills[j].connections <==> skills[j].id in skills[i].connections;
    }
  }

  /**
   * The `map` of `updateSkill`: every skill with the id merged with `u`,
   * and the last merged skill, if any.
   */
  method PatchedList(skills: seq<SkillNode>, id: string, u: SkillPatch) returns (next: seq<SkillNode>, updated: Option<SkillNode>)
    ensures next == Patch(skills, id, u)
    ensures updated == MergedLast(skills, id, u)
  {
    next := [];
    updated := None;
    var i := 0;
    while i < |skills|
      invariant 0 <= i <= |skills|
      invariant |next| == i
      invariant forall k :: 0 <= k < i ==>
        next[k] == if skills[k].id == id then Merge(skills[k], u) else skills[k]
      invariant updated == MergedLast(skills[..i], id, u)
    {
      var skill := skills[i];
      MergedLastStep(skills, i, id, u);
      if skill.id == id {
        updated := Some(Merge(skill, u));
        next := next + [updated.value];
      } else {
        next := next + [skill];
      }
      i := i + 1;
    }
    assert skills[..i] == skills;
  }

  /** With no skill carrying the id, patching changes nothing. */
  lemma PatchMissing(skills: seq<SkillNode>, id: string, u: SkillPatch)
    requires id !in Ids(skills)
    ensures Patch(skills, id, u) == skills
  {
    forall k | 0 <= k < |skills|
      ensures skills[k].id != id
    {
      assert Ids(skills)[k] == skills[k].id;
    }
  }

  /**
   * The `map` of `connectSkills`: each end gains the other's id when missing, and
   * `changed` records whether any list gained one.
   */
  method ConnectedList(skills: seq<SkillNode>, source: string, target: string) returns (next: seq<SkillNode>, changed: bool)
    ensures next == Connect(skills, source, target)
    ensures changed <==> next != skills
  {
    next := [];
    changed := false;
    var i := 0;
    while i < |skills|
      invariant 0 <= i <= |skills|
      invariant |next| == i
      invariant forall k :: 0 <= k < i ==> next[k] == ConnectOne(skills[k], source, target)
      invariant changed <==> exists k :: 0 <= k < i && next[k] != skills[k]
    {
      var skill := skills[i];
      if skill.id == source && target !in skill.connections {
        changed := true;
        next := next + [skill.(connections := skill.connections + [target])];
        assert next[i] != skills[i];
      } else if skill.id == target && source !in skill.connections {
        changed := true;
        next := next + [skill.(connections := skill.connections + [source])];
        assert next[i] != skills[i];
      } else {
        next := next + [skill];
      }
      i := i + 1;
    }
    if changed {
      var k :| 0 <= k < |next| && next[k] != skills[k];
    } else {
      assert next == skills;
    }
  }

  /**
   * The `map` of `disconnectSkills`: each end drops every occurrence of the
   * other's id, and `changed` records whether any list lost one.
   */
  method DisconnectedList(skills: seq<SkillNode>, source: string, target: string) returns (next: seq<SkillNode>, changed: bool)
    ensures next == Disconnect(skills, source, target)
    ensures changed <==> next != skills
  {
    next := [];
    changed := false;
    var i := 0;
    while i < |skills|
      invariant 0 <= i <= |skills|
      invariant |next| == i
      invariant forall k :: 0 <= k < i ==> next[k] == DisconnectOne(skills[k], source, target)
      invariant changed <==> exists k :: 0 <= k < i && next[k] != skills[k]
    {
      var skill := skills[i];
      var one := skill;
      ghost var wasChanged := changed;
      if skill.id == source && target in skill.connections {
        changed := true;
        one := skill.(connections := Without(skill.connections, target));
        assert target !in one.connections;
      } else if skill.id == target && source in skill.connections {
        changed := true;
        one := skill.(connections := Without(skill.connections, source));
        assert source !in one.connections;
      }
      assert one == DisconnectOne(skill, source, target) && (changed <==> wasChanged || one != skill);
      next := next + [one];
      i := i + 1;
    }
    if changed {
      var k :| 0 <= k < |next| && next[k] != skills[k];
    } else {
      assert next == skills;
    }
  }

  /** The store: the `skills` list and `selectedSkillId`. */
  class Store {
    var skills: seq<SkillNode>
    var selected: Option<string>

    /** The initial state, which `reset` restores. */
    constructor ()
      ensures skills == MockData.SkillNodes() && selected == Some("python")
    {
      skills := MockData.SkillNodes();
      selected := Some("python");
    }

    method SetSkills(next: seq<SkillNode>)
      modifies this
      ensures skills == next && selected == old(selected)
    {
      skills := next;
    }

    method SelectSkill(id: Option<string>)
      modifies this
      ensures selected == id && skills == old(skills)
    {
      selected := id;
    }

    method Reset()
      modifies this
      ensures skills == MockData.SkillNodes() && selected == Some("python")
    {
      skills := MockData.SkillNodes();
      selected := Some("python");
    }

    /**
     * `addSkill`: the new node goes last, every existing skill listed in
     * `connectsTo` gains the new id, and the new node becomes the selection.
     * `suffix` stands for the random `nanoid(4)`.
     */
    method AddSkill(name: string, emoji: string, level: SkillLevel, progress: Option<real>,
                    connectsTo: seq<string>, suffix: string) returns (node: SkillNode)
      modifies this
      ensures node.id == SkillId(name, suffix)
      ensures node == SkillNode(node.id, name, emoji, level,
                                if progress.Some? then progress.value else DefaultProgress(level),
                                connectsTo)
      ensures skills == LinkNew(old(skills), connectsTo, node.id) + [node]
      ensures selected == Some(node.id)
    {
      var id := SkillId(name, suffix);
      var p := match progress case Some(v) => v case None => DefaultProgress(level);
      node := SkillNode(id, name, emoji, level, p, connectsTo);
      skills := LinkNew(skills, connectsTo, id) + [node];
      selected := Some(id);
    }

    /**
     * `updateSkill`: merges `u` into every skill with the id and returns the
     * last merged skill; with no such skill it returns `None` and writes nothing.
     */
    method UpdateSkill(id: string, u: SkillPatch) returns (updated: Option<SkillNode>)
      modifies this
      ensures updated == MergedLast(old(skills), id, u)
      ensures updated.None? <==> id !in Ids(old(skills))
      ensures skills == Patch(old(skills), id, u)
      ensures updated.None? ==> skills == old(skills)
      ensures updated.Some? ==> updated.value in skills && updated.value.id == id
      ensures updated.Some? ==> exists i :: LastWith(old(skills), id, i) && updated.value == Merge(old(skills)[i], u)
      ensures selected == old(selected)
    {
      var next;
      next, updated := PatchedList(skills, id, u);
      MergedLastIn(skills, id, u);
      if updated.Some? {
        skills := next;
      } else {
        PatchMissing(skills, id, u);
      }
    }

    /**
     * `connectSkills`: each end gains the other's id when missing; the state
     * is written only when some list changed.
     */
    method ConnectSkills(source: string, target: string) returns (changed: bool)
      modifies this
      ensures skills == Connect(old(skills), source, target)
      ensures changed <==> skills != old(skills)
      ensures selected == old(selected)
    {
      var next;
      next, changed := ConnectedList(skills, source, target);
      if changed {
        skills := next;
      }
    }

    /**
     * `disconnectSkills`: each end drops every occurrence of the other's id;
     * the state is written only when some list changed.
     */
    method DisconnectSkills(source: string, target: string) returns (changed: bool)
      modifies this
      ensures skills == Disconnect(old(skills), source, target)
      ensures changed <==> skills != old(skills)
      ensures selected == old(selected)
    {
      var next;
      next, changed := DisconnectedList(skills, source, target);
      if changed {
        skills := next;
      }
    }

    /**
     * `removeSkill`: with no skill of that id, returns `None` and changes
     * nothing; otherwise drops it, purges its id from every other list, clears
     * the selection if it was the one selected, and returns it.
     */
    method RemoveSkill(id: string) returns (removed: Option<SkillNode>)
      modifies this
      ensures removed == FindFirst(old(skills), id)
      ensures removed.None? <==> id !in Ids(old(skills))
      ensures removed.Some? ==> exists i :: FirstWith(old(skills), id, i) && old(skills)[i] == removed.value
      ensures removed.None? ==> skills == old(skills) && selected == old(selected)
      ensures removed.Some? ==> skills == Purge(old(skills), id)
      ensures removed.Some? ==>
        selected == (if old(selected) == Some(id) then None else old(selected))
    {
      removed := FindFirst(skills, id);
      FindFirstFirst(skills, id);
      if removed.None? {
        return;
      }
      skills := Purge(skills, id);
      selected := if selected == Some(id) then None else selected;
    }
  }
}
