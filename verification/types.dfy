/**
 * The skill record shared by the store and the canvas (src/lib/types.ts),
 * plus the small sequence vocabulary the other modules use.
 */
module SkillTypes {

  datatype Option<+T> = None | Some(value: T)

  /** The three proficiency levels a skill can have. */
  datatype SkillLevel = Planned | Learning | Strong

  /**
   * One node of the skill graph. `connections` lists the ids of the
   * neighbouring skills; the graph is read as undirected, and nothing in the
   * type forces the lists to be symmetric or the ids to exist.
   */
  datatype SkillNode = SkillNode(
    id: string,
    name: string,
    emoji: string,
    level: SkillLevel,
    progress: real,
    connections: seq<string>)

  /** The ids of a list of skills, in order. */
  function Ids(skills: seq<SkillNode>): (r: seq<string>)
    ensures |r| == |skills| && forall i :: 0 <= i < |skills| ==> r[i] == skills[i].id
  {
    seq(|skills|, i requires 0 <= i < |skills| => skills[i].id)
  }

  /** True when `x` occurs at most once in `s`. */
  predicate NoDup<T(==)>(s: seq<T>)
  {
    forall i, j :: 0 <= i < j < |s| ==> s[i] != s[j]
  }

  /** The number of occurrences of `x` in `s`. */
  function Count<T(==)>(s: seq<T>, x: T): (n: nat)
    ensures n == multiset(s)[x]
    ensures n == 0 <==> x !in s
  {
    if |s| == 0 then 0
    else
      assert s == s[..|s| - 1] + [s[|s| - 1]];
      Count(s[..|s| - 1], x) + (if s[|s| - 1] == x then 1 else 0)
  }

  /** `s` with every occurrence of `x` dropped (Array.prototype.filter with `!==`). */
  function Without<T(==,!new)>(s: seq<T>, x: T): (r: seq<T>)
    ensures x !in r
    ensures forall y :: y != x ==> (y in r <==> y in s)
    ensures forall y :: y != x ==> multiset(r)[y] == multiset(s)[y]
    ensures x !in s ==> r == s
  {
    if |s| == 0 then []
    else
      assert s == s[..|s| - 1] + [s[|s| - 1]];
      Without(s[..|s| - 1], x) + (if s[|s| - 1] == x then [] else [s[|s| - 1]])
  }

  /**
   * The skill a `new Map(skills.map(s => [s.id, s]))` holds for `id`: the
   * last one with that id, since later entries overwrite earlier ones.
   */
  function Lookup(skills: seq<SkillNode>, id: string): (r: Option<SkillNode>)
    ensures r.None? <==> id !in Ids(skills)
    ensures r.Some? ==> r.value in skills && r.value.id == id
  {
    if |skills| == 0 then None
    else if skills[|skills| - 1].id == id then Some(skills[|skills| - 1])
    else
      var r := Lookup(skills[..|skills| - 1], id);
      assert r.Some? ==> r.value in skills;
      assert forall i :: 0 <= i < |skills| - 1 ==> skills[..|skills| - 1][i] == skills[i];
      assert Ids(skills) == Ids(skills[..|skills| - 1]) + [skills[|skills| - 1].id];
      r
  }

  /** Index `i` holds the last entry with the id. */
  predicate LastWith(skills: seq<SkillNode>, id: string, i: int)
  {
    0 <= i < |skills| && skills[i].id == id && forall j :: i < j < |skills| ==> skills[j].id != id
  }

  /** The skill found is the last one with the id: no later entry carries it. */
  lemma {:induction false} LookupLast(skills: seq<SkillNode>, id: string)
    ensures var r := Lookup(skills, id);
      r.Some? ==> exists i :: LastWith(skills, id, i) && skills[i] == r.value
  {
    if |skills| == 0 {
    } else if skills[|skills| - 1].id == id {
      assert LastWith(skills, id, |skills| - 1);
    } else {
      var init := skills[..|skills| - 1];
      LookupLast(init, id);
      assert Lookup(skills, id) == Lookup(init, id);
      if Lookup(init, id).Some? {
        var i :| LastWith(init, id, i) && init[i] == Lookup(init, id).value;
        assert LastWith(skills, id, i) by {
          assert forall j :: i < j < |skills| - 1 ==> skills[j] == init[j];
        }
        assert skills[i] == init[i];
      }
    }
  }

  /** An element of a duplicate-free list occurs once. */
  lemma {:induction false} NoDupCount<T>(s: seq<T>, x: T)
    requires NoDup(s) && x in s
    ensures Count(s, x) == 1
  {
    var init := s[..|s| - 1];
    assert s == init + [s[|s| - 1]];
    if s[|s| - 1] == x {
      assert x !in init;
    } else {
      NoDupCount(init, x);
    }
  }

  /** A rearrangement of a duplicate-free list is duplicate-free. */
  lemma NoDupPerm<T>(a: seq<T>, b: seq<T>)
    requires NoDup(a) && multiset(a) == multiset(b)
    ensures NoDup(b)
  {
    forall i, j | 0 <= i < j < |b|
      ensures b[i] != b[j]
    {
      var x := b[j];
      assert b == b[..j] + [x] + b[j + 1..];
      assert multiset(b)[x] == multiset(b[..j])[x] + 1 + multiset(b[j + 1..])[x];
      assert b[i] == b[..j][i];
      assert x in a;
      NoDupCount(a, x);
    }
  }

  /** Appending one element after a concatenation. */
  lemma AppendOne<T>(a: seq<T>, b: seq<T>, x: T)
    ensures (a + b) + [x] == a + (b + [x])
  {
  }

  /** Concatenation is associative. */
  lemma AppendAssoc<T>(a: seq<T>, b: seq<T>, c: seq<T>)
    ensures (a + b) + c == a + (b + c)
  {
  }
}
