/**
 * `Array.prototype.sort` with a comparator, as a stable insertion sort.
 * JavaScript's sort is stable, so for a comparator that is a strict weak order
 * the result below is the only one it can produce. `less(a, b)` stands for
 * "the comparator returns a negative number for (a, b)".
 */
module Sorting {

  /** The comparator never puts both `a` before `b` and `b` before `a`. */
  ghost predicate Asymmetric<T(!new)>(less: (T, T) -> bool)
  {
    forall a, b :: less(a, b) ==> !less(b, a)
  }

  /**
   * `less` is a strict weak order: asymmetric, and "not before" is transitive
   * (if `c` is before `a`, then `c` is before `b` or `b` is before `a`).
   */
  ghost predicate StrictWeakOrder<T(!new)>(less: (T, T) -> bool)
  {
    Asymmetric(less) && forall a, b, c :: less(c, a) ==> less(c, b) || less(b, a)
  }

  /** Every element of `s` satisfies `dom`. */
  ghost predicate Within<T>(s: seq<T>, dom: T -> bool)
  {
    forall i :: 0 <= i < |s| ==> dom(s[i])
  }

  /** `Asymmetric`, for the elements satisfying `dom` only. */
  ghost predicate AsymmetricOn<T(!new)>(less: (T, T) -> bool, dom: T -> bool)
  {
    forall a, b {:trigger less(a, b)} :: dom(a) && dom(b) && less(a, b) ==> !less(b, a)
  }

  /** `StrictWeakOrder`, for the elements satisfying `dom` only. */
  ghost predicate WeakOrderOn<T(!new)>(less: (T, T) -> bool, dom: T -> bool)
  {
    && AsymmetricOn(less, dom)
    && forall a, b, c {:trigger less(c, a), less(c, b), less(b, a)} ::
         dom(a) && dom(b) && dom(c) && less(c, a) ==> less(c, b) || less(b, a)
  }

  /** No element is before its predecessor. */
  ghost predicate LocallySorted<T>(s: seq<T>, less: (T, T) -> bool)
  {
    forall i :: 0 < i < |s| ==> !less(s[i], s[i - 1])
  }

  /** No element is before any element to its left. */
  ghost predicate Sorted<T>(s: seq<T>, less: (T, T) -> bool)
  {
    forall i, j :: 0 <= i < j < |s| ==> !less(s[j], s[i])
  }

  /**
   * Inserts `x` into `s` after every element it is not before; scanning from
   * the right keeps equal elements in arrival order.
   */
  function Insert<T>(s: seq<T>, x: T, less: (T, T) -> bool): (r: seq<T>)
    ensures |r| == |s| + 1
    ensures multiset(r) == multiset(s) + multiset{x}
  {
    if |s| == 0 || !less(x, s[|s| - 1]) then s + [x]
    else
      var init := s[..|s| - 1];
      assert s == init + [s[|s| - 1]];
      Insert(init, x, less) + [s[|s| - 1]]
  }

  /** The stable sort of `s` by `less`. */
  function SortBy<T>(s: seq<T>, less: (T, T) -> bool): (r: seq<T>)
    ensures |r| == |s|
    ensures multiset(r) == multiset(s)
  {
    if |s| == 0 then []
    else
      var init := s[..|s| - 1];
      assert s == init + [s[|s| - 1]];
      Insert(SortBy(init, less), s[|s| - 1], less)
  }

  /** The last element of an insertion is either `x` or the old last element. */
  lemma {:induction false} InsertLast<T>(s: seq<T>, x: T, less: (T, T) -> bool)
    ensures var r := Insert(s, x, less);
      r[|r| - 1] == x || (|s| > 0 && r[|r| - 1] == s[|s| - 1])
  {
  }

  lemma {:induction false} InsertLocallySorted<T(!new)>(s: seq<T>, x: T, less: (T, T) -> bool)
    requires Asymmetric(less)
    requires LocallySorted(s, less)
    ensures LocallySorted(Insert(s, x, less), less)
  {
    if |s| == 0 || !less(x, s[|s| - 1]) {
    } else {
      var init := s[..|s| - 1];
      var last := s[|s| - 1];
      InsertLocallySorted(init, x, less);
      var r0 := Insert(init, x, less);
      InsertLast(init, x, less);
      assert !less(last, x);
      assert |init| > 0 ==> !less(last, init[|init| - 1]);
      var r := r0 + [last];
      forall i | 0 < i < |r|
        ensures !less(r[i], r[i - 1])
      {
        if i < |r0| {
          assert r[i] == r0[i] && r[i - 1] == r0[i - 1];
        }
      }
    }
  }

  /**
   * For any asymmetric comparator (even one that is not transitive) no
   * element of the sorted list is before its predecessor.
   */
  lemma {:induction false} SortByLocallySorted<T(!new)>(s: seq<T>, less: (T, T) -> bool)
    requires Asymmetric(less)
    ensures LocallySorted(SortBy(s, less), less)
  {
    if |s| > 0 {
      SortByLocallySorted(s[..|s| - 1], less);
      InsertLocallySorted(SortBy(s[..|s| - 1], less), s[|s| - 1], less);
    }
  }

  /** Where `Insert` puts `x`. */
  function InsertPos<T>(s: seq<T>, x: T, less: (T, T) -> bool): (k: nat)
    ensures k <= |s|
  {
    if |s| == 0 || !less(x, s[|s| - 1]) then |s| else InsertPos(s[..|s| - 1], x, less)
  }

  /** `x` lands at `InsertPos`, between the elements on either side of it. */
  lemma {:induction false} InsertSplit<T>(s: seq<T>, x: T, less: (T, T) -> bool)
    ensures var k := InsertPos(s, x, less);
      Insert(s, x, less) == s[..k] + [x] + s[k..]
  {
    if |s| == 0 || !less(x, s[|s| - 1]) {
      assert s[..|s|] == s;
    } else {
      var init := s[..|s| - 1];
      var last := s[|s| - 1];
      InsertSplit(init, x, less);
      var k := InsertPos(init, x, less);
      assert InsertPos(s, x, less) == k;
      assert init[..k] == s[..k];
      assert init[k..] + [last] == s[k..];
    }
  }

  /** Every element after the insertion point is one that `x` is before. */
  lemma {:induction false} InsertAfter<T>(s: seq<T>, x: T, less: (T, T) -> bool)
    ensures forall j :: InsertPos(s, x, less) <= j < |s| ==> less(x, s[j])
  {
    if |s| > 0 && less(x, s[|s| - 1]) {
      var init := s[..|s| - 1];
      InsertAfter(init, x, less);
      var k := InsertPos(init, x, less);
      assert InsertPos(s, x, less) == k;
      forall j | k <= j < |s|
        ensures less(x, s[j])
      {
        if j < |s| - 1 {
          assert s[j] == init[j];
        }
      }
    }
  }

  /** `x` is not before the element right in front of the insertion point. */
  lemma {:induction false} InsertBefore<T>(s: seq<T>, x: T, less: (T, T) -> bool)
    ensures var k := InsertPos(s, x, less);
      k > 0 ==> !less(x, s[k - 1])
  {
    if |s| > 0 && less(x, s[|s| - 1]) {
      var init := s[..|s| - 1];
      InsertBefore(init, x, less);
      var k := InsertPos(init, x, less);
      assert InsertPos(s, x, less) == k;
      if k > 0 {
        assert s[k - 1] == init[k - 1];
      }
    }
  }

  /** For a weak order on the elements, `x` is not before anything up to the one it is not before. */
  lemma NotBeforePrefix<T(!new)>(s: seq<T>, x: T, k: nat, less: (T, T) -> bool, dom: T -> bool)
    requires WeakOrderOn(less, dom) && Within(s, dom) && dom(x)
    requires Sorted(s, less)
    requires k <= |s| && (k > 0 ==> !less(x, s[k - 1]))
    ensures forall i :: 0 <= i < k ==> !less(x, s[i])
  {
    forall i | 0 <= i < k
      ensures !less(x, s[i])
    {
      if i < k - 1 {
        assert !less(s[k - 1], s[i]);
        assert dom(s[i]) && dom(s[k - 1]);
      }
    }
  }

  /**
   * `x` placed between a prefix it is not before and a suffix it is before
   * keeps a sorted list sorted.
   */
  lemma SortedSplice<T(!new)>(a: seq<T>, x: T, b: seq<T>, less: (T, T) -> bool, dom: T -> bool)
    requires AsymmetricOn(less, dom) && Within(b, dom) && dom(x)
    requires Sorted(a + b, less)
    requires forall i :: 0 <= i < |a| ==> !less(x, a[i])
    requires forall j :: 0 <= j < |b| ==> less(x, b[j])
    ensures Sorted(a + [x] + b, less)
  {
    var r := a + [x] + b;
    var ab := a + b;
    forall i, j | 0 <= i < j < |r|
      ensures !less(r[j], r[i])
    {
      if j < |a| {
        assert r[i] == ab[i] && r[j] == ab[j];
      } else if j == |a| {
        assert r[i] == a[i];
      } else if i == |a| {
        assert r[j] == b[j - |a| - 1];
        assert dom(b[j - |a| - 1]);
      } else if i < |a| {
        assert r[i] == ab[i] && r[j] == ab[j - 1];
      } else {
        assert r[i] == ab[i - 1] && r[j] == ab[j - 1];
      }
    }
  }

  /** Inserting into a sorted list keeps it sorted, for a weak order on the elements. */
  lemma InsertSorted<T(!new)>(s: seq<T>, x: T, less: (T, T) -> bool, dom: T -> bool)
    requires WeakOrderOn(less, dom) && Within(s, dom) && dom(x)
    requires Sorted(s, less)
    ensures Sorted(Insert(s, x, less), less)
  {
    InsertSplit(s, x, less);
    InsertAfter(s, x, less);
    InsertBefore(s, x, less);
    SortedAt(s, x, InsertPos(s, x, less), less, dom);
  }

  /** `x` placed after what it is not before and before the rest keeps `s` sorted. */
  lemma SortedAt<T(!new)>(s: seq<T>, x: T, k: nat, less: (T, T) -> bool, dom: T -> bool)
    requires WeakOrderOn(less, dom) && Within(s, dom) && dom(x)
    requires Sorted(s, less)
    requires k <= |s| && (k > 0 ==> !less(x, s[k - 1]))
    requires forall j :: k <= j < |s| ==> less(x, s[j])
    ensures Sorted(s[..k] + [x] + s[k..], less)
  {
    NotBeforePrefix(s, x, k, less, dom);
    SplitParts(s, x, k, less);
    assert Within(s[k..], dom) by {
      forall j | 0 <= j < |s[k..]|
        ensures dom(s[k..][j])
      {
        assert s[k..][j] == s[k + j];
      }
    }
    SortedSplice(s[..k], x, s[k..], less, dom);
  }

  /** The two halves of `s` around `k`, as `SortedSplice` takes them. */
  lemma SplitParts<T>(s: seq<T>, x: T, k: nat, less: (T, T) -> bool)
    requires k <= |s|
    requires forall j :: k <= j < |s| ==> less(x, s[j])
    ensures s[..k] + s[k..] == s
    ensures forall j :: 0 <= j < |s[k..]| ==> less(x, s[k..][j])
  {
    assert s[..k] + s[k..] == s;
    forall j | 0 <= j < |s[k..]|
      ensures less(x, s[k..][j])
    {
      assert s[k..][j] == s[k + j];
    }
  }

  /** A rearrangement of a list within `dom` stays within `dom`. */
  lemma WithinPerm<T>(s: seq<T>, t: seq<T>, dom: T -> bool)
    requires multiset(s) == multiset(t) && Within(t, dom)
    ensures Within(s, dom)
  {
    forall i | 0 <= i < |s|
      ensures dom(s[i])
    {
      assert s[i] in multiset(t);
      var j :| 0 <= j < |t| && t[j] == s[i];
    }
  }

  /** The list without its last element stays within `dom`. */
  lemma WithinInit<T>(s: seq<T>, dom: T -> bool)
    requires |s| > 0 && Within(s, dom)
    ensures Within(s[..|s| - 1], dom) && dom(s[|s| - 1])
  {
    var init := s[..|s| - 1];
    forall i | 0 <= i < |init|
      ensures dom(init[i])
    {
      assert init[i] == s[i];
    }
  }

  /**
   * For a comparator that is a strict weak order on the elements being
   * sorted (whatever it does elsewhere), the result is sorted outright.
   */
  lemma {:induction false} SortBySortedOn<T(!new)>(s: seq<T>, less: (T, T) -> bool, dom: T -> bool)
    requires WeakOrderOn(less, dom) && Within(s, dom)
    ensures Sorted(SortBy(s, less), less)
  {
    if |s| > 0 {
      var init := s[..|s| - 1];
      WithinInit(s, dom);
      SortBySortedOn(init, less, dom);
      WithinPerm(SortBy(init, less), init, dom);
      InsertSorted(SortBy(init, less), s[|s| - 1], less, dom);
    }
  }

  /** For a strict weak order the result is sorted outright. */
  lemma SortBySorted<T(!new)>(s: seq<T>, less: (T, T) -> bool)
    requires StrictWeakOrder(less)
    ensures Sorted(SortBy(s, less), less)
  {
    var all := (x: T) => true;
    assert WeakOrderOn(less, all);
    SortBySortedOn(s, less, all);
  }

  // ---------------------------------------------------------------------
  // Stability
  // ---------------------------------------------------------------------

  /** Neither element is before the other. */
  predicate Equiv<T>(less: (T, T) -> bool, a: T, b: T)
  {
    !less(a, b) && !less(b, a)
  }

  /** The elements of `s` equivalent to `y`, in their order in `s`. */
  function Ties<T>(s: seq<T>, y: T, less: (T, T) -> bool): seq<T>
  {
    if |s| == 0 then []
    else Ties(s[..|s| - 1], y, less) + (if Equiv(less, s[|s| - 1], y) then [s[|s| - 1]] else [])
  }

  lemma {:induction false} TiesAppend<T>(a: seq<T>, b: seq<T>, y: T, less: (T, T) -> bool)
    ensures Ties(a + b, y, less) == Ties(a, y, less) + Ties(b, y, less)
  {
    if |b| == 0 {
      assert a + b == a;
    } else {
      var init := b[..|b| - 1];
      assert (a + b)[..|a + b| - 1] == a + init;
      TiesAppend(a, init, y, less);
    }
  }

  /** Nothing `x` is before is equivalent to an element `x` is equivalent to. */
  lemma {:induction false} TiesNone<T(!new)>(t: seq<T>, x: T, y: T, less: (T, T) -> bool, dom: T -> bool)
    requires WeakOrderOn(less, dom) && Within(t, dom) && dom(x) && dom(y)
    requires Equiv(less, x, y)
    requires forall j :: 0 <= j < |t| ==> less(x, t[j])
    ensures Ties(t, y, less) == []
  {
    if |t| > 0 {
      WithinInit(t, dom);
      var init := t[..|t| - 1];
      assert forall j :: 0 <= j < |init| ==> init[j] == t[j];
      TiesNone(init, x, y, less, dom);
      assert less(x, t[|t| - 1]);
    }
  }

  /** One more element at the end adds itself to the equivalents of `y` when it is one. */
  lemma TiesSnoc<T>(t: seq<T>, x: T, y: T, less: (T, T) -> bool)
    ensures Ties(t + [x], y, less) == Ties(t, y, less) + (if Equiv(less, x, y) then [x] else [])
  {
    assert (t + [x])[..|t|] == t;
  }

  /**
   * Moving `x` from the end to the front of a part with no equivalents of
   * `y`, or when `x` is not one, leaves the equivalents of `y` alone.
   */
  lemma TiesSplice<T>(a: seq<T>, x: T, b: seq<T>, y: T, less: (T, T) -> bool)
    requires Equiv(less, x, y) ==> Ties(b, y, less) == []
    ensures Ties(a + [x] + b, y, less) == Ties(a + b + [x], y, less)
  {
    TiesAppend(a + [x], b, y, less);
    TiesSnoc(a, x, y, less);
    TiesAppend(a, b, y, less);
    TiesSnoc(a + b, x, y, less);
    var ta, tb := Ties(a, y, less), Ties(b, y, less);
    if Equiv(less, x, y) {
      assert ta + [x] + tb == ta + tb + [x];
    } else {
      assert ta + [] + tb == ta + tb + [];
    }
  }

  /** `TiesNone` for the part of `s` from `k` on. */
  lemma TiesNoneFrom<T(!new)>(s: seq<T>, k: nat, x: T, y: T, less: (T, T) -> bool, dom: T -> bool)
    requires WeakOrderOn(less, dom) && Within(s, dom) && dom(x) && dom(y)
    requires Equiv(less, x, y)
    requires k <= |s| && forall j :: k <= j < |s| ==> less(x, s[j])
    ensures Ties(s[k..], y, less) == []
  {
    var b := s[k..];
    forall j | 0 <= j < |b|
      ensures dom(b[j]) && less(x, b[j])
    {
      assert b[j] == s[k + j];
    }
    TiesNone(b, x, y, less, dom);
  }

  /** Inserting `x` leaves the equivalents of `y` as appending `x` would. */
  lemma InsertTies<T(!new)>(s: seq<T>, x: T, y: T, less: (T, T) -> bool, dom: T -> bool)
    requires WeakOrderOn(less, dom) && Within(s, dom) && dom(x) && dom(y)
    ensures Ties(Insert(s, x, less), y, less) == Ties(s + [x], y, less)
  {
    InsertSplit(s, x, less);
    InsertAfter(s, x, less);
    TiesAt(s, x, InsertPos(s, x, less), y, less, dom);
  }

  /** `x` placed in front of elements it is before keeps the equivalents of `y` as appending it would. */
  lemma TiesAt<T(!new)>(s: seq<T>, x: T, k: nat, y: T, less: (T, T) -> bool, dom: T -> bool)
    requires WeakOrderOn(less, dom) && Within(s, dom) && dom(x) && dom(y)
    requires k <= |s| && forall j :: k <= j < |s| ==> less(x, s[j])
    ensures Ties(s[..k] + [x] + s[k..], y, less) == Ties(s + [x], y, less)
  {
    if Equiv(less, x, y) {
      TiesNoneFrom(s, k, x, y, less, dom);
    }
    TiesSplice(s[..k], x, s[k..], y, less);
    assert s[..k] + s[k..] == s;
  }

  /**
   * The sort is stable: the elements equivalent to any `y` keep their
   * relative order.
   */
  lemma {:induction false} SortByStable<T(!new)>(s: seq<T>, y: T, less: (T, T) -> bool, dom: T -> bool)
    requires WeakOrderOn(less, dom) && Within(s, dom) && dom(y)
    ensures Ties(SortBy(s, less), y, less) == Ties(s, y, less)
  {
    if |s| > 0 {
      var init := s[..|s| - 1];
      var last := s[|s| - 1];
      WithinInit(s, dom);
      SortByStable(init, y, less, dom);
      WithinPerm(SortBy(init, less), init, dom);
      InsertTies(SortBy(init, less), last, y, less, dom);
      TiesSnoc(SortBy(init, less), last, y, less);
    }
  }

  // ---------------------------------------------------------------------
  // Sorting images
  // ---------------------------------------------------------------------

  /** `s.map(g)`. */
  function MapSeq<A, B>(s: seq<A>, g: A -> B): (r: seq<B>)
    ensures |r| == |s| && forall i :: 0 <= i < |s| ==> r[i] == g(s[i])
  {
    seq(|s|, i requires 0 <= i < |s| => g(s[i]))
  }

  /** Mapping commutes with dropping the last element and with appending one. */
  lemma MapSeqSnoc<A, B>(s: seq<A>, x: A, g: A -> B)
    ensures MapSeq(s + [x], g) == MapSeq(s, g) + [g(x)]
    ensures |s| > 0 ==> MapSeq(s, g)[..|s| - 1] == MapSeq(s[..|s| - 1], g)
  {
  }

  /**
   * When `g` carries `lessA` over to `lessB`, inserting the image of `x`
   * into the image of `s` gives the image of the insertion.
   */
  lemma {:induction false} InsertMap<A(!new), B>(s: seq<A>, x: A, g: A -> B, lessA: (A, A) -> bool, lessB: (B, B) -> bool)
    requires forall a, b :: lessB(g(a), g(b)) == lessA(a, b)
    ensures Insert(MapSeq(s, g), g(x), lessB) == MapSeq(Insert(s, x, lessA), g)
  {
    MapSeqSnoc(s, x, g);
    if |s| > 0 && lessA(x, s[|s| - 1]) {
      var init := s[..|s| - 1];
      InsertMap(init, x, g, lessA, lessB);
      MapSeqSnoc(Insert(init, x, lessA), s[|s| - 1], g);
    }
  }

  /** Sorting the image of `s` gives the image of the sorted `s`. */
  lemma {:induction false} SortByMap<A(!new), B>(s: seq<A>, g: A -> B, lessA: (A, A) -> bool, lessB: (B, B) -> bool)
    requires forall a, b :: lessB(g(a), g(b)) == lessA(a, b)
    ensures SortBy(MapSeq(s, g), lessB) == MapSeq(SortBy(s, lessA), g)
  {
    if |s| > 0 {
      var init := s[..|s| - 1];
      MapSeqSnoc(s, s[|s| - 1], g);
      SortByMap(init, g, lessA, lessB);
      InsertMap(SortBy(init, lessA), s[|s| - 1], g, lessA, lessB);
    }
  }
}
