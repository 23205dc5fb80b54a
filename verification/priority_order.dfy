/**
 The order in which the loader considers candidate services. A service's effective priority is
 the caller's override for its class when there is one, else its declared order(); lower sorts
 first, and services of equal priority keep their discovery order (List.sort is stable).

 The sort is a stable insertion sort. Its contract — sorted, a permutation, and the same
 subsequence of services at every priority — characterises every stable sort (lemma
 StableSortIsUnique), so it stands for the library sort.
 */
module PriorityOrder {
  import opened StoreServices

  /** Caller-supplied priority overrides, keyed by implementation class. */
  type Overrides = map<ClassId, int>

  function Priority(d: Descriptor, overrides: Overrides): int {
    if d.cls in overrides then overrides[d.cls] else d.order
  }

  ghost predicate Sorted(s: seq<Descriptor>, overrides: Overrides) {
    forall i, j :: 0 <= i < j < |s| ==> Priority(s[i], overrides) <= Priority(s[j], overrides)
  }

  /** The services of `s` whose effective priority is `p`, in their order in `s`. */
  function WithPriority(s: seq<Descriptor>, overrides: Overrides, p: int): seq<Descriptor> {
    if |s| == 0 then []
    else
      (if Priority(s[0], overrides) == p then [s[0]] else []) + WithPriority(s[1..], overrides, p)
  }

  /** `r` keeps, at every priority, the relative order `s` has. */
  ghost predicate SameOrderWithinPriority(r: seq<Descriptor>, s: seq<Descriptor>, overrides: Overrides) {
    forall p :: WithPriority(r, overrides, p) == WithPriority(s, overrides, p)
  }

  /** No two services share an effective priority. */
  ghost predicate DistinctPriorities(s: seq<Descriptor>, overrides: Overrides) {
    forall p :: |WithPriority(s, overrides, p)| <= 1
  }

  /** Places `x` before the first service of `t` whose priority is not lower than its own. */
  function Insert(x: Descriptor, t: seq<Descriptor>, overrides: Overrides): seq<Descriptor> {
    if |t| == 0 || Priority(x, overrides) <= Priority(t[0], overrides) then [x] + t
    else [t[0]] + Insert(x, t[1..], overrides)
  }

  function InsertionSort(s: seq<Descriptor>, overrides: Overrides): seq<Descriptor> {
    if |s| == 0 then [] else Insert(s[0], InsertionSort(s[1..], overrides), overrides)
  }

  /** `services.sort(...)` with the effective-priority comparator. */
  function SortByPriority(s: seq<Descriptor>, overrides: Overrides): (r: seq<Descriptor>)
    ensures Sorted(r, overrides)
    ensures multiset(r) == multiset(s)
    ensures SameOrderWithinPriority(r, s, overrides)
  {
    InsertionSortCorrect(s, overrides);
    InsertionSort(s, overrides)
  }

  /** `WithPriority` keeps every copy of a service at priority `p` and none of the others. */
  lemma {:induction false} WithPriorityCounts(s: seq<Descriptor>, overrides: Overrides, p: int, x: Descriptor)
    ensures multiset(WithPriority(s, overrides, p))[x] == if Priority(x, overrides) == p then multiset(s)[x] else 0
    decreases |s|
  {
    if |s| > 0 {
      assert s == [s[0]] + s[1..];
      WithPriorityCounts(s[1..], overrides, p, x);
    }
  }

  lemma {:induction false} WithPriorityMembers(s: seq<Descriptor>, overrides: Overrides, p: int, x: Descriptor)
    ensures x in WithPriority(s, overrides, p) <==> x in s && Priority(x, overrides) == p
    decreases |s|
  {
    if |s| > 0 {
      assert s == [s[0]] + s[1..];
      WithPriorityMembers(s[1..], overrides, p, x);
    }
  }

  lemma WithPriorityCons(a: Descriptor, s: seq<Descriptor>, overrides: Overrides, p: int)
    ensures WithPriority([a] + s, overrides, p)
         == (if Priority(a, overrides) == p then [a] else []) + WithPriority(s, overrides, p)
  {
    assert ([a] + s)[1..] == s;
  }

  lemma {:induction false} InsertPermutes(x: Descriptor, t: seq<Descriptor>, overrides: Overrides)
    ensures multiset(Insert(x, t, overrides)) == multiset([x] + t)
    decreases |t|
  {
    if |t| == 0 || Priority(x, overrides) <= Priority(t[0], overrides) {
    } else {
      InsertPermutes(x, t[1..], overrides);
      assert t == [t[0]] + t[1..];
    }
  }

  lemma {:induction false} InsertSorted(x: Descriptor, t: seq<Descriptor>, overrides: Overrides)
    requires Sorted(t, overrides)
    ensures Sorted(Insert(x, t, overrides), overrides)
    decreases |t|
  {
    if |t| == 0 || Priority(x, overrides) <= Priority(t[0], overrides) {
    } else {
      var rest := Insert(x, t[1..], overrides);
      InsertSorted(x, t[1..], overrides);
      InsertPermutes(x, t[1..], overrides);
      forall k | 0 <= k < |rest|
        ensures Priority(t[0], overrides) <= Priority(rest[k], overrides)
      {
        assert rest[k] in multiset(rest);
        assert rest[k] == x || rest[k] in t[1..];
      }
    }
  }

  lemma {:induction false} InsertKeepsOrderWithinPriority(x: Descriptor, t: seq<Descriptor>, overrides: Overrides, p: int)
    ensures WithPriority(Insert(x, t, overrides), overrides, p) == WithPriority([x] + t, overrides, p)
    decreases |t|
  {
    if |t| == 0 || Priority(x, overrides) <= Priority(t[0], overrides) {
    } else {
      var rest := Insert(x, t[1..], overrides);
      var fx := if Priority(x, overrides) == p then [x] else [];
      var ft := if Priority(t[0], overrides) == p then [t[0]] else [];
      assert Insert(x, t, overrides) == [t[0]] + rest;
      InsertKeepsOrderWithinPriority(x, t[1..], overrides, p);
      WithPriorityCons(t[0], rest, overrides, p);
      WithPriorityCons(x, t[1..], overrides, p);
      assert WithPriority(Insert(x, t, overrides), overrides, p) == ft + (fx + WithPriority(t[1..], overrides, p));
      WithPriorityCons(x, t, overrides, p);
      assert t == [t[0]] + t[1..];
      WithPriorityCons(t[0], t[1..], overrides, p);
      assert WithPriority([x] + t, overrides, p) == fx + (ft + WithPriority(t[1..], overrides, p));
      assert ft == [] || fx == [];
    }
  }

  lemma {:induction false} InsertionSortCorrect(s: seq<Descriptor>, overrides: Overrides)
    ensures Sorted(InsertionSort(s, overrides), overrides)
    ensures multiset(InsertionSort(s, overrides)) == multiset(s)
    ensures SameOrderWithinPriority(InsertionSort(s, overrides), s, overrides)
    decreases |s|
  {
    if |s| > 0 {
      var t := InsertionSort(s[1..], overrides);
      InsertionSortCorrect(s[1..], overrides);
      InsertSorted(s[0], t, overrides);
      InsertPermutes(s[0], t, overrides);
      assert s == [s[0]] + s[1..];
      forall p
        ensures WithPriority(Insert(s[0], t, overrides), overrides, p) == WithPriority(s, overrides, p)
      {
        InsertKeepsOrderWithinPriority(s[0], t, overrides, p);
        WithPriorityCons(s[0], t, overrides, p);
        WithPriorityCons(s[0], s[1..], overrides, p);
      }
    }
  }

  /** In a sorted sequence the first service has the lowest priority. */
  lemma HeadIsLowest(s: seq<Descriptor>, overrides: Overrides, x: Descriptor)
    requires Sorted(s, overrides) && x in s
    ensures Priority(s[0], overrides) <= Priority(x, overrides)
  {
    var k :| 0 <= k < |s| && s[k] == x;
    if k > 0 {
      assert Priority(s[0], overrides) <= Priority(s[k], overrides);
    }
  }

  /** Two sorted sequences with the same services, in the same order, at every priority are
      equal. */
  lemma {:induction false} SortedWithSameOrderWithinPriorityAreEqual(a: seq<Descriptor>, b: seq<Descriptor>, overrides: Overrides)
    requires Sorted(a, overrides) && Sorted(b, overrides)
    requires SameOrderWithinPriority(a, b, overrides)
    ensures a == b
    decreases |a| + |b|
  {
    if |a| == 0 && |b| == 0 {
    } else if |b| == 0 {
      var pa := Priority(a[0], overrides);
      WithPriorityMembers(a, overrides, pa, a[0]);
      assert false;
    } else if |a| == 0 {
      var pb := Priority(b[0], overrides);
      WithPriorityMembers(b, overrides, pb, b[0]);
      assert false;
    } else {
      var pa := Priority(a[0], overrides);
      var pb := Priority(b[0], overrides);
      assert WithPriority(a, overrides, pa) == WithPriority(b, overrides, pa);
      assert WithPriority(a, overrides, pb) == WithPriority(b, overrides, pb);
      WithPriorityMembers(a, overrides, pa, a[0]);
      WithPriorityMembers(b, overrides, pa, a[0]);
      WithPriorityMembers(b, overrides, pb, b[0]);
      WithPriorityMembers(a, overrides, pb, b[0]);
      HeadIsLowest(b, overrides, a[0]);
      HeadIsLowest(a, overrides, b[0]);
      assert pa == pb;
      assert a == [a[0]] + a[1..];
      assert b == [b[0]] + b[1..];
      WithPriorityCons(a[0], a[1..], overrides, pa);
      WithPriorityCons(b[0], b[1..], overrides, pa);
      assert WithPriority(a, overrides, pa)[0] == a[0];
      assert WithPriority(b, overrides, pa)[0] == b[0];
      forall q
        ensures WithPriority(a[1..], overrides, q) == WithPriority(b[1..], overrides, q)
      {
        var head := if Priority(a[0], overrides) == q then [a[0]] else [];
        assert WithPriority(a, overrides, q) == WithPriority(b, overrides, q);
        WithPriorityCons(a[0], a[1..], overrides, q);
        WithPriorityCons(b[0], b[1..], overrides, q);
        assert WithPriority(a, overrides, q)[|head|..] == WithPriority(a[1..], overrides, q);
        assert WithPriority(b, overrides, q)[|head|..] == WithPriority(b[1..], overrides, q);
      }
      SortedWithSameOrderWithinPriorityAreEqual(a[1..], b[1..], overrides);
    }
  }

  /** Any ordering of `s` that is sorted and keeps discovery order among equal priorities is the
      one the loader computes. */
  lemma StableSortIsUnique(s: seq<Descriptor>, r: seq<Descriptor>, overrides: Overrides)
    requires Sorted(r, overrides)
    requires SameOrderWithinPriority(r, s, overrides)
    ensures r == SortByPriority(s, overrides)
  {
    SortedWithSameOrderWithinPriorityAreEqual(r, SortByPriority(s, overrides), overrides);
  }

  /** When no two services share a priority, the sorted order does not depend on discovery
      order. */
  lemma {:induction false} DiscoveryOrderIrrelevantWhenPrioritiesDistinct(s1: seq<Descriptor>, s2: seq<Descriptor>, overrides: Overrides)
    requires multiset(s1) == multiset(s2)
    requires DistinctPriorities(s1, overrides)
    ensures SortByPriority(s1, overrides) == SortByPriority(s2, overrides)
  {
    forall p
      ensures WithPriority(s1, overrides, p) == WithPriority(s2, overrides, p)
    {
      var w1 := WithPriority(s1, overrides, p);
      var w2 := WithPriority(s2, overrides, p);
      assert multiset(w1) == multiset(w2) by {
        forall x
          ensures multiset(w1)[x] == multiset(w2)[x]
        {
          WithPriorityCounts(s1, overrides, p, x);
          WithPriorityCounts(s2, overrides, p, x);
        }
      }
      assert |w1| == |w2| by {
        assert |multiset(w1)| == |w1|;
        assert |multiset(w2)| == |w2|;
      }
      if |w1| == 1 {
        assert w1[0] in multiset(w2);
        assert w2[0] in multiset(w2);
        assert w1 == [w1[0]];
        assert w2 == [w2[0]];
      }
    }
    StableSortIsUnique(s2, SortByPriority(s1, overrides), overrides);
  }

  /** Overrides {A: 1, B: 2} put A before B before an un-overridden sentinel of larger order,
      whichever of A and B is discovered first. */
  lemma OverridesDecideOrder(a: Descriptor, b: Descriptor, noop: Descriptor)
    requires a.cls != b.cls && noop.cls != a.cls && noop.cls != b.cls
    requires noop.order > 2
    ensures SortByPriority([b, a, noop], map[a.cls := 1, b.cls := 2]) == [a, b, noop]
    ensures SortByPriority([a, b, noop], map[a.cls := 1, b.cls := 2]) == [a, b, noop]
  {
    var overrides := map[a.cls := 1, b.cls := 2];
    assert Priority(a, overrides) == 1 && Priority(b, overrides) == 2;
    assert Priority(noop, overrides) == noop.order;
    var tail := InsertionSort([noop], overrides);
    assert tail == [noop] by {
      assert [noop][1..] == [];
      assert InsertionSort([], overrides) == [];
      assert Insert(noop, [], overrides) == [noop];
    }
    assert InsertionSort([a, noop], overrides) == [a, noop] by {
      assert [a, noop][1..] == [noop];
    }
    assert InsertionSort([b, noop], overrides) == [b, noop] by {
      assert [b, noop][1..] == [noop];
    }
    assert InsertionSort([b, a, noop], overrides) == [a, b, noop] by {
      assert [b, a, noop][1..] == [a, noop];
      assert [a, noop][1..] == [noop];
      assert Insert(b, [noop], overrides) == [b, noop];
    }
    assert InsertionSort([a, b, noop], overrides) == [a, b, noop] by {
      assert [a, b, noop][1..] == [b, noop];
    }
  }
}
