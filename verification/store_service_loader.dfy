/**
 Selection and composition of the StoreService the loader hands out.

 The discovered services (taken as an input sequence, in discovery order) are followed by the
 no-op sentinel, stably sorted by effective priority, and searched for the first service with
 generic stores and the first with long-obj stores. The two picks become the sentinel-free
 Forwarding fallback, the shared instance itself, or a Composed service.
 */
module StoreServiceLoader {
  import opened Wrappers
  import opened StoreServices
  import opened PriorityOrder

  /** `Optional.get()` on an empty Optional. */
  datatype LoaderError = NoSuchElement

  /** The discovered services in discovery order, then the sentinel. */
  function Candidates(discovered: seq<Descriptor>, noop: Descriptor): (r: seq<Descriptor>)
    ensures |r| == |discovered| + 1
    ensures r[..|discovered|] == discovered && r[|discovered|] == noop
    ensures (forall d :: d in discovered ==> !IsNoOp(d)) && IsNoOp(noop) ==>
              forall i :: 0 <= i < |r| ==> (IsNoOp(r[i]) <==> i == |discovered|)
  {
    discovered + [noop]
  }

  /** `s.stream().filter(has c).findFirst()`, as the index of the match. */
  function FindFirst(s: seq<Descriptor>, c: Capability): (r: Option<nat>)
    ensures r.None? <==> forall i :: 0 <= i < |s| ==> !Offers(s[i], c)
    ensures r.Some? ==> r.value < |s| && Offers(s[r.value], c)
    ensures r.Some? ==> forall j :: 0 <= j < r.value ==> !Offers(s[j], c)
    decreases |s|
  {
    if |s| == 0 then None
    else if Offers(s[0], c) then Some(0)
    else match FindFirst(s[1..], c)
      case None => None
      case Some(i) => Some(i + 1)
  }

  /** The service `FindFirst` finds. */
  function FirstOffering(s: seq<Descriptor>, c: Capability): Option<Descriptor> {
    match FindFirst(s, c)
    case None => None
    case Some(i) => Some(s[i])
  }

  /** `new ComposedStoreService(generic, primitive)`. */
  function ComposedOf(generic: Service, primitive: Service): (r: Service)
    ensures Order(r) >= Order(generic) && Order(r) >= Order(primitive)
    ensures Order(r) == Order(generic) || Order(r) == Order(primitive)
    ensures HasGenericStores(r) == HasGenericStores(generic)
    ensures HasLongObjStores(r) == HasLongObjStores(primitive)
    ensures forall k, v :: ProvideGenericStore(r, k, v) == ProvideGenericStore(generic, k, v)
    ensures forall v :: ProvideLongObjStore(r, v) == ProvideLongObjStore(primitive, v)
    ensures forall ctx :: Init(r, ctx) == Init(generic, ctx) + Init(primitive, ctx)
  {
    Composed(generic, primitive)
  }

  /** The final step of selection, from the two picks. Generic stores always come from the
      generic pick; long-obj stores come from the primitive pick, except that a no-op primitive
      next to a real generic pick is replaced by boxed long keys on the generic backend; `init`
      reaches the generic pick first and never reaches one backend twice. */
  function Compose(generic: Descriptor, primitive: Descriptor): (r: Service)
    ensures HasGenericStores(r) == generic.hasGenericStores
    ensures forall k, v :: ProvideGenericStore(r, k, v) == BackendStore(generic, k, v)
    ensures forall v :: ProvideLongObjStore(r, v) ==
              if IsNoOp(primitive) && !IsNoOp(generic) then BoxedLongObjStore(BackendStore(generic, LongType, v))
              else BackendLongObjStore(primitive, v)
    ensures forall ctx :: Init(r, ctx) ==
              if generic == primitive || (IsNoOp(primitive) && !IsNoOp(generic)) then [InitCall(generic, ctx)]
              else [InitCall(generic, ctx), InitCall(primitive, ctx)]
  {
    if IsNoOp(primitive) && !IsNoOp(generic) then Forwarding(Direct(generic))
    else if generic == primitive then Direct(generic)
    else ComposedOf(Direct(generic), Direct(primitive))
  }

  /** The loader's selection: the value its lazy holder computes once. */
  function Select(discovered: seq<Descriptor>, noop: Descriptor, overrides: Overrides): (r: Result<Service, LoaderError>)
    ensures r.Failure? <==>
              (forall d :: d in Candidates(discovered, noop) ==> !d.hasGenericStores) ||
              (forall d :: d in Candidates(discovered, noop) ==> !d.hasLongObjStores)
  {
    var candidates := Candidates(discovered, noop);
    var sorted := SortByPriority(candidates, overrides);
    assert forall d :: d in candidates <==> d in sorted by {
      assert forall d :: d in candidates <==> d in multiset(candidates);
      assert forall d :: d in sorted <==> d in multiset(sorted);
    }
    match (FindFirst(sorted, GenericStores), FindFirst(sorted, LongObjStores))
    case (Some(g), Some(p)) => Success(Compose(sorted[g], sorted[p]))
    case _ => Failure(NoSuchElement)
  }

  /** `getStoreService()`: with a sentinel that honours its contract, a service offering both
      kinds of store. */
  function GetStoreService(discovered: seq<Descriptor>, noop: Descriptor, overrides: Overrides): (r: Result<Service, LoaderError>)
    ensures SentinelContract(noop) ==> r.Success? && HasGenericStores(r.value) && HasLongObjStores(r.value)
  {
    assert SentinelContract(noop) ==> Select(discovered, noop, overrides).Success? by {
      if SentinelContract(noop) {
        SelectPicksPreferred(discovered, noop, overrides);
      }
    }
    Select(discovered, noop, overrides)
  }

  /** `newGenericStore(keyClass, valueClass)`: fails only as selection does, and otherwise is a
      store of the requested types from a generic-capable candidate. */
  function NewGenericStore(discovered: seq<Descriptor>, noop: Descriptor, overrides: Overrides,
                           keyType: TypeToken, valueType: TypeToken): (r: Result<Store, LoaderError>)
    ensures r.Failure? <==> GetStoreService(discovered, noop, overrides).Failure?
    ensures SentinelContract(noop) ==>
              && r.Success? && r.value.BackendStore?
              && r.value.provider in Candidates(discovered, noop)
              && r.value.provider.hasGenericStores
              && r.value.keyType == keyType && r.value.valueType == valueType
  {
    assert SentinelContract(noop) ==>
             var g := Preferred(Candidates(discovered, noop), overrides, GenericStores);
             && g.Some? && g.value in Candidates(discovered, noop) && g.value.hasGenericStores
             && GetStoreService(discovered, noop, overrides).Success?
             && ProvideGenericStore(GetStoreService(discovered, noop, overrides).value, keyType, valueType)
                == BackendStore(g.value, keyType, valueType) by {
      if SentinelContract(noop) {
        SelectPicksPreferred(discovered, noop, overrides);
      }
    }
    match GetStoreService(discovered, noop, overrides)
    case Success(s) => Success(ProvideGenericStore(s, keyType, valueType))
    case Failure(e) => Failure(e)
  }

  /** `newLongObjStore(valueClass)`: fails only as selection does, and otherwise is either a
      long-obj store of a long-obj-capable candidate or a store boxing long keys onto a real
      generic-capable candidate. */
  function NewLongObjStore(discovered: seq<Descriptor>, noop: Descriptor, overrides: Overrides,
                           valueType: TypeToken): (r: Result<LongObjStore, LoaderError>)
    ensures r.Failure? <==> GetStoreService(discovered, noop, overrides).Failure?
    ensures SentinelContract(noop) ==>
              && r.Success?
              && (|| (&& r.value.BackendLongObjStore?
                      && r.value.provider in Candidates(discovered, noop)
                      && r.value.provider.hasLongObjStores
                      && r.value.valueType == valueType)
                  || (&& r.value.BoxedLongObjStore? && r.value.boxed.BackendStore?
                      && r.value.boxed.provider in Candidates(discovered, noop)
                      && r.value.boxed.provider.hasGenericStores
                      && !IsNoOp(r.value.boxed.provider)
                      && r.value.boxed.keyType == LongType && r.value.boxed.valueType == valueType))
  {
    assert SentinelContract(noop) ==>
             var cands := Candidates(discovered, noop);
             var g := Preferred(cands, overrides, GenericStores);
             var p := Preferred(cands, overrides, LongObjStores);
             && g.Some? && g.value in cands && g.value.hasGenericStores
             && p.Some? && p.value in cands && p.value.hasLongObjStores
             && GetStoreService(discovered, noop, overrides) == Success(Compose(g.value, p.value)) by {
      if SentinelContract(noop) {
        SelectPicksPreferred(discovered, noop, overrides);
      }
    }
    match GetStoreService(discovered, noop, overrides)
    case Success(s) => Success(ProvideLongObjStore(s, valueType))
    case Failure(e) => Failure(e)
  }

  /* ---------------------------------------------------------------------------------------
     A sort-free reference for the pick: the service offering `c` with the lowest effective
     priority, the earliest discovered among equals.
     --------------------------------------------------------------------------------------- */

  function PreferredIndex(s: seq<Descriptor>, overrides: Overrides, c: Capability): (r: Option<nat>)
    ensures r.None? <==> forall i :: 0 <= i < |s| ==> !Offers(s[i], c)
    ensures r.Some? ==> r.value < |s| && Offers(s[r.value], c)
    ensures r.Some? ==> forall j :: 0 <= j < |s| && Offers(s[j], c) ==>
                          Priority(s[r.value], overrides) <= Priority(s[j], overrides)
    ensures r.Some? ==> forall j :: 0 <= j < r.value && Offers(s[j], c) ==>
                          Priority(s[j], overrides) > Priority(s[r.value], overrides)
    decreases |s|
  {
    if |s| == 0 then None
    else
      var rest := PreferredIndex(s[1..], overrides, c);
      if !Offers(s[0], c) then
        (match rest case None => None case Some(i) => Some(i + 1))
      else if rest.None? || Priority(s[0], overrides) <= Priority(s[1..][rest.value], overrides) then
        Some(0)
      else
        Some(rest.value + 1)
  }

  function Preferred(s: seq<Descriptor>, overrides: Overrides, c: Capability): Option<Descriptor> {
    match PreferredIndex(s, overrides, c)
    case None => None
    case Some(i) => Some(s[i])
  }

  /** Keeps `x` ahead of the current pick `o` unless `o` has strictly lower priority. */
  function Pick(x: Descriptor, o: Option<Descriptor>, overrides: Overrides, c: Capability): Option<Descriptor> {
    if !Offers(x, c) then o
    else if o.None? || Priority(x, overrides) <= Priority(o.value, overrides) then Some(x)
    else o
  }

  /** The selection the loader makes, described without sorting: the sentinel stands in for a
      capacity no discovered service offers. */
  function Expected(discovered: seq<Descriptor>, noop: Descriptor, overrides: Overrides): Service {
    match (Preferred(discovered, overrides, GenericStores), Preferred(discovered, overrides, LongObjStores))
    case (None, None) => Direct(noop)
    case (Some(g), None) => Forwarding(Direct(g))
    case (None, Some(p)) => Composed(Direct(noop), Direct(p))
    case (Some(g), Some(p)) => if g == p then Direct(g) else Composed(Direct(g), Direct(p))
  }

  /** The assumptions under which the sentinel only fills gaps: it honours its contract, no
      discovered service is of the no-op class, and none sorts after it. */
  ghost predicate SentinelLast(discovered: seq<Descriptor>, noop: Descriptor, overrides: Overrides) {
    && SentinelContract(noop)
    && (forall d :: d in discovered ==> !IsNoOp(d))
    && (forall d :: d in discovered ==> Priority(d, overrides) <= Priority(noop, overrides))
  }

  /* ---------------------------------------------------------------------------------------
     Properties of selection.
     --------------------------------------------------------------------------------------- */

  /** The index `PreferredIndex` promises is the only one meeting its contract. */
  lemma PreferredIndexIsUnique(s: seq<Descriptor>, overrides: Overrides, c: Capability, i: nat)
    requires i < |s| && Offers(s[i], c)
    requires forall j :: 0 <= j < |s| && Offers(s[j], c) ==> Priority(s[i], overrides) <= Priority(s[j], overrides)
    requires forall j :: 0 <= j < i && Offers(s[j], c) ==> Priority(s[j], overrides) > Priority(s[i], overrides)
    ensures PreferredIndex(s, overrides, c) == Some(i)
  {
  }

  lemma PreferredCons(s: seq<Descriptor>, overrides: Overrides, c: Capability)
    requires |s| > 0
    ensures Preferred(s, overrides, c) == Pick(s[0], Preferred(s[1..], overrides, c), overrides, c)
  {
  }

  lemma FirstOfferingCons(a: Descriptor, t: seq<Descriptor>, c: Capability)
    ensures FirstOffering([a] + t, c) == if Offers(a, c) then Some(a) else FirstOffering(t, c)
  {
    assert ([a] + t)[1..] == t;
  }

  lemma FirstOfferingIn(t: seq<Descriptor>, c: Capability)
    ensures FirstOffering(t, c).Some? ==> FirstOffering(t, c).value in t && Offers(FirstOffering(t, c).value, c)
  {
  }

  /** Inserting a service into a sorted sequence changes the first match exactly as `Pick`
      does. */
  lemma {:induction false} FirstOfferingInsert(x: Descriptor, t: seq<Descriptor>, overrides: Overrides, c: Capability)
    requires Sorted(t, overrides)
    ensures FirstOffering(Insert(x, t, overrides), c) == Pick(x, FirstOffering(t, c), overrides, c)
    decreases |t|
  {
    FirstOfferingIn(t, c);
    if |t| == 0 || Priority(x, overrides) <= Priority(t[0], overrides) {
      FirstOfferingCons(x, t, c);
      if Offers(x, c) && FirstOffering(t, c).Some? {
        HeadIsLowest(t, overrides, FirstOffering(t, c).value);
      }
    } else {
      assert t == [t[0]] + t[1..];
      assert Sorted(t[1..], overrides);
      FirstOfferingInsert(x, t[1..], overrides, c);
      FirstOfferingCons(t[0], Insert(x, t[1..], overrides), c);
      FirstOfferingCons(t[0], t[1..], c);
    }
  }

  /** Searching the stably sorted sequence finds the reference pick: lowest effective priority,
      earliest discovered among equals. */
  lemma {:induction false} FirstOfferingSortedIsPreferred(s: seq<Descriptor>, overrides: Overrides, c: Capability)
    ensures FirstOffering(SortByPriority(s, overrides), c) == Preferred(s, overrides, c)
    decreases |s|
  {
    if |s| == 0 {
    } else {
      InsertionSortCorrect(s[1..], overrides);
      FirstOfferingSortedIsPreferred(s[1..], overrides, c);
      FirstOfferingInsert(s[0], InsertionSort(s[1..], overrides), overrides, c);
      PreferredCons(s, overrides, c);
    }
  }

  /** Appending a service that offers `c` and sorts after everything changes the pick only when
      there was none. */
  lemma PreferredAppendLast(s: seq<Descriptor>, x: Descriptor, overrides: Overrides, c: Capability)
    requires Offers(x, c)
    requires forall d :: d in s ==> Priority(d, overrides) <= Priority(x, overrides)
    ensures Preferred(s + [x], overrides, c)
         == if Preferred(s, overrides, c).Some? then Preferred(s, overrides, c) else Some(x)
  {
    var t := s + [x];
    match PreferredIndex(s, overrides, c)
    case None =>
      PreferredIndexIsUnique(t, overrides, c, |s|);
    case Some(i) =>
      assert forall j :: 0 <= j < |s| ==> t[j] == s[j];
      forall j | 0 <= j < |t| && Offers(t[j], c)
        ensures Priority(t[i], overrides) <= Priority(t[j], overrides)
      {
        if j == |s| {
          assert s[i] in s;
        }
      }
      PreferredIndexIsUnique(t, overrides, c, i);
  }

  /** The two `.get()` calls pick the preferred generic and long-obj candidates. */
  lemma SelectPicksPreferred(discovered: seq<Descriptor>, noop: Descriptor, overrides: Overrides)
    requires SentinelContract(noop)
    ensures var cands := Candidates(discovered, noop);
            && Preferred(cands, overrides, GenericStores).Some?
            && Preferred(cands, overrides, LongObjStores).Some?
            && Select(discovered, noop, overrides)
               == Success(Compose(Preferred(cands, overrides, GenericStores).value,
                                  Preferred(cands, overrides, LongObjStores).value))
  {
    var cands := Candidates(discovered, noop);
    FirstOfferingSortedIsPreferred(cands, overrides, GenericStores);
    FirstOfferingSortedIsPreferred(cands, overrides, LongObjStores);
    assert Offers(cands[|discovered|], GenericStores);
    assert Offers(cands[|discovered|], LongObjStores);
  }

  /** The sentinel makes both `.get()` calls succeed: a corollary of `SelectedServiceOffersBoth`. */
  lemma SelectNeverFails(discovered: seq<Descriptor>, noop: Descriptor, overrides: Overrides)
    requires SentinelContract(noop)
    ensures Select(discovered, noop, overrides).Success?
  {
    SelectedServiceOffersBoth(discovered, noop, overrides);
  }

  /** Whatever is selected offers both kinds of store. */
  lemma SelectedServiceOffersBoth(discovered: seq<Descriptor>, noop: Descriptor, overrides: Overrides)
    requires SentinelContract(noop)
    ensures Select(discovered, noop, overrides).Success?
    ensures HasGenericStores(Select(discovered, noop, overrides).value)
    ensures HasLongObjStores(Select(discovered, noop, overrides).value)
  {
  }

  /** With the sentinel sorting last, selection is the reference `Expected`: real services win
      every capacity they offer and the sentinel only fills the gaps. */
  lemma SelectMatchesExpected(discovered: seq<Descriptor>, noop: Descriptor, overrides: Overrides)
    requires SentinelLast(discovered, noop, overrides)
    ensures Select(discovered, noop, overrides) == Success(Expected(discovered, noop, overrides))
  {
    var cands := Candidates(discovered, noop);
    SelectPicksPreferred(discovered, noop, overrides);
    PreferredAppendLast(discovered, noop, overrides, GenericStores);
    PreferredAppendLast(discovered, noop, overrides, LongObjStores);
    var g := Preferred(discovered, overrides, GenericStores);
    var p := Preferred(discovered, overrides, LongObjStores);
    if g.Some? {
      assert g.value in discovered;
    }
    if p.Some? {
      assert p.value in discovered;
    }
  }

  /** The three outcomes of the composition rule, in terms of the discovered services. */
  lemma SelectOutcomes(discovered: seq<Descriptor>, noop: Descriptor, overrides: Overrides)
    requires SentinelLast(discovered, noop, overrides)
    ensures var r := Select(discovered, noop, overrides).value;
            var g := Preferred(discovered, overrides, GenericStores);
            var p := Preferred(discovered, overrides, LongObjStores);
            && (r.Forwarding? <==> g.Some? && p.None?)
            && (r.Direct? <==> g == p)
            && (r.Composed? <==> g != p && p.Some?)
            && (r.Forwarding? ==> r == Forwarding(Direct(g.value)))
            && (r.Composed? && g.None? ==> r == Composed(Direct(noop), Direct(p.value)))
  {
    SelectMatchesExpected(discovered, noop, overrides);
  }

  /** When no discovered service offers either kind of store, the sentinel itself is selected,
      whatever the overrides and the sentinel's order: it is then the only capable candidate. */
  lemma NothingOfferedSelectsSentinel(discovered: seq<Descriptor>, noop: Descriptor, overrides: Overrides)
    requires SentinelContract(noop)
    requires forall d :: d in discovered ==> !d.hasGenericStores && !d.hasLongObjStores
    ensures Select(discovered, noop, overrides) == Success(Direct(noop))
  {
    var cands := Candidates(discovered, noop);
    SelectPicksPreferred(discovered, noop, overrides);
    var gi := PreferredIndex(cands, overrides, GenericStores).value;
    var pi := PreferredIndex(cands, overrides, LongObjStores).value;
    assert forall i :: 0 <= i < |discovered| ==> cands[i] in discovered;
    assert gi == |discovered| && pi == |discovered|;
  }

  /** The sentinel itself is selected exactly when no discovered service offers either kind of
      store. The "if" direction is `NothingOfferedSelectsSentinel` and needs no ordering
      assumption; the "only if" direction needs the sentinel to sort last, since an override on
      its class can otherwise put it ahead of a capable service. */
  lemma SentinelOnlyWhenNothingOffered(discovered: seq<Descriptor>, noop: Descriptor, overrides: Overrides)
    requires SentinelLast(discovered, noop, overrides)
    ensures Select(discovered, noop, overrides) == Success(Direct(noop)) <==>
              forall d :: d in discovered ==> !d.hasGenericStores && !d.hasLongObjStores
  {
    SelectMatchesExpected(discovered, noop, overrides);
    var g := Preferred(discovered, overrides, GenericStores);
    var p := Preferred(discovered, overrides, LongObjStores);
    if g.Some? {
      assert g.value in discovered;
    }
    if p.Some? {
      assert p.value in discovered;
    }
    if forall d :: d in discovered ==> !d.hasGenericStores && !d.hasLongObjStores {
      assert forall i :: 0 <= i < |discovered| ==> discovered[i] in discovered;
    }
  }

  /** Generic stores come from the preferred generic-capable discovered service, or from the
      sentinel when there is none. */
  lemma GenericStoresRouteToPreferred(discovered: seq<Descriptor>, noop: Descriptor, overrides: Overrides,
                                      keyType: TypeToken, valueType: TypeToken)
    requires SentinelLast(discovered, noop, overrides)
    ensures var g := Preferred(discovered, overrides, GenericStores);
            NewGenericStore(discovered, noop, overrides, keyType, valueType)
            == Success(BackendStore(if g.Some? then g.value else noop, keyType, valueType))
  {
    SelectMatchesExpected(discovered, noop, overrides);
    var g := Preferred(discovered, overrides, GenericStores);
    var p := Preferred(discovered, overrides, LongObjStores);
    var r := Expected(discovered, noop, overrides);
    var expected := BackendStore(if g.Some? then g.value else noop, keyType, valueType);
    if g.None? && p.Some? {
      assert r == Composed(Direct(noop), Direct(p.value));
    } else if g.Some? && p.None? {
      assert r == Forwarding(Direct(g.value));
    } else if g.Some? && p.Some? && g != p {
      assert r == Composed(Direct(g.value), Direct(p.value));
    }
    assert ProvideGenericStore(r, keyType, valueType) == expected;
  }

  /** Long-obj stores come from the preferred long-obj-capable discovered service; failing that,
      from the preferred generic-capable one with boxed long keys; failing that, from the
      sentinel. */
  lemma LongObjStoresRouteToPreferred(discovered: seq<Descriptor>, noop: Descriptor, overrides: Overrides,
                                      valueType: TypeToken)
    requires SentinelLast(discovered, noop, overrides)
    ensures var g := Preferred(discovered, overrides, GenericStores);
            var p := Preferred(discovered, overrides, LongObjStores);
            NewLongObjStore(discovered, noop, overrides, valueType)
            == Success(
                 if p.Some? then BackendLongObjStore(p.value, valueType)
                 else if g.Some? then BoxedLongObjStore(BackendStore(g.value, LongType, valueType))
                 else BackendLongObjStore(noop, valueType))
  {
    SelectMatchesExpected(discovered, noop, overrides);
    var g := Preferred(discovered, overrides, GenericStores);
    var p := Preferred(discovered, overrides, LongObjStores);
    var r := Expected(discovered, noop, overrides);
    if g.None? && p.Some? {
      assert r == Composed(Direct(noop), Direct(p.value));
    } else if g.Some? && p.None? {
      assert r == Forwarding(Direct(g.value));
    } else if g.Some? && p.Some? && g != p {
      assert r == Composed(Direct(g.value), Direct(p.value));
    }
  }

  /** The sentinel is sorted like every other candidate: when its effective priority is below
      every discovered service's, it wins both capacities, whatever the discovered services
      offer. */
  lemma SentinelWinsWhenSortedFirst(discovered: seq<Descriptor>, noop: Descriptor, overrides: Overrides)
    requires SentinelContract(noop)
    requires forall d :: d in discovered ==> Priority(noop, overrides) < Priority(d, overrides)
    ensures Select(discovered, noop, overrides) == Success(Direct(noop))
  {
    var cands := Candidates(discovered, noop);
    SelectPicksPreferred(discovered, noop, overrides);
    forall j | 0 <= j < |cands|
      ensures Priority(noop, overrides) <= Priority(cands[j], overrides)
    {
      if j < |discovered| {
        assert cands[j] in discovered;
      }
    }
    PreferredIndexIsUnique(cands, overrides, GenericStores, |discovered|);
    PreferredIndexIsUnique(cands, overrides, LongObjStores, |discovered|);
  }

  /** A concrete case: an override of -1 on the no-op class puts the sentinel ahead of a real
      service that offers both kinds of store, and the sentinel is selected. */
  lemma OverrideOnSentinelClassBeatsRealService()
    ensures var redis := Descriptor(1, ServiceClass("Redis"), 0, true, true);
            var noop := Descriptor(0, NoOpClass, 100, true, true);
            Select([redis], noop, map[NoOpClass := -1]) == Success(Direct(noop))
  {
    var redis := Descriptor(1, ServiceClass("Redis"), 0, true, true);
    var noop := Descriptor(0, NoOpClass, 100, true, true);
    SentinelWinsWhenSortedFirst([redis], noop, map[NoOpClass := -1]);
  }
}
