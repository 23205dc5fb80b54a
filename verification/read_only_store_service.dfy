/**
 The read-only StoreService decorator: capacities, init and dispose pass straight through to the
 delegate, and both factories wrap the delegate's store in a read-only store.
 */
module ReadOnlyStoreService {
  import opened StoreServices
  import StoreServiceLoader

  /** `new ReadOnlyStoreService(delegate)`. */
  function Decorate(delegate: Service): (r: Service)
    ensures HasGenericStores(r) == HasGenericStores(delegate)
    ensures HasLongObjStores(r) == HasLongObjStores(delegate)
    ensures forall k, v :: ProvideGenericStore(r, k, v) == ReadOnlyStore(ProvideGenericStore(delegate, k, v))
    ensures forall v :: ProvideLongObjStore(r, v) == ReadOnlyLongObjStore(ProvideLongObjStore(delegate, v))
    ensures forall ctx :: Init(r, ctx) == Init(delegate, ctx)
    ensures Dispose(r) == Dispose(delegate)
    ensures Order(r) == DefaultOrder
  {
    ReadOnly(delegate)
  }

  /** A read-only view of the loader's selection still offers both kinds of store. */
  lemma DecoratedSelectionOffersBoth(discovered: seq<Descriptor>, noop: Descriptor, overrides: map<ClassId, int>)
    requires SentinelContract(noop)
    ensures StoreServiceLoader.Select(discovered, noop, overrides).Success?
    ensures var r := Decorate(StoreServiceLoader.Select(discovered, noop, overrides).value);
            HasGenericStores(r) && HasLongObjStores(r)
  {
  }
}
