/**
 The StoreService abstraction: service instances with their declared order and the two store
 capacities, and the service shapes the loader and the decorators build out of them.

 A service is observed through the StoreService interface: order(), the two capacity flags, the
 two store factories, init and dispose. Stores, init calls and disposals are opaque values that
 record which backend instance produced them, so that routing can be stated exactly.
 */
module StoreServices {

  /** Class identity of a service implementation; the key of the priority overrides. */
  datatype ClassId = NoOpClass | ServiceClass(name: string)

  /** One service instance as the loader sees it: object identity, class, declared order() and
      the two capacity flags, which do not change after construction. */
  datatype Descriptor = Descriptor(
    instance: nat,
    cls: ClassId,
    order: int,
    hasGenericStores: bool,
    hasLongObjStores: bool)

  /** The two store shapes: general keyed stores and long-keyed ("long-obj") stores. */
  datatype Capability = GenericStores | LongObjStores

  predicate Offers(d: Descriptor, c: Capability) {
    match c
    case GenericStores => d.hasGenericStores
    case LongObjStores => d.hasLongObjStores
  }

  /** `instanceof NoOpStoreService`. */
  predicate IsNoOp(d: Descriptor) {
    d.cls == NoOpClass
  }

  /** What the model assumes of the no-op sentinel: it is of the no-op class and offers both
      capacities, so that a search for either capacity always finds it. */
  predicate SentinelContract(noop: Descriptor) {
    IsNoOp(noop) && noop.hasGenericStores && noop.hasLongObjStores
  }

  /** A `Class<?>` token passed to the store factories. */
  type TypeToken = string

  /** The key type a forwarding service boxes long keys into. */
  const LongType: TypeToken := "java.lang.Long"

  /** The opaque context handed to `init`. */
  datatype StoreContext = StoreContext(token: nat)

  /** The order() a service reports when it does not override the interface's default. */
  const DefaultOrder: int := 0

  /** The service shapes: a discovered instance used as is, the boxing fallback over a generic
      service, the composition of a generic and a primitive service, and the read-only
      decorator. */
  datatype Service =
    | Direct(backend: Descriptor)
    | Forwarding(forwarded: Service)
    | Composed(genericService: Service, primitiveService: Service)
    | ReadOnly(delegate: Service)

  /** A general keyed store, as produced by a backend or wrapped by a decorator. */
  datatype Store =
    | BackendStore(provider: Descriptor, keyType: TypeToken, valueType: TypeToken)
    | ReadOnlyStore(wrapped: Store)

  /** A long-keyed store: a backend's own, one boxing long keys over a general store, or a
      read-only wrapper. */
  datatype LongObjStore =
    | BackendLongObjStore(provider: Descriptor, valueType: TypeToken)
    | BoxedLongObjStore(boxed: Store)
    | ReadOnlyLongObjStore(wrapped: LongObjStore)

  /** One backend's `init(context)` call. */
  datatype InitCall = InitCall(target: Descriptor, context: StoreContext)

  /** The completion a `dispose()` call returns. */
  datatype Disposal =
    | Disposed(target: Descriptor)
    | BothDisposed(first: Disposal, second: Disposal)

  function Order(s: Service): int {
    match s
    case Direct(d) => d.order
    case Forwarding(f) => Order(f)
    case Composed(g, p) => if Order(g) > Order(p) then Order(g) else Order(p)
    case ReadOnly(_) => DefaultOrder
  }

  predicate HasGenericStores(s: Service) {
    match s
    case Direct(d) => d.hasGenericStores
    case Forwarding(f) => HasGenericStores(f)
    case Composed(g, _) => HasGenericStores(g)
    case ReadOnly(r) => HasGenericStores(r)
  }

  predicate HasLongObjStores(s: Service) {
    match s
    case Direct(d) => d.hasLongObjStores
    case Forwarding(f) => HasGenericStores(f)
    case Composed(_, p) => HasLongObjStores(p)
    case ReadOnly(r) => HasLongObjStores(r)
  }

  function ProvideGenericStore(s: Service, keyType: TypeToken, valueType: TypeToken): Store {
    match s
    case Direct(d) => BackendStore(d, keyType, valueType)
    case Forwarding(f) => ProvideGenericStore(f, keyType, valueType)
    case Composed(g, _) => ProvideGenericStore(g, keyType, valueType)
    case ReadOnly(r) => ReadOnlyStore(ProvideGenericStore(r, keyType, valueType))
  }

  function ProvideLongObjStore(s: Service, valueType: TypeToken): LongObjStore {
    match s
    case Direct(d) => BackendLongObjStore(d, valueType)
    case Forwarding(f) => BoxedLongObjStore(ProvideGenericStore(f, LongType, valueType))
    case Composed(_, p) => ProvideLongObjStore(p, valueType)
    case ReadOnly(r) => ReadOnlyLongObjStore(ProvideLongObjStore(r, valueType))
  }

  /** The backend init calls `init(context)` makes, in order. */
  function Init(s: Service, context: StoreContext): seq<InitCall> {
    match s
    case Direct(d) => [InitCall(d, context)]
    case Forwarding(f) => Init(f, context)
    case Composed(g, p) => Init(g, context) + Init(p, context)
    case ReadOnly(r) => Init(r, context)
  }

  function Dispose(s: Service): Disposal {
    match s
    case Direct(d) => Disposed(d)
    case Forwarding(f) => Dispose(f)
    case Composed(g, p) => BothDisposed(Dispose(g), Dispose(p))
    case ReadOnly(r) => Dispose(r)
  }
}
