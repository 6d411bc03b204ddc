/** The cache-aside product repository (`ProductRepository`): reads try the
    cache first and fill it from the store on a miss; a create writes the store
    and then patches the cached product list, if there is one.

    The three operations are first given as functions from a snapshot of
    cache and store to an outcome and a new snapshot; the class's methods,
    which drive the cache and store objects step by step, are proved to follow
    them, and the lemmas below state the policy in terms of the functions. */
module Repository {
  import opened Domain
  import opened Codec
  import opened Cache
  import opened Store

  /** `AbsoluteExpirationRelativeToNow = TimeSpan.FromMinutes(3)`, in seconds. */
  const CacheTtl: nat := 180

  /** The key of the cached product list. */
  const ListKey: string := "product:all"

  /** The key of one cached product, `$"product:{id}"`: the prefix, then the
      id's text. */
  function ItemKey(id: int): (k: string)
    ensures |k| > 8 && k[..8] == "product:"
  {
    "product:" + IntToString(id)
  }

  /** The id reads back exactly from what follows the prefix of its key. */
  lemma ItemKeyReadsBack(id: int)
    ensures ParseInt(ItemKey(id)[8..]) == Some((id, []))
  {
    assert ItemKey(id)[8..] == IntToString(id) + [];
    IntRoundTrip(id, []);
  }

  /** The list entry and a product entry never share a key. */
  lemma ListKeyIsNoItemKey(id: int)
    ensures ItemKey(id) != ListKey
  {
    assert ItemKey(id)[8] == IntToString(id)[0];
    assert ListKey[8] == 'a';
  }

  /** Different products never share a key. */
  lemma ItemKeyInjective(a: int, b: int)
    requires ItemKey(a) == ItemKey(b)
    ensures a == b
  {
    ItemKeyReadsBack(a);
    ItemKeyReadsBack(b);
  }

  /** `JsonException`, thrown by the deserializer on a malformed payload and
      not caught by the repository. */
  datatype Fault = JsonException

  /** How a call ends: with a value, or with an exception that reaches the caller. */
  datatype Outcome<T> = Returned(value: T) | Threw(fault: Fault)

  /** Everything the repository's behaviour depends on: the cache entries, the
      table's rows in order and its identity counter. */
  datatype Snapshot = Snapshot(cache: map<string, Entry>, rows: seq<Product>, nextId: int)

  /** The cached string under `key`, unless it is missing, expired or empty
      (`!string.IsNullOrEmpty(cachedData)`). */
  function CachedPayload(cache: map<string, Entry>, key: string, now: int): (r: Option<string>)
    ensures r.Some? <==> Lookup(cache, key, now).Some? && Lookup(cache, key, now).value != ""
    ensures r.Some? ==> r.value == Lookup(cache, key, now).value
  {
    match Lookup(cache, key, now)
    case Some(v) => if v == "" then None else Some(v)
    case None => None
  }

  /** What the cache says about product `id`: `Null` sends the read on to the
      store, whether the entry is missing, expired, empty or the text `null`;
      a product comes only from an entry holding exactly its serialized text. */
  function ReadItemCache(cache: map<string, Entry>, id: int, now: int): (r: Decoded<Product>)
    ensures r.Null? <==> Lookup(cache, ItemKey(id), now) in {None, Some(""), Some("null")}
    ensures r.Value? ==> Lookup(cache, ItemKey(id), now) == Some(EncodeProduct(r.value))
  {
    match CachedPayload(cache, ItemKey(id), now)
    case None => Null
    case Some(v) => DecodeProduct(v)
  }

  /** What the cache says about the product list, in the same sense. */
  function ReadListCache(cache: map<string, Entry>, now: int): (r: Decoded<seq<Product>>)
    ensures r.Null? <==> Lookup(cache, ListKey, now) in {None, Some(""), Some("null")}
    ensures r.Value? ==> Lookup(cache, ListKey, now) == Some(EncodeList(r.value))
  {
    match CachedPayload(cache, ListKey, now)
    case None => Null
    case Some(v) => DecodeList(v)
  }

  /** A live entry holding exactly a product's serialized text is read as
      that product. */
  lemma ReadItemCacheHit(cache: map<string, Entry>, id: int, now: int, p: Product)
    requires Lookup(cache, ItemKey(id), now) == Some(EncodeProduct(p))
    ensures ReadItemCache(cache, id, now) == Value(p)
  {
    ProductCodec(p);
  }

  /** A live list entry holding exactly a list's serialized text is read as
      that list. */
  lemma ReadListCacheHit(cache: map<string, Entry>, now: int, ps: seq<Product>)
    requires Lookup(cache, ListKey, now) == Some(EncodeList(ps))
    ensures ReadListCache(cache, now) == Value(ps)
  {
    ListCodec(ps);
  }

  /** `GetByIdAsync(id)` at time `now`. */
  function GetByIdStep(s: Snapshot, id: int, now: int): (r: (Outcome<Option<Product>>, Snapshot))
    ensures r.1.rows == s.rows && r.1.nextId == s.nextId
  {
    match ReadItemCache(s.cache, id, now)
    case Malformed => (Threw(JsonException), s)
    case Value(p) => (Returned(Some(p)), s)
    case Null =>
      match FindIn(s.rows, id)
      case None => (Returned(None), s)
      case Some(p) =>
        (Returned(Some(p)), s.(cache := s.cache[ItemKey(id) := Entry(EncodeProduct(p), now + CacheTtl)]))
  }

  /** `GetAllAsync()` at time `now`. */
  function GetAllStep(s: Snapshot, now: int): (r: (Outcome<seq<Product>>, Snapshot))
    ensures r.1.rows == s.rows && r.1.nextId == s.nextId
  {
    match ReadListCache(s.cache, now)
    case Malformed => (Threw(JsonException), s)
    case Value(ps) => (Returned(ps), s)
    case Null => (Returned(s.rows), s.(cache := s.cache[ListKey := Entry(EncodeList(s.rows), now + CacheTtl)]))
  }

  /** The product as stored by a create: the store's next id written into it. */
  function Inserted(s: Snapshot, p: Product): (r: Product)
    ensures r.id == s.nextId && r.name == p.name && r.price == p.price
  {
    p.(id := s.nextId)
  }

  /** The cache half of a create, once the row is stored as `saved`: a usable
      cached list gets `saved` appended and a fresh expiry, a missing one is
      left missing, and a malformed one makes the call throw. */
  function PatchListStep(cache: map<string, Entry>, saved: Product, now: int): (r: (Outcome<Product>, map<string, Entry>))
    ensures r.0 == (if ReadListCache(cache, now).Malformed? then Threw(JsonException) else Returned(saved))
    ensures forall key :: key in r.1 <==> key in cache
    ensures forall key :: key != ListKey && key in cache ==> r.1[key] == cache[key]
  {
    match ReadListCache(cache, now)
    case Malformed => (Threw(JsonException), cache)
    case Null => (Returned(saved), cache)
    case Value(ps) => (Returned(saved), cache[ListKey := Entry(EncodeList(ps + [saved]), now + CacheTtl)])
  }

  /** What the list entry becomes: a usable cached list reads back afterwards
      with `saved` appended, and any other cache is left exactly as it was. */
  lemma PatchListStepList(cache: map<string, Entry>, saved: Product, now: int)
    ensures ReadListCache(cache, now).Value? ==>
              ReadListCache(PatchListStep(cache, saved, now).1, now) == Value(ReadListCache(cache, now).value + [saved])
    ensures !ReadListCache(cache, now).Value? ==> PatchListStep(cache, saved, now).1 == cache
  {
    if ReadListCache(cache, now).Value? {
      var ps := ReadListCache(cache, now).value;
      var e := Entry(EncodeList(ps + [saved]), now + CacheTtl);
      assert PatchListStep(cache, saved, now).1 == cache[ListKey := e];
      assert Lookup(cache[ListKey := e], ListKey, now) == Some(EncodeList(ps + [saved]));
      ReadListCacheHit(cache[ListKey := e], now, ps + [saved]);
    }
  }

  /** `CreateProductAsync(p)` at time `now`. The insert is committed before the
      cache is consulted, so it stays even when the call then throws. */
  function CreateStep(s: Snapshot, p: Product, now: int): (r: (Outcome<Product>, Snapshot))
    ensures r.1.rows == s.rows + [Inserted(s, p)] && r.1.nextId == s.nextId + 1
  {
    var saved := Inserted(s, p);
    var patched := PatchListStep(s.cache, saved, now);
    (patched.0, Snapshot(patched.1, s.rows + [saved], s.nextId + 1))
  }

  class ProductRepository {
    const cache: DistributedCache
    const context: ProductStore

    constructor (cache: DistributedCache, context: ProductStore)
      ensures this.cache == cache && this.context == context
    {
      this.cache := cache;
      this.context := context;
    }

    ghost function Current(): Snapshot
      reads cache, context
    {
      Snapshot(cache.entries, context.rows, context.nextId)
    }

    /** The cache half of a read by id: fetch `product:{id}` and, when it is
        neither missing nor empty, deserialize it. */
    method ReadCachedProductAsync(id: int, now: int) returns (d: Decoded<Product>)
      ensures d == ReadItemCache(cache.entries, id, now)
    {
      var cachedData := cache.GetStringAsync(ItemKey(id), now);
      if cachedData.Some? && cachedData.value != "" {
        d := DecodeProduct(cachedData.value);
      } else {
        d := Null;
      }
    }

    /** The cache half of a list read: fetch `product:all` and, when it is
        neither missing nor empty, deserialize it. */
    method ReadCachedListAsync(now: int) returns (d: Decoded<seq<Product>>)
      ensures d == ReadListCache(cache.entries, now)
    {
      var cachedData := cache.GetStringAsync(ListKey, now);
      if cachedData.Some? && cachedData.value != "" {
        d := DecodeList(cachedData.value);
      } else {
        d := Null;
      }
    }

    /** The store is consulted exactly when the cache has no usable product. */
    method GetByIdAsync(id: int, now: int) returns (r: Outcome<Option<Product>>)
      modifies cache, context`queries
      ensures (r, Current()) == GetByIdStep(old(Current()), id, now)
      ensures context.queries == old(context.queries)
                                 + (if ReadItemCache(old(cache.entries), id, now).Null? then 1 else 0)
    {
      var productFromCache := ReadCachedProductAsync(id, now);
      match productFromCache {
        case Malformed => return Threw(JsonException);
        case Value(p) => return Returned(Some(p));
        case Null =>
      }
      var product := context.FindAsync(id);
      if product.None? {
        return Returned(None);
      }
      cache.SetStringAsync(ItemKey(id), EncodeProduct(product.value), CacheTtl, now);
      return Returned(Some(product.value));
    }

    /** The store is consulted exactly when the cache has no usable list. */
    method GetAllAsync(now: int) returns (r: Outcome<seq<Product>>)
      modifies cache, context`queries
      ensures (r, Current()) == GetAllStep(old(Current()), now)
      ensures context.queries == old(context.queries)
                                 + (if ReadListCache(old(cache.entries), now).Null? then 1 else 0)
    {
      var productsFromCache := ReadCachedListAsync(now);
      match productsFromCache {
        case Malformed => return Threw(JsonException);
        case Value(ps) => return Returned(ps);
        case Null =>
      }
      var productsFromDb := context.ToListAsync();
      cache.SetStringAsync(ListKey, EncodeList(productsFromDb), CacheTtl, now);
      return Returned(productsFromDb);
    }

    method CreateProductAsync(product: Product, now: int) returns (r: Outcome<Product>)
      requires context.Valid()
      modifies cache, context
      ensures context.Valid()
      ensures (r, Current()) == CreateStep(old(Current()), product, now)
      ensures context.queries == old(context.queries) + 1
    {
      var saved := context.AddAndSave(product);
      r := PatchCachedListAsync(saved, now);
    }

    /** The part of `CreateProductAsync` after the save: read the cached list
        and, when it is usable, write it back with `saved` appended. */
    method PatchCachedListAsync(saved: Product, now: int) returns (r: Outcome<Product>)
      modifies cache
      ensures (r, cache.entries) == PatchListStep(old(cache.entries), saved, now)
    {
      var cachedList := ReadCachedListAsync(now);
      match cachedList {
        case Malformed => return Threw(JsonException);
        case Value(ps) =>
          var updated := ps + [saved];
          cache.SetStringAsync(ListKey, EncodeList(updated), CacheTtl, now);
        case Null =>
      }
      return Returned(saved);
    }
  }
}
