# Cache-aside product repository

A Dafny model of `ProductRepository`. This class sits between a Redis cache
(reached through `IDistributedCache`) and a PostgreSQL table of products
(reached through EF Core). It has three operations:

- `GetByIdAsync(id)` reads the key `product:{id}`. A non-empty cached text
  that deserializes to a product is returned as it is. On a miss, the product
  is fetched from the table. An absent id gives `null` and leaves the cache
  alone. A present id is cached for three minutes and returned.
- `GetAllAsync()` follows the same pattern on the key `product:all`. The
  cached value is the whole table, in the table's order.
- `CreateProductAsync(product)` inserts the product, which gets the next
  identity value. If `product:all` holds a usable list, the new product is
  appended and the list is rewritten with a fresh three-minute expiry. It
  never creates a per-product entry.

Files:

- `domain.dfy`: the `Product` entity and `Option`, which stands for C#'s `null`.
- `codec.dfy`: a JSON-shaped serializer with three decode outcomes: `Null`
  (the text `null`), `Value` and `Malformed`. It has round-trip proofs for
  integers, names, products and lists. The converse is proved too: the
  decoder accepts exactly the encoder's texts plus `null`.
- `cache.dfy`: the distributed cache. It is a map from keys to
  (text, expiry instant). Entries are visible while `now` is before their
  expiry.
- `store.dfy`: the table. Rows are kept in insertion order, with an identity
  counter and a ghost count of database round trips.
- `repository.dfy`: the cache keys and one pure step function per operation
  over a `Snapshot` of cache and table. It also holds the class
  `ProductRepository`. Its methods call the cache and store objects in the
  source's order and are proved to follow the step functions.
- `policy.dfy`: the caching policy as lemmas. It covers hits, misses and
  frames, the list patch on create, the scenario "list read, create, list
  read", and a coherence invariant. Coherence says that while every write
  goes through the repository, the cache never answers with data that differs
  from the table.

Time is an integer parameter `now`, in seconds. The time-to-live is the
constant `CacheTtl = 180`.

Error behaviour, as the code has it:

- A corrupt cached entry is not treated as a miss. `JsonSerializer.Deserialize`
  (lines 40, 71 and 105) has no `try`/`catch` around it, so a malformed payload
  reaches the caller. The model returns `Threw(JsonException)`.
- In `CreateProductAsync` that exception comes after the insert has been
  saved. The caller sees an error, but the product exists
  (`CachePolicy.CreateMalformedList`).
- Only a missing or expired key, the empty string and the text `null` fall
  through to the store, as the `IsNullOrEmpty` and `!= null` checks do.
- `CreateProductAsync` takes a whole `Product`, not a name and a price.

## Model

| member | source | states |
|---|---|---|
| Repository.ListKey | Infrastructure/Repositories/ProductRepository.cs:33 | the list is cached under the fixed key `product:all`, the same key the create patches |
| Repository.CacheTtl | Infrastructure/Repositories/ProductRepository.cs:54 | every cache write expires 180 seconds (three minutes) after it is made |
| Repository.ItemKey | Infrastructure/Repositories/ProductRepository.cs:65 | the key of a product is `product:` followed by more text |
| Repository.ItemKeyReadsBack | Infrastructure/Repositories/ProductRepository.cs:65 | the text after `product:` parses back to exactly the id, with nothing left over |
| Repository.ListKeyIsNoItemKey | Infrastructure/Repositories/ProductRepository.cs:33-65 | the list key `product:all` differs from `product:{id}` for every id, so list and product entries never collide |
| Repository.ItemKeyInjective | Infrastructure/Repositories/ProductRepository.cs:65 | two ids with the same `product:{id}` key are the same id |
| Repository.CachedPayload | Infrastructure/Repositories/ProductRepository.cs:68-69 | a cached text is used exactly when the key is present, not expired and not the empty string, and it is the stored text |
| Repository.ReadItemCache | Infrastructure/Repositories/ProductRepository.cs:68-73 | the read falls through exactly when the key is missing or expired, or holds the empty text or `null`; a product is used only when the entry holds exactly that product's serialized text; `ReadItemCacheHit` gives the converse |
| Repository.ReadListCache | Infrastructure/Repositories/ProductRepository.cs:36-43 | the same for the list key: fall through exactly on missing, expired, empty or `null`, and a list is used only when the entry holds exactly its serialized text; `ReadListCacheHit` gives the converse |
| Repository.ReadItemCacheHit | Infrastructure/Repositories/ProductRepository.cs:68-73 | a live entry holding exactly a product's serialized text is read as that product |
| Repository.ReadListCacheHit | Infrastructure/Repositories/ProductRepository.cs:36-42 | a live list entry holding exactly a list's serialized text is read as that list |
| Repository.Inserted | Infrastructure/Repositories/ProductRepository.cs:98-99 | the stored product keeps the caller's name and price and carries the table's next identity value |
| Repository.GetByIdStep | Infrastructure/Repositories/ProductRepository.cs:63-94 | reading one product never changes the table's rows or its identity counter |
| Repository.GetAllStep | Infrastructure/Repositories/ProductRepository.cs:31-61 | reading the list never changes the table's rows or its identity counter |
| Repository.PatchListStep | Infrastructure/Repositories/ProductRepository.cs:102-118 | after the save the call throws exactly when the cached list is malformed, and otherwise returns the saved product; no key appears or disappears, and every key other than `product:all` keeps exactly its entry, expiry included |
| Repository.PatchListStepList | Infrastructure/Repositories/ProductRepository.cs:102-118 | a usable cached list reads back afterwards with the saved product appended; a missing, empty, `null` or malformed list entry leaves the cache exactly as it was |
| Repository.CreateStep | Infrastructure/Repositories/ProductRepository.cs:96-121 | a create appends exactly one row, the product with the next identity value, and advances the counter by one |
| Repository.ProductRepository.constructor | Infrastructure/Repositories/ProductRepository.cs:25-29 | the repository keeps the cache and the table it is given |
| Repository.ProductRepository.ReadCachedProductAsync | Infrastructure/Repositories/ProductRepository.cs:68-73 | reads `product:{id}` without changing anything and answers exactly what `ReadItemCache` says about it |
| Repository.ProductRepository.ReadCachedListAsync | Infrastructure/Repositories/ProductRepository.cs:36-42 | reads `product:all` without changing anything and answers exactly what `ReadListCache` says about it |
| Repository.ProductRepository.GetByIdAsync | Infrastructure/Repositories/ProductRepository.cs:63-94 | result and new cache are those of `GetByIdStep`; the table is queried once exactly when the cache has no usable product, and never on a hit |
| Repository.ProductRepository.GetAllAsync | Infrastructure/Repositories/ProductRepository.cs:31-61 | result and new cache are those of `GetAllStep`; the table is queried once exactly when the cache has no usable list |
| Repository.ProductRepository.CreateProductAsync | Infrastructure/Repositories/ProductRepository.cs:96-121 | result, cache and table are those of `CreateStep`; the table's ids stay unique; the save is one database round trip |
| Repository.ProductRepository.PatchCachedListAsync | Infrastructure/Repositories/ProductRepository.cs:102-118 | result and new cache are those of `PatchListStep` |
| Cache.Lookup | Infrastructure/Repositories/ProductRepository.cs:68 | the cache answers a text exactly while the key is present and unexpired, and the text is the stored one |
| Cache.LookupOtherKey | Infrastructure/Repositories/ProductRepository.cs:91 | writing one key changes what the cache answers under no other key |
| Cache.LookupEarlier | Infrastructure/Repositories/ProductRepository.cs:85-88 | an entry visible now was visible, with the same text, at every earlier instant: expiry is absolute, never extended by reads |
| Cache.DistributedCache.GetStringAsync | Infrastructure/Repositories/ProductRepository.cs:68 | answers the stored text while the entry is unexpired, otherwise `null`, and changes nothing |
| Cache.DistributedCache.SetStringAsync | Infrastructure/Repositories/ProductRepository.cs:85-91 | replaces the one entry under the key, expiring `ttl` seconds after `now`, and the text is readable at `now` when `ttl` is positive |
| Cache.DistributedCache.constructor | Infrastructure/Repositories/ProductRepository.cs:21 | the stand-in for the injected `IDistributedCache` starts with no entries; the repository itself never builds a cache, this is only the starting state of the model |
| Store.FindIn | Infrastructure/Repositories/ProductRepository.cs:80 | a found row is in the table and carries the id; no result means no row carries the id |
| Store.FindInUnique | Infrastructure/Repositories/ProductRepository.cs:80 | with unique ids, looking up a row's id finds that very row |
| Store.FindInAppend | Infrastructure/Repositories/ProductRepository.cs:98-99 | appending a row changes no earlier lookup and makes the new row findable by its id |
| Store.InsertKeepsWellFormed | Infrastructure/Repositories/ProductRepository.cs:98-99 | the next identity value is free, and storing a row under it keeps ids unique and below the advanced counter |
| Store.ProductStore.constructor | Infrastructure/Data/AppDbContext.cs:13 | a new table is empty, well formed and starts its identity at 1 |
| Store.ProductStore.FindAsync | Infrastructure/Repositories/ProductRepository.cs:80 | answers the row with the id, or `null`, and counts one database round trip |
| Store.ProductStore.ToListAsync | Infrastructure/Repositories/ProductRepository.cs:49 | answers every row in table order and counts one database round trip |
| Store.ProductStore.AddAndSave | Infrastructure/Repositories/ProductRepository.cs:98-99 | stores the product under the next identity value, which was free, writes that id back into the product and keeps ids unique |
| Codec.NatToStringRoundTrip | Infrastructure/Repositories/ProductRepository.cs:90 | the decimal digits of a natural number read back as that number |
| Codec.IntRoundTrip | Infrastructure/Repositories/ProductRepository.cs:90 | an integer's text, followed by any non-digit, parses back to the integer and leaves the rest |
| Codec.StringBodyRoundTrip | Infrastructure/Repositories/ProductRepository.cs:90 | an escaped name, closed by a quote, parses back to the name and leaves the rest |
| Codec.NameRoundTrip | Infrastructure/Repositories/ProductRepository.cs:90 | a present or absent name parses back exactly, including absence as `null` |
| Codec.ProductRoundTrip | Infrastructure/Repositories/ProductRepository.cs:90 | a serialized product, followed by anything, parses back to the product and leaves the rest |
| Codec.NatToStringOfDigits | Infrastructure/Repositories/ProductRepository.cs:71 | a digit string without leading zeros is the text of the number it denotes |
| Codec.ParseNatConverse | Infrastructure/Repositories/ProductRepository.cs:71 | whatever the digit reader accepts is a natural number's text followed by a rest that is empty or starts with a non-digit, so leading zeros are refused |
| Codec.ParseIntConverse | Infrastructure/Repositories/ProductRepository.cs:71 | whatever the integer reader accepts is an integer's text followed by the rest, so `007` and `-0` are refused |
| Codec.StringBodyConverse | Infrastructure/Repositories/ProductRepository.cs:71 | whatever the string reader accepts is an escaped name, its closing quote and the rest, so escapes other than `\"` and `\\` are refused |
| Codec.NameConverse | Infrastructure/Repositories/ProductRepository.cs:71 | whatever the name reader accepts is a present or absent name's text followed by the rest |
| Codec.ProductConverse | Infrastructure/Repositories/ProductRepository.cs:71 | whatever the product reader accepts is a product's text followed by the rest |
| Codec.ItemsConverse | Infrastructure/Repositories/ProductRepository.cs:40 | whatever the list-body reader accepts is a non-empty list's items, the closing `]` and the rest |
| Codec.ListConverse | Infrastructure/Repositories/ProductRepository.cs:40 | whatever the list reader accepts is a list's text followed by the rest |
| Codec.EncodeProduct | Infrastructure/Repositories/ProductRepository.cs:90 | a serialized product is neither empty nor `null`, so once cached it is never taken for a miss |
| Codec.DecodeProduct | Infrastructure/Repositories/ProductRepository.cs:71 | deserializing gives a null reference for exactly the text `null`, and a product only for exactly the text serialization writes for it |
| Codec.ProductCodec | Infrastructure/Repositories/ProductRepository.cs:71 | a serialized product deserializes to the same product |
| Codec.ItemsRoundTrip | Infrastructure/Repositories/ProductRepository.cs:57 | the serialized products of a non-empty list, closed by `]`, parse back to the same products in order |
| Codec.EncodeList | Infrastructure/Repositories/ProductRepository.cs:57 | a serialized list is neither empty nor `null`, so once cached it is never taken for a miss |
| Codec.DecodeList | Infrastructure/Repositories/ProductRepository.cs:40 | deserializing gives a null reference for exactly the text `null`, and a list only for exactly the text serialization writes for it |
| Codec.ListCodec | Infrastructure/Repositories/ProductRepository.cs:40 | a serialized list deserializes to the same products in the same order |
| CachePolicy.GetByIdHit | Infrastructure/Repositories/ProductRepository.cs:68-74 | a usable cached product is returned, and cache and table are unchanged |
| CachePolicy.GetByIdNotFound | Infrastructure/Repositories/ProductRepository.cs:80-82 | on a miss for an id the table lacks, the answer is `null` and the cache is unchanged |
| CachePolicy.GetByIdFill | Infrastructure/Repositories/ProductRepository.cs:80-93 | on a miss for a stored id, the row is returned and the new cache is the old one with `product:{id}` set to the serialized row, expiring at `now + 180`; the table is unchanged |
| CachePolicy.GetByIdMalformed | Infrastructure/Repositories/ProductRepository.cs:71 | a malformed cached product throws, and nothing changes |
| CachePolicy.GetByIdThenHit | Infrastructure/Repositories/ProductRepository.cs:85-91 | after a filling miss, each read of that id in the next 180 seconds is a hit with the same product and no change |
| CachePolicy.GetAllHit | Infrastructure/Repositories/ProductRepository.cs:36-43 | a usable cached list is returned, and cache and table are unchanged |
| CachePolicy.GetAllFill | Infrastructure/Repositories/ProductRepository.cs:49-60 | on a miss the whole table is returned in order, and the new cache is the old one with `product:all` set to the serialized table, expiring at `now + 180`; the table is unchanged |
| CachePolicy.GetAllMalformed | Infrastructure/Repositories/ProductRepository.cs:40 | a malformed cached list throws, and nothing changes |
| CachePolicy.CreateInsertsOne | Infrastructure/Repositories/ProductRepository.cs:98-99 | a create adds exactly one row under an id no row had, keeps ids unique, and a normal return hands back that row |
| CachePolicy.CreatePatchesList | Infrastructure/Repositories/ProductRepository.cs:102-118 | a usable cached list L becomes `L + [product]` expiring at `now + 180`, nothing else in the cache changes, and the stored product is returned |
| CachePolicy.CreateLeavesMissingList | Infrastructure/Repositories/ProductRepository.cs:102-120 | without a usable cached list the cache is exactly as before; only the table changes |
| CachePolicy.CreateMalformedList | Infrastructure/Repositories/ProductRepository.cs:98-105 | a malformed cached list throws after the row is committed, so the table keeps the product |
| CachePolicy.CreateKeepsItemEntries | Infrastructure/Repositories/ProductRepository.cs:96-121 | a create never changes what the cache answers under any `product:{id}` key, at any time |
| CachePolicy.GetAllSeesCreatedProduct | Infrastructure/Repositories/ProductRepository.cs:102-118 | a list read that filled the cache, then a create, then a list read within the expiry windows returns the table including the new product from the cache, without a table read |
| CachePolicy.EmptyCacheCoherent | Infrastructure/Repositories/ProductRepository.cs:21-22 | starting the injected cache empty gives a coherent state with any well-formed table, so the invariant has a starting point (the repository itself never builds a cache) |
| CachePolicy.ReadCacheLater | Infrastructure/Repositories/ProductRepository.cs:52-55 | what the cache answers later is what it answered earlier or a miss |
| CachePolicy.CoherentLater | Infrastructure/Repositories/ProductRepository.cs:52-55 | coherence at one instant implies coherence at every later instant |
| CachePolicy.CoherentReadsAreFresh | Infrastructure/Repositories/ProductRepository.cs:31-94 | in a coherent state `GetByIdAsync` answers exactly the table's row (or `null`) and `GetAllAsync` exactly the table |
| CachePolicy.GetByIdKeepsCoherent | Infrastructure/Repositories/ProductRepository.cs:63-94 | reading one product keeps cache and table coherent |
| CachePolicy.GetAllKeepsCoherent | Infrastructure/Repositories/ProductRepository.cs:31-61 | reading the list keeps cache and table coherent |
| CachePolicy.CreateKeepsCoherent | Infrastructure/Repositories/ProductRepository.cs:96-121 | creating a product keeps cache and table coherent, because the cached list is patched and no product entry can exist for the fresh id |
| CachePolicy.CreatedProductIsReadable | Infrastructure/Repositories/ProductRepository.cs:96-121 | in a coherent state a create succeeds, and reading its id at any later time yields exactly the created product, whatever was cached |

## Left out

- The simulated two-second delay before each store read (ProductRepository.cs lines 46 and 77). It only affects timing. All steps of one call therefore see the same `now`.
- The static `_products` list (ProductRepository.cs lines 14-19). Nothing reads it.
- The exact text of System.Text.Json. The real serializer escapes control characters, non-ASCII and HTML-sensitive characters as `\u` sequences, and writes a quote as `\u0022`. The model's encoder escapes only a quote and a backslash, as `\"` and `\\`, and writes every other character as it is. The model's decoder accepts exactly the encoder's output plus `null` and treats every other text as malformed. The real deserializer accepts some texts that the model calls malformed: whitespace between tokens, other property orders, `-0`, and escapes such as `\n` or `\u0041`.
- The table scan is taken to yield rows in insertion order. `ToListAsync` at ProductRepository.cs line 49 sends a query without `ORDER BY`, and PostgreSQL does not fix the order of such a query. Every clause that equates a list answer with the table's rows depends on this. These are the list clause of `CachePolicy.Coherent`, which `CachePolicy.GetAllKeepsCoherent` re-establishes after a fill and `CachePolicy.CreateKeepsCoherent` keeps by the patch `L + [product]`; the `GetAllAsync` clause of `CachePolicy.CoherentReadsAreFresh`; and `CachePolicy.GetAllSeesCreatedProduct`, whose cached list is `rows + [product]` and whose last read returns the table. `CachePolicy.CreatedProductIsReadable` and the clauses about reads by id do not depend on it.
- Faults of the cache or the database. Redis being unreachable, a failed `SaveChangesAsync`, and cancellation would all throw in the code. The model has no such faults. Only the deserializer's exception is modelled.
- `Repository.ProductRepository.CreateProductAsync`: the id the caller puts into the product is ignored, and the next identity value is always used. EF Core would try to insert a caller-set id as it is. The only caller (`CreateProductCommandHandler`) never sets one.
- EF Core change tracking. `FindAsync` may return an already-tracked instance, and `SaveChangesAsync` mutates that object. Products are modelled as values.
- 32-bit integers: ids, prices and the identity counter are unbounded. No arithmetic is done on them except advancing the counter, whose overflow is not modelled.
- The `RedisDemo_` key prefix, the connection settings (API/Program.cs) and Redis's own expiry mechanics. The model only assumes that an entry is visible strictly before its expiry instant and absent from then on.
- Async/await and concurrent callers. Each call is modelled as one atomic step. The races between a read filling the cache and a create patching the list are not modelled.
- `Domain/Entities/Product.cs` is not part of this model. Its fields (`Id`, nullable `Name`, `Price`) are taken from the seed list and from `CreateProductCommand`.
- The HTTP controller, the MediatR handlers, commands and queries, `IProductRepository`, `AppDbContext` and the migration. These are wiring and pass-through, with no logic of their own.
