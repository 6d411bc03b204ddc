/** The caching policy of the product repository, stated over its three
    operations: what a hit and a miss do, what each call leaves alone, how a
    create patches the cached list, and that as long as every write goes
    through the repository, the cache never answers with stale data. */
module CachePolicy {
  import opened Domain
  import opened Codec
  import opened Cache
  import opened Store
  import opened Repository

  // ----- GetByIdAsync -----

  /** A usable cached product is returned as it is; store and cache stay as they were. */
  lemma GetByIdHit(s: Snapshot, id: int, now: int, p: Product)
    requires ReadItemCache(s.cache, id, now) == Value(p)
    ensures GetByIdStep(s, id, now) == (Returned(Some(p)), s)
  {
  }

  /** On a miss for an id the store does not hold, the answer is `null` and
      the cache is not touched. */
  lemma GetByIdNotFound(s: Snapshot, id: int, now: int)
    requires ReadItemCache(s.cache, id, now) == Null
    requires FindIn(s.rows, id) == None
    ensures GetByIdStep(s, id, now) == (Returned(None), s)
  {
  }

  /** On a miss for a stored id, the stored product is returned and cached
      under its own key for three minutes; every other key keeps its entry. */
  lemma GetByIdFill(s: Snapshot, id: int, now: int, p: Product)
    requires ReadItemCache(s.cache, id, now) == Null
    requires FindIn(s.rows, id) == Some(p)
    ensures GetByIdStep(s, id, now)
            == (Returned(Some(p)), s.(cache := s.cache[ItemKey(id) := Entry(EncodeProduct(p), now + CacheTtl)]))
  {
  }

  /** A malformed cached product makes the call throw, with nothing changed. */
  lemma GetByIdMalformed(s: Snapshot, id: int, now: int)
    requires ReadItemCache(s.cache, id, now) == Malformed
    ensures GetByIdStep(s, id, now) == (Threw(JsonException), s)
  {
  }

  /** After a miss that found the product, every read of that id during the
      next three minutes is a hit that yields the same product. */
  lemma GetByIdThenHit(s: Snapshot, id: int, now: int, later: int)
    requires ReadItemCache(s.cache, id, now) == Null
    requires FindIn(s.rows, id).Some?
    requires now <= later < now + CacheTtl
    ensures ReadItemCache(GetByIdStep(s, id, now).1.cache, id, later) == Value(FindIn(s.rows, id).value)
    ensures GetByIdStep(GetByIdStep(s, id, now).1, id, later) == GetByIdStep(s, id, now)
  {
    ProductCodec(FindIn(s.rows, id).value);
  }

  // ----- GetAllAsync -----

  /** A usable cached list is returned as it is; store and cache stay as they were. */
  lemma GetAllHit(s: Snapshot, now: int, ps: seq<Product>)
    requires ReadListCache(s.cache, now) == Value(ps)
    ensures GetAllStep(s, now) == (Returned(ps), s)
  {
  }

  /** On a miss the whole table is returned in its order and cached under the
      list key for three minutes; every other key keeps its entry. */
  lemma GetAllFill(s: Snapshot, now: int)
    requires ReadListCache(s.cache, now) == Null
    ensures GetAllStep(s, now)
            == (Returned(s.rows), s.(cache := s.cache[ListKey := Entry(EncodeList(s.rows), now + CacheTtl)]))
  {
  }

  /** A malformed cached list makes the call throw, with nothing changed. */
  lemma GetAllMalformed(s: Snapshot, now: int)
    requires ReadListCache(s.cache, now) == Malformed
    ensures GetAllStep(s, now) == (Threw(JsonException), s)
  {
  }

  // ----- CreateProductAsync -----

  /** A create stores exactly one row, under an id no row had, and hands back
      that row; the counter moves on by one. */
  lemma CreateInsertsOne(s: Snapshot, p: Product, now: int)
    requires WellFormed(s.rows, s.nextId)
    ensures CreateStep(s, p, now).1.rows == s.rows + [p.(id := s.nextId)]
    ensures FindIn(s.rows, s.nextId) == None
    ensures WellFormed(CreateStep(s, p, now).1.rows, CreateStep(s, p, now).1.nextId)
    ensures CreateStep(s, p, now).0.Returned? ==> CreateStep(s, p, now).0.value == p.(id := s.nextId)
  {
    InsertKeepsWellFormed(s.rows, s.nextId, p);
  }

  /** A usable cached list gets the new product appended and a fresh three
      minutes; nothing else in the cache changes. */
  lemma CreatePatchesList(s: Snapshot, p: Product, now: int, ps: seq<Product>)
    requires ReadListCache(s.cache, now) == Value(ps)
    ensures CreateStep(s, p, now).0 == Returned(p.(id := s.nextId))
    ensures CreateStep(s, p, now).1.cache == s.cache[ListKey := Entry(EncodeList(ps + [p.(id := s.nextId)]), now + CacheTtl)]
  {
  }

  /** Without a usable cached list the cache is left exactly as it was: no
      list entry is made up. */
  lemma CreateLeavesMissingList(s: Snapshot, p: Product, now: int)
    requires ReadListCache(s.cache, now) == Null
    ensures CreateStep(s, p, now) == (Returned(p.(id := s.nextId)), s.(rows := s.rows + [p.(id := s.nextId)], nextId := s.nextId + 1))
  {
  }

  /** A malformed cached list makes the call throw after the row is stored:
      the caller sees an error for a product that was created. */
  lemma CreateMalformedList(s: Snapshot, p: Product, now: int)
    requires ReadListCache(s.cache, now) == Malformed
    ensures CreateStep(s, p, now).0 == Threw(JsonException)
    ensures CreateStep(s, p, now).1 == s.(rows := s.rows + [p.(id := s.nextId)], nextId := s.nextId + 1)
  {
  }

  /** A create never writes a per-product entry: what the cache answers for
      any product key, at any time, is what it answered before. */
  lemma CreateKeepsItemEntries(s: Snapshot, p: Product, now: int, id: int, t: int)
    ensures Lookup(CreateStep(s, p, now).1.cache, ItemKey(id), t) == Lookup(s.cache, ItemKey(id), t)
  {
    ListKeyIsNoItemKey(id);
  }

  /** A list read that filled the cache, then a create while that entry is
      alive, then another list read while the patched entry is alive: the last
      read is served from the cache and includes the new product, with no
      store read, and equals the table. */
  lemma GetAllSeesCreatedProduct(s0: Snapshot, p: Product, t0: int, t1: int, t2: int)
    requires ReadListCache(s0.cache, t0) == Null
    requires t0 <= t1 < t0 + CacheTtl
    requires t1 <= t2 < t1 + CacheTtl
    ensures var s1 := GetAllStep(s0, t0).1;
            var s2 := CreateStep(s1, p, t1).1;
            && ReadListCache(s2.cache, t2) == Value(s0.rows + [p.(id := s0.nextId)])
            && GetAllStep(s2, t2) == (Returned(s2.rows), s2)
  {
    var s1 := GetAllStep(s0, t0).1;
    ListCodec(s0.rows);
    assert ReadListCache(s1.cache, t1) == Value(s0.rows);
    var saved := p.(id := s0.nextId);
    ListCodec(s0.rows + [saved]);
  }

  // ----- coherence of cache and store -----

  /** What the cache answers for product `id` is usable only if it is the row
      the store holds; it is never malformed. */
  ghost predicate ItemEntryCorrect(s: Snapshot, id: int, now: int)
  {
    match ReadItemCache(s.cache, id, now)
    case Null => true
    case Value(p) => FindIn(s.rows, id) == Some(p)
    case Malformed => false
  }

  /** The cache, as seen at `now`, never answers with data that differs from
      the store, and the store's ids are well formed. */
  ghost predicate Coherent(s: Snapshot, now: int)
  {
    && WellFormed(s.rows, s.nextId)
    && (ReadListCache(s.cache, now) == Null || ReadListCache(s.cache, now) == Value(s.rows))
    && (forall id :: ItemEntryCorrect(s, id, now))
  }

  /** An empty cache is coherent with any well-formed store. */
  lemma EmptyCacheCoherent(rows: seq<Product>, nextId: int, now: int)
    requires WellFormed(rows, nextId)
    ensures Coherent(Snapshot(map[], rows, nextId), now)
  {
  }

  /** What the cache answers later is what it answered earlier, or nothing. */
  lemma ReadCacheLater(cache: map<string, Entry>, id: int, now: int, later: int)
    requires now <= later
    ensures ReadItemCache(cache, id, later) == Null || ReadItemCache(cache, id, later) == ReadItemCache(cache, id, now)
    ensures ReadListCache(cache, later) == Null || ReadListCache(cache, later) == ReadListCache(cache, now)
  {
  }

  /** Time passing keeps a coherent state coherent: entries only expire. */
  lemma CoherentLater(s: Snapshot, now: int, later: int)
    requires Coherent(s, now)
    requires now <= later
    ensures Coherent(s, later)
  {
    forall id ensures ItemEntryCorrect(s, id, later) {
      ReadCacheLater(s.cache, id, now, later);
      assert ItemEntryCorrect(s, id, now);
    }
    ReadCacheLater(s.cache, 0, now, later);
  }

  /** In a coherent state both reads answer with exactly what the store holds. */
  lemma CoherentReadsAreFresh(s: Snapshot, id: int, now: int)
    requires Coherent(s, now)
    ensures GetByIdStep(s, id, now).0 == Returned(FindIn(s.rows, id))
    ensures GetAllStep(s, now).0 == Returned(s.rows)
  {
    assert ItemEntryCorrect(s, id, now);
  }

  /** Writing product `id`'s entry changes what the cache says neither about
      the list nor about any other product. */
  lemma ItemWriteFrame(cache: map<string, Entry>, id: int, e: Entry, other: int, now: int)
    ensures ReadListCache(cache[ItemKey(id) := e], now) == ReadListCache(cache, now)
    ensures other != id ==> ReadItemCache(cache[ItemKey(id) := e], other, now) == ReadItemCache(cache, other, now)
  {
    ListKeyIsNoItemKey(id);
    LookupOtherKey(cache, ItemKey(id), e, ListKey, now);
    if other != id {
      if ItemKey(other) == ItemKey(id) {
        ItemKeyInjective(other, id);
      }
      LookupOtherKey(cache, ItemKey(id), e, ItemKey(other), now);
    }
  }

  /** After a fill of product `id` with its stored row, every product entry
      is still correct. */
  lemma FillKeepsItemEntry(s: Snapshot, id: int, p: Product, other: int, now: int)
    requires Coherent(s, now)
    requires FindIn(s.rows, id) == Some(p)
    ensures ItemEntryCorrect(s.(cache := s.cache[ItemKey(id) := Entry(EncodeProduct(p), now + CacheTtl)]), other, now)
  {
    var e := Entry(EncodeProduct(p), now + CacheTtl);
    if other == id {
      assert Lookup(s.cache[ItemKey(id) := e], ItemKey(id), now) == Some(EncodeProduct(p));
      ProductCodec(p);
    } else {
      ItemWriteFrame(s.cache, id, e, other, now);
      assert ItemEntryCorrect(s, other, now);
    }
  }

  lemma GetByIdKeepsCoherent(s: Snapshot, id: int, now: int)
    requires Coherent(s, now)
    ensures Coherent(GetByIdStep(s, id, now).1, now)
  {
    assert ItemEntryCorrect(s, id, now);
    if ReadItemCache(s.cache, id, now) == Null && FindIn(s.rows, id).Some? {
      var p := FindIn(s.rows, id).value;
      var e := Entry(EncodeProduct(p), now + CacheTtl);
      var s' := s.(cache := s.cache[ItemKey(id) := e]);
      assert GetByIdStep(s, id, now).1 == s';
      ItemWriteFrame(s.cache, id, e, id, now);
      assert ReadListCache(s'.cache, now) == ReadListCache(s.cache, now);
      forall other ensures ItemEntryCorrect(s', other, now) {
        FillKeepsItemEntry(s, id, p, other, now);
      }
    }
  }

  /** Writing the list entry changes what the cache says about no product. */
  lemma ListWriteFrame(cache: map<string, Entry>, e: Entry, id: int, now: int)
    ensures ReadItemCache(cache[ListKey := e], id, now) == ReadItemCache(cache, id, now)
  {
    ListKeyIsNoItemKey(id);
    LookupOtherKey(cache, ListKey, e, ItemKey(id), now);
  }

  lemma GetAllKeepsCoherent(s: Snapshot, now: int)
    requires Coherent(s, now)
    ensures Coherent(GetAllStep(s, now).1, now)
  {
    if ReadListCache(s.cache, now) == Null {
      var e := Entry(EncodeList(s.rows), now + CacheTtl);
      var s' := s.(cache := s.cache[ListKey := e]);
      assert GetAllStep(s, now).1 == s';
      ListCodec(s.rows);
      assert Lookup(s'.cache, ListKey, now) == Some(EncodeList(s.rows));
      assert ReadListCache(s'.cache, now) == Value(s.rows);
      forall id ensures ItemEntryCorrect(s', id, now) {
        ListWriteFrame(s.cache, e, id, now);
        assert ItemEntryCorrect(s, id, now);
      }
    }
  }

  lemma CreateKeepsCoherent(s: Snapshot, p: Product, now: int)
    requires Coherent(s, now)
    ensures Coherent(CreateStep(s, p, now).1, now)
  {
    var saved := p.(id := s.nextId);
    var s' := CreateStep(s, p, now).1;
    assert s'.rows == s.rows + [saved];
    InsertKeepsWellFormed(s.rows, s.nextId, p);
    if ReadListCache(s.cache, now).Value? {
      assert s'.cache == s.cache[ListKey := Entry(EncodeList(s.rows + [saved]), now + CacheTtl)];
      ListCodec(s.rows + [saved]);
    } else {
      assert s'.cache == s.cache;
    }
    assert ReadListCache(s'.cache, now) == Null || ReadListCache(s'.cache, now) == Value(s'.rows);
    forall id ensures ItemEntryCorrect(s', id, now) {
      CreateKeepsItemEntries(s, p, now, id, now);
      assert ReadItemCache(s'.cache, id, now) == ReadItemCache(s.cache, id, now);
      assert ItemEntryCorrect(s, id, now);
      FindInAppend(s.rows, saved, id);
    }
  }

  /** In a coherent state a create succeeds, and from then on, at any later
      time, reading the new product by its id yields exactly that product,
      whether or not anything was cached. */
  lemma CreatedProductIsReadable(s: Snapshot, p: Product, now: int, later: int)
    requires Coherent(s, now)
    requires now <= later
    ensures CreateStep(s, p, now).0 == Returned(p.(id := s.nextId))
    ensures GetByIdStep(CreateStep(s, p, now).1, s.nextId, later).0 == Returned(Some(p.(id := s.nextId)))
  {
    var s' := CreateStep(s, p, now).1;
    var saved := p.(id := s.nextId);
    CreateKeepsCoherent(s, p, now);
    CoherentLater(s', now, later);
    CoherentReadsAreFresh(s', s.nextId, later);
    InsertKeepsWellFormed(s.rows, s.nextId, p);
    FindInAppend(s.rows, saved, s.nextId);
  }
}
