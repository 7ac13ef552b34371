/** The buffered chunk store: a FIFO memory cache in front of a durable tier
    with removable-chunk reclamation, seen by callers as one store. */
module BufferedStore {
  import opened Chunks
  import opened MemoryCache
  import opened DurableStore

  /** The pluggable name validation: one check for chunks written through to
      the durable tier, one for chunks placed in the cache only. */
  datatype Validation = Validation(forStoring: Validator, forCaching: Validator)

  /** The tiers agree: a name held by both has the same content in both. */
  ghost predicate Agree(cached: seq<Entry>, durable: seq<Entry>)
  {
    forall name :: name in Names(cached) && name in Names(durable) ==> Lookup(cached, name) == Lookup(durable, name)
  }

  /** Removing the same names from both tiers keeps them in agreement. */
  lemma AgreeWithout(cached: seq<Entry>, durable: seq<Entry>, gone: set<Name>)
    requires Agree(cached, durable)
    ensures Agree(Without(cached, gone), Without(durable, gone))
  {
    forall name | name in Names(Without(cached, gone)) && name in Names(Without(durable, gone))
      ensures Lookup(Without(cached, gone), name) == Lookup(Without(durable, gone), name)
    {
      LookupWithout(cached, gone, name);
      LookupWithout(durable, gone, name);
    }
  }

  /** Appending a chunk to the durable tier under a new name keeps the tiers
      in agreement when the cache holds that name with the same content or
      not at all. */
  lemma AgreeDurableSnoc(cached: seq<Entry>, durable: seq<Entry>, e: Entry)
    requires Agree(cached, durable) && e.name !in Names(durable)
    requires e.name !in Names(cached) || Lookup(cached, e.name) == Some(e.content)
    ensures Agree(cached, durable + [e])
  {
    NamesSnoc(durable, e);
    forall name | name in Names(cached) && name in Names(durable + [e])
      ensures Lookup(cached, name) == Lookup(durable + [e], name)
    {
      if name == e.name {
        LookupSnoc(durable, e);
      } else {
        LookupSnocOther(durable, e, name);
      }
    }
  }

  /** A cache store keeps the tiers in agreement when the durable tier
      lacks the name or holds it with the content stored. */
  lemma AgreeCacheStep(cached: seq<Entry>, durable: seq<Entry>, capacity: nat, name: Name, content: Bytes)
    requires Agree(cached, durable) && DistinctNames(cached) && HasRoom(capacity, Sum(cached), 0)
    requires name !in Names(durable) || Lookup(durable, name) == Some(content)
    ensures Agree(StoreStep(cached, capacity, name, content), durable)
  {
    var r := StoreStep(cached, capacity, name, content);
    StoreStepContent(cached, capacity, name, content);
    forall other | other in Names(r) && other in Names(durable)
      ensures Lookup(r, other) == Lookup(durable, other)
    {
      if other != name {
        StoreStepLookupOther(cached, capacity, name, content, other);
      }
    }
  }

  /** The cached entries whose names the durable tier does not hold. */
  function CacheOnly(cached: seq<Entry>, durable: seq<Entry>): seq<Entry>
  {
    Without(cached, Names(durable))
  }

  /** The number of chunks the store knows: every durable chunk, plus every
      cached chunk the durable tier lacks. */
  function UnionCount(cached: seq<Entry>, durable: seq<Entry>): nat
  {
    |durable| + |CacheOnly(cached, durable)|
  }

  /** The bytes the store accounts for, a name held by both tiers once. */
  function UnionSize(cached: seq<Entry>, durable: seq<Entry>): nat
  {
    Sum(durable) + Sum(CacheOnly(cached, durable))
  }

  /** The count is the number of distinct names held by either tier. */
  lemma UnionCountIsNames(cached: seq<Entry>, durable: seq<Entry>)
    requires DistinctNames(cached) && DistinctNames(durable)
    ensures UnionCount(cached, durable) == |Names(cached) + Names(durable)|
  {
    var rest := CacheOnly(cached, durable);
    WithoutDistinct(cached, Names(durable));
    NamesCard(durable);
    NamesCard(rest);
    assert Names(cached) + Names(durable) == Names(durable) + Names(rest);
    assert Names(durable) !! Names(rest);
  }

  /** The size the store accounts for under `name`: the durable copy's when
      the durable tier holds it, else the cached copy's, else 0. */
  function HeldSize(name: Name, cached: seq<Entry>, durable: seq<Entry>): nat
  {
    if name in Names(durable) then SizeOf(durable, name) else SizeOf(cached, name)
  }

  /** The sizes held under each of `ns`, added up. */
  function HeldSizes(ns: seq<Name>, cached: seq<Entry>, durable: seq<Entry>): nat
  {
    if ns == [] then 0
    else HeldSizes(ns[..|ns| - 1], cached, durable) + HeldSize(ns[|ns| - 1], cached, durable)
  }

  /** The size of the store is the sum, over every name either tier holds,
      of the size held under that name: each chunk counted once. */
  lemma {:induction false} UnionSizeIsNames(cached: seq<Entry>, durable: seq<Entry>, ns: seq<Name>)
    requires DistinctNames(cached) && DistinctNames(durable)
    requires Distinct(ns) && Elems(ns) == Names(cached) + Names(durable)
    ensures UnionSize(cached, durable) == HeldSizes(ns, cached, durable)
    decreases |ns|
  {
    if ns == [] {
      NamesEmpty(cached);
      NamesEmpty(durable);
    } else {
      var init, last := ns[..|ns| - 1], ns[|ns| - 1];
      var c, d := Without(cached, {last}), Without(durable, {last});
      WithoutDistinct(cached, {last});
      WithoutDistinct(durable, {last});
      DistinctNamesInit(ns);
      assert Elems(init) == Names(c) + Names(d);
      UnionSizeIsNames(c, d, init);
      HeldSizesWithout(init, cached, durable, last);
      UnionSizeWithout(cached, durable, last);
    }
  }

  /** Taking one name out of both tiers lowers the size by what that name
      held. */
  lemma UnionSizeWithout(cached: seq<Entry>, durable: seq<Entry>, name: Name)
    requires DistinctNames(cached) && DistinctNames(durable)
    ensures UnionSize(cached, durable)
         == UnionSize(Without(cached, {name}), Without(durable, {name})) + HeldSize(name, cached, durable)
  {
    var c, d := Without(cached, {name}), Without(durable, {name});
    SumWithout(durable, name);
    WithoutTwice(cached, {name}, Names(d));
    if name in Names(durable) {
      assert {name} + Names(d) == Names(durable);
    } else {
      assert d == durable;
      var rest := CacheOnly(cached, durable);
      WithoutDistinct(cached, Names(durable));
      WithoutTwice(cached, Names(durable), {name});
      assert {name} + Names(d) == Names(durable) + {name};
      SumWithout(rest, name);
      LookupWithout(cached, Names(durable), name);
    }
  }

  /** Names other than `name` hold the same size once `name` is taken out
      of both tiers. */
  lemma {:induction false} HeldSizesWithout(ns: seq<Name>, cached: seq<Entry>, durable: seq<Entry>, name: Name)
    requires name !in Elems(ns)
    ensures HeldSizes(ns, Without(cached, {name}), Without(durable, {name})) == HeldSizes(ns, cached, durable)
    decreases |ns|
  {
    if ns != [] {
      var init, last := ns[..|ns| - 1], ns[|ns| - 1];
      assert last in Elems(ns);
      assert Elems(init) <= Elems(ns);
      HeldSizesWithout(init, cached, durable, name);
      LookupWithout(cached, {name}, last);
      LookupWithout(durable, {name}, last);
    }
  }

  /** When every cached chunk is also durable, the store counts and measures
      exactly the durable tier. */
  lemma CachedWithinDurable(cached: seq<Entry>, durable: seq<Entry>)
    requires Names(cached) <= Names(durable)
    ensures UnionCount(cached, durable) == |durable|
    ensures UnionSize(cached, durable) == Sum(durable)
  {
    var rest := CacheOnly(cached, durable);
    NamesEmpty(rest);
  }

  /** After a write-through of `content` under `name`, the cache returns
      that content for the name. */
  lemma WriteThroughCached(cached: seq<Entry>, gone: set<Name>, capacity: nat, name: Name, content: Bytes)
    requires DistinctNames(cached) && HasRoom(capacity, Sum(cached), 0) && name !in gone
    requires Lookup(cached, name) == Some(content) || (name !in Names(cached) && Fits(capacity, |content|))
    ensures Lookup(StoreStep(Without(cached, gone), capacity, name, content), name) == Some(content)
  {
    var kept := Without(cached, gone);
    LookupWithout(cached, gone, name);
    WithoutDistinct(cached, gone);
    SumWithoutAtMost(cached, gone);
    StoreStepContent(kept, capacity, name, content);
  }

  /** A write-through keeps the tiers in agreement: the names in `gone`
      leave both tiers, the chunk is appended to the durable tier and
      stored in the cache, which holds it with the same content or not at
      all beforehand. */
  lemma WriteThroughAgree(cached: seq<Entry>, durable: seq<Entry>, gone: set<Name>,
                          capacity: nat, name: Name, content: Bytes)
    requires Agree(cached, durable) && DistinctNames(cached) && HasRoom(capacity, Sum(cached), 0)
    requires name !in Names(durable) && name !in gone
    requires Lookup(cached, name) == Some(content) || name !in Names(cached)
    ensures Agree(StoreStep(Without(cached, gone), capacity, name, content),
                  Without(durable, gone) + [Entry(name, content)])
  {
    var c, d, e := Without(cached, gone), Without(durable, gone), Entry(name, content);
    AgreeWithout(cached, durable, gone);
    LookupWithout(cached, gone, name);
    AgreeDurableSnoc(c, d, e);
    LookupSnoc(d, e);
    WithoutDistinct(cached, gone);
    SumWithoutAtMost(cached, gone);
    AgreeCacheStep(c, d + [e], capacity, name, content);
  }

  class BufferedChunkStore {
    const validation: Validation
    const cache: Cache
    const perm: Durable

    /** Both tiers are valid and agree on every chunk they share. */
    ghost predicate Valid()
      reads this, cache, perm
    {
      cache.Valid() && perm.Valid() && Agree(cache.entries, perm.records)
    }

    /** A store with an empty, unbounded cache and an empty, unbounded
        durable tier. */
    constructor (validation: Validation)
      ensures Valid() && fresh(cache) && fresh(perm)
      ensures this.validation == validation
      ensures cache.entries == [] && cache.capacity == 0
      ensures perm.records == [] && perm.marked == [] && perm.capacity == 0
    {
      this.validation := validation;
      cache := new Cache();
      perm := new Durable();
    }

    /** A chunk is known while either tier holds it. */
    function Has(name: Name): (r: bool)
      reads this, cache, perm
      ensures r <==> name in Names(cache.entries) + Names(perm.records)
    {
      cache.Has(name) || perm.Has(name)
    }

    /** The number of chunks known: the distinct names either tier holds. */
    function Count(): (r: nat)
      reads this, cache, perm
      ensures Valid() ==> r == |Names(cache.entries) + Names(perm.records)|
    {
      assert Valid() ==> UnionCount(cache.entries, perm.records) == |Names(cache.entries) + Names(perm.records)| by {
        if Valid() {
          UnionCountIsNames(cache.entries, perm.records);
        }
      }
      UnionCount(cache.entries, perm.records)
    }

    /** The bytes held, a chunk in both tiers counted once: at least the
        durable tier's, at most both tiers' together, and exactly the
        durable tier's while every cached chunk is durable too. */
    function Size(): (r: nat)
      reads this, cache, perm
      ensures Sum(perm.records) <= r <= Sum(perm.records) + Sum(cache.entries)
      ensures Names(cache.entries) <= Names(perm.records) ==> r == Sum(perm.records)
    {
      SumWithoutAtMost(cache.entries, Names(perm.records));
      assert Names(cache.entries) <= Names(perm.records) ==> UnionSize(cache.entries, perm.records) == Sum(perm.records) by {
        if Names(cache.entries) <= Names(perm.records) {
          CachedWithinDurable(cache.entries, perm.records);
        }
      }
      UnionSize(cache.entries, perm.records)
    }

    /** Whether the store knows no chunk at all. */
    function Empty(): (r: bool)
      reads this, cache, perm
      ensures r <==> forall name :: !Has(name)
    {
      var rest := CacheOnly(cache.entries, perm.records);
      assert perm.records != [] ==> Has(perm.records[0].name);
      assert rest != [] ==> Has(rest[0].name) by {
        if rest != [] {
          assert rest[0] in rest;
        }
      }
      assert perm.records == [] && rest == [] ==> forall name :: !Has(name) by {
        if perm.records == [] && rest == [] {
          NamesEmpty(rest);
        }
      }
      Count() == 0
    }

    /** Whether a store of `content` under `name` succeeds: a name the
        durable tier holds always does; a name only cached is written
        through with its cached content; a new name needs content the
        validator accepts, that fits into the cache, and that the durable
        tier can admit. */
    function StoreAccepts(name: Name, content: Bytes): bool
      reads this, cache, perm
    {
      && name != []
      && (|| perm.Has(name)
          || (&& (cache.Has(name) || (Acceptable(validation.forStoring, name, content)
                                      && Fits(cache.capacity, |content|)))
              && perm.CanAdmit(|Written(name, content)|)))
    }

    /** The content a store under `name` writes through: the cached content
        when the name is cached (the first write wins), else the given one. */
    function Written(name: Name, content: Bytes): (c: Bytes)
      reads this, cache
    {
      match cache.Get(name)
      case Some(cached) => cached
      case None => content
    }

    /** Places a chunk in the cache only. A name already cached, or already
        durable, succeeds and changes nothing, so the cache never holds other
        content than the durable tier under one name; a new one needs content
        the caching check accepts and that fits into the cache. */
    method CacheStore(name: Name, src: Source) returns (ok: bool)
      requires Valid()
      modifies cache
      ensures Valid() && cache.capacity == old(cache.capacity)
      ensures ok <==> name != [] && (old(cache.Has(name)) || old(perm.Has(name))
                      || (Acceptable(validation.forCaching, name, Content(src))
                          && Fits(cache.capacity, |Content(src)|)))
      ensures cache.entries == if ok && !old(perm.Has(name))
                               then StoreStep(old(cache.entries), cache.capacity, name, Content(src))
                               else old(cache.entries)
    {
      var content := Content(src);
      if name == [] {
        return false;
      }
      if name in Names(perm.records) {
        return true;
      }
      if !(name in Names(cache.entries) || Acceptable(validation.forCaching, name, content)) {
        return false;
      }
      AgreeCacheStep(cache.entries, perm.records, cache.capacity, name, content);
      ok := cache.Store(name, content);
    }

    /** Writes a chunk the durable tier lacks to both tiers, with the
        content it is to keep: the cached content when the name is cached,
        else content that fits into the cache. The marked chunks the durable
        tier reclaims to make room leave the cache as well. Fails, changing
        nothing, when the durable tier cannot make room. */
    method WriteThrough(name: Name, content: Bytes) returns (ok: bool)
      requires Valid() && !perm.Has(name)
      requires cache.Get(name) == Some(content) || (!cache.Has(name) && Fits(cache.capacity, |content|))
      modifies cache, perm
      ensures Valid()
      ensures cache.capacity == old(cache.capacity) && perm.capacity == old(perm.capacity)
      ensures ok == old(perm.CanAdmit(|content|))
      ensures !ok ==> && cache.entries == old(cache.entries)
                      && perm.records == old(perm.records) && perm.marked == old(perm.marked)
      ensures ok ==> perm.Get(name) == Some(content) && cache.Get(name) == Some(content)
      ensures ok ==>
        var gone := old(perm.ToReclaim(|content|));
        && perm.records == Without(old(perm.records), Elems(gone)) + [Entry(name, content)]
        && perm.marked == old(perm.marked)[|gone|..]
        && cache.entries == StoreStep(Without(old(cache.entries), Elems(gone)), cache.capacity, name, content)
    {
      var gone;
      ghost var cachedBefore, durableBefore := cache.entries, perm.records;
      ok, gone := perm.Store(name, content);
      if !ok {
        return;
      }
      assert Elems(gone) <= Elems(old(perm.marked)) by {
        forall n | n in gone ensures n in old(perm.marked) {
          var i :| 0 <= i < |gone| && gone[i] == n;
          assert old(perm.marked)[i] == n;
        }
      }
      assert name !in Elems(gone);
      WriteThroughCached(cachedBefore, Elems(gone), cache.capacity, name, content);
      WriteThroughAgree(cachedBefore, durableBefore, Elems(gone), cache.capacity, name, content);
      LookupSnoc(Without(old(perm.records), Elems(gone)), Entry(name, content));
      cache.DeleteAll(gone);
      var cached := cache.Store(name, content);
    }

    /** Stores a chunk in both tiers. On success a new chunk is durable and
        cached; the marked chunks the durable tier reclaimed to make room
        leave the cache as well. On failure nothing changes. */
    method Store(name: Name, src: Source) returns (ok: bool)
      requires Valid()
      modifies cache, perm
      ensures Valid()
      ensures cache.capacity == old(cache.capacity) && perm.capacity == old(perm.capacity)
      ensures ok <==> old(StoreAccepts(name, Content(src)))
      ensures !ok || old(perm.Has(name)) ==>
        && cache.entries == old(cache.entries)
        && perm.records == old(perm.records) && perm.marked == old(perm.marked)
      ensures ok ==> Has(name) && perm.Has(name)
      ensures ok && !old(perm.Has(name)) ==>
        && perm.Get(name) == Some(old(Written(name, Content(src))))
        && cache.Get(name) == perm.Get(name)
      ensures ok && !old(perm.Has(name)) ==>
        var content := old(Written(name, Content(src)));
        var gone := old(perm.ToReclaim(|content|));
        && perm.records == Without(old(perm.records), Elems(gone)) + [Entry(name, content)]
        && perm.marked == old(perm.marked)[|gone|..]
        && cache.entries == StoreStep(Without(old(cache.entries), Elems(gone)), cache.capacity, name, content)
    {
      if name == [] {
        return false;
      }
      if name in Names(perm.records) {
        return true;
      }
      var content := Content(src);
      match Lookup(cache.entries, name) {
        case Some(cached) =>
          content := cached;
        case None =>
          if !(Acceptable(validation.forStoring, name, content) && Fits(cache.capacity, |content|)) {
            return false;
          }
      }
      ok := WriteThrough(name, content);
    }

    /** Reads a chunk, preferring the cache. As the tiers agree, a durable
        chunk reads back its durable content whichever tier serves it. A
        chunk found only in the durable tier is copied into the cache,
        evicting as a cache store would; the durable tier is left as it was. */
    method Get(name: Name) returns (r: Option<Bytes>)
      requires Valid()
      modifies cache
      ensures Valid() && cache.capacity == old(cache.capacity)
      ensures r.Some? <==> old(Has(name))
      ensures r == if old(cache.Has(name)) then old(cache.Get(name)) else old(perm.Get(name))
      ensures old(perm.Has(name)) ==> r == old(perm.Get(name))
      ensures cache.entries == if r.Some? && !old(cache.Has(name))
                               then StoreStep(old(cache.entries), cache.capacity, name, r.value)
                               else old(cache.entries)
    {
      if name in Names(cache.entries) {
        return Lookup(cache.entries, name);
      }
      r := Lookup(perm.records, name);
      if r.Some? {
        AgreeCacheStep(cache.entries, perm.records, cache.capacity, name, r.value);
        var cached := cache.Store(name, r.value);
      }
    }

    /** Removes a chunk from both tiers, with its removable mark; reports
        whether either tier held it. */
    method Delete(name: Name) returns (found: bool)
      requires Valid()
      modifies cache, perm
      ensures Valid()
      ensures cache.capacity == old(cache.capacity) && perm.capacity == old(perm.capacity)
      ensures found == old(Has(name))
      ensures !Has(name)
      ensures cache.entries == Without(old(cache.entries), {name})
      ensures perm.records == Without(old(perm.records), {name})
      ensures perm.marked == Drop(old(perm.marked), {name})
    {
      AgreeWithout(cache.entries, perm.records, {name});
      var inCache := cache.Delete(name);
      var inPerm := perm.Delete(name);
      found := inCache || inPerm;
    }

    /** Empties the cache. The store forgets nothing it holds durably: when
        every cached chunk was durable, count and size are unchanged, and
        in any case they are now those of the durable tier. */
    method CacheClear()
      requires Valid()
      modifies cache
      ensures Valid() && cache.capacity == old(cache.capacity) && cache.entries == []
      ensures Count() == |perm.records| && Size() == Sum(perm.records)
      ensures Names(old(cache.entries)) <= Names(perm.records) ==>
        Count() == old(Count()) && Size() == old(Size())
    {
      if Names(cache.entries) <= Names(perm.records) {
        CachedWithinDurable(cache.entries, perm.records);
      }
      cache.Clear();
      NamesEmpty(cache.entries);
      CachedWithinDurable(cache.entries, perm.records);
    }

    /** Sets the cache limit, clamped to the cache's current usage. */
    method SetCacheCapacity(n: nat)
      requires Valid()
      modifies cache
      ensures Valid() && cache.entries == old(cache.entries)
      ensures cache.capacity == Clamped(n, old(cache.size))
    {
      cache.SetCapacity(n);
    }

    /** Sets the durable limit, clamped to the durable tier's current usage. */
    method SetCapacity(n: nat)
      requires Valid()
      modifies perm
      ensures Valid() && perm.records == old(perm.records) && perm.marked == old(perm.marked)
      ensures perm.capacity == Clamped(n, old(perm.size))
    {
      perm.SetCapacity(n);
    }

    /** Marks a durable chunk removable, so that a later store may reclaim
        its space; reports whether the durable tier holds it. */
    method MarkForDeletion(name: Name) returns (found: bool)
      requires Valid()
      modifies perm
      ensures Valid() && perm.records == old(perm.records) && perm.capacity == old(perm.capacity)
      ensures found == old(perm.Has(name))
      ensures perm.marked == if found && name !in old(perm.marked) then old(perm.marked) + [name]
                             else old(perm.marked)
    {
      found := perm.MarkForDeletion(name);
    }
  }
}
