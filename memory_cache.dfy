/** The in-memory write cache of the buffered chunk store: a capacity-bounded
    store keyed by chunk name that evicts its oldest entries first. */
module MemoryCache {
  import opened Chunks

  /** The entries left after evicting the oldest ones, one at a time, until
      `incoming` more bytes fit under `capacity`. */
  function Evicted(es: seq<Entry>, incoming: nat, capacity: nat): (r: seq<Entry>)
    requires Fits(capacity, incoming)
    ensures |r| <= |es| && r == es[|es| - |r|..]
    ensures HasRoom(capacity, Sum(r), incoming)
    decreases |es|
  {
    if HasRoom(capacity, Sum(es), incoming) then es
    else Evicted(es[1..], incoming, capacity)
  }

  /** Eviction stops as early as it can: every longer suffix of `es` still
      lacks room for the incoming bytes. */
  lemma {:induction false} EvictedMinimal(es: seq<Entry>, incoming: nat, capacity: nat)
    requires Fits(capacity, incoming)
    ensures var r := Evicted(es, incoming, capacity);
      forall k :: 0 <= k < |es| - |r| ==> !HasRoom(capacity, Sum(es[k..]), incoming)
    decreases |es|
  {
    if !HasRoom(capacity, Sum(es), incoming) {
      EvictedMinimal(es[1..], incoming, capacity);
      assert forall k :: 1 <= k <= |es| ==> es[k..] == es[1..][k - 1..];
    }
  }

  /** Eviction removes exactly the oldest `k` entries when `k` is the first
      count that leaves room. */
  lemma {:induction false} EvictedExactly(es: seq<Entry>, incoming: nat, capacity: nat, k: nat)
    requires Fits(capacity, incoming) && k <= |es|
    requires HasRoom(capacity, Sum(es[k..]), incoming)
    requires forall j :: 0 <= j < k ==> !HasRoom(capacity, Sum(es[j..]), incoming)
    ensures Evicted(es, incoming, capacity) == es[k..]
    decreases k
  {
    if k > 0 {
      assert es[0..] == es;
      assert es[1..][k - 1..] == es[k..];
      forall j | 0 <= j < k - 1 ensures !HasRoom(capacity, Sum(es[1..][j..]), incoming) {
        assert es[1..][j..] == es[j + 1..];
      }
      EvictedExactly(es[1..], incoming, capacity, k - 1);
    } else {
      assert es[0..] == es;
    }
  }

  /** The cache entries after a store of `content` under `name`: unchanged
      when the name is already cached or the content could never fit;
      otherwise the oldest entries are evicted until it fits and the new
      entry becomes the youngest. */
  function StoreStep(es: seq<Entry>, capacity: nat, name: Name, content: Bytes): (r: seq<Entry>)
    ensures forall e :: e in r ==> e in es || e == Entry(name, content)
    ensures name in Names(r) <==> name in Names(es) || Fits(capacity, |content|)
  {
    if name in Names(es) || !Fits(capacity, |content|) then es
    else
      var kept := Evicted(es, |content|, capacity);
      assert forall e :: e in kept ==> e in es by {
        forall e | e in kept ensures e in es {
          var i :| 0 <= i < |kept| && kept[i] == e;
          assert es[|es| - |kept| + i] == e;
        }
      }
      assert Entry(name, content) in kept + [Entry(name, content)];
      kept + [Entry(name, content)]
  }

  /** A store of a name not yet cached evicts exactly the oldest `k`
      entries when `k` is the first count that leaves room, and appends the
      new chunk as the youngest. */
  lemma StoreStepEvicts(es: seq<Entry>, capacity: nat, name: Name, content: Bytes, k: nat)
    requires name !in Names(es) && Fits(capacity, |content|) && k <= |es|
    requires HasRoom(capacity, Sum(es[k..]), |content|)
    requires forall j :: 0 <= j < k ==> !HasRoom(capacity, Sum(es[j..]), |content|)
    ensures StoreStep(es, capacity, name, content) == es[k..] + [Entry(name, content)]
  {
    EvictedExactly(es, |content|, capacity, k);
  }

  /** An unbounded cache never evicts: a chunk under a new name is simply
      appended. */
  lemma UnboundedAppends(es: seq<Entry>, name: Name, content: Bytes)
    requires name !in Names(es)
    ensures StoreStep(es, 0, name, content) == es + [Entry(name, content)]
  {
    assert es[0..] == es;
    StoreStepEvicts(es, 0, name, content, 0);
  }

  /** A store keeps the names distinct and the cache within its capacity. */
  lemma StoreStepKeepsValid(es: seq<Entry>, capacity: nat, name: Name, content: Bytes)
    requires DistinctNames(es) && HasRoom(capacity, Sum(es), 0)
    ensures var r := StoreStep(es, capacity, name, content);
      DistinctNames(r) && HasRoom(capacity, Sum(r), 0)
  {
    if name !in Names(es) && Fits(capacity, |content|) {
      var kept := Evicted(es, |content|, capacity);
      var e := Entry(name, content);
      SuffixKeepsNames(es, kept);
      DistinctSnoc(kept, e);
      SumSnoc(kept, e);
    }
  }

  /** A suffix of a list with distinct names has distinct names and no
      name the list lacks. */
  lemma SuffixKeepsNames(es: seq<Entry>, suffix: seq<Entry>)
    requires DistinctNames(es) && |suffix| <= |es| && suffix == es[|es| - |suffix|..]
    ensures DistinctNames(suffix) && Names(suffix) <= Names(es)
  {
    assert forall x :: x in suffix ==> x in es;
    forall i, j | 0 <= i < j < |suffix| ensures suffix[i].name != suffix[j].name {
      assert suffix[i] == es[|es| - |suffix| + i] && suffix[j] == es[|es| - |suffix| + j];
    }
  }

  /** After a store, the name holds its earlier content when it was already
      cached, the new content when that fits, and nothing otherwise; no other
      name appears. */
  lemma StoreStepContent(es: seq<Entry>, capacity: nat, name: Name, content: Bytes)
    requires DistinctNames(es) && HasRoom(capacity, Sum(es), 0)
    ensures var r := StoreStep(es, capacity, name, content);
      && Lookup(r, name) == (if name in Names(es) then Lookup(es, name)
                             else if Fits(capacity, |content|) then Some(content) else None)
      && Names(r) <= Names(es) + {name}
  {
    var r := StoreStep(es, capacity, name, content);
    if name !in Names(es) && Fits(capacity, |content|) {
      var kept := Evicted(es, |content|, capacity);
      SuffixKeepsNames(es, kept);
      DistinctSnoc(kept, Entry(name, content));
      assert Entry(name, content) in r;
    }
  }

  /** A store changes no other name's content: a name other than the one
      stored that is still cached after the store reads as before. */
  lemma StoreStepLookupOther(es: seq<Entry>, capacity: nat, name: Name, content: Bytes, other: Name)
    requires DistinctNames(es) && HasRoom(capacity, Sum(es), 0) && other != name
    ensures other in Names(StoreStep(es, capacity, name, content)) ==>
      Lookup(StoreStep(es, capacity, name, content), other) == Lookup(es, other)
  {
    var r := StoreStep(es, capacity, name, content);
    StoreStepKeepsValid(es, capacity, name, content);
    if other in Names(r) {
      var c := Lookup(r, other).value;
      assert Entry(other, c) in es;
    }
  }

  /** Whether a cache of `capacity` holding `es` can take `n` more bytes
      without evicting: exactly when a store of that size evicts nothing. */
  lemma {:induction false} VacantMeansNoEviction(es: seq<Entry>, capacity: nat, n: nat)
    requires Fits(capacity, n)
    ensures HasRoom(capacity, Sum(es), n) <==> Evicted(es, n, capacity) == es
  {
    if !HasRoom(capacity, Sum(es), n) {
      assert |Evicted(es[1..], n, capacity)| <= |es| - 1;
    }
  }

  /** Evicts the oldest of `es`, whose sizes total `used`, until `n` more
      bytes fit under `capacity`; returns what is kept and its total. */
  method EvictOldest(es: seq<Entry>, used: nat, capacity: nat, n: nat) returns (kept: seq<Entry>, left: nat)
    requires Fits(capacity, n) && used == Sum(es)
    ensures kept == Evicted(es, n, capacity) && left == Sum(kept)
  {
    kept, left := es, used;
    while !HasRoom(capacity, left, n)
      invariant left == Sum(kept)
      invariant Evicted(kept, n, capacity) == Evicted(es, n, capacity)
      decreases |kept|
    {
      left := left - |kept[0].content|;
      kept := kept[1..];
    }
  }

  /** Admits a chunk under a name not yet cached: evicts the oldest entries
      until it fits, then appends it; returns the entries and their total. */
  method Admit(es: seq<Entry>, used: nat, capacity: nat, name: Name, content: Bytes)
    returns (r: seq<Entry>, total: nat)
    requires DistinctNames(es) && used == Sum(es) && HasRoom(capacity, used, 0)
    requires name !in Names(es) && Fits(capacity, |content|)
    ensures r == StoreStep(es, capacity, name, content) && total == Sum(r)
    ensures DistinctNames(r) && HasRoom(capacity, total, 0)
  {
    StoreStepKeepsValid(es, capacity, name, content);
    var kept, left := EvictOldest(es, used, capacity, |content|);
    var e := Entry(name, content);
    SumSnoc(kept, e);
    r, total := kept + [e], left + |content|;
  }

  /** One step of removing the names of `names` in turn: removing the next
      name from what is left after the first `i` keeps the names distinct
      and lowers the total by that name's size. */
  lemma RemoveStep(es: seq<Entry>, names: seq<Name>, i: nat)
    requires DistinctNames(es) && i < |names|
    ensures var kept := Without(es, Elems(names[..i]));
      && Without(kept, {names[i]}) == Without(es, Elems(names[..i + 1]))
      && DistinctNames(Without(kept, {names[i]}))
      && Sum(Without(kept, {names[i]})) + SizeOf(kept, names[i]) == Sum(kept)
  {
    var kept := Without(es, Elems(names[..i]));
    WithoutPrefixStep(es, names, i);
    WithoutDistinct(es, Elems(names[..i]));
    WithoutDistinct(kept, {names[i]});
    SumWithout(kept, names[i]);
  }

  /** Removes the entries named in `names` from `es`, whose sizes total
      `used`, one name at a time; returns what is kept and its total. */
  method RemoveAll(es: seq<Entry>, used: nat, names: seq<Name>) returns (kept: seq<Entry>, left: nat)
    requires DistinctNames(es) && used == Sum(es)
    ensures kept == Without(es, Elems(names)) && left == Sum(kept)
  {
    kept, left := es, used;
    var i := 0;
    assert Elems(names[..0]) == {};
    while i < |names|
      invariant i <= |names|
      invariant kept == Without(es, Elems(names[..i]))
      invariant left == Sum(kept)
    {
      RemoveStep(es, names, i);
      left := left - SizeOf(kept, names[i]);
      kept := Without(kept, {names[i]});
      i := i + 1;
    }
    assert names[..i] == names;
  }

  class Cache {
    /** Cached chunks, oldest first: the FIFO eviction order. */
    var entries: seq<Entry>
    /** Running total of the cached content sizes. */
    var size: nat
    /** Byte limit of the cache; 0 means unbounded. */
    var capacity: nat

    ghost predicate Valid()
      reads this
    {
      DistinctNames(entries) && size == Sum(entries) && HasRoom(capacity, size, 0)
    }

    constructor ()
      ensures Valid() && entries == [] && size == 0 && capacity == 0
    {
      entries, size, capacity := [], 0, 0;
    }

    /** A name is cached exactly when a read finds content for it. */
    function Has(name: Name): (r: bool)
      reads this
      ensures r <==> Get(name).Some?
    {
      name in Names(entries)
    }

    /** The content cached under `name`: an entry of the cache, the only
        one with that name while the cache is valid. */
    function Get(name: Name): (r: Option<Bytes>)
      reads this
      ensures r.Some? ==> Entry(name, r.value) in entries
      ensures r.None? ==> forall e :: e in entries ==> e.name != name
      ensures Valid() ==> forall e :: e in entries && e.name == name ==> r == Some(e.content)
    {
      Lookup(entries, name)
    }

    /** The number of cached chunks: one per distinct cached name. */
    function Count(): (r: nat)
      reads this
      ensures Valid() ==> r == |Names(entries)|
    {
      assert Valid() ==> |entries| == |Names(entries)| by {
        if Valid() {
          NamesCard(entries);
        }
      }
      |entries|
    }

    /** Whether the cache holds nothing: no name is cached. */
    function Empty(): (r: bool)
      reads this
      ensures r <==> forall name :: !Has(name)
      ensures r <==> Count() == 0
    {
      assert entries != [] ==> Has(entries[0].name);
      entries == []
    }

    /** Whether `n` more bytes fit without evicting anything: only content
        that fits into the empty cache can, and while the cache is valid
        exactly when a store of that size would evict nothing. */
    function Vacant(n: nat): (r: bool)
      reads this
      ensures r ==> Fits(capacity, n)
      ensures Valid() && Fits(capacity, n) ==> (r <==> Evicted(entries, n, capacity) == entries)
    {
      assert Valid() && Fits(capacity, n) ==> (HasRoom(capacity, size, n) <==> Evicted(entries, n, capacity) == entries) by {
        if Valid() && Fits(capacity, n) {
          VacantMeansNoEviction(entries, capacity, n);
        }
      }
      HasRoom(capacity, size, n)
    }

    /** Stores `content` under `name`, evicting the oldest entries until it
        fits; a name already cached is left exactly as it is, and content
        larger than the whole capacity is refused without evicting. */
    method Store(name: Name, content: Bytes) returns (ok: bool)
      requires Valid()
      modifies this
      ensures Valid() && capacity == old(capacity)
      ensures ok <==> old(Has(name)) || Fits(capacity, |content|)
      ensures entries == StoreStep(old(entries), capacity, name, content)
    {
      if name in Names(entries) {
        return true;
      }
      if !Fits(capacity, |content|) {
        return false;
      }
      entries, size := Admit(entries, size, capacity, name, content);
      ok := true;
    }

    /** Removes the chunk stored under `name`, if cached. */
    method Delete(name: Name) returns (found: bool)
      requires Valid()
      modifies this
      ensures Valid() && capacity == old(capacity)
      ensures found == old(Has(name))
      ensures entries == Without(old(entries), {name})
    {
      found := name in Names(entries);
      SumWithout(entries, name);
      WithoutDistinct(entries, {name});
      size := size - SizeOf(entries, name);
      entries := Without(entries, {name});
    }

    /** Removes every chunk named in `names` that is cached, one name at a
        time, keeping the running total. */
    method DeleteAll(names: seq<Name>)
      requires Valid()
      modifies this
      ensures Valid() && capacity == old(capacity)
      ensures entries == Without(old(entries), Elems(names))
    {
      WithoutDistinct(entries, Elems(names));
      SumWithoutAtMost(entries, Elems(names));
      entries, size := RemoveAll(entries, size, names);
    }

    /** Drops every cached chunk; the capacity is kept. */
    method Clear()
      requires Valid()
      modifies this
      ensures Valid() && capacity == old(capacity)
      ensures entries == []
    {
      entries, size := [], 0;
    }

    /** Sets the limit, clamped so that it never falls below the current
        usage; nothing is evicted by this. */
    method SetCapacity(n: nat)
      requires Valid()
      modifies this
      ensures Valid() && entries == old(entries)
      ensures capacity == Clamped(n, size)
    {
      capacity := Clamped(n, size);
    }
  }
}
