/** The buffered chunk store's documented scenarios, stated over the
    specification functions from an empty tier, or over a store in the state
    each scenario starts from. Chunk names and contents are parameters; what
    the scenarios need of them (sizes, distinct names, names the validation
    accepts) is stated as preconditions. */
module Scenarios {
  import opened Chunks
  import opened MemoryCache
  import opened DurableStore
  import opened BufferedStore

  /** Chunks placed in an empty cache, one after the other, in the given
      order, under CacheStore of the named chunks. */
  function Replay(es: seq<Entry>, capacity: nat): seq<Entry>
    decreases |es|
  {
    if es == [] then []
    else
      var last := es[|es| - 1];
      StoreStep(Replay(es[..|es| - 1], capacity), capacity, last.name, last.content)
  }

  /** An unbounded cache never evicts: storing chunks with distinct names
      keeps all of them, oldest first. */
  lemma {:induction false} ReplayUnbounded(es: seq<Entry>)
    requires DistinctNames(es)
    ensures Replay(es, 0) == es
    decreases |es|
  {
    if es != [] {
      var init, last := es[..|es| - 1], es[|es| - 1];
      DistinctInit(es);
      ReplayUnbounded(init);
      UnboundedAppends(init, last.name, last.content);
      assert init + [last] == es;
    }
  }

  /** An unbounded cache given two distinct chunks keeps both, oldest
      first; the rejected stores (empty content, empty name, an unreadable
      file) need nothing of the validator to fail; a store under a cached
      name succeeds whatever its content and leaves the cache as it was. */
  lemma CacheStoreTrace(v: Validator, nm: Name, cm: Bytes, nf: Name, cf: Bytes)
    requires |cm| == 123 && |cf| == 456 && nm != nf
    ensures var em, ef := Entry(nm, cm), Entry(nf, cf);
      && !Acceptable(v, nm, []) && !Acceptable(v, [], cm) && Content(Unreadable) == []
      && StoreStep([], 0, nm, cm) == [em] && Sum([em]) == 123
      && StoreStep([em], 0, nf, cf) == [em, ef] && Sum([em, ef]) == 579
      && (forall c :: StoreStep([em, ef], 0, nm, c) == [em, ef] && StoreStep([em, ef], 0, nf, c) == [em, ef])
  {
    var em, ef := Entry(nm, cm), Entry(nf, cf);
    NamesSmall(em, ef);
    SumSmall(em, ef);
    var none: seq<Entry> := [];
    NamesEmpty(none);
    assert none + [em] == [em];
    UnboundedAppends(none, nm, cm);
    assert [em] + [ef] == [em, ef];
    UnboundedAppends([em], nf, cf);
  }

  /** A third chunk under a new name joins the two cached ones, and the
      cache then holds 912 bytes. */
  lemma CacheStoreThird(nm: Name, cm: Bytes, nf: Name, cf: Bytes, nn: Name, cn: Bytes)
    requires |cm| == 123 && |cf| == 456 && |cn| == 333
    requires nm != nf && nm != nn && nf != nn
    ensures var em, ef, en := Entry(nm, cm), Entry(nf, cf), Entry(nn, cn);
      StoreStep([em, ef], 0, nn, cn) == [em, ef, en] && Sum([em, ef, en]) == 912
  {
    var em, ef, en := Entry(nm, cm), Entry(nf, cf), Entry(nn, cn);
    NamesSmall(em, ef);
    SumSmall(em, ef);
    assert [em, ef] + [en] == [em, ef, en];
    UnboundedAppends([em, ef], nn, cn);
    SumSnoc([em, ef], en);
  }

  /** Three cached chunks under distinct names each read back with their
      own content. */
  lemma ThreeCachedRead(em: Entry, ef: Entry, en: Entry)
    requires em.name != ef.name && em.name != en.name && ef.name != en.name
    ensures Lookup([em, ef, en], em.name) == Some(em.content)
    ensures Lookup([em, ef, en], ef.name) == Some(ef.content)
    ensures Lookup([em, ef, en], en.name) == Some(en.content)
  {
    NamesSmall(em, ef);
    assert DistinctNames([em, ef]) by {
      DistinctSnoc([em], ef);
    }
    DistinctSnoc([em, ef], en);
    assert [em, ef] + [en] == [em, ef, en];
    assert em in [em, ef, en] && ef in [em, ef, en] && en in [em, ef, en];
  }

  /** A cache limited to 125 bytes fills up: 125 bytes are vacant, 126 are
      not; a 100-byte chunk is stored; a 50-byte chunk evicts it. */
  lemma CapacityFill(n1: Name, c1: Bytes, n2: Name, c2: Bytes)
    requires |c1| == 100 && |c2| == 50 && n1 != n2
    ensures var e1, e2 := Entry(n1, c1), Entry(n2, c2);
      && HasRoom(0, 0, 0) && HasRoom(0, 0, 123456789)
      && Clamped(125, 0) == 125 && HasRoom(125, 0, 125) && !HasRoom(125, 0, 126)
      && HasRoom(125, 0, |c1|) && StoreStep([], 125, n1, c1) == [e1] && Sum([e1]) == 100
      && !HasRoom(125, Sum([e1]), |c2|) && StoreStep([e1], 125, n2, c2) == [e2] && Sum([e2]) == 50
  {
    var e1, e2 := Entry(n1, c1), Entry(n2, c2);
    var none: seq<Entry> := [];
    SumSmall(e1, e1);
    SumSmall(e2, e2);
    NamesEmpty(none);
    assert none[0..] == none && none + [e1] == [e1];
    StoreStepEvicts(none, 125, n1, c1, 0);
    NamesSmall(e1, e1);
    assert [e1][0..] == [e1] && [e1][1..] == none && none + [e2] == [e2];
    StoreStepEvicts([e1], 125, n2, c2, 1);
  }

  /** A 25-byte chunk then fits beside the 50-byte one without eviction. */
  lemma CapacityFillBeside(n2: Name, c2: Bytes, n3: Name, c3: Bytes)
    requires |c2| == 50 && |c3| == 25 && n2 != n3
    ensures var e2, e3 := Entry(n2, c2), Entry(n3, c3);
      && HasRoom(125, Sum([e2]), |c3|) && StoreStep([e2], 125, n3, c3) == [e2, e3] && Sum([e2, e3]) == 75
  {
    var e2, e3 := Entry(n2, c2), Entry(n3, c3);
    SumSmall(e2, e3);
    NamesSmall(e2, e2);
    assert [e2][0..] == [e2] && [e2] + [e3] == [e2, e3];
    StoreStepEvicts([e2], 125, n3, c3, 0);
  }

  /** Eviction is first in, first out: in a full 125-byte cache holding a
      50-byte and then a 25-byte chunk, a 100-byte chunk evicts the older
      one only; storing it again changes nothing. */
  lemma CapacityFifo(n1: Name, c1: Bytes, n2: Name, c2: Bytes, n3: Name, c3: Bytes)
    requires |c1| == 100 && |c2| == 50 && |c3| == 25
    requires n1 != n2 && n1 != n3 && n2 != n3
    ensures var e1, e2, e3 := Entry(n1, c1), Entry(n2, c2), Entry(n3, c3);
      && !HasRoom(125, Sum([e2, e3]), |c1|) && StoreStep([e2, e3], 125, n1, c1) == [e3, e1]
      && Sum([e3, e1]) == 125
      && !HasRoom(125, Sum([e3, e1]), |c1|) && StoreStep([e3, e1], 125, n1, c1) == [e3, e1]
  {
    var e1, e2, e3 := Entry(n1, c1), Entry(n2, c2), Entry(n3, c3);
    NamesSmall(e2, e3);
    SumSmall(e2, e3);
    SumSmall(e3, e1);
    assert [e2, e3][0..] == [e2, e3] && [e2, e3][1..] == [e3];
    StoreStepEvicts([e2, e3], 125, n1, c1, 1);
    NamesSmall(e3, e1);
  }

  /** In the full cache holding the 25-byte and then the 100-byte chunk, a
      50-byte chunk has to evict both. */
  lemma CapacityFifoAll(n1: Name, c1: Bytes, n2: Name, c2: Bytes, n3: Name, c3: Bytes)
    requires |c1| == 100 && |c2| == 50 && |c3| == 25
    requires n1 != n2 && n2 != n3
    ensures var e1, e2, e3 := Entry(n1, c1), Entry(n2, c2), Entry(n3, c3);
      !HasRoom(125, Sum([e3, e1]), |c2|) && StoreStep([e3, e1], 125, n2, c2) == [e2]
  {
    var e1, e2, e3 := Entry(n1, c1), Entry(n2, c2), Entry(n3, c3);
    NamesSmall(e3, e1);
    SumSmall(e3, e1);
    SumSmall(e1, e1);
    assert [e3, e1][2..] == [];
    forall j | 0 <= j < 2 ensures !HasRoom(125, Sum([e3, e1][j..]), |c2|) {
      assert [e3, e1][0..] == [e3, e1] && [e3, e1][1..] == [e1];
    }
    StoreStepEvicts([e3, e1], 125, n2, c2, 2);
  }

  /** A limit of 10 set on a cache holding 50 bytes is clamped to 50; a
      100-byte chunk is then refused and a 25-byte one evicts the 50-byte
      one; raised to 100, the cache admits a 100-byte chunk by evicting. */
  lemma CapacityClamp(n1: Name, c1: Bytes, n2: Name, c2: Bytes, n3: Name, c3: Bytes, nf: Name, cf: Bytes)
    requires |c1| == 100 && |c2| == 50 && |c3| == 25 && |cf| == 100
    requires n1 != n2 && n1 != n3 && n2 != n3 && nf != n3
    ensures var e2, e3, ef := Entry(n2, c2), Entry(n3, c3), Entry(nf, cf);
      && Clamped(10, Sum([e2])) == 50
      && !HasRoom(50, Sum([e2]), |c1|) && StoreStep([e2], 50, n1, c1) == [e2]
      && !HasRoom(50, Sum([e2]), |c3|) && StoreStep([e2], 50, n3, c3) == [e3] && Sum([e3]) == 25
      && !HasRoom(50, Sum([e3]), |cf|) && StoreStep([e3], 50, nf, cf) == [e3]
      && Clamped(100, Sum([e3])) == 100
      && !HasRoom(100, Sum([e3]), |cf|) && StoreStep([e3], 100, nf, cf) == [ef] && Sum([ef]) == 100
  {
    var e2, e3, ef := Entry(n2, c2), Entry(n3, c3), Entry(nf, cf);
    SumSmall(e2, e2);
    SumSmall(e3, e3);
    SumSmall(ef, ef);
    NamesSmall(e2, e2);
    assert [e2][0..] == [e2] && [e2][1..] == [];
    StoreStepEvicts([e2], 50, n3, c3, 1);
    NamesSmall(e3, e3);
    assert [e3][0..] == [e3] && [e3][1..] == [];
    StoreStepEvicts([e3], 100, nf, cf, 1);
  }

  /** With both tiers unbounded and every cached chunk durable, a new
      chunk is stored in both tiers, evicting nothing, and is counted and
      measured. */
  method StoreNew(s: BufferedChunkStore, name: Name, content: Bytes)
    returns (ok: bool, count: nat, size: nat)
    requires s.Valid() && s.cache.capacity == 0 && s.perm.capacity == 0
    requires Names(s.cache.entries) <= Names(s.perm.records)
    requires Acceptable(s.validation.forStoring, name, content) && !s.Has(name)
    modifies s.cache, s.perm
    ensures s.Valid() && s.cache.capacity == 0 && s.perm.capacity == 0
    ensures s.perm.records == old(s.perm.records) + [Entry(name, content)]
    ensures s.perm.marked == old(s.perm.marked)
    ensures s.cache.entries == old(s.cache.entries) + [Entry(name, content)]
    ensures Names(s.cache.entries) <= Names(s.perm.records)
    ensures ok && count == |old(s.perm.records)| + 1 && size == Sum(old(s.perm.records)) + |content|
  {
    var e := Entry(name, content);
    ghost var cached, durable := s.cache.entries, s.perm.records;
    assert s.Written(name, content) == content;
    assert s.perm.ToReclaim(|content|) == [];
    assert s.StoreAccepts(name, content);
    assert Without(durable, Elems([])) == durable;
    assert Without(cached, Elems([])) == cached;
    UnboundedAppends(cached, name, content);
    ok := s.Store(name, Readable(content));
    SumSnoc(durable, e);
    NamesSnoc(cached, e);
    NamesSnoc(durable, e);
    CachedWithinDurable(s.cache.entries, s.perm.records);
    count, size := s.Count(), s.Size();
  }

  /** With an unbounded cache and every cached chunk durable, clearing the
      cache changes neither count nor size; a read of a durable chunk then
      misses the cache, returns the durable content and leaves that chunk
      as the only cached one. */
  method ClearThenGet(s: BufferedChunkStore, name: Name, content: Bytes)
    returns (clearedCount: nat, clearedSize: nat, read: Option<Bytes>)
    requires s.Valid() && s.cache.capacity == 0
    requires Names(s.cache.entries) <= Names(s.perm.records)
    requires s.perm.Get(name) == Some(content)
    modifies s.cache
    ensures s.Valid() && s.cache.capacity == 0
    ensures clearedCount == old(s.Count()) == |s.perm.records|
    ensures clearedSize == old(s.Size()) == Sum(s.perm.records)
    ensures read == Some(content) && s.cache.entries == [Entry(name, content)]
  {
    s.CacheClear();
    clearedCount, clearedSize := s.Count(), s.Size();
    read := s.Get(name);
    UnboundedAppends([], name, content);
  }

  /** A new chunk is stored into unbounded tiers; clearing the cache then
      changes neither count nor size, and a read brings the chunk back from
      the durable tier as the only cached chunk. */
  method StoreClearGet(s: BufferedChunkStore, name: Name, content: Bytes)
    returns (ok: bool, count: nat, size: nat, clearedCount: nat, clearedSize: nat,
             read: Option<Bytes>)
    requires s.Valid() && s.cache.capacity == 0 && s.perm.capacity == 0
    requires Names(s.cache.entries) <= Names(s.perm.records)
    requires Acceptable(s.validation.forStoring, name, content) && !s.Has(name)
    modifies s.cache, s.perm
    ensures s.Valid() && s.cache.capacity == 0 && s.perm.capacity == 0
    ensures s.perm.records == old(s.perm.records) + [Entry(name, content)]
    ensures s.perm.marked == old(s.perm.marked)
    ensures s.cache.entries == [Entry(name, content)]
    ensures ok && read == Some(content)
    ensures count == clearedCount == |old(s.perm.records)| + 1
    ensures size == clearedSize == Sum(old(s.perm.records)) + |content|
  {
    ok, count, size := StoreNew(s, name, content);
    LookupSnoc(old(s.perm.records), Entry(name, content));
    SumSnoc(old(s.perm.records), Entry(name, content));
    clearedCount, clearedSize, read := ClearThenGet(s, name, content);
  }

  /** Twenty distinct 100-byte chunks placed in an unbounded cache are
      all kept and hold 2000 bytes. */
  lemma CacheClearFill(es: seq<Entry>)
    requires DistinctNames(es) && |es| == 20
    requires forall i :: 0 <= i < 20 ==> |es[i].content| == 100
    ensures Replay(es, 0) == es && Names(Replay(es, 0)) == Names(es)
    ensures |Replay(es, 0)| == 20 && Sum(Replay(es, 0)) == 2000
  {
    ReplayUnbounded(es);
    SumUniform(es, 100, 20);
    assert es[..20] == es;
  }

  /** Every chunk of `es` holds `size` bytes, so the first `k` hold
      `size * k`. */
  lemma {:induction false} SumUniform(es: seq<Entry>, size: nat, k: nat)
    requires k <= |es| && forall i :: 0 <= i < |es| ==> |es[i].content| == size
    ensures Sum(es[..k]) == size * k
    decreases k
  {
    if k > 0 {
      SumUniform(es, size, k - 1);
      assert es[..k] == es[..k - 1] + [es[k - 1]];
      SumSnoc(es[..k - 1], es[k - 1]);
    } else {
      assert es[..0] == [];
    }
  }

  /** Ten chunks of 256 bytes: each of them fits beside the earlier ones
      under a limit of 2570, and together they hold 2560 bytes, all of them
      reclaimable once every chunk is marked. */
  lemma TenChunks(es: seq<Entry>)
    requires DistinctNames(es) && |es| == 10
    requires forall i :: 0 <= i < 10 ==> |es[i].content| == 256
    ensures forall k :: 0 <= k < 10 ==> HasRoom(2570, Sum(es[..k]), 256)
    ensures Sum(es) == 2560 && MarkedSize(NameList(es), es) == 2560
  {
    forall k | 0 <= k < 10 ensures HasRoom(2570, Sum(es[..k]), 256) {
      SumUniform(es, 256, k);
    }
    SumUniform(es, 256, 10);
    assert es[..10] == es;
    MarkedSizeOfPrefix(es, 10);
  }

  /** Among ten marked chunks of 256 bytes, freeing 2550 bytes takes every
      one of them. */
  lemma TenChunksAllReclaimed(es: seq<Entry>, r: seq<Name>)
    requires DistinctNames(es) && |es| == 10
    requires forall i :: 0 <= i < 10 ==> |es[i].content| == 256
    requires |r| <= 10 && r == NameList(es)[..|r|] && MarkedSize(r, es) >= 2550
    ensures r == NameList(es) && Elems(r) == Names(es)
  {
    assert NameList(es)[..|r|] == NameList(es[..|r|]);
    MarkedSizeOfPrefix(es, |r|);
    SumUniform(es, 256, |r|);
    assert |r| == 10;
    forall n | n in Names(es) ensures n in Elems(r) {
      var x :| x in es && x.name == n;
      var i :| 0 <= i < |es| && es[i] == x;
      assert r[i] == n;
    }
  }

  /** Once every durable chunk is reclaimed, the store holds the newly
      written chunk alone, in both tiers. */
  lemma OnlyNewChunkLeft(es: seq<Entry>, cached: seq<Entry>, gone: set<Name>, name: Name, content: Bytes)
    requires gone == Names(es) && Names(cached) <= Names(es)
    ensures var records := Without(es, gone) + [Entry(name, content)];
      var entries := StoreStep(Without(cached, gone), 0, name, content);
      && records == [Entry(name, content)] && entries == records
      && UnionCount(entries, records) == 1 && UnionSize(entries, records) == |content|
  {
    var e := Entry(name, content);
    NamesEmpty(Without(es, gone));
    NamesEmpty(Without(cached, gone));
    NamesEmpty([]);
    StoreStepEvicts([], 0, name, content, 0);
    SumSmall(e, e);
    NamesSmall(e, e);
    CachedWithinDurable([e], [e]);
  }

  /** Ten 256-byte chunks, each marked removable as soon as it is stored,
      fill a durable tier limited to 2570 bytes without any reclamation. A
      2580-byte chunk is then refused, since even reclaiming all ten would
      not make room; a 2560-byte chunk is admitted by reclaiming all ten,
      and the store, whose cache held only durable chunks, is left with that
      one chunk of 2560 bytes. */
  lemma StoreWithRemovable(d: Durable, cached: seq<Entry>, name: Name, content: Bytes)
    requires d.Valid() && d.capacity == 2570 && |d.records| == 10
    requires forall i :: 0 <= i < 10 ==> |d.records[i].content| == 256
    requires d.marked == NameList(d.records) && Names(cached) <= Names(d.records)
    requires |content| == 2560
    ensures forall k :: 0 <= k < 10 ==> HasRoom(2570, Sum(d.records[..k]), 256)
    ensures d.size == 2560 && !d.CanAdmit(2580) && d.CanAdmit(|content|)
    ensures d.ToReclaim(|content|) == d.marked
    ensures var records := Without(d.records, Elems(d.ToReclaim(|content|))) + [Entry(name, content)];
      var entries := StoreStep(Without(cached, Elems(d.ToReclaim(|content|))), 0, name, content);
      && records == [Entry(name, content)] && entries == records
      && UnionCount(entries, records) == 1 && UnionSize(entries, records) == 2560
  {
    TenChunks(d.records);
    var r := d.ToReclaim(|content|);
    TenChunksAllReclaimed(d.records, r);
    OnlyNewChunkLeft(d.records, cached, Elems(r), name, content);
  }
}
