/** The durable tier behind the cache: a capacity-bounded store that never
    evicts on its own, but reclaims space from chunks explicitly marked
    removable, oldest mark first, when a new chunk needs the room. */
module DurableStore {
  import opened Chunks

  /** Total size of the chunks named in `marks`, each looked up in `es`. */
  function MarkedSize(marks: seq<Name>, es: seq<Entry>): nat
    decreases |marks|
  {
    if marks == [] then 0
    else MarkedSize(marks[..|marks| - 1], es) + SizeOf(es, marks[|marks| - 1])
  }

  /** The number of marks, taken oldest first, whose chunks free at least
      `shortfall` bytes, and no fewer. */
  function ReclaimLength(marks: seq<Name>, es: seq<Entry>, shortfall: int): (k: nat)
    requires shortfall <= MarkedSize(marks, es)
    ensures k <= |marks|
    ensures MarkedSize(marks[..k], es) >= shortfall
    ensures forall j :: 0 <= j < k ==> MarkedSize(marks[..j], es) < shortfall
  {
    ReclaimFrom(marks, es, shortfall, 0)
  }

  function ReclaimFrom(marks: seq<Name>, es: seq<Entry>, shortfall: int, k: nat): (r: nat)
    requires k <= |marks| && shortfall <= MarkedSize(marks, es)
    requires forall j :: 0 <= j < k ==> MarkedSize(marks[..j], es) < shortfall
    ensures k <= r <= |marks|
    ensures MarkedSize(marks[..r], es) >= shortfall
    ensures forall j :: 0 <= j < r ==> MarkedSize(marks[..j], es) < shortfall
    decreases |marks| - k
  {
    if MarkedSize(marks[..k], es) >= shortfall then k
    else
      assert k < |marks| by {
        assert marks[..|marks|] == marks;
      }
      assert forall j :: 0 <= j < k + 1 ==> MarkedSize(marks[..j], es) < shortfall by {
        forall j | 0 <= j < k + 1 ensures MarkedSize(marks[..j], es) < shortfall {
          if j == k {
          }
        }
      }
      ReclaimFrom(marks, es, shortfall, k + 1)
  }

  /** Removing a chunk that is not marked leaves the marked size as it was. */
  lemma {:induction false} MarkedSizeWithout(marks: seq<Name>, es: seq<Entry>, name: Name)
    requires name !in marks
    ensures MarkedSize(marks, Without(es, {name})) == MarkedSize(marks, es)
    decreases |marks|
  {
    if marks != [] {
      var last := marks[|marks| - 1];
      MarkedSizeWithout(marks[..|marks| - 1], es, name);
      LookupWithout(es, {name}, last);
    }
  }

  /** The names of `es`, in order. */
  function NameList(es: seq<Entry>): (ns: seq<Name>)
    ensures |ns| == |es| && forall i :: 0 <= i < |es| ==> ns[i] == es[i].name
  {
    seq(|es|, i requires 0 <= i < |es| => es[i].name)
  }

  /** Marking the first `k` stored chunks makes exactly their bytes
      reclaimable. */
  lemma {:induction false} MarkedSizeOfPrefix(es: seq<Entry>, k: nat)
    requires DistinctNames(es) && k <= |es|
    ensures MarkedSize(NameList(es[..k]), es) == Sum(es[..k])
    decreases k
  {
    if k > 0 {
      MarkedSizeOfPrefix(es, k - 1);
      var ns := NameList(es[..k]);
      assert ns[..k - 1] == NameList(es[..k - 1]);
      assert es[k - 1] in es;
      assert es[..k] == es[..k - 1] + [es[k - 1]];
      SumSnoc(es[..k - 1], es[k - 1]);
    } else {
      assert es[..0] == [];
    }
  }

  /** Distinct marks of stored chunks never add up to more than the store. */
  lemma {:induction false} MarkedSizeBounded(marks: seq<Name>, es: seq<Entry>)
    requires DistinctNames(es) && Distinct(marks) && Elems(marks) <= Names(es)
    ensures MarkedSize(marks, es) <= Sum(es)
    decreases |marks|
  {
    if marks != [] {
      var init, last := marks[..|marks| - 1], marks[|marks| - 1];
      assert last !in init;
      assert last in Elems(marks);
      var rest := Without(es, {last});
      WithoutDistinct(es, {last});
      assert Elems(init) <= Names(rest) by {
        forall m | m in init ensures m in Names(rest) {
          assert m in Elems(marks);
        }
      }
      MarkedSizeBounded(init, rest);
      MarkedSizeWithout(init, es, last);
      SumWithout(es, last);
    }
  }

  /** The state of a reclamation that has removed the first `k` of the
      marks `marks0` from the records `es0`, freeing `freed` bytes, without
      having reached `shortfall` before its last step. */
  ghost predicate Reclaiming(marks0: seq<Name>, es0: seq<Entry>, shortfall: int, k: nat,
                             es: seq<Entry>, marks: seq<Name>, freed: nat)
  {
    && DistinctNames(es0) && Distinct(marks0) && Elems(marks0) <= Names(es0)
    && shortfall <= MarkedSize(marks0, es0)
    && k <= |marks0| && marks == marks0[k..]
    && freed == MarkedSize(marks0[..k], es0)
    && (forall j :: 0 <= j < k ==> MarkedSize(marks0[..j], es0) < shortfall)
    && es == Without(es0, Elems(marks0[..k]))
  }

  lemma ReclaimingStart(marks0: seq<Name>, es0: seq<Entry>, shortfall: int)
    requires DistinctNames(es0) && Distinct(marks0) && Elems(marks0) <= Names(es0)
    requires shortfall <= MarkedSize(marks0, es0)
    ensures Reclaiming(marks0, es0, shortfall, 0, es0, marks0, 0)
  {
    assert marks0[..0] == [];
    assert Elems(marks0[..0]) == {};
  }

  /** Taking one more of distinct marks adds a name not taken before. */
  lemma PrefixStep(marks0: seq<Name>, k: nat)
    requires Distinct(marks0) && k < |marks0|
    ensures marks0[..k + 1] == marks0[..k] + [marks0[k]]
    ensures marks0[..k + 1][..k] == marks0[..k]
    ensures marks0[k + 1..] == marks0[k..][1..]
    ensures marks0[k] !in Elems(marks0[..k])
    ensures Elems(marks0[..k + 1]) == Elems(marks0[..k]) + {marks0[k]}
  {
    var taken := marks0[..k];
    forall i | 0 <= i < k ensures taken[i] != marks0[k] {
      assert taken[i] == marks0[i];
    }
    assert marks0[..k + 1] == taken + [marks0[k]];
  }

  /** A reclamation that has not freed enough has a mark left. */
  lemma ReclaimingNotDone(marks0: seq<Name>, es0: seq<Entry>, shortfall: int, k: nat,
                          es: seq<Entry>, marks: seq<Name>, freed: nat)
    requires Reclaiming(marks0, es0, shortfall, k, es, marks, freed) && freed < shortfall
    ensures k < |marks0| && marks != [] && marks[0] == marks0[k]
  {
    assert marks0[..|marks0|] == marks0;
  }

  /** One step of a reclamation that has not freed enough yet: the oldest
      remaining mark names a stored chunk, and removing it advances the
      reclamation by exactly that chunk's size. */
  lemma ReclaimingStep(marks0: seq<Name>, es0: seq<Entry>, shortfall: int, k: nat,
                       es: seq<Entry>, marks: seq<Name>, freed: nat)
    requires Reclaiming(marks0, es0, shortfall, k, es, marks, freed) && freed < shortfall
    ensures marks != [] && marks[0] in Names(es)
    ensures Sum(Without(es, {marks[0]})) + SizeOf(es, marks[0]) == Sum(es)
    ensures Reclaiming(marks0, es0, shortfall, k + 1, Without(es, {marks[0]}), marks[1..],
                       freed + SizeOf(es, marks[0]))
    ensures marks0[..k + 1] == marks0[..k] + [marks[0]]
  {
    ReclaimingNotDone(marks0, es0, shortfall, k, es, marks, freed);
    PrefixStep(marks0, k);
    var victim := marks0[k];
    var taken := marks0[..k];
    assert victim in Elems(marks0);
    WithoutDistinct(es0, Elems(taken));
    LookupWithout(es0, Elems(taken), victim);
    SumWithout(es, victim);
    WithoutTwice(es0, Elems(taken), {victim});
    assert MarkedSize(marks0[..k + 1], es0) == freed + SizeOf(es0, victim);
    forall j | 0 <= j < k + 1 ensures MarkedSize(marks0[..j], es0) < shortfall {
      if j == k {
        assert marks0[..j] == taken;
      }
    }
  }

  /** A reclamation that has freed enough stopped at the shortest run of
      marks, and leaves a valid store behind. */
  lemma ReclaimingDone(marks0: seq<Name>, es0: seq<Entry>, shortfall: int, k: nat,
                       es: seq<Entry>, marks: seq<Name>, freed: nat)
    requires Reclaiming(marks0, es0, shortfall, k, es, marks, freed) && freed >= shortfall
    ensures k == ReclaimLength(marks0, es0, shortfall)
    ensures DistinctNames(es) && Distinct(marks) && Elems(marks) <= Names(es)
  {
    WithoutDistinct(es0, Elems(marks0[..k]));
    forall m | m in marks ensures m in Names(es) {
      var i :| 0 <= i < |marks| && marks[i] == m;
      assert m == marks0[k + i] && m in Elems(marks0);
      forall p | 0 <= p < k ensures marks0[p] != m {
      }
      assert m !in Elems(marks0[..k]);
    }
    forall i, j | 0 <= i < j < |marks| ensures marks[i] != marks[j] {
      assert marks[i] == marks0[k + i] && marks[j] == marks0[k + j];
    }
  }

  /** The reclamation loop over the records `es0` holding `size0` bytes:
      removes the chunks named by the oldest marks of `marks0`, one at a
      time, until at least `shortfall` bytes are freed. */
  method RemoveMarked(marks0: seq<Name>, es0: seq<Entry>, size0: nat, shortfall: nat)
    returns (reclaimed: seq<Name>, es: seq<Entry>, marks: seq<Name>, used: nat)
    requires DistinctNames(es0) && size0 == Sum(es0)
    requires Distinct(marks0) && Elems(marks0) <= Names(es0)
    requires shortfall <= MarkedSize(marks0, es0)
    ensures reclaimed == marks0[..ReclaimLength(marks0, es0, shortfall)]
    ensures es == Without(es0, Elems(reclaimed)) && marks == marks0[|reclaimed|..]
    ensures used == size0 - MarkedSize(reclaimed, es0) && used == Sum(es)
    ensures DistinctNames(es) && Distinct(marks) && Elems(marks) <= Names(es)
  {
    es, marks, used := es0, marks0, size0;
    reclaimed := [];
    var freed: nat := 0;
    ReclaimingStart(marks0, es0, shortfall);
    while freed < shortfall
      invariant Reclaiming(marks0, es0, shortfall, |reclaimed|, es, marks, freed)
      invariant reclaimed == marks0[..|reclaimed|]
      invariant used == Sum(es) && used + freed == size0
      decreases |marks|
    {
      ReclaimingStep(marks0, es0, shortfall, |reclaimed|, es, marks, freed);
      var victim := marks[0];
      var freeing := SizeOf(es, victim);
      es := Without(es, {victim});
      marks := marks[1..];
      used := used - freeing;
      freed := freed + freeing;
      reclaimed := reclaimed + [victim];
    }
    ReclaimingDone(marks0, es0, shortfall, |reclaimed|, es, marks, freed);
  }

  /** Appends a chunk under a fresh name to `es`, whose sizes total `used`;
      returns the entries and their new total. */
  method Append(es: seq<Entry>, used: nat, e: Entry) returns (r: seq<Entry>, total: nat)
    requires DistinctNames(es) && used == Sum(es) && e.name !in Names(es)
    ensures r == es + [e] && total == Sum(r) && total == used + |e.content|
    ensures DistinctNames(r) && Names(r) == Names(es) + {e.name}
  {
    DistinctSnoc(es, e);
    SumSnoc(es, e);
    r, total := es + [e], used + |e.content|;
  }

  class Durable {
    /** Durable chunks in the order they were written. */
    var records: seq<Entry>
    /** Names marked removable, oldest mark first. */
    var marked: seq<Name>
    /** Running total of the durable content sizes. */
    var size: nat
    /** Byte limit of the tier; 0 means unbounded. */
    var capacity: nat

    ghost predicate Valid()
      reads this
    {
      && DistinctNames(records) && size == Sum(records) && HasRoom(capacity, size, 0)
      && Distinct(marked) && Elems(marked) <= Names(records)
    }

    constructor ()
      ensures Valid() && records == [] && marked == [] && capacity == 0
    {
      records, marked, size, capacity := [], [], 0, 0;
      new;
      assert Elems(marked) == {};
    }

    /** A name is durable exactly when a read finds content for it. */
    function Has(name: Name): (r: bool)
      reads this
      ensures r <==> Get(name).Some?
    {
      name in Names(records)
    }

    /** The content stored under `name`: a record of the tier, the only one
        with that name while the tier is valid. */
    function Get(name: Name): (r: Option<Bytes>)
      reads this
      ensures r.Some? ==> Entry(name, r.value) in records
      ensures r.None? ==> forall e :: e in records ==> e.name != name
      ensures Valid() ==> forall e :: e in records && e.name == name ==> r == Some(e.content)
    {
      Lookup(records, name)
    }

    /** The number of durable chunks: one per distinct durable name. */
    function Count(): (r: nat)
      reads this
      ensures Valid() ==> r == |Names(records)|
    {
      assert Valid() ==> |records| == |Names(records)| by {
        if Valid() {
          NamesCard(records);
        }
      }
      |records|
    }

    /** Whether a new chunk of `n` bytes can be admitted, reclaiming every
        marked chunk if need be: always when it fits beside what is held,
        and while the tier is valid exactly when it would fit once every
        marked chunk were gone. So a chunk larger than the whole capacity
        is never admitted, however much is marked removable. */
    function CanAdmit(n: nat): (r: bool)
      reads this
      ensures HasRoom(capacity, size, n) ==> r
      ensures Valid() ==> MarkedSize(marked, records) <= size
      ensures Valid() ==> (r <==> HasRoom(capacity, size - MarkedSize(marked, records), n))
      ensures Valid() && r ==> Fits(capacity, n)
    {
      assert Valid() ==> MarkedSize(marked, records) <= size by {
        if Valid() {
          MarkedSizeBounded(marked, records);
        }
      }
      HasRoom(capacity, size, n) || size + n <= capacity + MarkedSize(marked, records)
    }

    /** The marked chunks that admitting `n` new bytes reclaims: none when
        there is room already, otherwise the shortest run of oldest marks
        that frees enough. */
    function ToReclaim(n: nat): (r: seq<Name>)
      reads this
      requires CanAdmit(n)
      ensures |r| <= |marked| && r == marked[..|r|]
      ensures HasRoom(capacity, size, n) ==> r == []
      ensures capacity == 0 || size + n <= capacity + MarkedSize(r, records)
      ensures forall j :: 0 <= j < |r| ==> capacity != 0 && capacity + MarkedSize(marked[..j], records) < size + n
    {
      if HasRoom(capacity, size, n) then []
      else marked[..ReclaimLength(marked, records, size + n - capacity)]
    }

    /** The space reclaiming every marked chunk would free. */
    method MarkedSpace() returns (total: nat)
      requires Valid()
      ensures total == MarkedSize(marked, records)
    {
      total := 0;
      var i := 0;
      while i < |marked|
        invariant 0 <= i <= |marked|
        invariant total == MarkedSize(marked[..i], records)
      {
        assert marked[..i + 1][..i] == marked[..i];
        total := total + SizeOf(records, marked[i]);
        i := i + 1;
      }
      assert marked[..i] == marked;
    }

    /** Removes marked chunks, oldest mark first, until at least `shortfall`
        bytes are freed; returns the names removed. */
    method Reclaim(shortfall: nat) returns (reclaimed: seq<Name>)
      requires Valid() && shortfall <= MarkedSize(marked, records)
      modifies this
      ensures Valid() && capacity == old(capacity)
      ensures reclaimed == old(marked)[..ReclaimLength(old(marked), old(records), shortfall)]
      ensures records == Without(old(records), Elems(reclaimed))
      ensures marked == old(marked)[|reclaimed|..]
      ensures size == old(size) - MarkedSize(reclaimed, old(records))
    {
      ghost var k := ReclaimLength(marked, records, shortfall);
      var recs, marks, used;
      reclaimed, recs, marks, used := RemoveMarked(marked, records, size, shortfall);
      assert reclaimed == old(marked)[..k];
      records, marked, size := recs, marks, used;
    }

    /** Makes room for `n` new bytes: nothing is removed when they fit;
        otherwise marked chunks are removed, oldest mark first, until they
        do; if even all of them would not make room, it fails and nothing is
        removed. */
    method MakeRoom(n: nat) returns (ok: bool, reclaimed: seq<Name>)
      requires Valid()
      modifies this
      ensures Valid() && capacity == old(capacity)
      ensures ok == old(CanAdmit(n))
      ensures ok ==> HasRoom(capacity, size, n) && reclaimed == old(ToReclaim(n))
      ensures !ok ==> reclaimed == []
      ensures records == Without(old(records), Elems(reclaimed))
      ensures marked == old(marked)[|reclaimed|..]
    {
      if HasRoom(capacity, size, n) {
        assert Elems([]) == {};
        return true, [];
      }
      var space := MarkedSpace();
      if capacity + space < size + n {
        assert Elems([]) == {};
        return false, [];
      }
      reclaimed := Reclaim(size + n - capacity);
      ok := true;
    }

    /** Writes a chunk. A name already held succeeds and changes nothing.
        A new chunk is written once room is made for it, reclaiming marked
        chunks if need be; if room cannot be made, the write fails and
        nothing is removed. */
    method Store(name: Name, content: Bytes) returns (ok: bool, reclaimed: seq<Name>)
      requires Valid()
      modifies this
      ensures Valid() && capacity == old(capacity)
      ensures ok <==> old(Has(name)) || old(CanAdmit(|content|))
      ensures !ok || old(Has(name)) ==> reclaimed == [] && records == old(records) && marked == old(marked)
      ensures ok && !old(Has(name)) ==>
        && reclaimed == old(ToReclaim(|content|))
        && records == Without(old(records), Elems(reclaimed)) + [Entry(name, content)]
        && marked == old(marked)[|reclaimed|..]
    {
      if name in Names(records) {
        return true, [];
      }
      ok, reclaimed := MakeRoom(|content|);
      if ok {
        records, size := Append(records, size, Entry(name, content));
      }
    }

    /** Marks a stored chunk removable; marking it again changes nothing. */
    method MarkForDeletion(name: Name) returns (found: bool)
      requires Valid()
      modifies this
      ensures Valid() && capacity == old(capacity) && records == old(records)
      ensures found == old(Has(name))
      ensures marked == if found && name !in old(marked) then old(marked) + [name] else old(marked)
    {
      found := name in Names(records);
      if found && name !in marked {
        marked := marked + [name];
      }
    }

    /** Removes a chunk and its removable mark. */
    method Delete(name: Name) returns (found: bool)
      requires Valid()
      modifies this
      ensures Valid() && capacity == old(capacity)
      ensures found == old(Has(name))
      ensures records == Without(old(records), {name})
      ensures marked == Drop(old(marked), {name})
    {
      found := name in Names(records);
      SumWithout(records, name);
      WithoutDistinct(records, {name});
      size := size - SizeOf(records, name);
      records := Without(records, {name});
      marked := Drop(marked, {name});
    }

    /** Sets the limit, clamped so that it never falls below the current
        usage. */
    method SetCapacity(n: nat)
      requires Valid()
      modifies this
      ensures Valid() && records == old(records) && marked == old(marked)
      ensures capacity == Clamped(n, size)
    {
      capacity := Clamped(n, size);
    }
  }
}
