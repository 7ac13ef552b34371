/** Values shared by both tiers of the buffered chunk store: chunk names and
    contents, the entry lists each tier keeps, and the capacity arithmetic
    both tiers use. */
module Chunks {

  /** One byte of chunk content. */
  newtype Byte = b: int | 0 <= b < 256

  type Bytes = seq<Byte>

  /** A chunk name: a digest of the content in the system, opaque here. */
  type Name = string

  /** The pluggable chunk validation: may `content` be stored under `name`? */
  type Validator = (Name, Bytes) -> bool

  datatype Option<T> = None | Some(value: T)

  /** Where a store takes its content from: an in-memory string, or a file
      that could or could not be read. */
  datatype Source = Readable(content: Bytes) | Unreadable

  /** A chunk held by a tier. */
  datatype Entry = Entry(name: Name, content: Bytes)

  /** The content a source delivers; an unreadable file delivers nothing. */
  function Content(src: Source): Bytes
  {
    if src.Readable? then src.content else []
  }

  /** A store is acceptable for a new name when the name is not empty, the
      content is not empty and the validator accepts the pair. */
  predicate Acceptable(validator: Validator, name: Name, content: Bytes)
  {
    name != [] && content != [] && validator(name, content)
  }

  function Names(es: seq<Entry>): set<Name>
  {
    set e | e in es :: e.name
  }

  predicate DistinctNames(es: seq<Entry>)
  {
    forall i, j :: 0 <= i < j < |es| ==> es[i].name != es[j].name
  }

  predicate Distinct(ns: seq<Name>)
  {
    forall i, j :: 0 <= i < j < |ns| ==> ns[i] != ns[j]
  }

  function Elems(ns: seq<Name>): set<Name>
  {
    set n | n in ns
  }

  /** Total size of the contents held in `es`. */
  function Sum(es: seq<Entry>): nat
  {
    if es == [] then 0 else |es[0].content| + Sum(es[1..])
  }

  /** Whether `n` more bytes fit beside `used` bytes under `capacity`;
      a capacity of 0 means unbounded. */
  predicate HasRoom(capacity: nat, used: nat, n: nat)
  {
    capacity == 0 || used + n <= capacity
  }

  /** Whether `n` bytes fit into an empty tier of the given capacity. */
  predicate Fits(capacity: nat, n: nat)
  {
    HasRoom(capacity, 0, n)
  }

  /** The capacity a tier ends up with when `requested` is set while it
      holds `used` bytes: never below the usage, except that 0 (unbounded)
      is always taken as given. */
  function Clamped(requested: nat, used: nat): (c: nat)
    ensures HasRoom(c, used, 0)
    ensures c == requested <==> HasRoom(requested, used, 0)
    ensures c != requested ==> c == used
  {
    if requested != 0 && requested < used then used else requested
  }

  /** The content stored under `name`, if any. */
  function Lookup(es: seq<Entry>, name: Name): (r: Option<Bytes>)
    ensures r.Some? <==> name in Names(es)
    ensures r.Some? ==> Entry(name, r.value) in es
    ensures DistinctNames(es) ==> forall e :: e in es && e.name == name ==> r == Some(e.content)
    decreases |es|
  {
    if es == [] then None
    else if es[0].name == name then
      DistinctCons(es);
      Some(es[0].content)
    else
      assert forall e :: e in es && e != es[0] ==> e in es[1..];
      Lookup(es[1..], name)
  }

  /** The size of the content stored under `name`, 0 when there is none. */
  function SizeOf(es: seq<Entry>, name: Name): nat
  {
    match Lookup(es, name)
    case Some(c) => |c|
    case None => 0
  }

  /** `es` without the entries whose names are in `gone`, in the same order. */
  function Without(es: seq<Entry>, gone: set<Name>): (r: seq<Entry>)
    ensures forall e :: e in r <==> e in es && e.name !in gone
    ensures Names(r) == Names(es) - gone
    ensures |r| <= |es|
    ensures Names(es) !! gone ==> r == es
    decreases |es|
  {
    if es == [] then []
    else
      var rest := Without(es[1..], gone);
      assert forall e :: e in es <==> e == es[0] || e in es[1..];
      if es[0].name in gone then rest
      else [es[0]] + rest
  }

  /** Removing entries keeps the remaining names distinct. */
  lemma {:induction false} WithoutDistinct(es: seq<Entry>, gone: set<Name>)
    requires DistinctNames(es)
    ensures DistinctNames(Without(es, gone))
    decreases |es|
  {
    if es != [] {
      DistinctCons(es);
      WithoutDistinct(es[1..], gone);
      var rest := Without(es[1..], gone);
      if es[0].name !in gone {
        assert ([es[0]] + rest)[1..] == rest;
        DistinctCons([es[0]] + rest);
      }
    }
  }

  /** `xs` is `ys` with some entries left out and the rest in their order. */
  ghost predicate Subsequence(xs: seq<Entry>, ys: seq<Entry>)
    decreases |ys|
  {
    xs == [] ||
    (ys != [] && ((xs[0] == ys[0] && Subsequence(xs[1..], ys[1..])) || Subsequence(xs, ys[1..])))
  }

  /** Two positions of a subsequence come from two positions of the
      sequence, in the same order. */
  lemma {:induction false} SubsequenceOrder(xs: seq<Entry>, ys: seq<Entry>, i: nat, j: nat)
    returns (p: nat, q: nat)
    requires Subsequence(xs, ys) && i < j < |xs|
    ensures p < q < |ys| && ys[p] == xs[i] && ys[q] == xs[j]
    decreases |ys|
  {
    if xs[0] == ys[0] && Subsequence(xs[1..], ys[1..]) {
      if i == 0 {
        var k := SubsequenceMember(xs[1..], ys[1..], j - 1);
        p, q := 0, k + 1;
      } else {
        var p', q' := SubsequenceOrder(xs[1..], ys[1..], i - 1, j - 1);
        p, q := p' + 1, q' + 1;
      }
    } else {
      var p', q' := SubsequenceOrder(xs, ys[1..], i, j);
      p, q := p' + 1, q' + 1;
    }
  }

  /** Every position of a subsequence comes from a position of the sequence. */
  lemma {:induction false} SubsequenceMember(xs: seq<Entry>, ys: seq<Entry>, i: nat) returns (p: nat)
    requires Subsequence(xs, ys) && i < |xs|
    ensures p < |ys| && ys[p] == xs[i]
    decreases |ys|
  {
    if xs[0] == ys[0] && Subsequence(xs[1..], ys[1..]) {
      if i == 0 {
        p := 0;
      } else {
        var p' := SubsequenceMember(xs[1..], ys[1..], i - 1);
        p := p' + 1;
      }
    } else {
      var p' := SubsequenceMember(xs, ys[1..], i);
      p := p' + 1;
    }
  }

  /** Removing the names of a prefix of `ns` and then the next name is
      removing the names of the one longer prefix. */
  lemma WithoutPrefixStep(es: seq<Entry>, ns: seq<Name>, i: nat)
    requires i < |ns|
    ensures Without(Without(es, Elems(ns[..i])), {ns[i]}) == Without(es, Elems(ns[..i + 1]))
  {
    ElemsPrefixStep(ns, i);
    WithoutTwice(es, Elems(ns[..i]), {ns[i]});
  }

  /** The names of a prefix one longer are those of the prefix and the next
      name. */
  lemma ElemsPrefixStep(ns: seq<Name>, i: nat)
    requires i < |ns|
    ensures Elems(ns[..i + 1]) == Elems(ns[..i]) + {ns[i]}
  {
    forall n ensures n in ns[..i + 1] <==> n in ns[..i] || n == ns[i] {
      assert ns[..i + 1] == ns[..i] + [ns[i]];
    }
  }

  /** Removing entries keeps the rest in their old relative order. */
  lemma {:induction false} WithoutKeepsOrder(es: seq<Entry>, gone: set<Name>)
    ensures Subsequence(Without(es, gone), es)
    decreases |es|
  {
    if es != [] {
      WithoutKeepsOrder(es[1..], gone);
      if es[0].name !in gone {
        var r := Without(es, gone);
        assert r[0] == es[0] && r[1..] == Without(es[1..], gone);
      }
    }
  }

  /** So the `i`-th and `j`-th kept entries sit at positions `p < q` of `es`. */
  lemma WithoutPositions(es: seq<Entry>, gone: set<Name>, i: nat, j: nat) returns (p: nat, q: nat)
    requires i < j < |Without(es, gone)|
    ensures p < q < |es| && es[p] == Without(es, gone)[i] && es[q] == Without(es, gone)[j]
  {
    WithoutKeepsOrder(es, gone);
    p, q := SubsequenceOrder(Without(es, gone), es, i, j);
  }

  /** `ns` without the names in `gone`, in the same order. */
  function Drop(ns: seq<Name>, gone: set<Name>): (r: seq<Name>)
    ensures forall n :: n in r <==> n in ns && n !in gone
    ensures Distinct(ns) ==> Distinct(r)
    decreases |ns|
  {
    if ns == [] then []
    else
      var rest := Drop(ns[1..], gone);
      if ns[0] in gone then rest
      else
        assert Distinct(ns) ==> ns[0] !in ns[1..];
        [ns[0]] + rest
  }

  lemma DistinctCons(es: seq<Entry>)
    requires es != []
    ensures DistinctNames(es) <==> es[0].name !in Names(es[1..]) && DistinctNames(es[1..])
  {
    if DistinctNames(es) {
      forall e | e in es[1..] ensures e.name != es[0].name {
        var k :| 0 <= k < |es[1..]| && es[1..][k] == e;
        assert es[k + 1] == e;
      }
      forall i, j | 0 <= i < j < |es[1..]| ensures es[1..][i].name != es[1..][j].name {
        assert es[1..][i] == es[i + 1] && es[1..][j] == es[j + 1];
      }
    }
    if es[0].name !in Names(es[1..]) && DistinctNames(es[1..]) {
      forall i, j | 0 <= i < j < |es| ensures es[i].name != es[j].name {
        if i == 0 {
          assert es[j] in es[1..];
        } else {
          assert es[i] == es[1..][i - 1] && es[j] == es[1..][j - 1];
        }
      }
    }
  }

  /** Appending a chunk under a fresh name keeps the names distinct. */
  lemma DistinctSnoc(es: seq<Entry>, e: Entry)
    requires DistinctNames(es) && e.name !in Names(es)
    ensures DistinctNames(es + [e])
    ensures Names(es + [e]) == Names(es) + {e.name}
  {
    forall i, j | 0 <= i < j < |es| + 1 ensures (es + [e])[i].name != (es + [e])[j].name {
      if j == |es| {
        assert es[i] in es;
      }
    }
    assert forall x :: x in es + [e] <==> x in es || x == e;
  }

  /** Dropping the last of a list of distinct names leaves distinct names,
      none of them the dropped one. */
  lemma DistinctNamesInit(ns: seq<Name>)
    requires Distinct(ns) && ns != []
    ensures var init := ns[..|ns| - 1];
      && Distinct(init) && ns[|ns| - 1] !in Elems(init)
      && Elems(ns) == Elems(init) + {ns[|ns| - 1]}
  {
    var init, last := ns[..|ns| - 1], ns[|ns| - 1];
    assert ns == init + [last];
    forall i | 0 <= i < |init| ensures init[i] != last {
      assert init[i] == ns[i];
    }
  }

  /** The chunks before the last one have distinct names, none of them the
      last one's. */
  lemma DistinctInit(es: seq<Entry>)
    requires DistinctNames(es) && es != []
    ensures DistinctNames(es[..|es| - 1]) && es[|es| - 1].name !in Names(es[..|es| - 1])
  {
    var init := es[..|es| - 1];
    forall i, j | 0 <= i < j < |init| ensures init[i].name != init[j].name {
      assert init[i] == es[i] && init[j] == es[j];
    }
    forall x | x in init ensures x.name != es[|es| - 1].name {
      var i :| 0 <= i < |init| && init[i] == x;
      assert es[i] == x;
    }
  }

  lemma {:induction false} SumAppend(a: seq<Entry>, b: seq<Entry>)
    ensures Sum(a + b) == Sum(a) + Sum(b)
  {
    if a == [] {
      assert a + b == b;
    } else {
      assert (a + b)[1..] == a[1..] + b;
      SumAppend(a[1..], b);
    }
  }

  /** Appending a chunk adds its size. */
  lemma SumSnoc(es: seq<Entry>, e: Entry)
    ensures Sum(es + [e]) == Sum(es) + |e.content|
  {
    SumAppend(es, [e]);
    assert [e][1..] == [];
  }

  /** Appending a chunk adds its name. */
  lemma NamesSnoc(es: seq<Entry>, e: Entry)
    ensures Names(es + [e]) == Names(es) + {e.name}
  {
    assert forall x :: x in es + [e] <==> x in es || x == e;
  }

  /** The names of one or two chunks. */
  lemma NamesSmall(a: Entry, b: Entry)
    ensures Names([a]) == {a.name}
    ensures Names([a, b]) == {a.name, b.name}
  {
    assert forall e :: e in [a, b] <==> e == a || e == b;
  }

  /** The total size of one or two chunks. */
  lemma SumSmall(a: Entry, b: Entry)
    ensures Sum([a]) == |a.content|
    ensures Sum([a, b]) == |a.content| + |b.content|
  {
    SumSnoc([], a);
    assert [] + [a] == [a];
    SumSnoc([a], b);
    assert [a] + [b] == [a, b];
  }

  /** Removing one chunk frees exactly its size. */
  lemma {:induction false} SumWithout(es: seq<Entry>, name: Name)
    requires DistinctNames(es)
    ensures Sum(Without(es, {name})) + SizeOf(es, name) == Sum(es)
    decreases |es|
  {
    if es != [] {
      DistinctCons(es);
      SumWithout(es[1..], name);
      if es[0].name == name {
        assert Names(es[1..]) !! {name};
      } else {
        assert Lookup(es, name) == Lookup(es[1..], name);
        assert ([es[0]] + Without(es[1..], {name}))[1..] == Without(es[1..], {name});
      }
    }
  }

  /** Removing chunks never adds to the total size. */
  lemma {:induction false} SumWithoutAtMost(es: seq<Entry>, gone: set<Name>)
    ensures Sum(Without(es, gone)) <= Sum(es)
    decreases |es|
  {
    if es != [] {
      SumWithoutAtMost(es[1..], gone);
      if es[0].name !in gone {
        assert ([es[0]] + Without(es[1..], gone))[1..] == Without(es[1..], gone);
      }
    }
  }

  /** Removing names in two steps is removing them all at once. */
  lemma {:induction false} WithoutTwice(es: seq<Entry>, first: set<Name>, second: set<Name>)
    ensures Without(Without(es, first), second) == Without(es, first + second)
    decreases |es|
  {
    if es != [] {
      WithoutTwice(es[1..], first, second);
      if es[0].name !in first {
        assert ([es[0]] + Without(es[1..], first))[1..] == Without(es[1..], first);
      }
    }
  }

  /** Removing other names leaves the content under `name` as it was. */
  lemma {:induction false} LookupWithout(es: seq<Entry>, gone: set<Name>, name: Name)
    requires name !in gone
    ensures Lookup(Without(es, gone), name) == Lookup(es, name)
    decreases |es|
  {
    if es != [] {
      LookupWithout(es[1..], gone, name);
      if es[0].name !in gone {
        assert ([es[0]] + Without(es[1..], gone))[1..] == Without(es[1..], gone);
      }
    }
  }

  /** A chunk appended under a fresh name is found with its content. */
  lemma {:induction false} LookupSnoc(es: seq<Entry>, e: Entry)
    requires e.name !in Names(es)
    ensures Lookup(es + [e], e.name) == Some(e.content)
    decreases |es|
  {
    if es != [] {
      assert es[0] in es;
      assert (es + [e])[1..] == es[1..] + [e];
      assert forall x :: x in es[1..] ==> x in es;
      LookupSnoc(es[1..], e);
    }
  }

  /** Appending a chunk changes no lookup of another name. */
  lemma {:induction false} LookupSnocOther(es: seq<Entry>, e: Entry, name: Name)
    requires name != e.name
    ensures Lookup(es + [e], name) == Lookup(es, name)
    decreases |es|
  {
    if es != [] {
      assert (es + [e])[1..] == es[1..] + [e];
      LookupSnocOther(es[1..], e, name);
    } else {
      assert ([e] + [])[1..] == [];
    }
  }

  /** A list holds no name exactly when it is empty. */
  lemma NamesEmpty(es: seq<Entry>)
    ensures Names(es) == {} <==> es == []
  {
    if es != [] {
      assert es[0].name in Names(es);
    }
  }

  /** With distinct names there is one name per entry. */
  lemma {:induction false} NamesCard(es: seq<Entry>)
    requires DistinctNames(es)
    ensures |Names(es)| == |es|
    decreases |es|
  {
    if es == [] {
      assert Names(es) == {};
    } else {
      DistinctCons(es);
      NamesCard(es[1..]);
      assert forall e :: e in es <==> e == es[0] || e in es[1..];
      assert Names(es) == {es[0].name} + Names(es[1..]);
    }
  }
}
