/** The storage plan: partitions, the orders they are sorted in, and what the
    generators of crypttab and sfdisk scripts do with a list of them first. */
module Partitions {
  import opened Options

  datatype Partition = Partition(
    fstype: string,
    mountpoint: string,
    uuidStr: string,
    device: string,
    size: string,
    mountOpts: string,
    subvolume: Option<string>,
    luksMapperName: Option<string>,
    luksUuid: Option<string>,
    luksPassphrase: Option<string>)

  datatype BtrfsSubvolume = BtrfsSubvolume(subvolume: string, mountpoint: string)

  // ----- the order of strings -----

  predicate StringLe(a: string, b: string) {
    a == [] || (b != [] && (a[0] < b[0] || (a[0] == b[0] && StringLe(a[1..], b[1..]))))
  }

  lemma {:induction false} StringLeTotal(a: string, b: string)
    ensures StringLe(a, b) || StringLe(b, a)
    ensures StringLe(a, b) && StringLe(b, a) ==> a == b
    ensures a == b ==> StringLe(a, b)
  {
    if a != [] && b != [] {
      StringLeTotal(a[1..], b[1..]);
      assert a == [a[0]] + a[1..] && b == [b[0]] + b[1..];
    }
  }

  lemma {:induction false} StringLeTransitive(a: string, b: string, c: string)
    requires StringLe(a, b) && StringLe(b, c)
    ensures StringLe(a, c)
  {
    if a != [] && b != [] && c != [] && a[0] == b[0] == c[0] {
      StringLeTransitive(a[1..], b[1..], c[1..]);
    }
  }

  // ----- orders of partitions: by one column, then the next, and so on -----

  datatype Column = Mountpoint | Device | SizeDescending

  type Order = seq<Column>

  function Key(c: Column, p: Partition): string {
    match c
    case Mountpoint => p.mountpoint
    case Device => p.device
    case SizeDescending => p.size
  }

  predicate KeyLe(c: Column, p: Partition, q: Partition) {
    if c == SizeDescending then StringLe(Key(c, q), Key(c, p)) else StringLe(Key(c, p), Key(c, q))
  }

  predicate Le(o: Order, p: Partition, q: Partition) {
    o == [] || if Key(o[0], p) == Key(o[0], q) then Le(o[1..], p, q) else KeyLe(o[0], p, q)
  }

  predicate Same(o: Order, p: Partition, q: Partition) {
    o == [] || (Key(o[0], p) == Key(o[0], q) && Same(o[1..], p, q))
  }

  lemma {:induction false} LeTotal(o: Order, p: Partition, q: Partition)
    ensures Le(o, p, q) || Le(o, q, p)
    ensures Le(o, p, q) && Le(o, q, p) <==> Same(o, p, q)
    ensures Same(o, p, q) <==> Same(o, q, p)
  {
    if o != [] {
      StringLeTotal(Key(o[0], p), Key(o[0], q));
      LeTotal(o[1..], p, q);
    }
  }

  lemma {:induction false} SameReflexive(o: Order, p: Partition)
    ensures Same(o, p, p) && Le(o, p, p)
  {
    LeTotal(o, p, p);
  }

  lemma {:induction false} LeTransitive(o: Order, p: Partition, q: Partition, r: Partition)
    requires Le(o, p, q) && Le(o, q, r)
    ensures Le(o, p, r)
  {
    if o != [] {
      var a, b, c := Key(o[0], p), Key(o[0], q), Key(o[0], r);
      if a == b == c {
        LeTransitive(o[1..], p, q, r);
      } else {
        StringLeTotal(a, b);
        StringLeTotal(b, c);
        StringLeTotal(a, c);
        if o[0] == SizeDescending {
          StringLeTransitive(c, b, a);
        } else {
          StringLeTransitive(a, b, c);
        }
        if a == c {
          StringLeTotal(a, b);
        }
      }
    }
  }

  lemma {:induction false} SameTransitive(o: Order, p: Partition, q: Partition, r: Partition)
    requires Same(o, p, q) && Same(o, q, r)
    ensures Same(o, p, r)
  {
    if o != [] {
      SameTransitive(o[1..], p, q, r);
    }
  }

  lemma {:induction false} SameByColumns(o: Order, p: Partition, q: Partition)
    ensures Same(o, p, q) <==> forall c :: c in o ==> Key(c, p) == Key(c, q)
  {
    if o != [] {
      SameByColumns(o[1..], p, q);
      assert forall c :: c in o <==> c == o[0] || c in o[1..];
    }
  }

  // ----- stable sorting -----

  predicate Sorted(o: Order, xs: seq<Partition>) {
    xs == [] || ((forall y :: y in xs[1..] ==> Le(o, xs[0], y)) && Sorted(o, xs[1..]))
  }

  /** The partitions of xs that o cannot tell from x, in the order of xs. */
  function Class(o: Order, x: Partition, xs: seq<Partition>): seq<Partition> {
    if xs == [] then []
    else if Same(o, x, xs[0]) then [xs[0]] + Class(o, x, xs[1..])
    else Class(o, x, xs[1..])
  }

  /** What a stable sort promises: order, and nothing else moved. */
  ghost predicate IsStableSort(o: Order, xs: seq<Partition>, ys: seq<Partition>) {
    Sorted(o, ys) && forall x :: Class(o, x, ys) == Class(o, x, xs)
  }

  function Insert(o: Order, x: Partition, ys: seq<Partition>): seq<Partition> {
    if ys == [] || Le(o, x, ys[0]) then [x] + ys else [ys[0]] + Insert(o, x, ys[1..])
  }

  /** std::ranges::sort, assumed to be stable. */
  function StableSort(o: Order, xs: seq<Partition>): seq<Partition> {
    if xs == [] then [] else Insert(o, xs[0], StableSort(o, xs[1..]))
  }

  lemma {:induction false} ClassMember(o: Order, x: Partition, xs: seq<Partition>, y: Partition)
    ensures y in Class(o, x, xs) <==> y in xs && Same(o, x, y)
  {
    if xs != [] {
      ClassMember(o, x, xs[1..], y);
      assert y in xs <==> y == xs[0] || y in xs[1..];
    }
  }

  lemma {:induction false} ClassConcat(o: Order, x: Partition, xs: seq<Partition>, ys: seq<Partition>)
    ensures Class(o, x, xs + ys) == Class(o, x, xs) + Class(o, x, ys)
  {
    hide Same;
    if xs == [] {
      assert xs + ys == ys;
    } else {
      assert (xs + ys)[1..] == xs[1..] + ys;
      ClassConcat(o, x, xs[1..], ys);
    }
  }

  /** Equal classes mean equal elements, counted with repetitions. */
  lemma SameClassesSameMembers(o: Order, xs: seq<Partition>, ys: seq<Partition>)
    requires forall x :: Class(o, x, ys) == Class(o, x, xs)
    ensures forall x :: x in xs <==> x in ys
  {
    forall x ensures x in xs <==> x in ys {
      SameReflexive(o, x);
      ClassMember(o, x, xs, x);
      ClassMember(o, x, ys, x);
    }
  }

  lemma {:induction false} InsertSorts(o: Order, x: Partition, ys: seq<Partition>)
    requires Sorted(o, ys)
    ensures Sorted(o, Insert(o, x, ys))
    ensures forall y :: y in Insert(o, x, ys) <==> y == x || y in ys
  {
    var zs := Insert(o, x, ys);
    if ys == [] {
      assert zs == [x];
    } else if Le(o, x, ys[0]) {
      assert zs[1..] == ys;
      forall y | y in ys ensures Le(o, x, y) {
        if y != ys[0] {
          LeTransitive(o, x, ys[0], y);
        }
      }
      assert zs == [x] + ys;
    } else {
      InsertSorts(o, x, ys[1..]);
      LeTotal(o, x, ys[0]);
      assert zs == [ys[0]] + Insert(o, x, ys[1..]);
      assert ys == [ys[0]] + ys[1..];
    }
  }

  lemma {:induction false} InsertIsStable(o: Order, x: Partition, ys: seq<Partition>, z: Partition)
    ensures Class(o, z, Insert(o, x, ys)) == Class(o, z, [x] + ys)
  {
    assert ([x] + ys)[1..] == ys;
    if ys != [] && !Le(o, x, ys[0]) {
      InsertIsStable(o, x, ys[1..], z);
      assert ([x] + ys[1..])[1..] == ys[1..];
      if Same(o, z, x) && Same(o, z, ys[0]) {
        LeTotal(o, z, x);
        SameTransitive(o, x, z, ys[0]);
        LeTotal(o, x, ys[0]);
        assert false;
      }
    }
  }

  lemma {:induction false} StableSortIsStableSort(o: Order, xs: seq<Partition>)
    ensures IsStableSort(o, xs, StableSort(o, xs))
  {
    if xs != [] {
      var ys := StableSort(o, xs[1..]);
      StableSortIsStableSort(o, xs[1..]);
      InsertSorts(o, xs[0], ys);
      forall z ensures Class(o, z, Insert(o, xs[0], ys)) == Class(o, z, xs) {
        InsertIsStable(o, xs[0], ys, z);
        assert ([xs[0]] + ys)[1..] == ys;
      }
    }
  }

  lemma ClassesOfTail(o: Order, xs: seq<Partition>, ys: seq<Partition>)
    requires xs != [] && ys != [] && xs[0] == ys[0]
    requires forall x :: Class(o, x, xs) == Class(o, x, ys)
    ensures forall x :: Class(o, x, xs[1..]) == Class(o, x, ys[1..])
  {
    forall x ensures Class(o, x, xs[1..]) == Class(o, x, ys[1..]) {
      var n := if Same(o, x, xs[0]) then 1 else 0;
      assert Class(o, x, xs[1..]) == Class(o, x, xs)[n..];
      assert Class(o, x, ys[1..]) == Class(o, x, ys)[n..];
    }
  }

  /** The promise leaves no choice: any stable sort returns the same list. */
  lemma {:induction false} StableSortIsUnique(o: Order, xs: seq<Partition>, ys: seq<Partition>)
    requires Sorted(o, xs) && Sorted(o, ys)
    requires forall x :: Class(o, x, xs) == Class(o, x, ys)
    ensures xs == ys
  {
    SameClassesSameMembers(o, xs, ys);
    assert xs == [] <==> ys == [] by {
      if xs != [] { assert xs[0] in ys; }
      if ys != [] { assert ys[0] in xs; }
    }
    if xs != [] {
      var a, b := xs[0], ys[0];
      assert a in ys && b in xs;
      SameReflexive(o, a);
      assert Le(o, a, b) && Le(o, b, a) by {
        assert b == a || b in xs[1..];
        assert a == b || a in ys[1..];
      }
      LeTotal(o, a, b);
      assert Class(o, a, xs)[0] == a && Class(o, a, ys)[0] == b;
      ClassesOfTail(o, xs, ys);
      StableSortIsUnique(o, xs[1..], ys[1..]);
      assert xs == [a] + xs[1..] && ys == [b] + ys[1..];
    }
  }

  lemma {:induction false} SortsTo(o: Order, xs: seq<Partition>, ys: seq<Partition>)
    requires IsStableSort(o, xs, ys)
    ensures ys == StableSort(o, xs)
  {
    StableSortIsStableSort(o, xs);
    StableSortIsUnique(o, ys, StableSort(o, xs));
  }

  // ----- one sort after the other -----

  lemma {:induction false} ClassInClass(c: Column, o: Order, x: Partition, xs: seq<Partition>)
    ensures Class([c] + o, x, xs) == Class(o, x, Class([c], x, xs))
    ensures Class([c] + o, x, xs) == Class([c], x, Class(o, x, xs))
  {
    if xs != [] {
      ClassInClass(c, o, x, xs[1..]);
      assert ([c] + o)[1..] == o;
      assert Same([c] + o, x, xs[0]) <==> Same([c], x, xs[0]) && Same(o, x, xs[0]);
      assert ([xs[0]] + Class([c], x, xs[1..]))[1..] == Class([c], x, xs[1..]);
      assert ([xs[0]] + Class(o, x, xs[1..]))[1..] == Class(o, x, xs[1..]);
    }
  }

  lemma {:induction false} ClassIsSorted(o: Order, k: Order, x: Partition, xs: seq<Partition>)
    requires Sorted(o, xs)
    ensures Sorted(o, Class(k, x, xs))
  {
    if xs != [] {
      ClassIsSorted(o, k, x, xs[1..]);
      var rest := Class(k, x, xs[1..]);
      forall y | y in rest ensures Le(o, xs[0], y) {
        ClassMember(k, x, xs[1..], y);
      }
      assert ([xs[0]] + rest)[1..] == rest;
    }
  }

  /** A list sorted by one column, with every class of it sorted by more, is
      sorted by all of them. */
  lemma {:induction false} SortedByColumns(c: Column, o: Order, xs: seq<Partition>)
    requires Sorted([c], xs) && forall x :: Sorted(o, Class([c], x, xs))
    ensures Sorted([c] + o, xs)
  {
    if xs != [] {
      var h, rest := xs[0], xs[1..];
      forall x ensures Sorted(o, Class([c], x, rest)) {
        var cl := Class([c], x, rest);
        assert Sorted(o, Class([c], x, xs));
        if Same([c], x, h) {
          assert Class([c], x, xs)[1..] == cl;
        }
      }
      SortedByColumns(c, o, rest);
      assert ([c] + o)[1..] == o;
      var cl := Class([c], h, rest);
      SameReflexive([c], h);
      assert Class([c], h, xs) == [h] + cl && ([h] + cl)[1..] == cl;
      assert Sorted(o, [h] + cl);
      forall y | y in rest ensures Le([c] + o, h, y) {
        assert Le([c], h, y);
        if Key(c, h) == Key(c, y) {
          ClassMember([c], h, rest, y);
        }
      }
    }
  }

  /** Sorting stably by some columns and then by one more column is a single sort
      with that column in front. */
  lemma {:induction false} SortAfterSort(c: Column, o: Order, xs: seq<Partition>)
    ensures StableSort([c], StableSort(o, xs)) == StableSort([c] + o, xs)
  {
    var ys := StableSort(o, xs);
    var zs := StableSort([c], ys);
    StableSortIsStableSort(o, xs);
    StableSortIsStableSort([c], ys);
    forall x ensures Sorted(o, Class([c], x, zs)) {
      ClassIsSorted(o, [c], x, ys);
    }
    SortedByColumns(c, o, zs);
    forall x ensures Class([c] + o, x, zs) == Class([c] + o, x, xs) {
      ClassInClass(c, o, x, zs);
      ClassInClass(c, o, x, ys);
      ClassInClass(c, o, x, xs);
    }
    SortsTo([c] + o, xs, zs);
  }

  lemma {:induction false} ClassAbsorbs(c: Column, o: Order, x: Partition, xs: seq<Partition>)
    requires c in o
    ensures Class(o, x, Class([c], x, xs)) == Class(o, x, xs)
  {
    if xs != [] {
      ClassAbsorbs(c, o, x, xs[1..]);
      SameByColumns(o, x, xs[0]);
      SameByColumns([c], x, xs[0]);
      var cl := Class([c], x, xs[1..]);
      assert ([xs[0]] + cl)[1..] == cl;
    }
  }

  /** An earlier sort by a column that is sorted by again leaves no trace. */
  lemma {:induction false} SortForgetsSort(c: Column, o: Order, xs: seq<Partition>)
    requires c in o
    ensures StableSort(o, StableSort([c], xs)) == StableSort(o, xs)
  {
    var ys := StableSort([c], xs);
    StableSortIsStableSort([c], xs);
    StableSortIsStableSort(o, ys);
    forall x ensures Class(o, x, StableSort(o, ys)) == Class(o, x, xs) {
      ClassAbsorbs(c, o, x, ys);
      ClassAbsorbs(c, o, x, xs);
    }
    SortsTo(o, xs, StableSort(o, ys));
  }

  lemma {:induction false} SortedIsItsOwnSort(o: Order, xs: seq<Partition>)
    requires Sorted(o, xs)
    ensures StableSort(o, xs) == xs
  {
    SortsTo(o, xs, xs);
  }

  lemma {:induction false} SortKeepsMembers(o: Order, xs: seq<Partition>)
    ensures multiset(StableSort(o, xs)) == multiset(xs)
  {
    if xs != [] {
      SortKeepsMembers(o, xs[1..]);
      InsertAdds(o, xs[0], StableSort(o, xs[1..]));
      assert xs == [xs[0]] + xs[1..];
    }
  }

  lemma {:induction false} InsertAdds(o: Order, x: Partition, ys: seq<Partition>)
    ensures multiset(Insert(o, x, ys)) == multiset(ys) + multiset{x}
  {
    if ys != [] {
      InsertAdds(o, x, ys[1..]);
      assert ys == [ys[0]] + ys[1..];
    }
  }

  // ----- independence of the input order -----

  ghost predicate DistinctKeys(o: Order, xs: seq<Partition>) {
    forall i, j :: 0 <= i < j < |xs| ==> !Same(o, xs[i], xs[j])
  }

  lemma {:induction false} ClassOfMultiset(o: Order, x: Partition, xs: seq<Partition>, p: Partition)
    ensures multiset(Class(o, x, xs))[p] == if Same(o, x, p) then multiset(xs)[p] else 0
  {
    if xs != [] {
      ClassOfMultiset(o, x, xs[1..], p);
      assert xs == [xs[0]] + xs[1..];
    }
  }

  lemma {:induction false} DistinctClass(o: Order, x: Partition, xs: seq<Partition>)
    requires DistinctKeys(o, xs)
    ensures |Class(o, x, xs)| <= 1
  {
    if xs != [] {
      DistinctClass(o, x, xs[1..]);
      var rest := Class(o, x, xs[1..]);
      if Same(o, x, xs[0]) && rest != [] {
        ClassMember(o, x, xs[1..], rest[0]);
        var k :| 1 <= k < |xs| && xs[k] == rest[0];
        LeTotal(o, x, xs[0]);
        SameTransitive(o, xs[0], x, xs[k]);
      }
    }
  }

  /** With distinct keys the sorted list depends on what is sorted, not on its order. */
  lemma {:induction false} SortIgnoresOrder(o: Order, xs: seq<Partition>, ys: seq<Partition>)
    requires multiset(xs) == multiset(ys) && DistinctKeys(o, xs)
    ensures StableSort(o, xs) == StableSort(o, ys)
  {
    StableSortIsStableSort(o, xs);
    forall x ensures Class(o, x, StableSort(o, xs)) == Class(o, x, ys) {
      var a, b := Class(o, x, xs), Class(o, x, ys);
      forall p ensures multiset(a)[p] == multiset(b)[p] {
        ClassOfMultiset(o, x, xs, p);
        ClassOfMultiset(o, x, ys, p);
      }
      DistinctClass(o, x, xs);
      assert multiset(a) == multiset(b);
      assert |a| == |multiset(a)| && |b| == |multiset(b)|;
      if |a| == 1 {
        assert a == [a[0]] && b == [b[0]];
        assert b[0] in multiset(a);
      }
    }
    SortsTo(o, ys, StableSort(o, xs));
  }

  // ----- one representative per run of equal devices -----

  /** std::ranges::unique_copy by device, after an element with device prev. */
  function UniqueAfter(prev: Option<string>, xs: seq<Partition>): seq<Partition>
    decreases xs
  {
    if xs == [] then []
    else if prev == Some(xs[0].device) then UniqueAfter(Some(xs[0].device), xs[1..])
    else [xs[0]] + UniqueAfter(Some(xs[0].device), xs[1..])
  }

  function UniqueByDevice(xs: seq<Partition>): seq<Partition> {
    UniqueAfter(None, xs)
  }

  // ----- what changes when a partition gets a subvolume name, or a copy -----

  /** Equal but for the name of the subvolume. */
  predicate Alike(p: Partition, q: Partition) {
    p == q.(subvolume := p.subvolume)
  }

  predicate AllAlike(xs: seq<Partition>, ys: seq<Partition>) {
    |xs| == |ys| && forall i :: 0 <= i < |xs| ==> Alike(xs[i], ys[i])
  }

  lemma {:induction false} LeOfAlike(o: Order, p: Partition, q: Partition, p': Partition, q': Partition)
    requires Alike(p, p') && Alike(q, q')
    ensures Le(o, p, q) <==> Le(o, p', q')
  {
    if o != [] {
      LeOfAlike(o[1..], p, q, p', q');
    }
  }

  lemma {:induction false} InsertOfAlike(o: Order, x: Partition, ys: seq<Partition>, x': Partition, ys': seq<Partition>)
    requires Alike(x, x') && AllAlike(ys, ys')
    ensures AllAlike(Insert(o, x, ys), Insert(o, x', ys'))
  {
    if ys != [] {
      LeOfAlike(o, x, ys[0], x', ys'[0]);
      InsertOfAlike(o, x, ys[1..], x', ys'[1..]);
    }
  }

  lemma {:induction false} SortOfAlike(o: Order, xs: seq<Partition>, ys: seq<Partition>)
    requires AllAlike(xs, ys)
    ensures AllAlike(StableSort(o, xs), StableSort(o, ys))
  {
    if xs != [] {
      SortOfAlike(o, xs[1..], ys[1..]);
      InsertOfAlike(o, xs[0], StableSort(o, xs[1..]), ys[0], StableSort(o, ys[1..]));
    }
  }

  lemma {:induction false} UniqueOfAlike(prev: Option<string>, xs: seq<Partition>, ys: seq<Partition>)
    requires AllAlike(xs, ys)
    ensures AllAlike(UniqueAfter(prev, xs), UniqueAfter(prev, ys))
    decreases xs
  {
    if xs != [] {
      UniqueOfAlike(Some(xs[0].device), xs[1..], ys[1..]);
    }
  }

  /** Puts n after everything that is not greater. */
  function InsertLast(o: Order, ys: seq<Partition>, n: Partition): seq<Partition> {
    if ys == [] || !Le(o, ys[0], n) then [n] + ys else [ys[0]] + InsertLast(o, ys[1..], n)
  }

  lemma {:induction false} InsertCommutes(o: Order, x: Partition, ys: seq<Partition>, n: Partition)
    ensures Insert(o, x, InsertLast(o, ys, n)) == InsertLast(o, Insert(o, x, ys), n)
  {
    LeTotal(o, x, n);
    if ys == [] {
      assert [n] + ys == [n] && [x] + ys == [x] && [x][1..] == [] && [n][1..] == [];
    } else {
      InsertCommutes(o, x, ys[1..], n);
      var y := ys[0];
      LeTotal(o, x, y);
      LeTotal(o, y, n);
      if Le(o, x, y) && Le(o, y, n) { LeTransitive(o, x, y, n); }
      if Le(o, x, n) && Le(o, n, y) { LeTransitive(o, x, n, y); }
      assert ([x] + ys)[1..] == ys && ([n] + ys)[1..] == ys;
      assert ([y] + InsertLast(o, ys[1..], n))[1..] == InsertLast(o, ys[1..], n);
      assert ([y] + Insert(o, x, ys[1..]))[1..] == Insert(o, x, ys[1..]);
    }
  }

  /** A partition appended to the list is sorted in after its equals. */
  lemma {:induction false} SortOfAppended(o: Order, xs: seq<Partition>, n: Partition)
    ensures StableSort(o, xs + [n]) == InsertLast(o, StableSort(o, xs), n)
  {
    if xs == [] {
      assert xs + [n] == [n] && [n][1..] == [];
    } else {
      assert (xs + [n])[1..] == xs[1..] + [n];
      SortOfAppended(o, xs[1..], n);
      InsertCommutes(o, xs[0], StableSort(o, xs[1..]), n);
    }
  }

  lemma {:induction false} Between(pre: Order, post: Order, r: Partition, y: Partition, n: Partition)
    requires Le(pre + post, r, y) && Le(pre + post, y, n) && Same(pre, r, n)
    ensures Same(pre, r, y)
  {
    if pre != [] {
      assert (pre + post)[1..] == pre[1..] + post;
      StringLeTotal(Key(pre[0], r), Key(pre[0], y));
      Between(pre[1..], post, r, y, n);
    }
  }

  /** A copy of r that sorts after r hides behind it: it is not a representative. */
  lemma {:induction false} CopyIsNoRepresentative(pre: Order, post: Order, prev: Option<string>,
      ys: seq<Partition>, r: Partition, n: Partition)
    requires Device in pre && Sorted(pre + post, ys)
    requires Same(pre, r, n) && Le(pre + post, r, n)
    requires r in ys || (prev == Some(r.device) && forall y :: y in ys ==> Le(pre + post, r, y))
    ensures UniqueAfter(prev, InsertLast(pre + post, ys, n)) == UniqueAfter(prev, ys)
    decreases ys
  {
    var o := pre + post;
    SameByColumns(pre, r, n);
    assert r.device == n.device by { assert Key(Device, r) == Key(Device, n); }
    if ys == [] {
      assert InsertLast(o, ys, n)[1..] == [];
    } else {
      var y := ys[0];
      assert y in ys;
      if Le(o, y, n) {
        if r !in ys[1..] && r != y {
          Between(pre, post, r, y, n);
          SameByColumns(pre, r, y);
          assert r.device == y.device by { assert Key(Device, r) == Key(Device, y); }
        }
        CopyIsNoRepresentative(pre, post, Some(y.device), ys[1..], r, n);
        assert ([y] + InsertLast(o, ys[1..], n))[1..] == InsertLast(o, ys[1..], n);
      } else {
        if r in ys && r != y {
          LeTransitive(o, y, r, n);
        }
        assert r !in ys;
        assert ([n] + ys)[1..] == ys;
        assert prev == Some(n.device);
      }
    }
  }

  lemma {:induction false} LeByDevice(p: Partition, q: Partition)
    ensures Le([Device, Mountpoint], p, q) <==>
            if p.device == q.device then StringLe(p.mountpoint, q.mountpoint) else StringLe(p.device, q.device)
  {
    StringLeTotal(p.mountpoint, q.mountpoint);
    assert Le([Mountpoint], p, q) <==> StringLe(p.mountpoint, q.mountpoint) by {
      assert [Mountpoint][1..] == [];
    }
    assert [Device, Mountpoint][1..] == [Mountpoint];
  }

  lemma {:induction false} UniqueCovers(prev: Option<string>, ys: seq<Partition>, p: Partition)
    requires p in ys && prev != Some(p.device)
    ensures exists r :: r in UniqueAfter(prev, ys) && r.device == p.device
    decreases ys
  {
    var y, rest := ys[0], ys[1..];
    var us := UniqueAfter(Some(y.device), rest);
    if y.device == p.device {
      assert UniqueAfter(prev, ys)[0] == y;
    } else {
      UniqueCovers(Some(y.device), rest, p);
      var r :| r in us && r.device == p.device;
      assert r in UniqueAfter(prev, ys);
    }
  }

  lemma {:induction false} NoneBelow(o: Order, ys: seq<Partition>, n: Partition)
    requires Sorted(o, ys) && (ys == [] || !Le(o, ys[0], n))
    ensures forall y :: y in ys ==> !Le(o, y, n)
  {
    hide Le;
    forall y | y in ys
      ensures !Le(o, y, n)
    {
      assert ys == [ys[0]] + ys[1..];
      if Le(o, y, n) && y != ys[0] {
        LeTransitive(o, ys[0], y, n);
      }
    }
  }

  lemma {:induction false} InsertedBetween(o: Order, ys: seq<Partition>, n: Partition)
    returns (a: seq<Partition>, b: seq<Partition>)
    requires Sorted(o, ys)
    ensures ys == a + b && InsertLast(o, ys, n) == a + [n] + b
    ensures forall y :: y in a ==> Le(o, y, n)
    ensures forall y :: y in b ==> !Le(o, y, n)
  {
    hide Le;
    if ys == [] || !Le(o, ys[0], n) {
      a, b := [], ys;
      assert [] + [n] + b == [n] + b && [] + b == b;
      NoneBelow(o, ys, n);
    } else {
      a, b := InsertedBetween(o, ys[1..], n);
      assert [ys[0]] + (a + [n] + b) == ([ys[0]] + a) + [n] + b;
      assert ys == [ys[0]] + (a + b) && [ys[0]] + (a + b) == ([ys[0]] + a) + b;
      a := [ys[0]] + a;
    }
  }

  lemma {:induction false} SortedAt(o: Order, xs: seq<Partition>, i: nat, j: nat)
    requires Sorted(o, xs) && i <= j < |xs|
    ensures Le(o, xs[i], xs[j])
  {
    if i == j {
      SameReflexive(o, xs[i]);
    } else if i == 0 {
      assert xs[j] == xs[1..][j - 1] && xs[1..][j - 1] in xs[1..];
    } else {
      SortedAt(o, xs[1..], i - 1, j - 1);
    }
  }
}
