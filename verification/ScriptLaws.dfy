/** When the sfdisk script of a plan survives the expansion of its btrfs root. The copies
    of the root carry no size, so they share the line of a root without one; a sized root
    is another matter. */
module ScriptLaws {
  import opened Options
  import opened Partitions
  import opened Btrfs
  import opened Sfdisk
  import opened SubvolumeLaws

  // ----- the expansion as appending copies -----

  /** The copies of the root that the list asks for. */
  ghost function Copies(ps: seq<Partition>, subvols: seq<BtrfsSubvolume>): seq<Partition>
    requires HasRoot(ps)
  {
    if subvols == [] then []
    else if Mounted(ps, subvols[0].mountpoint) then Copies(ps, subvols[1..])
    else [FromRoot(Root(ps), subvols[0])] + Copies(ps, subvols[1..])
  }

  lemma {:induction false} CopiesOfSame(ps: seq<Partition>, qs: seq<Partition>, subvols: seq<BtrfsSubvolume>)
    requires HasRoot(ps) && HasRoot(qs) && Alike(Root(ps), Root(qs))
    requires forall s :: s in subvols ==> (Mounted(ps, s.mountpoint) <==> Mounted(qs, s.mountpoint))
    ensures Copies(ps, subvols) == Copies(qs, subvols)
  {
    hide Mounted;
    if subvols != [] {
      assert subvols == [subvols[0]] + subvols[1..];
      CopiesOfSame(ps, qs, subvols[1..]);
    }
  }

  /** Up to the names of subvolumes, the plan is the old one and the copies behind it. */
  lemma {:induction false} ExpansionAppendsCopies(ps: seq<Partition>, subvols: seq<BtrfsSubvolume>)
    requires Expandable(ps, subvols)
    ensures UpsertAll(ps, subvols).Some?
    ensures AllAlike(ps + Copies(ps, subvols), UpsertAll(ps, subvols).value)
    decreases subvols
  {
    hide Upsert, Mounted, NothingMoves, DistinctSubvolumes;
    if subvols == [] {
      assert ps + [] == ps;
    } else {
      var s, rest := subvols[0], subvols[1..];
      assert s in subvols;
      UpsertOrCopy(ps, subvols);
      ExpandableLater(ps, subvols);
      var qs := Upsert(ps, s).value;
      ExpansionAppendsCopies(qs, rest);
      var cs := Copies(qs, rest);
      MountedLater(ps, subvols);
      CopiesOfSame(ps, qs, rest);
      if Mounted(ps, s.mountpoint) {
        assert AllAlike(ps + cs, qs + cs);
      } else {
        assert ps + ([FromRoot(Root(ps), s)] + cs) == qs + cs;
        AllAlikeReflexive(qs + cs);
      }
      AllAlikeTransitive(ps + Copies(ps, subvols), qs + cs, UpsertAll(ps, subvols).value);
    }
  }

  lemma UpsertOrCopy(ps: seq<Partition>, subvols: seq<BtrfsSubvolume>)
    requires Expandable(ps, subvols) && subvols != []
    ensures Upsert(ps, subvols[0]).Some? && HasRoot(Upsert(ps, subvols[0]).value)
    ensures Alike(Root(ps), Root(Upsert(ps, subvols[0]).value))
    ensures if Mounted(ps, subvols[0].mountpoint) then AllAlike(ps, Upsert(ps, subvols[0]).value)
            else Upsert(ps, subvols[0]).value == ps + [FromRoot(Root(ps), subvols[0])]
  {
    UpsertStep(ps, subvols, subvols[0]);
  }

  lemma MountedLater(ps: seq<Partition>, subvols: seq<BtrfsSubvolume>)
    requires Expandable(ps, subvols) && subvols != [] && Upsert(ps, subvols[0]).Some?
    ensures forall t :: t in subvols[1..] ==>
              (Mounted(ps, t.mountpoint) <==> Mounted(Upsert(ps, subvols[0]).value, t.mountpoint))
  {
    hide Mounted, Upsert;
    RestIsDistinct(subvols);
    forall t | t in subvols[1..]
      ensures Mounted(ps, t.mountpoint) <==> Mounted(Upsert(ps, subvols[0]).value, t.mountpoint)
    {
      MountedAfter(ps, subvols, subvols[0], t.mountpoint);
    }
  }

  lemma {:induction false} CopyMember(ps: seq<Partition>, subvols: seq<BtrfsSubvolume>, c: Partition)
    requires HasRoot(ps)
    ensures c in Copies(ps, subvols) <==>
            exists s :: s in subvols && !Mounted(ps, s.mountpoint) && c == FromRoot(Root(ps), s)
  {
    hide Mounted;
    if subvols != [] {
      assert subvols == [subvols[0]] + subvols[1..];
      CopyMember(ps, subvols[1..], c);
    }
  }

  lemma {:induction false} CopiesAreDistinct(ps: seq<Partition>, subvols: seq<BtrfsSubvolume>)
    requires HasRoot(ps) && DistinctSubvolumes(subvols)
    ensures forall i, j :: 0 <= i < j < |Copies(ps, subvols)| ==>
              Copies(ps, subvols)[i].mountpoint != Copies(ps, subvols)[j].mountpoint
  {
    if subvols != [] {
      hide Mounted, DistinctSubvolumes;
      RestIsDistinct(subvols);
      CopiesAreDistinct(ps, subvols[1..]);
      var rest := Copies(ps, subvols[1..]);
      forall i | 0 <= i < |rest|
        ensures rest[i].mountpoint != subvols[0].mountpoint
      {
        CopyMember(ps, subvols[1..], rest[i]);
      }
    }
  }

  // ----- all copies but the first in order are hidden behind it -----

  lemma {:induction false} LeastCopy(cs: seq<Partition>) returns (k: nat)
    requires cs != []
    ensures k < |cs| && forall c :: c in cs ==> StringLe(cs[k].mountpoint, c.mountpoint)
  {
    k := 0;
    StringLeTotal(cs[0].mountpoint, cs[0].mountpoint);
    if |cs| > 1 {
      var i := LeastCopy(cs[1..]);
      var x, y := cs[0].mountpoint, cs[i + 1].mountpoint;
      StringLeTotal(x, y);
      assert cs == [cs[0]] + cs[1..];
      if StringLe(x, y) {
        forall c | c in cs[1..]
          ensures StringLe(x, c.mountpoint)
        {
          StringLeTransitive(x, y, c.mountpoint);
        }
      } else {
        k := i + 1;
      }
    }
  }

  lemma {:induction false} OthersAreHidden(ps: seq<Partition>, n: Partition, others: seq<Partition>)
    requires n in ps
    requires forall c :: c in others ==>
               c.device == n.device && c.size == n.size && StringLe(n.mountpoint, c.mountpoint)
    ensures Scripted(ps + others) == Scripted(ps)
    decreases |others|
  {
    hide Scripted;
    if others == [] {
      assert ps + others == ps;
    } else {
      assert ps + others == ps + [others[0]] + others[1..];
      OthersAreHidden(ps + [others[0]], n, others[1..]);
      ScriptedOfCopied(ps, n, others[0]);
    }
  }

  lemma {:induction false} ClassWithoutMoved(o: Order, x: Partition, a: seq<Partition>, b: seq<Partition>, n: Partition)
    requires Mountpoint in o && forall p :: p in b ==> p.mountpoint != n.mountpoint
    ensures Class(o, x, a + b + [n]) == Class(o, x, a + [n] + b)
  {
    hide Class, Same;
    ClassConcat(o, x, a + b, [n]);
    ClassConcat(o, x, a, b);
    ClassConcat(o, x, a + [n], b);
    ClassConcat(o, x, a, [n]);
    var cl, own := Class(o, x, b), Class(o, x, [n]);
    if cl != [] && own != [] {
      ClassMember(o, x, b, cl[0]);
      ClassMember(o, x, [n], own[0]);
      SamePlace(o, x, cl[0], n);
      assert false;
    }
    assert cl + own == own + cl;
  }

  /** Of several copies, each at a place of its own, any may be appended first. */
  lemma SortWithCopyFirst(o: Order, ps: seq<Partition>, cs: seq<Partition>, k: nat)
    requires k < |cs| && Mountpoint in o
    requires forall i, j :: 0 <= i < j < |cs| ==> cs[i].mountpoint != cs[j].mountpoint
    ensures StableSort(o, ps + cs) == StableSort(o, ps + [cs[k]] + (cs[..k] + cs[k + 1..]))
  {
    hide Class, Same, StableSort, Sorted;
    var n, before, behind := cs[k], cs[..k], cs[k + 1..];
    var xs, ys := ps + before + [n] + behind, ps + [n] + before + behind;
    assert ps + cs == xs && ps + [n] + (before + behind) == ys;
    StableSortIsStableSort(o, xs);
    forall x
      ensures Class(o, x, xs) == Class(o, x, ys)
    {
      ClassConcat(o, x, ps + before + [n], behind);
      ClassConcat(o, x, ps + [n] + before, behind);
      ClassWithoutMoved(o, x, ps, before, n);
    }
    SortsTo(o, ys, StableSort(o, xs));
  }

  lemma {:induction false} SamePlace(o: Order, x: Partition, p: Partition, q: Partition)
    requires Mountpoint in o && Same(o, x, p) && Same(o, x, q)
    ensures p.mountpoint == q.mountpoint
  {
    SameByColumns(o, x, p);
    SameByColumns(o, x, q);
    assert Key(Mountpoint, p) == Key(Mountpoint, x) == Key(Mountpoint, q);
  }

  lemma ScriptOfCopies(ps: seq<Partition>, cs: seq<Partition>, k: nat, isEfi: bool)
    requires k < |cs| && forall i, j :: 0 <= i < j < |cs| ==> cs[i].mountpoint != cs[j].mountpoint
    requires forall c :: c in cs ==>
               c.device == cs[k].device && c.size == cs[k].size && StringLe(cs[k].mountpoint, c.mountpoint)
    ensures Script(ps + cs, isEfi) == Script(ps + [cs[k]], isEfi)
  {
    hide Scripted, Lines;
    var n, others := cs[k], cs[..k] + cs[k + 1..];
    SortWithCopyFirst(BY_SIZE_DEVICE_MOUNTPOINT, ps, cs, k);
    ScriptedBySingleSort(ps + cs);
    ScriptedBySingleSort(ps + [n] + others);
    OthersAreHidden(ps + [n], n, others);
  }

  // ----- a single copy -----

  /** In size order, nothing of another device stands between n and some partition of its
      own device in front of it. */
  ghost predicate Follows(ps: seq<Partition>, n: Partition) {
    exists p :: p in ps && p.device == n.device && Le(BY_SIZE_DEVICE_MOUNTPOINT, p, n)
                && forall r :: r in ps ==> !Separates(p, r, n)
  }

  /** The first partition behind n is of its own device and has the same line. */
  ghost predicate Replaces(ps: seq<Partition>, n: Partition) {
    exists i :: IsNext(ps, n, i) && ps[i].device == n.device && Line(ps[i]) == Line(n)
  }

  /** In size order, the i-th partition is the first that is not in front of n; of equals
      it is the first in the plan. */
  ghost predicate IsNext(ps: seq<Partition>, n: Partition, i: int) {
    && 0 <= i < |ps| && Le(BY_SIZE_DEVICE_MOUNTPOINT, n, ps[i])
    && forall j :: 0 <= j < |ps| && Le(BY_SIZE_DEVICE_MOUNTPOINT, n, ps[j]) ==>
         Le(BY_SIZE_DEVICE_MOUNTPOINT, ps[i], ps[j]) && (j < i ==> !Le(BY_SIZE_DEVICE_MOUNTPOINT, ps[j], ps[i]))
  }

  function LastDevice(prev: Option<string>, a: seq<Partition>): Option<string> {
    if a == [] then prev else Some(a[|a| - 1].device)
  }

  lemma {:induction false} UniqueInTwo(prev: Option<string>, a: seq<Partition>, b: seq<Partition>)
    ensures UniqueAfter(prev, a + b) == UniqueAfter(prev, a) + UniqueAfter(LastDevice(prev, a), b)
    decreases a
  {
    if a == [] {
      assert a + b == b;
    } else {
      assert (a + b)[1..] == a[1..] + b;
      UniqueInTwo(Some(a[0].device), a[1..], b);
    }
  }

  lemma {:induction false} LinesInTwo(a: seq<Partition>, b: seq<Partition>)
    ensures Lines(a + b) == Lines(a) + Lines(b)
  {
    hide Line;
    if a == [] {
      assert a + b == b;
    } else {
      assert (a + b)[1..] == a[1..] + b;
      LinesInTwo(a[1..], b);
    }
  }

  lemma {:induction false} LinesCons(p: Partition, ps: seq<Partition>)
    ensures Lines([p] + ps) == Line(p) + Lines(ps)
  {
    hide Line;
    assert ([p] + ps)[1..] == ps;
  }

  lemma LineIsNotEmpty(p: Partition)
    ensures |Line(p)| > 0
  {
  }

  /** What the copy changes behind the last device pd. */
  lemma {:induction false} LinesWithCopy(pd: Option<string>, n: Partition, b: seq<Partition>)
    ensures Lines(UniqueAfter(pd, [n] + b)) == Lines(UniqueAfter(pd, b)) <==>
            pd == Some(n.device) || (b != [] && b[0].device == n.device && Line(b[0]) == Line(n))
  {
    hide Line;
    var d := Some(n.device);
    assert ([n] + b)[1..] == b;
    if pd != d {
      var rest := UniqueAfter(d, b);
      LinesCons(n, rest);
      LineIsNotEmpty(n);
      if b != [] && b[0].device == n.device {
        LinesCons(b[0], UniqueAfter(d, b[1..]));
        SameTail(Line(n), Line(b[0]), Lines(UniqueAfter(d, b[1..])));
      } else if b != [] {
        var more := UniqueAfter(Some(b[0].device), b[1..]);
        LinesCons(b[0], more);
        assert |Lines(UniqueAfter(pd, b))| <= |Lines(rest)|;
      }
    }
  }

  lemma SameTail(x: string, y: string, z: string)
    ensures x + z == y + z <==> x == y
  {
    if x + z == y + z {
      assert |x| == |y|;
      assert (x + z)[..|x|] == x && (y + z)[..|y|] == y;
    }
  }

  lemma SameHead(x: string, y: string, z: string)
    ensures x + y == x + z <==> y == z
  {
    assert (x + y)[|x|..] == y && (x + z)[|x|..] == z;
  }

  lemma OneCopyInOrder(a: seq<Partition>, n: Partition, b: seq<Partition>)
    ensures Lines(UniqueByDevice(a + [n] + b)) == Lines(UniqueByDevice(a + b)) <==>
            || (a != [] && a[|a| - 1].device == n.device)
            || (b != [] && b[0].device == n.device && Line(b[0]) == Line(n))
  {
    hide Line, Lines, UniqueAfter;
    var pd := LastDevice(None, a);
    assert a + [n] + b == a + ([n] + b);
    UniqueInTwo(None, a, [n] + b);
    UniqueInTwo(None, a, b);
    LinesInTwo(UniqueAfter(None, a), UniqueAfter(pd, [n] + b));
    LinesInTwo(UniqueAfter(None, a), UniqueAfter(pd, b));
    SameHead(Lines(UniqueAfter(None, a)), Lines(UniqueAfter(pd, [n] + b)), Lines(UniqueAfter(pd, b)));
    LinesWithCopy(pd, n, b);
  }

  lemma {:induction false} SameKeySameDevice(p: Partition, q: Partition)
    requires Le(BY_SIZE_DEVICE_MOUNTPOINT, p, q) && Le(BY_SIZE_DEVICE_MOUNTPOINT, q, p)
    ensures p.device == q.device && p.mountpoint == q.mountpoint
  {
    var o := BY_SIZE_DEVICE_MOUNTPOINT;
    LeTotal(o, p, q);
    SameByColumns(o, p, q);
    assert Device in o && Mountpoint in o;
    assert Key(Device, p) == Key(Device, q) && Key(Mountpoint, p) == Key(Mountpoint, q);
  }

  lemma InOneOfTwo(a: seq<Partition>, b: seq<Partition>, i: nat)
    requires i < |a + b|
    ensures if i < |a| then (a + b)[i] in a else (a + b)[i] in b
  {
    assert i < |a| ==> (a + b)[i] == a[i];
  }

  /** The last one in front is of the copy's device. */
  lemma {:induction false} LastFollows(ps: seq<Partition>, a: seq<Partition>, b: seq<Partition>, n: Partition)
    requires Sorted(BY_SIZE_DEVICE_MOUNTPOINT, a + b) && forall p :: p in ps <==> p in a + b
    requires forall y :: y in a ==> Le(BY_SIZE_DEVICE_MOUNTPOINT, y, n)
    requires forall y :: y in b ==> !Le(BY_SIZE_DEVICE_MOUNTPOINT, y, n)
    ensures Follows(ps, n) <==> a != [] && a[|a| - 1].device == n.device
  {
    hide Le;
    var o := BY_SIZE_DEVICE_MOUNTPOINT;
    if a != [] {
      var last := a[|a| - 1];
      assert last in a && last in a + b;
      forall r | r in ps && Le(o, r, n)
        ensures r in a && Le(o, r, last)
      {
        var i :| 0 <= i < |a + b| && (a + b)[i] == r;
        InOneOfTwo(a, b, i);
        SortedAt(o, a + b, i, |a| - 1);
      }
      if last.device == n.device {
        forall r | r in ps
          ensures !Separates(last, r, n)
        {
          if Le(o, last, r) && Le(o, r, n) {
            SameKeySameDevice(last, r);
          }
        }
        assert Follows(ps, n);
      }
    }
    if Follows(ps, n) {
      var p :| p in ps && p.device == n.device && Le(o, p, n) && forall r :: r in ps ==> !Separates(p, r, n);
      assert p in a + b;
      assert p in a;
      var last := a[|a| - 1];
      assert last in a + b && last in ps;
      assert Le(o, last, n) && !Separates(p, last, n);
    }
  }

  /** Behind n, where nothing equals it, the sorted list goes on with the next partition. */
  lemma {:induction false} NextIsFirst(ps: seq<Partition>, a: seq<Partition>, b: seq<Partition>, n: Partition, i: int)
    requires IsStableSort(BY_SIZE_DEVICE_MOUNTPOINT, ps, a + b)
    requires forall y :: y in a ==> !Le(BY_SIZE_DEVICE_MOUNTPOINT, n, y)
    requires forall y :: y in b ==> !Le(BY_SIZE_DEVICE_MOUNTPOINT, y, n)
    requires IsNext(ps, n, i)
    ensures b != [] && b[0] == ps[i]
  {
    hide Le, Class, Sorted;
    var o := BY_SIZE_DEVICE_MOUNTPOINT;
    SameClassesSameMembers(o, ps, a + b);
    BehindInOrder(ps, a, b, n, ps[i]);
    assert b[0] in a + b;
    var j: int :| 0 <= j < |ps| && ps[j] == b[0];
    LeTotal(o, ps[i], b[0]);
    forall h | 0 <= h < i
      ensures !Same(o, ps[i], ps[h])
    {
      LeTotal(o, ps[i], ps[h]);
      if Same(o, ps[i], ps[h]) {
        LeTransitive(o, n, ps[i], ps[h]);
      }
    }
    SameReflexive(o, ps[i]);
    FirstOfClass(o, ps[i], ps, i);
    forall h | 0 <= h < |a|
      ensures !Same(o, ps[i], (a + b)[h])
    {
      assert (a + b)[h] in a;
      if Same(o, ps[i], (a + b)[h]) {
        LeTotal(o, ps[i], (a + b)[h]);
        LeTransitive(o, n, ps[i], (a + b)[h]);
      }
    }
    FirstOfClass(o, ps[i], a + b, |a|);
  }

  lemma {:induction false} BehindInOrder(ps: seq<Partition>, a: seq<Partition>, b: seq<Partition>, n: Partition,
                                         r: Partition)
    requires Sorted(BY_SIZE_DEVICE_MOUNTPOINT, a + b) && forall p :: p in ps <==> p in a + b
    requires forall y :: y in a ==> !Le(BY_SIZE_DEVICE_MOUNTPOINT, n, y)
    requires forall y :: y in b ==> !Le(BY_SIZE_DEVICE_MOUNTPOINT, y, n)
    requires r in ps && Le(BY_SIZE_DEVICE_MOUNTPOINT, n, r)
    ensures b != [] && Le(BY_SIZE_DEVICE_MOUNTPOINT, n, b[0]) && Le(BY_SIZE_DEVICE_MOUNTPOINT, b[0], r)
  {
    hide Le, Sorted;
    var o := BY_SIZE_DEVICE_MOUNTPOINT;
    var i :| 0 <= i < |a + b| && (a + b)[i] == r;
    InOneOfTwo(a, b, i);
    assert b[0] in b;
    LeTotal(o, b[0], n);
    SortedAt(o, a + b, |a|, i);
  }

  lemma {:induction false} FirstOfClass(o: Order, x: Partition, xs: seq<Partition>, i: nat)
    requires i < |xs| && Same(o, x, xs[i]) && forall h :: 0 <= h < i ==> !Same(o, x, xs[h])
    ensures Class(o, x, xs) != [] && Class(o, x, xs)[0] == xs[i]
  {
    if i > 0 {
      FirstOfClass(o, x, xs[1..], i - 1);
    }
  }

  lemma {:induction false} SomeIsNext(ps: seq<Partition>, n: Partition) returns (i: nat)
    requires exists p :: p in ps && Le(BY_SIZE_DEVICE_MOUNTPOINT, n, p)
    ensures IsNext(ps, n, i)
  {
    hide Le;
    var o := BY_SIZE_DEVICE_MOUNTPOINT;
    var rest := ps[1..];
    assert ps == [ps[0]] + rest;
    LeTotal(o, ps[0], ps[0]);
    if exists p :: p in rest && Le(o, n, p) {
      var k := SomeIsNext(rest, n);
      assert forall j :: 1 <= j < |ps| ==> ps[j] == rest[j - 1];
      LeTotal(o, ps[0], rest[k]);
      if Le(o, n, ps[0]) && Le(o, ps[0], rest[k]) {
        i := 0;
        forall j | 0 < j < |ps| && Le(o, n, ps[j])
          ensures Le(o, ps[0], ps[j])
        {
          LeTransitive(o, ps[0], rest[k], rest[j - 1]);
        }
      } else {
        i := k + 1;
      }
    } else {
      i := 0;
      assert forall j :: 1 <= j < |ps| ==> ps[j] in rest;
    }
  }

  lemma {:induction false} FirstIsReplaced(ps: seq<Partition>, a: seq<Partition>, b: seq<Partition>, n: Partition)
    requires IsStableSort(BY_SIZE_DEVICE_MOUNTPOINT, ps, a + b)
    requires forall y :: y in a ==> Le(BY_SIZE_DEVICE_MOUNTPOINT, y, n)
    requires forall y :: y in b ==> !Le(BY_SIZE_DEVICE_MOUNTPOINT, y, n)
    requires a == [] || a[|a| - 1].device != n.device
    ensures Replaces(ps, n) <==> b != [] && b[0].device == n.device && Line(b[0]) == Line(n)
  {
    hide Le, Line, Class, Sorted;
    var o := BY_SIZE_DEVICE_MOUNTPOINT;
    SameClassesSameMembers(o, ps, a + b);
    forall y | y in a
      ensures !Le(o, n, y)
    {
      NoEqualInFront(a, b, n, y);
    }
    forall i | IsNext(ps, n, i)
      ensures 0 <= i < |ps| && b != [] && b[0] == ps[i]
    {
      NextIsFirst(ps, a, b, n, i);
    }
    if b != [] {
      assert b[0] in b && b[0] in a + b;
      LeTotal(o, b[0], n);
      var i := SomeIsNext(ps, n);
      assert IsNext(ps, n, i);
    }
  }

  lemma {:induction false} NoEqualInFront(a: seq<Partition>, b: seq<Partition>, n: Partition, y: Partition)
    requires Sorted(BY_SIZE_DEVICE_MOUNTPOINT, a + b) && y in a && a[|a| - 1].device != n.device
    requires forall y :: y in a ==> Le(BY_SIZE_DEVICE_MOUNTPOINT, y, n)
    ensures !Le(BY_SIZE_DEVICE_MOUNTPOINT, n, y)
  {
    hide Le, Sorted;
    var o, last := BY_SIZE_DEVICE_MOUNTPOINT, a[|a| - 1];
    var i :| 0 <= i < |a| && a[i] == y;
    SortedAt(o, a + b, i, |a| - 1);
    assert last in a;
    if Le(o, n, y) {
      LeTransitive(o, n, y, last);
      SameKeySameDevice(n, last);
    }
  }

  /** Appending a partition to any plan keeps the script exactly if its line is hidden behind
      its own device or hides an equal line. */
  lemma OneCopyUnchangedExactly(ps: seq<Partition>, n: Partition, isEfi: bool)
    ensures Script(ps + [n], isEfi) == Script(ps, isEfi) <==> Follows(ps, n) || Replaces(ps, n)
  {
    hide Line, Lines, UniqueAfter, Follows, Replaces, Le, Sorted, Class;
    var o := BY_SIZE_DEVICE_MOUNTPOINT;
    var ys := StableSort(o, ps);
    ScriptedBySingleSort(ps);
    ScriptedBySingleSort(ps + [n]);
    SortOfAppended(o, ps, n);
    StableSortIsStableSort(o, ps);
    SameClassesSameMembers(o, ps, ys);
    var a, b := InsertedBetween(o, ys, n);
    OneCopyInOrder(a, n, b);
    LastFollows(ps, a, b, n);
    if !Follows(ps, n) {
      FirstIsReplaced(ps, a, b, n);
    }
    var label_ := if isEfi then "label: gpt\n" else "label: dos\n";
    SameHead(label_, Lines(Scripted(ps + [n])), Lines(Scripted(ps)));
  }

  // ----- the expansion -----

  /** Among the subvolumes that get a copy, s is the first by mountpoint. */
  ghost predicate FirstMissing(ps: seq<Partition>, subvols: seq<BtrfsSubvolume>, s: BtrfsSubvolume) {
    && s in subvols && !Mounted(ps, s.mountpoint)
    && forall t :: t in subvols && !Mounted(ps, t.mountpoint) ==> StringLe(s.mountpoint, t.mountpoint)
  }

  /** Expanding the root keeps the script exactly if nothing is missing, or the first copy
      follows a partition of its device in size order, or stands in for one with an equal line. */
  lemma ScriptUnchangedExactly(ps: seq<Partition>, subvols: seq<BtrfsSubvolume>, isEfi: bool)
    requires Expandable(ps, subvols)
    ensures Script(Expanded(ps, subvols), isEfi) == Script(ps, isEfi) <==>
            forall s :: FirstMissing(ps, subvols, s) ==>
              Follows(ps, FromRoot(Root(ps), s)) || Replaces(ps, FromRoot(Root(ps), s))
  {
    hide Scripted, Lines, Follows, Replaces, Mounted, Expanded, Script;
    var cs := Copies(ps, subvols);
    ScriptOfExpanded(ps, subvols, isEfi);
    if cs == [] {
      assert ps + cs == ps;
      forall s | s in subvols && !Mounted(ps, s.mountpoint)
        ensures false
      {
        CopyMember(ps, subvols, FromRoot(Root(ps), s));
      }
    } else {
      var k := LeastCopy(cs);
      var s := CopiedFor(ps, subvols, cs[k]);
      CopiesAreDistinct(ps, subvols);
      CopiesShareTheRoot(ps, subvols);
      ScriptOfCopies(ps, cs, k, isEfi);
      OneCopyUnchangedExactly(ps, cs[k], isEfi);
      FirstIsUnique(ps, subvols, s, k);
    }
  }

  /** For instance: a sized root that is not the last in size order gets a second line. */
  lemma ScriptChangesForInstance(isEfi: bool)
    ensures var root := Partition("btrfs", "/", "", "/dev/sda2", "9", "", None, None, None, None);
            var data := Partition("ext4", "/data", "", "/dev/sda3", "1", "", None, None, None, None);
            var subvols := [BtrfsSubvolume("/@home", "/home")];
            && Expandable([root, data], subvols)
            && Script(Expanded([root, data], subvols), isEfi) != Script([root, data], isEfi)
  {
    var root := Partition("btrfs", "/", "", "/dev/sda2", "9", "", None, None, None, None);
    var data := Partition("ext4", "/data", "", "/dev/sda3", "1", "", None, None, None, None);
    var ps, subvols := [root, data], [BtrfsSubvolume("/@home", "/home")];
    hide Script, Expanded, Line;
    assert |"/"| == 1 && |"/home"| == |"/data"| == 5 && "/home"[1] != "/data"[1];
    assert subvols[0] in subvols && FirstRoot(ps) == 0 && Root(ps) == root;
    assert Expandable(ps, subvols);
    assert FirstMissing(ps, subvols, subvols[0]);
    HiddenByNone(ps, root, data, FromRoot(root, subvols[0]));
    ScriptUnchangedExactly(ps, subvols, isEfi);
  }

  lemma HiddenByNone(ps: seq<Partition>, root: Partition, data: Partition, n: Partition)
    requires ps == [root, data] && root.device == n.device != data.device
    requires root.size == "9" && data.size == "1" && n.size == ""
    ensures !Follows(ps, n) && !Replaces(ps, n)
  {
    hide Line;
    var o := BY_SIZE_DEVICE_MOUNTPOINT;
    assert Key(SizeDescending, root) == "9" && Key(SizeDescending, data) == "1" && Key(SizeDescending, n) == "";
    assert Separates(root, data, n);
    assert !Le(o, n, root) && !Le(o, n, data);
    assert data in ps;
  }

  lemma CopiedFor(ps: seq<Partition>, subvols: seq<BtrfsSubvolume>, c: Partition) returns (s: BtrfsSubvolume)
    requires HasRoot(ps) && c in Copies(ps, subvols)
    ensures s in subvols && !Mounted(ps, s.mountpoint) && c == FromRoot(Root(ps), s)
  {
    hide Mounted;
    CopyMember(ps, subvols, c);
    s :| s in subvols && !Mounted(ps, s.mountpoint) && c == FromRoot(Root(ps), s);
  }

  lemma {:induction false} CopiesShareTheRoot(ps: seq<Partition>, subvols: seq<BtrfsSubvolume>)
    requires HasRoot(ps)
    ensures forall c :: c in Copies(ps, subvols) ==> c.device == Root(ps).device && c.size == ""
  {
    hide Mounted;
    forall c | c in Copies(ps, subvols)
      ensures c.device == Root(ps).device && c.size == ""
    {
      var _ := CopiedFor(ps, subvols, c);
    }
  }

  lemma {:induction false} FirstIsUnique(ps: seq<Partition>, subvols: seq<BtrfsSubvolume>, s: BtrfsSubvolume, k: nat)
    requires HasRoot(ps) && DistinctSubvolumes(subvols)
    requires s in subvols && !Mounted(ps, s.mountpoint)
    requires k < |Copies(ps, subvols)| && Copies(ps, subvols)[k].mountpoint == s.mountpoint
    requires forall c :: c in Copies(ps, subvols) ==> StringLe(s.mountpoint, c.mountpoint)
    ensures forall t :: FirstMissing(ps, subvols, t) <==> t == s
  {
    hide Mounted;
    forall t | t in subvols && !Mounted(ps, t.mountpoint)
      ensures StringLe(s.mountpoint, t.mountpoint) && (StringLe(t.mountpoint, s.mountpoint) ==> t == s)
    {
      CopyMember(ps, subvols, FromRoot(Root(ps), t));
      assert FromRoot(Root(ps), t) in Copies(ps, subvols);
      StringLeTotal(s.mountpoint, t.mountpoint);
      var i, j :| 0 <= i < |subvols| && 0 <= j < |subvols| && subvols[i] == s && subvols[j] == t;
    }
  }

  lemma {:induction false} ScriptOfExpanded(ps: seq<Partition>, subvols: seq<BtrfsSubvolume>, isEfi: bool)
    requires Expandable(ps, subvols)
    ensures Script(Expanded(ps, subvols), isEfi) == Script(ps + Copies(ps, subvols), isEfi)
  {
    hide AllAlike, StableSort, UniqueByDevice, Upsert, UpsertAll, Lines;
    Expansion(ps, subvols);
    ExpansionAppendsCopies(ps, subvols);
    var rs := UpsertAll(ps, subvols).value;
    var cs := ps + Copies(ps, subvols);
    ScriptedBySingleSort(rs);
    ScriptedBySingleSort(Expanded(ps, subvols));
    SortForgetsSort(Device, BY_SIZE_DEVICE_MOUNTPOINT, rs);
    ScriptedOfAlike(cs, rs);
    LinesOfAlike(Scripted(cs), Scripted(rs));
  }
}
