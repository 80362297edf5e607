/** What the expansion of the btrfs root adds to the table of filesystems. */
module FstabLaws {
  import opened Options
  import opened Partitions
  import opened Btrfs
  import opened SubvolumeLaws
  import opened ScriptLaws
  import opened Mtab
  import opened Fstab
  import Text

  // ----- the table as a collection of entries -----

  lemma {:induction false} ExpectedOfAlike(ps: seq<Partition>, qs: seq<Partition>, root: string)
    requires AllAlike(ps, qs)
    ensures Expected(ps, root) == Expected(qs, root)
  {
    if ps != [] {
      ExpectedOfAlike(ps[1..], qs[1..], root);
    }
  }

  lemma {:induction false} ExpectedConcat(ps: seq<Partition>, qs: seq<Partition>, root: string)
    ensures Expected(ps + qs, root) == Expected(ps, root) + Expected(qs, root)
  {
    hide Spec, Written;
    if ps == [] {
      assert ps + qs == qs;
    } else {
      assert (ps + qs)[1..] == ps[1..] + qs;
      ExpectedConcat(ps[1..], qs, root);
    }
  }

  lemma {:induction false} ExpectedOfInserted(o: Order, x: Partition, ys: seq<Partition>, root: string)
    ensures multiset(Expected(Insert(o, x, ys), root)) == multiset(Expected([x], root)) + multiset(Expected(ys, root))
  {
    hide Expected, Le;
    if ys == [] || Le(o, x, ys[0]) {
      ExpectedConcat([x], ys, root);
    } else {
      ExpectedOfInserted(o, x, ys[1..], root);
      ExpectedConcat([ys[0]], Insert(o, x, ys[1..]), root);
      ExpectedConcat([ys[0]], ys[1..], root);
      assert ys == [ys[0]] + ys[1..];
    }
  }

  lemma {:induction false} ExpectedOfSorted(o: Order, ps: seq<Partition>, root: string)
    ensures multiset(Expected(StableSort(o, ps), root)) == multiset(Expected(ps, root))
  {
    if ps != [] {
      hide Expected, Insert;
      ExpectedOfSorted(o, ps[1..], root);
      ExpectedOfInserted(o, ps[0], StableSort(o, ps[1..]), root);
      ExpectedConcat([ps[0]], ps[1..], root);
      assert ps == [ps[0]] + ps[1..];
    }
  }

  // ----- what is gained -----

  /** The root's device, once for every listed mount point below top where nothing was mounted. */
  ghost function Gained(ps: seq<Partition>, subvols: seq<BtrfsSubvolume>, top: string): seq<MTabEntry>
    requires HasRoot(ps)
  {
    if subvols == [] then []
    else if !Mounted(ps, subvols[0].mountpoint) && top <= subvols[0].mountpoint
    then [MTabEntry(Spec(Root(ps)), subvols[0].mountpoint)] + Gained(ps, subvols[1..], top)
    else Gained(ps, subvols[1..], top)
  }

  lemma BtrfsIsWritten(p: Partition)
    requires p.fstype == "btrfs"
    ensures Written(p) && ConvertedFs(p.fstype) == "btrfs"
  {
    assert Text.Lowered("btrfs") == "btrfs";
  }

  lemma {:induction false} CopiesAreGained(ps: seq<Partition>, subvols: seq<BtrfsSubvolume>, top: string)
    requires HasRoot(ps)
    ensures Expected(Copies(ps, subvols), top) == Gained(ps, subvols, top)
  {
    if subvols != [] {
      hide Mounted, Written;
      CopiesAreGained(ps, subvols[1..], top);
      var n := FromRoot(Root(ps), subvols[0]);
      BtrfsIsWritten(n);
      assert Spec(n) == Spec(Root(ps));
      assert ([n] + Copies(ps, subvols[1..]))[1..] == Copies(ps, subvols[1..]);
    }
  }

  /** Below any mount point, the table of the expanded plan mentions what it did before,
      and the root's device for every subvolume that was not mounted yet. */
  lemma {:induction false} TableGainsSubvolumes(ps: seq<Partition>, subvols: seq<BtrfsSubvolume>, top: string)
    requires Expandable(ps, subvols)
    ensures multiset(Expected(Expanded(ps, subvols), top))
         == multiset(Expected(ps, top)) + multiset(Gained(ps, subvols, top))
  {
    hide Expected, StableSort, UpsertAll, Copies, Gained, AllAlike;
    Expansion(ps, subvols);
    ExpansionAppendsCopies(ps, subvols);
    var rs, cs := UpsertAll(ps, subvols).value, Copies(ps, subvols);
    ExpectedOfSorted([Device], rs, top);
    ExpectedOfAlike(ps + cs, rs, top);
    ExpectedConcat(ps, cs, top);
    CopiesAreGained(ps, subvols, top);
  }

  // ----- what is read -----

  /** Nothing that is printed of p breaks a line, and its first two columns can be read. */
  predicate Plain(p: Partition) {
    Written(p) ==>
      && Named(p) && '\n' !in p.device && '\n' !in ConvertedFs(p.fstype)
      && '\n' !in p.mountOpts && '\n' !in p.subvolume.GetOr("")
  }

  predicate PlainSubvolume(s: BtrfsSubvolume) {
    Text.Word(s.mountpoint) && '\n' !in s.mountpoint && '\n' !in s.subvolume
  }

  lemma {:induction false} PlainAfter(ps: seq<Partition>, subvols: seq<BtrfsSubvolume>)
    requires (forall p :: p in ps ==> Plain(p)) && forall s :: s in subvols ==> PlainSubvolume(s)
    requires UpsertAll(ps, subvols).Some?
    ensures forall p :: p in UpsertAll(ps, subvols).value ==> Plain(p)
    decreases subvols
  {
    if subvols != [] {
      hide Plain, PlainSubvolume;
      var s := subvols[0];
      var qs := Upsert(ps, s).value;
      forall p | p in ps
        ensures Plain(Retag(p, s)) && (IsRootBtrfsPart(p) ==> Plain(FromRoot(p, s)))
      {
        PlainStays(p, s);
      }
      assert forall i :: 0 <= i < |ps| ==> ps[i] in ps;
      PlainAfter(qs, subvols[1..]);
    }
  }

  lemma PlainStays(p: Partition, s: BtrfsSubvolume)
    requires Plain(p) && PlainSubvolume(s)
    ensures Plain(Retag(p, s)) && (IsRootBtrfsPart(p) ==> Plain(FromRoot(p, s)))
  {
    hide ConvertedFs;
    if p.fstype == "btrfs" {
      BtrfsIsWritten(p);
    }
  }

  lemma {:induction false} PlainTableReads(ps: seq<Partition>, top: string)
    requires forall p :: p in ps ==> Plain(p)
    ensures Parse(Content(ps), top) == Expected(ps, top)
  {
    hide Parse, Content, Expected, Contained, Typed, Named, Written, ConvertedFs;
    forall p | p in ps && Written(p)
      ensures Named(p) && Typed(p) && Contained(p)
    {
      OneLineIsContained(p);
    }
    RoundTripExactly(ps);
  }

  /** So whoever reads the table afterwards finds every mount that was there, and the new ones. */
  lemma {:induction false} ReadingGainsSubvolumes(ps: seq<Partition>, subvols: seq<BtrfsSubvolume>, top: string)
    requires Expandable(ps, subvols)
    requires (forall p :: p in ps ==> Plain(p)) && forall s :: s in subvols ==> PlainSubvolume(s)
    ensures multiset(Parse(Content(Expanded(ps, subvols)), top))
         == multiset(Parse(Content(ps), top)) + multiset(Gained(ps, subvols, top))
  {
    hide Parse, Content, Expected, Gained, Plain, PlainSubvolume, StableSort, UpsertAll;
    Expansion(ps, subvols);
    PlainAfter(ps, subvols);
    SortKeepsMembership(UpsertAll(ps, subvols).value);
    PlainTableReads(ps, top);
    PlainTableReads(Expanded(ps, subvols), top);
    TableGainsSubvolumes(ps, subvols, top);
  }
}
