/** What expanding the btrfs root into subvolumes does to everything that is
    generated from the storage plan afterwards. */
module SubvolumeLaws {
  import opened Options
  import opened Partitions
  import opened Btrfs
  import opened KernelParams
  import Crypttab
  import Text
  import Sfdisk

  /** What the installer passes: absolute mountpoints, nothing twice, nothing moved. */
  ghost predicate Expandable(ps: seq<Partition>, subvols: seq<BtrfsSubvolume>) {
    && HasRoot(ps) && DistinctSubvolumes(subvols) && NothingMoves(ps, subvols)
    && forall s :: s in subvols ==> Crypttab.IsAbsolute(s.mountpoint)
  }

  /** The plan as btrfs_append_subvolumes leaves it. */
  ghost function Expanded(ps: seq<Partition>, subvols: seq<BtrfsSubvolume>): seq<Partition>
    requires Expandable(ps, subvols)
  {
    Expansion(ps, subvols);
    StableSort([Device], UpsertAll(ps, subvols).value)
  }

  /** A copy of the root sorts behind the root. */
  lemma CopyAppears(ps: seq<Partition>, subvols: seq<BtrfsSubvolume>, s: BtrfsSubvolume)
    requires Expandable(ps, subvols) && s in subvols && !Mounted(ps, s.mountpoint)
    ensures var n := FromRoot(Root(ps), s);
            && Root(ps) in ps && Root(ps).mountpoint == "/" && n.device == Root(ps).device
            && n.mountpoint != "/" && StringLe("/", n.mountpoint)
  {
    assert Root(ps) in ps;
    Crypttab.RootComesFirst(s.mountpoint);
  }

  lemma ExpandableLater(ps: seq<Partition>, subvols: seq<BtrfsSubvolume>)
    requires Expandable(ps, subvols) && subvols != []
    ensures Upsert(ps, subvols[0]).Some? && Expandable(Upsert(ps, subvols[0]).value, subvols[1..])
  {
    UpsertStep(ps, subvols, subvols[0]);
    NothingMovesLater(ps, subvols);
  }

  // ----- crypttab -----

  lemma MapperOfAlike(ps: seq<Partition>, qs: seq<Partition>, m: string)
    requires AllAlike(ps, qs)
    ensures Crypttab.HasMapperAt(ps, m) == Crypttab.HasMapperAt(qs, m)
  {
    if Crypttab.HasMapperAt(ps, m) {
      var i :| 0 <= i < |ps| && ps[i].mountpoint == m && ps[i].luksMapperName.Some?;
      assert Alike(ps[i], qs[i]) && qs[i] in qs;
    }
    if Crypttab.HasMapperAt(qs, m) {
      var i :| 0 <= i < |qs| && qs[i].mountpoint == m && qs[i].luksMapperName.Some?;
      assert Alike(ps[i], qs[i]) && ps[i] in ps;
    }
  }

  /** The expansion mounts a copy of an encrypted root at a place where no
      partition was mounted. */
  ghost predicate MapsNew(ps: seq<Partition>, subvols: seq<BtrfsSubvolume>, m: string)
    requires HasRoot(ps)
  {
    Root(ps).luksMapperName.Some? && !Mounted(ps, m) && exists s :: s in subvols && s.mountpoint == m
  }

  lemma {:induction false} ExpansionKeepsRepresentatives(ps: seq<Partition>, subvols: seq<BtrfsSubvolume>)
    requires Expandable(ps, subvols)
    ensures UpsertAll(ps, subvols).Some?
    ensures AllAlike(Crypttab.Representatives(ps), Crypttab.Representatives(UpsertAll(ps, subvols).value))
    ensures AllAlike(Sfdisk.Scripted(ps), Sfdisk.Scripted(UpsertAll(ps, subvols).value)) || Root(ps).size != ""
    decreases subvols
  {
    hide Crypttab.Representatives, Sfdisk.Scripted, Upsert, AllAlike;
    if subvols != [] {
      var s := subvols[0];
      UpsertStep(ps, subvols, s);
      ExpandableLater(ps, subvols);
      var qs := Upsert(ps, s).value;
      ExpansionKeepsRepresentatives(qs, subvols[1..]);
      var rs := UpsertAll(qs, subvols[1..]).value;
      if Mounted(ps, s.mountpoint) {
        Crypttab.RepresentativesOfAlike(ps, qs);
        ScriptedOfAlike(ps, qs);
      } else {
        CopyAppears(ps, subvols, s);
        Crypttab.RepresentativesOfCopied(ps, Root(ps), FromRoot(Root(ps), s));
        AllAlikeReflexive(Crypttab.Representatives(ps));
        if Root(ps).size == "" {
          ScriptedOfCopied(ps, Root(ps), FromRoot(Root(ps), s));
          AllAlikeReflexive(Sfdisk.Scripted(ps));
        }
      }
      AllAlikeTransitive(Crypttab.Representatives(ps), Crypttab.Representatives(qs), Crypttab.Representatives(rs));
      if Root(ps).size == "" {
        AllAlikeTransitive(Sfdisk.Scripted(ps), Sfdisk.Scripted(qs), Sfdisk.Scripted(rs));
      }
    } else {
      AllAlikeReflexive(Crypttab.Representatives(ps));
      AllAlikeReflexive(Sfdisk.Scripted(ps));
    }
  }

  lemma AllAlikeReflexive(ps: seq<Partition>)
    ensures AllAlike(ps, ps)
  {
  }

  lemma ScriptedOfAlike(ps: seq<Partition>, qs: seq<Partition>)
    requires AllAlike(ps, qs)
    ensures AllAlike(Sfdisk.Scripted(ps), Sfdisk.Scripted(qs))
  {
    var o := Sfdisk.BY_SIZE_DEVICE_MOUNTPOINT;
    Sfdisk.ScriptedBySingleSort(ps);
    Sfdisk.ScriptedBySingleSort(qs);
    SortOfAlike(o, ps, qs);
    UniqueOfAlike(None, StableSort(o, ps), StableSort(o, qs));
  }

  lemma ScriptedOfCopied(ps: seq<Partition>, root: Partition, n: Partition)
    requires root in ps && root.device == n.device && root.size == n.size && StringLe(root.mountpoint, n.mountpoint)
    ensures Sfdisk.Scripted(ps + [n]) == Sfdisk.Scripted(ps)
  {
    var pre := [SizeDescending, Device];
    var o := pre + [Mountpoint];
    assert o == Sfdisk.BY_SIZE_DEVICE_MOUNTPOINT;
    var ys := StableSort(o, ps);
    Sfdisk.ScriptedBySingleSort(ps);
    Sfdisk.ScriptedBySingleSort(ps + [n]);
    SortOfAppended(o, ps, n);
    StableSortIsStableSort(o, ps);
    SameClassesSameMembers(o, ps, ys);
    LeByDevice(root, n);
    assert o[1..] == [Device, Mountpoint];
    SameByColumns(pre, root, n);
    CopyIsNoRepresentative(pre, [Mountpoint], None, ys, root, n);
  }

  /** Which mountpoints are encrypted after one round of the loop. */
  lemma MapperAfter(ps: seq<Partition>, subvols: seq<BtrfsSubvolume>, s: BtrfsSubvolume, m: string)
    requires HasRoot(ps) && NothingMoves(ps, subvols) && s in subvols
    ensures Upsert(ps, s).Some?
    ensures Crypttab.HasMapperAt(Upsert(ps, s).value, m) <==>
            || Crypttab.HasMapperAt(ps, m)
            || (m == s.mountpoint && !Mounted(ps, m) && Root(ps).luksMapperName.Some?)
  {
    hide Upsert, AllAlike;
    UpsertStep(ps, subvols, s);
    var qs := Upsert(ps, s).value;
    if Mounted(ps, s.mountpoint) {
      MapperOfAlike(ps, qs, m);
    } else {
      var n := FromRoot(Root(ps), s);
      assert forall p :: p in qs <==> p in ps || p == n;
    }
  }

  lemma {:induction false} MapperAfterAll(ps: seq<Partition>, subvols: seq<BtrfsSubvolume>, m: string)
    requires Expandable(ps, subvols)
    ensures UpsertAll(ps, subvols).Some?
    ensures Crypttab.HasMapperAt(UpsertAll(ps, subvols).value, m) <==>
            Crypttab.HasMapperAt(ps, m) || MapsNew(ps, subvols, m)
    decreases subvols
  {
    if subvols != [] {
      hide Upsert, AllAlike;
      var s, rest := subvols[0], subvols[1..];
      UpsertStep(ps, subvols, s);
      MapperAfter(ps, subvols, s, m);
      MountedAfter(ps, subvols, s, m);
      ExpandableLater(ps, subvols);
      MapperAfterAll(Upsert(ps, s).value, rest, m);
      assert (exists t :: t in subvols && t.mountpoint == m) <==>
             s.mountpoint == m || exists t :: t in rest && t.mountpoint == m;
    }
  }

  /** Expanding the root leaves crypttab byte for byte as it was, with one
      exception: when the expansion mounts a subvolume of an encrypted root at
      "/bool", where the generator looks for an encrypted boot partition, and
      the table has an entry for the root. */
  lemma CrypttabUnchangedExactly(header: string, ps: seq<Partition>, subvols: seq<BtrfsSubvolume>, opts: string)
    requires Expandable(ps, subvols)
    ensures Crypttab.Content(header, Expanded(ps, subvols), opts) == Crypttab.Content(header, ps, opts) <==>
            !(MapsNew(ps, subvols, "/bool")
              && exists p :: p in Crypttab.Representatives(ps) && p.mountpoint == "/" && Crypttab.Encrypted(p))
  {
    hide Crypttab.Representatives, Crypttab.Entries, Crypttab.Encrypted, AllAlike, StableSort, Upsert, UpsertAll;
    Expansion(ps, subvols);
    var rs := UpsertAll(ps, subvols).value;
    var qs := Expanded(ps, subvols);
    var before, after := Crypttab.Representatives(ps), Crypttab.Representatives(qs);
    ExpansionKeepsRepresentatives(ps, subvols);
    Crypttab.RepresentativesOfSorted(rs);
    SortKeepsMembership(rs);
    MapperAfterAll(ps, subvols, "/");
    MapperAfterAll(ps, subvols, "/bool");
    assert Mounted(ps, "/") by { assert Root(ps) in ps; }
    var rootEnc, bootEnc := Crypttab.HasMapperAt(ps, "/"), Crypttab.HasMapperAt(ps, "/bool");
    assert Crypttab.HasMapperAt(qs, "/") == rootEnc;
    var bootEnc' := bootEnc || MapsNew(ps, subvols, "/bool");
    assert Crypttab.HasMapperAt(qs, "/bool") == bootEnc';
    Crypttab.EntriesOfAlike(before, after, opts, rootEnc, bootEnc');
    Crypttab.BootFlagMatters(before, opts, rootEnc);
    assert bootEnc ==> Mounted(ps, "/bool");
    if MapsNew(ps, subvols, "/bool") {
      assert Root(ps) in ps && rootEnc;
    }
    assert Crypttab.Content(header, ps, opts)[|header|..] == Crypttab.Entries(before, opts, rootEnc, bootEnc);
    assert Crypttab.Content(header, qs, opts)[|header|..] == Crypttab.Entries(before, opts, rootEnc, bootEnc');
  }

  /** In terms of the plan: the representatives of a plan with absolute mountpoints and no
      pair of device and mountpoint twice include an encrypted root exactly if the plan does. */
  lemma CrypttabUnchangedByPlan(header: string, ps: seq<Partition>, subvols: seq<BtrfsSubvolume>, opts: string)
    requires Expandable(ps, subvols) && DistinctKeys([Device, Mountpoint], ps)
    requires forall p :: p in ps ==> Crypttab.IsAbsolute(p.mountpoint)
    ensures Crypttab.Content(header, Expanded(ps, subvols), opts) == Crypttab.Content(header, ps, opts) <==>
            !(MapsNew(ps, subvols, "/bool") && exists p :: p in ps && p.mountpoint == "/" && Crypttab.Encrypted(p))
  {
    hide Crypttab.Representatives, Crypttab.Content, Expanded, Crypttab.Encrypted, MapsNew;
    CrypttabUnchangedExactly(header, ps, subvols, opts);
    Crypttab.RootsAreRepresentatives(ps);
  }

  /** For instance: a subvolume at "/bool" of a plain encrypted root changes the table. */
  lemma CrypttabChangesForInstance(header: string, opts: string)
    ensures var root := Partition("btrfs", "/", "", "/dev/sda2", "", "", None, Some("crypt"), Some("1"), None);
            var subvols := [BtrfsSubvolume("/@bool", "/bool")];
            && Expandable([root], subvols)
            && Crypttab.Content(header, Expanded([root], subvols), opts) != Crypttab.Content(header, [root], opts)
  {
    var root := Partition("btrfs", "/", "", "/dev/sda2", "", "", None, Some("crypt"), Some("1"), None);
    var subvols := [BtrfsSubvolume("/@bool", "/bool")];
    hide Crypttab.Content, Expanded;
    assert |"/"| == 1 && |"/bool"| == 5;
    assert subvols[0] in subvols && root in [root];
    assert MapsNew([root], subvols, "/bool");
    assert Crypttab.Encrypted(root);
    CrypttabUnchangedByPlan(header, [root], subvols, opts);
  }

  // ----- the sfdisk script -----

  lemma {:induction false} LinesOfAlike(ps: seq<Partition>, qs: seq<Partition>)
    requires AllAlike(ps, qs)
    ensures Sfdisk.Lines(ps) == Sfdisk.Lines(qs)
  {
    if ps != [] {
      LinesOfAlike(ps[1..], qs[1..]);
    }
  }

  /** A root that takes the remaining space is partitioned the same way whether or
      not it was expanded before; the copies carry no size, so they share its line. */
  lemma ScriptUnchanged(ps: seq<Partition>, subvols: seq<BtrfsSubvolume>, isEfi: bool)
    requires Expandable(ps, subvols) && Root(ps).size == ""
    ensures Sfdisk.Script(Expanded(ps, subvols), isEfi) == Sfdisk.Script(ps, isEfi)
  {
    hide AllAlike, StableSort, UniqueByDevice, Upsert, UpsertAll, Sfdisk.Lines;
    Expansion(ps, subvols);
    var rs := UpsertAll(ps, subvols).value;
    var qs := Expanded(ps, subvols);
    ExpansionKeepsRepresentatives(ps, subvols);
    Sfdisk.ScriptedBySingleSort(rs);
    Sfdisk.ScriptedBySingleSort(qs);
    SortForgetsSort(Device, Sfdisk.BY_SIZE_DEVICE_MOUNTPOINT, rs);
    LinesOfAlike(Sfdisk.Scripted(ps), Sfdisk.Scripted(qs));
  }

  // ----- the kernel command line -----

  lemma PlaysOfAlike(role: Role, p: Partition, q: Partition)
    requires Alike(p, q)
    ensures Plays(role, p) == Plays(role, q)
  {
  }

  lemma AllAlikeGrows(ps: seq<Partition>, qs: seq<Partition>, p: Partition, q: Partition)
    requires AllAlike(ps, qs) && Alike(p, q)
    ensures AllAlike(ps + [p], qs + [q])
  {
  }

  lemma {:induction false} ThoseOfAlike(role: Role, ps: seq<Partition>, qs: seq<Partition>)
    requires AllAlike(ps, qs)
    ensures AllAlike(Those(role, ps), Those(role, qs))
  {
    hide Plays;
    if ps != [] {
      var n := |ps| - 1;
      assert Alike(ps[n], qs[n]);
      PlaysOfAlike(role, ps[n], qs[n]);
      ThoseOfAlike(role, ps[..n], qs[..n]);
      AllAlikeGrows(Those(role, ps[..n]), Those(role, qs[..n]), ps[n], qs[n]);
    }
  }

  lemma {:induction false} ThoseOfCopied(role: Role, ps: seq<Partition>, root: Partition, s: BtrfsSubvolume)
    requires root.fstype == "btrfs" && s.mountpoint != "/"
    ensures Those(role, ps + [FromRoot(root, s)]) == Those(role, ps)
  {
    var n := FromRoot(root, s);
    assert (ps + [n])[..|ps|] == ps;
    assert !Plays(role, n);
  }

  /** Copies of a btrfs root are neither roots nor swaps. */
  lemma {:induction false} ExpansionKeepsRoles(ps: seq<Partition>, subvols: seq<BtrfsSubvolume>, role: Role)
    requires Expandable(ps, subvols)
    ensures UpsertAll(ps, subvols).Some?
    ensures AllAlike(Those(role, ps), Those(role, UpsertAll(ps, subvols).value))
    decreases subvols
  {
    hide Those, AllAlike, Upsert;
    if subvols != [] {
      var s := subvols[0];
      UpsertStep(ps, subvols, s);
      ExpandableLater(ps, subvols);
      var qs := Upsert(ps, s).value;
      ExpansionKeepsRoles(qs, subvols[1..], role);
      var rs := UpsertAll(qs, subvols[1..]).value;
      if Mounted(ps, s.mountpoint) {
        ThoseOfAlike(role, ps, qs);
      } else {
        CopyAppears(ps, subvols, s);
        ThoseOfCopied(role, ps, Root(ps), s);
        AllAlikeReflexive(Those(role, ps));
      }
      AllAlikeTransitive(Those(role, ps), Those(role, qs), Those(role, rs));
    } else {
      AllAlikeReflexive(Those(role, ps));
    }
  }

  lemma {:induction false} ExpandedKeepsRoles(ps: seq<Partition>, subvols: seq<BtrfsSubvolume>, role: Role)
    requires Expandable(ps, subvols) && |Those(role, ps)| <= 1
    ensures AllAlike(Those(role, ps), Those(role, Expanded(ps, subvols)))
  {
    hide Those, StableSort, Upsert, UpsertAll;
    Expansion(ps, subvols);
    var rs := UpsertAll(ps, subvols).value;
    ExpansionKeepsRoles(ps, subvols, role);
    SortKeepsMembers([Device], rs);
    SameThose(role, rs, Expanded(ps, subvols));
  }

  /** The command line before and after the place where a root adds its own words. */
  function Head(kernelParams: string): seq<string> {
    Text.Fields(kernelParams, ' ') + ["rw"]
  }

  function Tail(ps: seq<Partition>): seq<string> {
    RootWords(UuidOf(Last(Those(AnyRoot, ps))).GetOr(""), CryptWords(Last(Those(LuksRoot, ps))))
    + (ResumeWords("resume=UUID=", UuidOf(Last(Those(PlainSwap, ps))))
       + ResumeWords("resume=/dev/mapper/", MapperOf(Last(Those(LuksSwap, ps)))))
  }

  lemma {:induction false} ParamsOfOneRoot(ps: seq<Partition>, root: Partition, kernelParams: string,
                                           zfs: Option<string>)
    requires Those(AnyRoot, ps) == [root] && root.fstype == "btrfs"
    ensures Params(ps, kernelParams, zfs) ==
            if root.uuidStr == "" then None else Some(Head(kernelParams) + FlagsOf(root, zfs) + Tail(ps))
  {
    hide Text.Fields, FlagsOf, RootWords, ResumeWords, CryptWords;
    assert [root][..0] == [];
    assert Flags([root], zfs) == FlagsOf(root, zfs);
    assert !ZfsUnresolved([root], zfs);
    var head := Head(kernelParams) + FlagsOf(root, zfs);
    var named := RootWords(root.uuidStr, CryptWords(Last(Those(LuksRoot, ps))));
    var r1 := ResumeWords("resume=UUID=", UuidOf(Last(Those(PlainSwap, ps))));
    var r2 := ResumeWords("resume=/dev/mapper/", MapperOf(Last(Those(LuksSwap, ps))));
    assert head + named + r1 + r2 == head + (named + (r1 + r2));
  }

  lemma LastOfAlike(ps: seq<Partition>, qs: seq<Partition>)
    requires AllAlike(ps, qs)
    ensures UuidOf(Last(ps)) == UuidOf(Last(qs)) && MapperOf(Last(ps)) == MapperOf(Last(qs))
    ensures CryptWords(Last(ps)) == CryptWords(Last(qs))
  {
  }

  lemma {:induction false} TailOfAlike(ps: seq<Partition>, qs: seq<Partition>)
    requires forall role: Role :: AllAlike(Those(role, ps), Those(role, qs))
    ensures Tail(ps) == Tail(qs)
  {
    hide Those, Last, UuidOf, MapperOf, CryptWords, RootWords, ResumeWords;
    LastOfAlike(Those(AnyRoot, ps), Those(AnyRoot, qs));
    LastOfAlike(Those(LuksRoot, ps), Those(LuksRoot, qs));
    LastOfAlike(Those(PlainSwap, ps), Those(PlainSwap, qs));
    LastOfAlike(Those(LuksSwap, ps), Those(LuksSwap, qs));
  }

  lemma {:induction false} PlaceUntouched(ps: seq<Partition>, subvols: seq<BtrfsSubvolume>, p: Partition)
    requires Expandable(ps, subvols) && forall s :: s in subvols ==> s.mountpoint != p.mountpoint
    requires UpsertAll(ps, subvols).Some? && p in UpsertAll(ps, subvols).value
    ensures p in ps
    decreases subvols
  {
    if subvols != [] {
      var s := subvols[0];
      UpsertStep(ps, subvols, s);
      ExpandableLater(ps, subvols);
      var qs := Upsert(ps, s).value;
      PlaceUntouched(qs, subvols[1..], p);
      if Mounted(ps, s.mountpoint) {
        var i := FirstMatch(ps, s);
        var k :| 0 <= k < |qs| && qs[k] == p;
        assert i < |ps| ==> qs[i].mountpoint == s.mountpoint;
        assert p == ps[k];
      }
    }
  }

  lemma {:induction false} RootOfExpanded(ps: seq<Partition>, subvols: seq<BtrfsSubvolume>, root': Partition)
    requires Expandable(ps, subvols) && Unambiguous(ps)
    requires Those(AnyRoot, Expanded(ps, subvols)) == [root']
    requires forall t :: t in subvols ==> CountAt(ps, t.mountpoint) <= 1
    ensures forall s :: s in subvols && s.mountpoint == "/" ==> root'.subvolume == Some(s.subvolume)
    ensures (forall s :: s in subvols ==> s.mountpoint != "/") ==> root' == Root(ps)
  {
    hide StableSort, Upsert, UpsertAll;
    var qs := Expanded(ps, subvols);
    Expansion(ps, subvols);
    assert root' in Those(AnyRoot, qs);
    assert root' in qs && root'.mountpoint == "/";
    forall s | s in subvols && s.mountpoint == "/" ensures root'.subvolume == Some(s.subvolume) {
      EverySubvolumeOnce(ps, subvols, s);
      assert FindPartition(root', s);
    }
    if forall s :: s in subvols ==> s.mountpoint != "/" {
      SortKeepsMembership(UpsertAll(ps, subvols).value);
      PlaceUntouched(ps, subvols, root');
      OnlyRoot(ps, root');
    }
  }

  lemma {:induction false} OnlyRoot(ps: seq<Partition>, p: Partition)
    requires HasRoot(ps) && Unambiguous(ps) && p in ps && p.mountpoint == "/"
    ensures Those(AnyRoot, ps) == [p] && p == Root(ps)
  {
    hide Those;
    ThoseMember(AnyRoot, ps, p);
    ThoseMember(AnyRoot, ps, Root(ps));
    assert |Those(AnyRoot, ps)| <= 1;
  }

  /** In an unambiguous plan whose root has no subvolume yet, mounting a subvolume
      at "/" adds one rootflags parameter right after "rw" and changes nothing
      else; without such a subvolume the command line stays as it is. */
  lemma {:induction false} SubvolumeAtRootAddsOneFlag(ps: seq<Partition>, subvols: seq<BtrfsSubvolume>,
                                   kernelParams: string, zfs: Option<string>)
    requires Expandable(ps, subvols) && Unambiguous(ps) && Root(ps).subvolume == None
    requires forall t :: t in subvols ==> CountAt(ps, t.mountpoint) <= 1
    requires Params(ps, kernelParams, zfs).Some?
    ensures Params(ps, kernelParams, zfs).value == Head(kernelParams) + Tail(ps)
    ensures forall s :: s in subvols && s.mountpoint == "/" ==>
              Params(Expanded(ps, subvols), kernelParams, zfs)
              == Some(Head(kernelParams) + ["rootflags=subvol=" + s.subvolume] + Tail(ps))
    ensures (forall s :: s in subvols ==> s.mountpoint != "/") ==>
              Params(Expanded(ps, subvols), kernelParams, zfs) == Params(ps, kernelParams, zfs)
  {
    hide Those, Params, Head, Tail, Expanded;
    var qs := Expanded(ps, subvols);
    var root := Root(ps);
    assert root in ps;
    OnlyRoot(ps, root);
    forall role: Role ensures AllAlike(Those(role, ps), Those(role, qs)) {
      assert |Those(role, ps)| <= 1;
      ExpandedKeepsRoles(ps, subvols, role);
    }
    assert AllAlike(Those(AnyRoot, ps), Those(AnyRoot, qs));
    var root' := Those(AnyRoot, qs)[0];
    assert Alike(root, root') && Those(AnyRoot, qs) == [root'];
    TailOfAlike(ps, qs);
    ParamsOfOneRoot(ps, root, kernelParams, zfs);
    ParamsOfOneRoot(qs, root', kernelParams, zfs);
    RootOfExpanded(ps, subvols, root');
    assert FlagsOf(root, zfs) == [];
    assert Head(kernelParams) + [] == Head(kernelParams);
  }
}
