/** Expanding the btrfs root partition of a storage plan into its subvolumes. */
module Btrfs {
  import opened Options
  import opened Partitions

  predicate FindPartition(p: Partition, s: BtrfsSubvolume) {
    p.mountpoint == s.mountpoint || p.subvolume == Some(s.subvolume)
  }

  predicate IsRootBtrfsPart(p: Partition) {
    p.mountpoint == "/" && p.fstype == "btrfs"
  }

  /** The position of the first partition that the subvolume is found at, or |ps|. */
  function FirstMatch(ps: seq<Partition>, s: BtrfsSubvolume): (i: nat)
    ensures i <= |ps|
    ensures i < |ps| ==> FindPartition(ps[i], s)
    ensures forall j :: 0 <= j < i ==> !FindPartition(ps[j], s)
  {
    if ps == [] || FindPartition(ps[0], s) then 0 else 1 + FirstMatch(ps[1..], s)
  }

  /** The position of the first btrfs root, or |ps|. */
  function FirstRoot(ps: seq<Partition>): (i: nat)
    ensures i <= |ps|
    ensures i < |ps| ==> IsRootBtrfsPart(ps[i])
    ensures forall j :: 0 <= j < i ==> !IsRootBtrfsPart(ps[j])
  {
    if ps == [] || IsRootBtrfsPart(ps[0]) then 0 else 1 + FirstRoot(ps[1..])
  }

  predicate HasRoot(ps: seq<Partition>) {
    FirstRoot(ps) < |ps|
  }

  /** A partition entry for a subvolume; the size is not inherited. */
  function FromRoot(root: Partition, s: BtrfsSubvolume): Partition {
    Partition(root.fstype, s.mountpoint, root.uuidStr, root.device, "", root.mountOpts,
              Some(s.subvolume), root.luksMapperName, root.luksUuid, root.luksPassphrase)
  }

  function Retag(p: Partition, s: BtrfsSubvolume): Partition {
    p.(mountpoint := s.mountpoint, subvolume := Some(s.subvolume))
  }

  /** One round of the loop; None where it would read through the end iterator
      because there is no root to copy from. */
  function Upsert(ps: seq<Partition>, s: BtrfsSubvolume): Option<seq<Partition>> {
    var i := FirstMatch(ps, s);
    if i < |ps| then Some(ps[i := Retag(ps[i], s)])
    else if HasRoot(ps) then Some(ps + [FromRoot(ps[FirstRoot(ps)], s)])
    else None
  }

  function UpsertAll(ps: seq<Partition>, subvols: seq<BtrfsSubvolume>): Option<seq<Partition>>
    decreases subvols
  {
    if subvols == [] then Some(ps)
    else match Upsert(ps, subvols[0])
         case None => None
         case Some(qs) => UpsertAll(qs, subvols[1..])
  }

  class StoragePlan {
    var partitions: seq<Partition>

    constructor (ps: seq<Partition>)
      ensures partitions == ps
    {
      partitions := ps;
    }

    /** btrfs_append_subvolumes. The source's only demand is that its loop never
        needs a root that is not there. */
    method AppendSubvolumes(subvols: seq<BtrfsSubvolume>) returns (ok: bool)
      requires HasRoot(partitions) ==> UpsertAll(partitions, subvols).Some?
      modifies this
      ensures ok == (subvols == [] || old(HasRoot(partitions)))
      ensures partitions == if subvols == [] || !ok then old(partitions)
                            else StableSort([Device], UpsertAll(old(partitions), subvols).value)
    {
      if subvols == [] {
        return true;
      }
      if !HasRoot(partitions) {
        return false;
      }
      assert subvols[0..] == subvols;
      for k := 0 to |subvols|
        invariant UpsertAll(partitions, subvols[k..]) == UpsertAll(old(partitions), subvols)
      {
        ghost var ps := partitions;
        var s := subvols[k];
        assert subvols[k..][0] == s && subvols[k..][1..] == subvols[k + 1..];
        var i := FirstMatch(partitions, s);
        if i < |partitions| {
          partitions := partitions[i := partitions[i].(mountpoint := s.mountpoint)];
          partitions := partitions[i := partitions[i].(subvolume := Some(s.subvolume))];
          assert partitions == ps[i := Retag(ps[i], s)];
        } else {
          var root := partitions[FirstRoot(partitions)];
          var part := FromRoot(root, s);
          partitions := partitions + [part];
        }
        assert Upsert(ps, s) == Some(partitions);
      }
      partitions := StableSort([Device], partitions);
      return true;
    }
  }

  // ----- when the root is never lost -----

  ghost predicate DistinctSubvolumes(subvols: seq<BtrfsSubvolume>) {
    forall i, j :: 0 <= i < j < |subvols| ==>
      subvols[i].subvolume != subvols[j].subvolume && subvols[i].mountpoint != subvols[j].mountpoint
  }

  /** The root's own subvolume, if it is listed at all, is listed at "/". */
  ghost predicate RootStays(root: Partition, subvols: seq<BtrfsSubvolume>) {
    forall s :: s in subvols && root.subvolume == Some(s.subvolume) ==> s.mountpoint == "/"
  }

  /** The note in the loop that the root need not be checked again is right when
      the root's own subvolume stays mounted at "/". */
  lemma {:induction false} RootIsNeverLost(ps: seq<Partition>, subvols: seq<BtrfsSubvolume>, r: nat)
    requires DistinctSubvolumes(subvols)
    requires r < |ps| && IsRootBtrfsPart(ps[r]) && RootStays(ps[r], subvols)
    ensures UpsertAll(ps, subvols).Some?
    ensures r < |UpsertAll(ps, subvols).value| && IsRootBtrfsPart(UpsertAll(ps, subvols).value[r])
    decreases subvols
  {
    if subvols != [] {
      var s, rest := subvols[0], subvols[1..];
      assert HasRoot(ps);
      var qs := Upsert(ps, s).value;
      forall t | t in rest && qs[r].subvolume == Some(t.subvolume) ensures t.mountpoint == "/" {
        var j :| 0 <= j < |rest| && rest[j] == t;
        assert subvols[0].subvolume != subvols[j + 1].subvolume;
        assert t in subvols;
      }
      RootIsNeverLost(qs, rest, r);
    }
  }

  /** Except for the root at r, nothing is mounted at "/", and a listed subvolume that
      exists is where the list wants it. */
  ghost predicate OthersStay(ps: seq<Partition>, subvols: seq<BtrfsSubvolume>, r: nat) {
    && r < |ps| && IsRootBtrfsPart(ps[r])
    && forall i :: 0 <= i < |ps| && i != r ==> Stays(ps[i], subvols)
  }

  ghost predicate Stays(p: Partition, subvols: seq<BtrfsSubvolume>) {
    && p.mountpoint != "/"
    && forall s :: s in subvols && p.subvolume == Some(s.subvolume) ==> p.mountpoint == s.mountpoint
  }

  ghost predicate Mounted(ps: seq<Partition>, mountpoint: string) {
    exists p :: p in ps && p.mountpoint == mountpoint
  }

  /** The k-th listed subvolume is the root's own, the list did not mount another one at
      "/" before, and no partition in front of the root is found in its place. */
  ghost predicate MovesRoot(ps: seq<Partition>, subvols: seq<BtrfsSubvolume>, r: nat, k: nat)
    requires r < |ps| && k < |subvols|
  {
    && ps[r].subvolume == Some(subvols[k].subvolume)
    && (forall j :: 0 <= j <= k ==> subvols[j].mountpoint != "/")
    && forall i :: 0 <= i < r ==> ps[i].mountpoint != subvols[k].mountpoint
  }

  /** A subvolume that needs a copy of the root once the root has moved. */
  ghost predicate NeedsRoot(ps: seq<Partition>, s: BtrfsSubvolume) {
    s.mountpoint == "/" || !Mounted(ps, s.mountpoint)
  }

  /** The list moves the root away and comes to need it later. */
  ghost predicate LosesRoot(ps: seq<Partition>, subvols: seq<BtrfsSubvolume>, r: nat)
    requires r < |ps|
  {
    exists k, m :: 0 <= k < m < |subvols| && MovesRoot(ps, subvols, r, k) && NeedsRoot(ps, subvols[m])
  }

  /** The loop comes to read through the end iterator exactly if the list moves the root
      away and needs it later. */
  lemma {:induction false} RootIsLostExactly(ps: seq<Partition>, subvols: seq<BtrfsSubvolume>, r: nat)
    requires DistinctSubvolumes(subvols) && OthersStay(ps, subvols, r)
    ensures UpsertAll(ps, subvols).None? <==> LosesRoot(ps, subvols, r)
    decreases subvols
  {
    if subvols != [] {
      hide LosesRoot, Stays;
      var s, rest := subvols[0], subvols[1..];
      RestIsDistinct(subvols);
      if s.mountpoint == "/" {
        RootIsConfirmed(ps, subvols, r);
      } else if ps[r].subvolume != Some(s.subvolume) {
        OthersFound(ps, subvols, r);
        var qs := Upsert(ps, s).value;
        RootIsLostExactly(qs, rest, r);
        LosesRootLater(ps, subvols, r, qs);
      } else if exists i :: 0 <= i < r && ps[i].mountpoint == s.mountpoint {
        RootIsShielded(ps, subvols, r);
      } else {
        RootMoves(ps, subvols, r);
      }
    }
  }

  lemma RestIsDistinct(subvols: seq<BtrfsSubvolume>)
    requires subvols != [] && DistinctSubvolumes(subvols)
    ensures DistinctSubvolumes(subvols[1..])
    ensures forall t :: t in subvols[1..] ==>
              t in subvols && t.subvolume != subvols[0].subvolume && t.mountpoint != subvols[0].mountpoint
  {
    forall t | t in subvols[1..]
      ensures t.subvolume != subvols[0].subvolume && t.mountpoint != subvols[0].mountpoint
    {
      var j :| 0 <= j < |subvols[1..]| && subvols[1..][j] == t;
      assert subvols[j + 1] == t;
    }
  }

  /** What stays is found for the first subvolume exactly if it is mounted there. */
  lemma FoundInPlace(p: Partition, subvols: seq<BtrfsSubvolume>)
    requires subvols != [] && Stays(p, subvols)
    ensures FindPartition(p, subvols[0]) <==> p.mountpoint == subvols[0].mountpoint
  {
    assert subvols[0] in subvols;
  }

  lemma StaysLater(p: Partition, subvols: seq<BtrfsSubvolume>)
    requires subvols != [] && DistinctSubvolumes(subvols) && Stays(p, subvols)
    ensures Stays(p, subvols[1..])
    ensures p.mountpoint == subvols[0].mountpoint ==> Stays(Retag(p, subvols[0]), subvols[1..])
  {
    RestIsDistinct(subvols);
  }

  lemma {:induction false} RootIsConfirmed(ps: seq<Partition>, subvols: seq<BtrfsSubvolume>, r: nat)
    requires DistinctSubvolumes(subvols) && OthersStay(ps, subvols, r)
    requires subvols != [] && subvols[0].mountpoint == "/"
    ensures UpsertAll(ps, subvols).Some? && !LosesRoot(ps, subvols, r)
  {
    var s, rest := subvols[0], subvols[1..];
    var root := Retag(ps[r], s);
    RestIsDistinct(subvols);
    assert s in subvols;
    assert Upsert(ps, s) == Some(ps[r := root]);
    RootIsNeverLost(ps[r := root], rest, r);
  }

  /** Another subvolume is found in its place or gets a copy of the root. */
  lemma OthersFound(ps: seq<Partition>, subvols: seq<BtrfsSubvolume>, r: nat)
    requires DistinctSubvolumes(subvols) && OthersStay(ps, subvols, r)
    requires subvols != [] && subvols[0].mountpoint != "/" && ps[r].subvolume != Some(subvols[0].subvolume)
    ensures Upsert(ps, subvols[0]).Some?
    ensures var qs := Upsert(ps, subvols[0]).value;
            && OthersStay(qs, subvols[1..], r) && qs[r] == ps[r] && |ps| <= |qs|
            && (forall i :: 0 <= i < r ==> qs[i].mountpoint == ps[i].mountpoint)
            && forall t :: t in subvols[1..] ==> (NeedsRoot(qs, t) <==> NeedsRoot(ps, t))
  {
    hide Stays;
    var s, rest := subvols[0], subvols[1..];
    var i := FirstMatch(ps, s);
    RestIsDistinct(subvols);
    forall j | 0 <= j < |ps| && j != r
      ensures Stays(ps[j], rest) && (FindPartition(ps[j], s) <==> ps[j].mountpoint == s.mountpoint)
      ensures ps[j].mountpoint == s.mountpoint ==> Stays(Retag(ps[j], s), rest)
    {
      FoundInPlace(ps[j], subvols);
      StaysLater(ps[j], subvols);
    }
    if i < |ps| {
      MountsKept(ps, i, s);
    } else {
      RootComesFirst(ps, subvols, r);
      CopyStays(ps[r], s, rest);
      MountsGrow(ps, ps[r], s);
    }
  }

  lemma {:induction false} RootComesFirst(ps: seq<Partition>, subvols: seq<BtrfsSubvolume>, r: nat)
    requires OthersStay(ps, subvols, r)
    ensures FirstRoot(ps) == r
  {
  }

  lemma CopyStays(root: Partition, s: BtrfsSubvolume, rest: seq<BtrfsSubvolume>)
    requires s.mountpoint != "/" && forall t :: t in rest ==> t.subvolume != s.subvolume
    ensures Stays(FromRoot(root, s), rest)
  {
  }

  lemma MountsKept(ps: seq<Partition>, i: nat, s: BtrfsSubvolume)
    requires i < |ps| && ps[i].mountpoint == s.mountpoint
    ensures forall m :: Mounted(ps[i := Retag(ps[i], s)], m) <==> Mounted(ps, m)
  {
    var qs := ps[i := Retag(ps[i], s)];
    forall m
      ensures Mounted(qs, m) <==> Mounted(ps, m)
    {
      if Mounted(ps, m) {
        var j: nat :| j < |ps| && ps[j].mountpoint == m;
        assert qs[j] in qs && qs[j].mountpoint == m;
      }
      if Mounted(qs, m) {
        var j: nat :| j < |qs| && qs[j].mountpoint == m;
        assert ps[j] in ps && ps[j].mountpoint == m;
      }
    }
  }

  lemma MountsGrow(ps: seq<Partition>, root: Partition, s: BtrfsSubvolume)
    ensures forall m :: Mounted(ps + [FromRoot(root, s)], m) <==> Mounted(ps, m) || m == s.mountpoint
  {
    var qs := ps + [FromRoot(root, s)];
    assert qs[|ps|] in qs;
    assert forall p :: p in qs <==> p in ps || p == FromRoot(root, s);
  }

  lemma LosesRootLater(ps: seq<Partition>, subvols: seq<BtrfsSubvolume>, r: nat, qs: seq<Partition>)
    requires r < |ps| <= |qs| && subvols != [] && subvols[0].mountpoint != "/"
    requires qs[r] == ps[r] && ps[r].subvolume != Some(subvols[0].subvolume)
    requires forall i :: 0 <= i < r ==> qs[i].mountpoint == ps[i].mountpoint
    requires forall t :: t in subvols[1..] ==> (NeedsRoot(qs, t) <==> NeedsRoot(ps, t))
    ensures LosesRoot(ps, subvols, r) <==> LosesRoot(qs, subvols[1..], r)
  {
    hide NeedsRoot;
    var rest := subvols[1..];
    if LosesRoot(ps, subvols, r) {
      var k: int, m: int :| 0 <= k < m < |subvols| && MovesRoot(ps, subvols, r, k) && NeedsRoot(ps, subvols[m]);
      assert rest[m - 1] == subvols[m] && rest[m - 1] in rest;
      assert forall j :: 0 <= j <= k - 1 ==> rest[j] == subvols[j + 1];
      assert MovesRoot(qs, rest, r, k - 1);
    }
    if LosesRoot(qs, rest, r) {
      var k: int, m: int :| 0 <= k < m < |rest| && MovesRoot(qs, rest, r, k) && NeedsRoot(qs, rest[m]);
      assert rest[m] == subvols[m + 1] && rest[m] in rest;
      assert forall j :: 0 < j <= k + 1 ==> subvols[j] == rest[j - 1];
      assert MovesRoot(ps, subvols, r, k + 1);
    }
  }

  /** A partition in front of the root is found in its place and takes the subvolume's name. */
  lemma {:induction false} RootIsShielded(ps: seq<Partition>, subvols: seq<BtrfsSubvolume>, r: nat)
    requires DistinctSubvolumes(subvols) && OthersStay(ps, subvols, r)
    requires subvols != [] && ps[r].subvolume == Some(subvols[0].subvolume)
    requires exists i :: 0 <= i < r && ps[i].mountpoint == subvols[0].mountpoint
    ensures UpsertAll(ps, subvols).Some? && !LosesRoot(ps, subvols, r)
  {
    var s, rest := subvols[0], subvols[1..];
    RestIsDistinct(subvols);
    var i := FirstMatch(ps, s);
    assert i < r;
    RootIsNeverLost(ps[i := Retag(ps[i], s)], rest, r);
    forall k | 0 < k < |subvols|
      ensures !MovesRoot(ps, subvols, r, k)
    {
      assert subvols[k] == rest[k - 1] && rest[k - 1] in rest;
    }
  }

  /** The root itself is found by its name and moves; from then on there is none. */
  lemma {:induction false} RootMoves(ps: seq<Partition>, subvols: seq<BtrfsSubvolume>, r: nat)
    requires DistinctSubvolumes(subvols) && OthersStay(ps, subvols, r)
    requires subvols != [] && subvols[0].mountpoint != "/" && ps[r].subvolume == Some(subvols[0].subvolume)
    requires forall i :: 0 <= i < r ==> ps[i].mountpoint != subvols[0].mountpoint
    ensures UpsertAll(ps, subvols).None? <==> LosesRoot(ps, subvols, r)
  {
    hide Stays, NeedsRoot;
    var s, rest := subvols[0], subvols[1..];
    RestIsDistinct(subvols);
    forall j | 0 <= j < |ps| && j != r
      ensures Stays(ps[j], rest) && (FindPartition(ps[j], s) <==> ps[j].mountpoint == s.mountpoint)
    {
      FoundInPlace(ps[j], subvols);
      StaysLater(ps[j], subvols);
    }
    assert FirstMatch(ps, s) == r;
    var qs := ps[r := Retag(ps[r], s)];
    MovedStays(ps[r], s, rest);
    RootlessFailsExactly(qs, rest);
    forall t | t in rest
      ensures !Mounted(qs, t.mountpoint) <==> NeedsRoot(ps, t)
    {
      MountsMoved(ps, subvols, r, t);
    }
    LosesRootNow(ps, subvols, r);
  }

  lemma MovedStays(root: Partition, s: BtrfsSubvolume, rest: seq<BtrfsSubvolume>)
    requires s.mountpoint != "/" && forall t :: t in rest ==> t.subvolume != s.subvolume
    ensures Stays(Retag(root, s), rest)
  {
  }

  lemma MountsMoved(ps: seq<Partition>, subvols: seq<BtrfsSubvolume>, r: nat, t: BtrfsSubvolume)
    requires OthersStay(ps, subvols, r) && subvols != [] && subvols[0].mountpoint != "/"
    requires t.mountpoint != subvols[0].mountpoint
    ensures !Mounted(ps[r := Retag(ps[r], subvols[0])], t.mountpoint) <==> NeedsRoot(ps, t)
  {
    var qs := ps[r := Retag(ps[r], subvols[0])];
    if Mounted(qs, t.mountpoint) {
      var j: nat :| j < |qs| && qs[j].mountpoint == t.mountpoint;
      assert j != r && ps[j] in ps && Stays(ps[j], subvols);
    }
    if Mounted(ps, t.mountpoint) && t.mountpoint != "/" {
      var j: nat :| j < |ps| && ps[j].mountpoint == t.mountpoint;
      assert j != r && qs[j] in qs;
    }
  }

  lemma LosesRootNow(ps: seq<Partition>, subvols: seq<BtrfsSubvolume>, r: nat)
    requires r < |ps| && subvols != [] && DistinctSubvolumes(subvols)
    requires subvols[0].mountpoint != "/" && ps[r].subvolume == Some(subvols[0].subvolume)
    requires forall i :: 0 <= i < r ==> ps[i].mountpoint != subvols[0].mountpoint
    ensures LosesRoot(ps, subvols, r) <==> exists t :: t in subvols[1..] && NeedsRoot(ps, t)
  {
    hide NeedsRoot;
    var rest := subvols[1..];
    assert MovesRoot(ps, subvols, r, 0);
    if LosesRoot(ps, subvols, r) {
      var k: int, m: int :| 0 <= k < m < |subvols| && MovesRoot(ps, subvols, r, k) && NeedsRoot(ps, subvols[m]);
      assert rest[m - 1] == subvols[m] && rest[m - 1] in rest;
    }
    if exists t :: t in rest && NeedsRoot(ps, t) {
      var t :| t in rest && NeedsRoot(ps, t);
      var j :| 0 <= j < |rest| && rest[j] == t;
      assert subvols[j + 1] == t;
    }
  }

  /** Without a root, the loop fails exactly if some listed mountpoint is free. */
  lemma {:induction false} RootlessFailsExactly(ps: seq<Partition>, subvols: seq<BtrfsSubvolume>)
    requires DistinctSubvolumes(subvols) && forall i :: 0 <= i < |ps| ==> Stays(ps[i], subvols)
    ensures UpsertAll(ps, subvols).None? <==> exists s :: s in subvols && !Mounted(ps, s.mountpoint)
    decreases subvols
  {
    if subvols != [] {
      hide Stays;
      var s, rest := subvols[0], subvols[1..];
      assert subvols == [s] + rest;
      RestIsDistinct(subvols);
      forall j | 0 <= j < |ps|
        ensures ps[j].mountpoint != "/" && Stays(ps[j], rest)
        ensures FindPartition(ps[j], s) <==> ps[j].mountpoint == s.mountpoint
        ensures ps[j].mountpoint == s.mountpoint ==> Stays(Retag(ps[j], s), rest)
      {
        NotAtRoot(ps[j], subvols);
        FoundInPlace(ps[j], subvols);
        StaysLater(ps[j], subvols);
      }
      var i := FirstMatch(ps, s);
      if i < |ps| {
        assert ps[i] in ps;
        MountsKept(ps, i, s);
        RootlessFailsExactly(ps[i := Retag(ps[i], s)], rest);
      } else {
        assert !HasRoot(ps);
      }
    }
  }

  lemma NotAtRoot(p: Partition, subvols: seq<BtrfsSubvolume>)
    requires Stays(p, subvols)
    ensures p.mountpoint != "/"
  {
  }

  /** For instance: the list renames the root's subvolume away and then needs a copy. */
  lemma RootIsLostForInstance()
    ensures var root := Partition("btrfs", "/", "", "/dev/sda2", "", "", Some("/@"), None, None, None);
            UpsertAll([root], [BtrfsSubvolume("/@", "/old"), BtrfsSubvolume("/@home", "/home")]) == None
  {
    var root := Partition("btrfs", "/", "", "/dev/sda2", "", "", Some("/@"), None, None, None);
    var subvols := [BtrfsSubvolume("/@", "/old"), BtrfsSubvolume("/@home", "/home")];
    assert |"/@"| != |"/@home"| && |"/old"| != |"/home"| && |"/"| == 1 && |"/home"| == 5;
    assert MovesRoot([root], subvols, 0, 0);
    assert NeedsRoot([root], subvols[1]);
    RootIsLostExactly([root], subvols, 0);
  }

  // ----- any plan: subvolumes that claim partitions of the original plan -----

  /** The position of the first partition that s is found at and that is not taken, or |ps|. */
  ghost function FirstFree(ps: seq<Partition>, s: BtrfsSubvolume, taken: seq<nat>, from: nat): (i: nat)
    requires from <= |ps|
    ensures from <= i <= |ps|
    ensures i < |ps| ==> FindPartition(ps[i], s) && i !in taken
    ensures forall j :: from <= j < i ==> !FindPartition(ps[j], s) || j in taken
    decreases |ps| - from
  {
    if from == |ps| || (FindPartition(ps[from], s) && from !in taken) then from
    else FirstFree(ps, s, taken, from + 1)
  }

  /** What the first k subvolumes claim when each takes the first partition of the plan, as it
      is given, that it is found at and no one took before; |ps| stands for nothing. */
  ghost function Claims(ps: seq<Partition>, subvols: seq<BtrfsSubvolume>, k: nat): (cs: seq<nat>)
    requires k <= |subvols|
    ensures |cs| == k
    decreases k
  {
    if k == 0 then []
    else
      var cs := Claims(ps, subvols, k - 1);
      cs + [FirstFree(ps, subvols[k - 1], cs, 0)]
  }

  /** Once cs is claimed, the i-th partition of the plan is a btrfs root: it was mounted at "/"
      and no one took it, or a subvolume at "/" did. */
  ghost predicate IsRootNow(ps: seq<Partition>, subvols: seq<BtrfsSubvolume>, cs: seq<nat>, i: int)
    requires |cs| <= |subvols|
  {
    && 0 <= i < |ps| && ps[i].fstype == "btrfs"
    && if i in cs then exists j :: 0 <= j < |cs| && cs[j] == i && subvols[j].mountpoint == "/"
       else ps[i].mountpoint == "/"
  }

  ghost predicate IsFirstRoot(ps: seq<Partition>, subvols: seq<BtrfsSubvolume>, cs: seq<nat>, r: int)
    requires |cs| <= |subvols|
  {
    IsRootNow(ps, subvols, cs, r) && forall i :: 0 <= i < r ==> !IsRootNow(ps, subvols, cs, i)
  }

  /** The k-th subvolume finds nothing to claim and no root to copy. */
  ghost predicate Fails(ps: seq<Partition>, subvols: seq<BtrfsSubvolume>, k: int) {
    && 0 <= k < |subvols|
    && FirstFree(ps, subvols[k], Claims(ps, subvols, k), 0) == |ps|
    && forall i :: !IsRootNow(ps, subvols, Claims(ps, subvols, k), i)
  }

  /** The rounds whose subvolumes claimed nothing, in order. */
  ghost function Unmet(ps: seq<Partition>, cs: seq<nat>): (us: seq<nat>)
    ensures forall j :: j in us ==> j < |cs| && cs[j] >= |ps|
    decreases |cs|
  {
    if cs == [] then []
    else
      var n := |cs| - 1;
      var us := Unmet(ps, cs[..n]);
      if cs[n] < |ps| then us else us + [n]
  }

  /** What q has from the root that it was copied from. */
  ghost predicate Inherits(q: Partition, root: Partition) {
    && q.fstype == root.fstype && q.uuidStr == root.uuidStr && q.device == root.device
    && q.mountOpts == root.mountOpts && q.luksMapperName == root.luksMapperName
    && q.luksUuid == root.luksUuid && q.luksPassphrase == root.luksPassphrase
  }

  /** q is the unsized copy of the first root in round j, mounted for its subvolume. */
  ghost predicate CopiedInRound(ps: seq<Partition>, subvols: seq<BtrfsSubvolume>, cs: seq<nat>, q: Partition, j: nat) {
    && j < |cs| <= |subvols| && q.size == ""
    && q.mountpoint == subvols[j].mountpoint && q.mountpoint != "/" && q.subvolume == Some(subvols[j].subvolume)
    && exists r :: IsFirstRoot(ps, subvols, cs[..j], r) && Inherits(q, ps[r])
  }

  /** What the rounds of cs make of the plan: what is claimed takes place and name of its
      subvolume, the rest stays, and behind the plan is a copy for each that claimed nothing. */
  ghost predicate Settles(ps: seq<Partition>, subvols: seq<BtrfsSubvolume>, cs: seq<nat>, qs: seq<Partition>) {
    && |cs| <= |subvols| && |qs| == |ps| + |Unmet(ps, cs)|
    && (forall i :: 0 <= i < |ps| && i !in cs ==> qs[i] == ps[i])
    && (forall j :: 0 <= j < |cs| && cs[j] < |ps| ==> TakenBy(qs[cs[j]], ps[cs[j]], subvols[j]))
    && (forall i :: |ps| <= i < |qs| ==> CopiedInRound(ps, subvols, cs, qs[i], Unmet(ps, cs)[i - |ps|]))
  }

  /** q is p, but mounted for s. */
  ghost predicate TakenBy(q: Partition, p: Partition, s: BtrfsSubvolume) {
    && q.mountpoint == s.mountpoint && q.subvolume == Some(s.subvolume)
    && q.size == p.size && Inherits(q, p)
  }

  /** Another subvolume is not found where one has settled. */
  lemma SettledIsNotFound(ps: seq<Partition>, subvols: seq<BtrfsSubvolume>, cs: seq<nat>, qs: seq<Partition>, i: nat)
    requires DistinctSubvolumes(subvols) && Settles(ps, subvols, cs, qs) && |cs| < |subvols| && i < |qs|
    ensures FindPartition(qs[i], subvols[|cs|]) <==> i < |ps| && i !in cs && FindPartition(ps[i], subvols[|cs|])
  {
    if i < |ps| && i in cs {
      var j :| 0 <= j < |cs| && cs[j] == i;
      assert TakenBy(qs[i], ps[i], subvols[j]);
    }
  }

  lemma {:induction false} FoundWhereFree(ps: seq<Partition>, subvols: seq<BtrfsSubvolume>, cs: seq<nat>,
                                          qs: seq<Partition>)
    requires DistinctSubvolumes(subvols) && Settles(ps, subvols, cs, qs) && |cs| < |subvols|
    ensures var c := FirstFree(ps, subvols[|cs|], cs, 0);
            FirstMatch(qs, subvols[|cs|]) == if c < |ps| then c else |qs|
  {
    hide FindPartition, Settles;
    assert |ps| <= |qs| by { SettledIsLonger(ps, subvols, cs, qs); }
    forall i | 0 <= i < |qs|
      ensures FindPartition(qs[i], subvols[|cs|]) <==>
              i < |ps| && i !in cs && FindPartition(ps[i], subvols[|cs|])
    {
      SettledIsNotFound(ps, subvols, cs, qs, i);
    }
  }

  lemma SettledIsLonger(ps: seq<Partition>, subvols: seq<BtrfsSubvolume>, cs: seq<nat>, qs: seq<Partition>)
    requires Settles(ps, subvols, cs, qs)
    ensures |ps| <= |qs| && |cs| <= |subvols|
  {
  }

  lemma RootAmongSettled(ps: seq<Partition>, subvols: seq<BtrfsSubvolume>, cs: seq<nat>, qs: seq<Partition>, i: nat)
    requires Settles(ps, subvols, cs, qs) && i < |qs|
    ensures IsRootBtrfsPart(qs[i]) <==> IsRootNow(ps, subvols, cs, i)
    ensures i < |ps| ==> Inherits(qs[i], ps[i])
  {
    if i < |ps| && i in cs {
      var j :| 0 <= j < |cs| && cs[j] == i;
      assert TakenBy(qs[i], ps[i], subvols[j]);
      if IsRootNow(ps, subvols, cs, i) {
        var h :| 0 <= h < |cs| && cs[h] == i && subvols[h].mountpoint == "/";
        assert TakenBy(qs[i], ps[i], subvols[h]);
      }
    }
  }

  lemma {:induction false} FirstRootAmongSettled(ps: seq<Partition>, subvols: seq<BtrfsSubvolume>, cs: seq<nat>,
                                                 qs: seq<Partition>)
    requires Settles(ps, subvols, cs, qs)
    ensures HasRoot(qs) <==> exists i :: IsRootNow(ps, subvols, cs, i)
    ensures HasRoot(qs) ==>
              IsFirstRoot(ps, subvols, cs, FirstRoot(qs)) && Inherits(qs[FirstRoot(qs)], ps[FirstRoot(qs)])
  {
    hide Settles, IsRootBtrfsPart, Inherits;
    SettledIsLonger(ps, subvols, cs, qs);
    forall i | 0 <= i < |qs|
      ensures IsRootBtrfsPart(qs[i]) <==> IsRootNow(ps, subvols, cs, i)
      ensures i < |ps| ==> Inherits(qs[i], ps[i])
    {
      RootAmongSettled(ps, subvols, cs, qs, i);
    }
  }

  lemma SettlesByClaim(ps: seq<Partition>, subvols: seq<BtrfsSubvolume>, cs: seq<nat>, qs: seq<Partition>, c: nat)
    requires Settles(ps, subvols, cs, qs) && |cs| < |subvols| && c < |ps| && c !in cs
    ensures Settles(ps, subvols, cs + [c], qs[c := Retag(qs[c], subvols[|cs|])])
  {
    hide IsFirstRoot;
    var ds := cs + [c];
    assert ds[..|cs|] == cs && Unmet(ps, ds) == Unmet(ps, cs);
    CopiesRemain(ps, subvols, cs, c);
  }

  lemma CopiesRemain(ps: seq<Partition>, subvols: seq<BtrfsSubvolume>, cs: seq<nat>, c: nat)
    requires |cs| < |subvols|
    ensures forall q, j :: CopiedInRound(ps, subvols, cs, q, j) ==> CopiedInRound(ps, subvols, cs + [c], q, j)
  {
    hide IsFirstRoot;
    forall j | 0 <= j < |cs|
      ensures (cs + [c])[..j] == cs[..j]
    {
    }
  }

  lemma SettlesByCopy(ps: seq<Partition>, subvols: seq<BtrfsSubvolume>, cs: seq<nat>, qs: seq<Partition>, n: Partition)
    requires Settles(ps, subvols, cs, qs) && |cs| < |subvols|
    requires CopiedInRound(ps, subvols, cs + [|ps|], n, |cs|)
    ensures Settles(ps, subvols, cs + [|ps|], qs + [n])
  {
    hide CopiedInRound;
    var ds := cs + [|ps|];
    assert ds[..|cs|] == cs && Unmet(ps, ds) == Unmet(ps, cs) + [|cs|];
    CopiesRemain(ps, subvols, cs, |ps|);
  }

  /** Who finds nothing free is not to be mounted at "/" while there is a root. */
  lemma {:induction false} RootIsFoundAtSlash(ps: seq<Partition>, subvols: seq<BtrfsSubvolume>, cs: seq<nat>, r: int)
    requires DistinctSubvolumes(subvols) && |cs| < |subvols| && IsRootNow(ps, subvols, cs, r)
    requires FirstFree(ps, subvols[|cs|], cs, 0) == |ps|
    ensures subvols[|cs|].mountpoint != "/"
  {
    if r in cs {
      var j :| 0 <= j < |cs| && cs[j] == r && subvols[j].mountpoint == "/";
    }
  }

  /** One round, seen from the original plan. */
  lemma RoundSettles(ps: seq<Partition>, subvols: seq<BtrfsSubvolume>, k: nat, qs: seq<Partition>)
    requires DistinctSubvolumes(subvols) && k < |subvols| && Settles(ps, subvols, Claims(ps, subvols, k), qs)
    ensures Upsert(qs, subvols[k]).None? <==> Fails(ps, subvols, k)
    ensures Upsert(qs, subvols[k]).Some? ==>
              Settles(ps, subvols, Claims(ps, subvols, k + 1), Upsert(qs, subvols[k]).value)
  {
    hide Settles, IsFirstRoot, IsRootNow, DistinctSubvolumes;
    var cs, s := Claims(ps, subvols, k), subvols[k];
    var c := FirstFree(ps, s, cs, 0);
    assert Claims(ps, subvols, k + 1) == cs + [c];
    SettledIsLonger(ps, subvols, cs, qs);
    FoundWhereFree(ps, subvols, cs, qs);
    FirstRootAmongSettled(ps, subvols, cs, qs);
    if c < |ps| {
      SettlesByClaim(ps, subvols, cs, qs, c);
    } else if HasRoot(qs) {
      var r, n := FirstRoot(qs), FromRoot(qs[FirstRoot(qs)], s);
      IsRootWhenFirst(ps, subvols, cs, r);
      RootIsFoundAtSlash(ps, subvols, cs, r);
      assert (cs + [|ps|])[..k] == cs && Inherits(n, ps[r]);
      SettlesByCopy(ps, subvols, cs, qs, n);
    }
  }

  lemma IsRootWhenFirst(ps: seq<Partition>, subvols: seq<BtrfsSubvolume>, cs: seq<nat>, r: int)
    requires |cs| <= |subvols| && IsFirstRoot(ps, subvols, cs, r)
    ensures IsRootNow(ps, subvols, cs, r)
  {
  }

  lemma {:induction false} RestSettles(ps: seq<Partition>, subvols: seq<BtrfsSubvolume>, k: nat, qs: seq<Partition>)
    requires DistinctSubvolumes(subvols) && k <= |subvols| && Settles(ps, subvols, Claims(ps, subvols, k), qs)
    ensures UpsertAll(qs, subvols[k..]).None? <==> exists m :: k <= m && Fails(ps, subvols, m)
    ensures UpsertAll(qs, subvols[k..]).Some? ==>
              Settles(ps, subvols, Claims(ps, subvols, |subvols|), UpsertAll(qs, subvols[k..]).value)
    decreases |subvols| - k
  {
    hide Settles, Upsert, DistinctSubvolumes;
    if k < |subvols| {
      RoundSettles(ps, subvols, k, qs);
      assert subvols[k..][0] == subvols[k] && subvols[k..][1..] == subvols[k + 1..];
      if Upsert(qs, subvols[k]).Some? {
        RestSettles(ps, subvols, k + 1, Upsert(qs, subvols[k]).value);
        assert forall m :: k <= m && Fails(ps, subvols, m) ==> k + 1 <= m;
      }
    }
  }

  /** From any plan, distinct subvolumes fail to be mounted exactly if one of them finds
      nothing to claim and no root to copy; otherwise every claim is met. */
  lemma {:induction false} AppendFailsExactly(ps: seq<Partition>, subvols: seq<BtrfsSubvolume>)
    requires DistinctSubvolumes(subvols)
    ensures UpsertAll(ps, subvols).None? <==> exists k :: Fails(ps, subvols, k)
    ensures UpsertAll(ps, subvols).Some? ==>
              Settles(ps, subvols, Claims(ps, subvols, |subvols|), UpsertAll(ps, subvols).value)
  {
    assert subvols[0..] == subvols && Claims(ps, subvols, 0) == [];
    RestSettles(ps, subvols, 0, ps);
  }

  // ----- what the expansion is, when no subvolume moves -----

  /** Wherever a listed subvolume already exists, it is where the list wants it. */
  ghost predicate NothingMoves(ps: seq<Partition>, subvols: seq<BtrfsSubvolume>) {
    forall p, s :: p in ps && s in subvols && p.subvolume == Some(s.subvolume) ==> p.mountpoint == s.mountpoint
  }

  lemma NothingMovesLater(ps: seq<Partition>, subvols: seq<BtrfsSubvolume>)
    requires subvols != [] && DistinctSubvolumes(subvols) && NothingMoves(ps, subvols)
    requires Upsert(ps, subvols[0]).Some?
    ensures NothingMoves(Upsert(ps, subvols[0]).value, subvols[1..])
    ensures DistinctSubvolumes(subvols[1..])
  {
    var s, rest, qs := subvols[0], subvols[1..], Upsert(ps, subvols[0]).value;
    forall q, t | q in qs && t in rest && q.subvolume == Some(t.subvolume) ensures q.mountpoint == t.mountpoint {
      var j :| 0 <= j < |rest| && rest[j] == t;
      assert t == subvols[j + 1] && t in subvols;
      assert q in ps;
    }
  }

  lemma AllAlikeTransitive(xs: seq<Partition>, ys: seq<Partition>, zs: seq<Partition>)
    requires AllAlike(xs, ys) && AllAlike(ys, zs)
    ensures AllAlike(xs, zs)
  {
  }

  lemma {:induction false} FirstRootOfAlike(ps: seq<Partition>, qs: seq<Partition>)
    requires AllAlike(ps, qs)
    ensures FirstRoot(ps) == FirstRoot(qs)
  {
    if ps != [] {
      FirstRootOfAlike(ps[1..], qs[1..]);
    }
  }

  lemma {:induction false} FirstRootOfLonger(ps: seq<Partition>, qs: seq<Partition>)
    requires HasRoot(ps)
    ensures FirstRoot(ps + qs) == FirstRoot(ps)
  {
    if !IsRootBtrfsPart(ps[0]) {
      assert (ps + qs)[1..] == ps[1..] + qs;
      FirstRootOfLonger(ps[1..], qs);
    }
  }

  ghost function Root(ps: seq<Partition>): Partition
    requires HasRoot(ps)
  {
    ps[FirstRoot(ps)]
  }

  /** One round either only gives a partition a subvolume name, or appends a copy
      of the root. */
  lemma UpsertStep(ps: seq<Partition>, subvols: seq<BtrfsSubvolume>, s: BtrfsSubvolume)
    requires HasRoot(ps) && NothingMoves(ps, subvols) && s in subvols
    ensures Upsert(ps, s).Some? && HasRoot(Upsert(ps, s).value)
    ensures Alike(Root(ps), Root(Upsert(ps, s).value))
    ensures if exists p :: p in ps && p.mountpoint == s.mountpoint
            then AllAlike(ps, Upsert(ps, s).value)
            else Upsert(ps, s).value == ps + [FromRoot(Root(ps), s)]
  {
    var i := FirstMatch(ps, s);
    if i < |ps| {
      assert ps[i] in ps;
      FirstRootOfAlike(ps, Upsert(ps, s).value);
    } else {
      FirstRootOfLonger(ps, [FromRoot(Root(ps), s)]);
    }
  }

  /** q is ps with some partitions named as subvolumes and some copies of its root appended. */
  ghost predicate Expands(ps: seq<Partition>, subvols: seq<BtrfsSubvolume>, qs: seq<Partition>)
    requires HasRoot(ps)
  {
    && |ps| <= |qs| && AllAlike(ps, qs[..|ps|])
    && forall i :: |ps| <= i < |qs| ==> IsCopy(qs[i], Root(ps), subvols)
  }

  /** Mounted for a listed subvolume, unsized, and otherwise like the root. */
  ghost predicate IsCopy(q: Partition, root: Partition, subvols: seq<BtrfsSubvolume>) {
    q.size == "" && Inherits(q, root) && exists s :: s in subvols && q.mountpoint == s.mountpoint
  }

  /** How many listed subvolumes have no partition yet. */
  ghost function Missing(ps: seq<Partition>, subvols: seq<BtrfsSubvolume>): nat {
    if subvols == [] then 0
    else (if Mounted(ps, subvols[0].mountpoint) then 0 else 1) + Missing(ps, subvols[1..])
  }

  lemma {:induction false} MissingAfter(ps: seq<Partition>, qs: seq<Partition>, subvols: seq<BtrfsSubvolume>)
    requires forall s :: s in subvols ==> (Mounted(ps, s.mountpoint) <==> Mounted(qs, s.mountpoint))
    ensures Missing(ps, subvols) == Missing(qs, subvols)
  {
    if subvols != [] {
      MissingAfter(ps, qs, subvols[1..]);
    }
  }

  lemma MountedAfter(ps: seq<Partition>, subvols: seq<BtrfsSubvolume>, s: BtrfsSubvolume, mountpoint: string)
    requires HasRoot(ps) && NothingMoves(ps, subvols) && s in subvols
    ensures Upsert(ps, s).Some?
    ensures Mounted(Upsert(ps, s).value, mountpoint) <==> Mounted(ps, mountpoint) || mountpoint == s.mountpoint
  {
    UpsertStep(ps, subvols, s);
    var qs := Upsert(ps, s).value;
    if Mounted(ps, mountpoint) {
      var i :| 0 <= i < |ps| && ps[i].mountpoint == mountpoint;
      assert qs[i] in qs;
    }
    if Mounted(qs, mountpoint) {
      var i :| 0 <= i < |qs| && qs[i].mountpoint == mountpoint;
      assert i < |ps| ==> ps[i] in ps;
    }
    if !Mounted(ps, s.mountpoint) {
      assert qs[|ps|] in qs;
    }
  }

  /** The expansion keeps every partition it finds and adds one copy of the root
      for every subvolume that had none, and it cannot fail half-way. */
  lemma {:induction false} Expansion(ps: seq<Partition>, subvols: seq<BtrfsSubvolume>)
    requires DistinctSubvolumes(subvols) && NothingMoves(ps, subvols) && HasRoot(ps)
    ensures UpsertAll(ps, subvols).Some?
    ensures Expands(ps, subvols, UpsertAll(ps, subvols).value)
    ensures |UpsertAll(ps, subvols).value| == |ps| + Missing(ps, subvols)
    decreases subvols
  {
    if subvols != [] {
      hide Upsert, AllAlike;
      var s, rest := subvols[0], subvols[1..];
      UpsertStep(ps, subvols, s);
      NothingMovesLater(ps, subvols);
      var qs := Upsert(ps, s).value;
      assert Mounted(ps, s.mountpoint) <==> exists p :: p in ps && p.mountpoint == s.mountpoint;
      LengthOfAlike(ps, qs);
      Expansion(qs, rest);
      forall t | t in rest ensures Mounted(ps, t.mountpoint) <==> Mounted(qs, t.mountpoint) {
        var j :| 0 <= j < |rest| && rest[j] == t;
        assert subvols[j + 1] == t;
        MountedAfter(ps, subvols, s, t.mountpoint);
      }
      MissingAfter(ps, qs, rest);
      ExpandsFurther(ps, subvols, qs, UpsertAll(qs, rest).value);
    }
  }

  lemma LengthOfAlike(ps: seq<Partition>, qs: seq<Partition>)
    ensures AllAlike(ps, qs) ==> |ps| == |qs|
  {
  }

  lemma ExpandsFurther(ps: seq<Partition>, subvols: seq<BtrfsSubvolume>, qs: seq<Partition>, rs: seq<Partition>)
    requires subvols != [] && HasRoot(ps) && HasRoot(qs) && Alike(Root(ps), Root(qs))
    requires AllAlike(ps, qs) || qs == ps + [FromRoot(Root(ps), subvols[0])]
    requires Expands(qs, subvols[1..], rs)
    ensures Expands(ps, subvols, rs)
  {
    hide IsCopy;
    assert rs[..|ps|] == rs[..|qs|][..|ps|];
    AllAlikeTransitive(ps, qs[..|ps|], rs[..|ps|]);
    forall i | |ps| <= i < |rs|
      ensures IsCopy(rs[i], Root(ps), subvols)
    {
      if i < |qs| {
        assert Alike(qs[i], rs[..|qs|][i]);
        FirstIsCopied(rs[i], Root(ps), subvols);
      } else {
        CopiedFurther(rs[i], Root(qs), Root(ps), subvols);
      }
    }
  }

  lemma FirstIsCopied(q: Partition, root: Partition, subvols: seq<BtrfsSubvolume>)
    requires subvols != [] && Alike(q, FromRoot(root, subvols[0]))
    ensures IsCopy(q, root, subvols)
  {
    assert subvols[0] in subvols;
  }

  lemma CopiedFurther(q: Partition, root: Partition, root': Partition, subvols: seq<BtrfsSubvolume>)
    requires subvols != [] && IsCopy(q, root, subvols[1..]) && Alike(root, root')
    ensures IsCopy(q, root', subvols)
  {
    var s :| s in subvols[1..] && q.mountpoint == s.mountpoint;
    assert s in subvols;
  }

  // ----- every subvolume once, and nothing left to do -----

  function CountAt(ps: seq<Partition>, mountpoint: string): nat {
    if ps == [] then 0 else (if ps[0].mountpoint == mountpoint then 1 else 0) + CountAt(ps[1..], mountpoint)
  }

  lemma {:induction false} CountOfAlike(ps: seq<Partition>, qs: seq<Partition>, m: string)
    requires AllAlike(ps, qs)
    ensures CountAt(ps, m) == CountAt(qs, m)
  {
    if ps != [] {
      CountOfAlike(ps[1..], qs[1..], m);
    }
  }

  lemma {:induction false} CountOfConcat(ps: seq<Partition>, qs: seq<Partition>, m: string)
    ensures CountAt(ps + qs, m) == CountAt(ps, m) + CountAt(qs, m)
  {
    if ps == [] {
      assert ps + qs == qs;
    } else {
      assert (ps + qs)[1..] == ps[1..] + qs;
      CountOfConcat(ps[1..], qs, m);
    }
  }

  lemma {:induction false} CountAndMounted(ps: seq<Partition>, m: string)
    ensures CountAt(ps, m) > 0 <==> Mounted(ps, m)
  {
    if ps != [] {
      CountAndMounted(ps[1..], m);
      assert ps[0] in ps;
      assert Mounted(ps, m) <==> ps[0].mountpoint == m || Mounted(ps[1..], m);
    }
  }

  lemma {:induction false} CountOfInsert(o: Order, x: Partition, ps: seq<Partition>, m: string)
    ensures CountAt(Insert(o, x, ps), m) == CountAt([x] + ps, m)
  {
    assert ([x] + ps)[1..] == ps;
    if ps != [] && !Le(o, x, ps[0]) {
      CountOfInsert(o, x, ps[1..], m);
      assert ([x] + ps[1..])[1..] == ps[1..];
    }
  }

  lemma {:induction false} CountOfSorted(o: Order, ps: seq<Partition>, m: string)
    ensures CountAt(StableSort(o, ps), m) == CountAt(ps, m)
  {
    if ps != [] {
      CountOfSorted(o, ps[1..], m);
      CountOfInsert(o, ps[0], StableSort(o, ps[1..]), m);
      assert ([ps[0]] + StableSort(o, ps[1..]))[1..] == StableSort(o, ps[1..]);
    }
  }

  lemma {:induction false} CountOfTwo(ps: seq<Partition>, i: nat, j: nat)
    requires i < j < |ps| && ps[i].mountpoint == ps[j].mountpoint
    ensures CountAt(ps, ps[i].mountpoint) >= 2
  {
    if i > 0 {
      CountOfTwo(ps[1..], i - 1, j - 1);
    } else {
      CountAndMounted(ps[1..], ps[j].mountpoint);
      assert ps[1..][j - 1] in ps[1..];
    }
  }

  /** The subvolume is there, and nothing is found for it but itself. */
  ghost predicate Settled(ps: seq<Partition>, s: BtrfsSubvolume) {
    && Mounted(ps, s.mountpoint)
    && forall p :: p in ps && FindPartition(p, s) ==> p.mountpoint == s.mountpoint && p.subvolume == Some(s.subvolume)
  }

  lemma {:induction false} UpsertSettles(ps: seq<Partition>, subvols: seq<BtrfsSubvolume>, s: BtrfsSubvolume)
    requires HasRoot(ps) && NothingMoves(ps, subvols) && s in subvols && CountAt(ps, s.mountpoint) <= 1
    ensures Upsert(ps, s).Some?
    ensures Settled(Upsert(ps, s).value, s) && CountAt(Upsert(ps, s).value, s.mountpoint) == 1
  {
    UpsertStep(ps, subvols, s);
    MountedAfter(ps, subvols, s, s.mountpoint);
    CountAndMounted(ps, s.mountpoint);
    var qs, i, m := Upsert(ps, s).value, FirstMatch(ps, s), s.mountpoint;
    if i < |ps| {
      assert ps[i] in ps;
      CountOfAlike(ps, qs, m);
      assert ps[i].mountpoint == m;
      forall j | 0 <= j < |ps| && FindPartition(ps[j], s) ensures j == i {
        assert ps[j] in ps;
        if j > i {
          CountOfTwo(ps, i, j);
        }
      }
    } else {
      CountOfConcat(ps, [FromRoot(Root(ps), s)], m);
      assert [FromRoot(Root(ps), s)][1..] == [];
    }
  }

  lemma {:induction false} UpsertKeepsSettled(ps: seq<Partition>, subvols: seq<BtrfsSubvolume>, s: BtrfsSubvolume,
                                              t: BtrfsSubvolume)
    requires HasRoot(ps) && NothingMoves(ps, subvols) && t in subvols && Settled(ps, s)
    requires s.subvolume != t.subvolume && s.mountpoint != t.mountpoint
    ensures Upsert(ps, t).Some? && Settled(Upsert(ps, t).value, s)
    ensures CountAt(Upsert(ps, t).value, s.mountpoint) == CountAt(ps, s.mountpoint)
  {
    UpsertStep(ps, subvols, t);
    MountedAfter(ps, subvols, t, s.mountpoint);
    var qs, i := Upsert(ps, t).value, FirstMatch(ps, t);
    if i < |ps| {
      assert ps[i] in ps;
      CountOfAlike(ps, qs, s.mountpoint);
    } else {
      CountOfConcat(ps, [FromRoot(Root(ps), t)], s.mountpoint);
      assert [FromRoot(Root(ps), t)][1..] == [];
    }
  }

  lemma {:induction false} UpsertAllKeepsSettled(ps: seq<Partition>, subvols: seq<BtrfsSubvolume>, s: BtrfsSubvolume)
    requires HasRoot(ps) && DistinctSubvolumes(subvols) && NothingMoves(ps, subvols) && Settled(ps, s)
    requires forall t :: t in subvols ==> s.subvolume != t.subvolume && s.mountpoint != t.mountpoint
    ensures UpsertAll(ps, subvols).Some? && Settled(UpsertAll(ps, subvols).value, s)
    ensures CountAt(UpsertAll(ps, subvols).value, s.mountpoint) == CountAt(ps, s.mountpoint)
    decreases subvols
  {
    if subvols != [] {
      UpsertStep(ps, subvols, subvols[0]);
      UpsertKeepsSettled(ps, subvols, s, subvols[0]);
      NothingMovesLater(ps, subvols);
      UpsertAllKeepsSettled(Upsert(ps, subvols[0]).value, subvols[1..], s);
    }
  }

  /** Afterwards each listed subvolume is mounted exactly once, under its own name. */
  lemma {:induction false} EverySubvolumeOnce(ps: seq<Partition>, subvols: seq<BtrfsSubvolume>, s: BtrfsSubvolume)
    requires HasRoot(ps) && DistinctSubvolumes(subvols) && NothingMoves(ps, subvols) && s in subvols
    requires forall t :: t in subvols ==> CountAt(ps, t.mountpoint) <= 1
    ensures UpsertAll(ps, subvols).Some?
    ensures var qs := StableSort([Device], UpsertAll(ps, subvols).value);
            Settled(qs, s) && CountAt(qs, s.mountpoint) == 1
  {
    SettledBeforeSorting(ps, subvols, s);
    var qs := UpsertAll(ps, subvols).value;
    SortKeepsMembership(qs);
    SortKeepsMounted(qs, s.mountpoint);
    CountOfSorted([Device], qs, s.mountpoint);
  }

  lemma {:induction false} SortKeepsMembership(ps: seq<Partition>)
    ensures forall p :: p in StableSort([Device], ps) <==> p in ps
  {
    SortKeepsMembers([Device], ps);
    assert forall p :: p in ps <==> p in multiset(ps);
    assert forall p :: p in StableSort([Device], ps) <==> p in multiset(StableSort([Device], ps));
  }

  lemma {:induction false} SortKeepsMounted(ps: seq<Partition>, m: string)
    ensures Mounted(StableSort([Device], ps), m) <==> Mounted(ps, m)
  {
    SortKeepsMembership(ps);
  }

  lemma {:induction false} SettledBeforeSorting(ps: seq<Partition>, subvols: seq<BtrfsSubvolume>, s: BtrfsSubvolume)
    requires HasRoot(ps) && DistinctSubvolumes(subvols) && NothingMoves(ps, subvols) && s in subvols
    requires forall t :: t in subvols ==> CountAt(ps, t.mountpoint) <= 1
    ensures UpsertAll(ps, subvols).Some?
    ensures Settled(UpsertAll(ps, subvols).value, s) && CountAt(UpsertAll(ps, subvols).value, s.mountpoint) == 1
    decreases subvols
  {
    var h, rest := subvols[0], subvols[1..];
    UpsertStep(ps, subvols, h);
    NothingMovesLater(ps, subvols);
    var qs := Upsert(ps, h).value;
    if s == h {
      UpsertSettles(ps, subvols, h);
      forall t | t in rest ensures s.subvolume != t.subvolume && s.mountpoint != t.mountpoint {
        var j :| 0 <= j < |rest| && rest[j] == t;
        assert t == subvols[j + 1];
      }
      UpsertAllKeepsSettled(qs, rest, s);
    } else {
      forall t | t in rest ensures CountAt(qs, t.mountpoint) <= 1 {
        var j :| 0 <= j < |rest| && rest[j] == t;
        assert t == subvols[j + 1] && t in subvols;
        CountAfter(ps, subvols, h, t.mountpoint);
      }
      SettledBeforeSorting(qs, rest, s);
    }
  }

  lemma {:induction false} CountAfter(ps: seq<Partition>, subvols: seq<BtrfsSubvolume>, s: BtrfsSubvolume, m: string)
    requires HasRoot(ps) && NothingMoves(ps, subvols) && s in subvols && m != s.mountpoint
    ensures Upsert(ps, s).Some? && CountAt(Upsert(ps, s).value, m) == CountAt(ps, m)
  {
    UpsertStep(ps, subvols, s);
    if Mounted(ps, s.mountpoint) {
      CountOfAlike(ps, Upsert(ps, s).value, m);
    } else {
      CountOfConcat(ps, [FromRoot(Root(ps), s)], m);
      assert [FromRoot(Root(ps), s)][1..] == [];
    }
  }

  lemma {:induction false} SettledStays(ps: seq<Partition>, subvols: seq<BtrfsSubvolume>)
    requires forall s :: s in subvols ==> Settled(ps, s)
    ensures UpsertAll(ps, subvols) == Some(ps)
  {
    if subvols != [] {
      var s := subvols[0];
      assert Settled(ps, s);
      var p :| p in ps && p.mountpoint == s.mountpoint;
      var i := FirstMatch(ps, s);
      assert i < |ps|;
      assert ps[i] in ps;
      assert Retag(ps[i], s) == ps[i];
      assert ps[i := ps[i]] == ps;
      SettledStays(ps, subvols[1..]);
    }
  }

  lemma MemberRoot(ps: seq<Partition>, p: Partition)
    requires p in ps && IsRootBtrfsPart(p)
    ensures HasRoot(ps)
  {
  }

  /** A second application finds everything in place and changes nothing. */
  lemma {:induction false} AppendIsIdempotent(ps: seq<Partition>, subvols: seq<BtrfsSubvolume>)
    requires HasRoot(ps) && DistinctSubvolumes(subvols) && NothingMoves(ps, subvols)
    requires forall t :: t in subvols ==> CountAt(ps, t.mountpoint) <= 1
    ensures UpsertAll(ps, subvols).Some?
    ensures var qs := StableSort([Device], UpsertAll(ps, subvols).value);
            && HasRoot(qs)
            && UpsertAll(qs, subvols).Some?
            && StableSort([Device], UpsertAll(qs, subvols).value) == qs
  {
    Expansion(ps, subvols);
    var rs := UpsertAll(ps, subvols).value;
    var qs := StableSort([Device], rs);
    forall s | s in subvols ensures Settled(qs, s) {
      EverySubvolumeOnce(ps, subvols, s);
    }
    SettledStays(qs, subvols);
    StableSortIsStableSort([Device], rs);
    SortedIsItsOwnSort([Device], qs);
    var r := FirstRoot(ps);
    assert rs[..|ps|][r] == rs[r] && Alike(ps[r], rs[..|ps|][r]);
    SortKeepsMembership(rs);
    assert rs[r] in rs;
    MemberRoot(qs, rs[r]);
  }
}
