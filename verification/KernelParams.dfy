/** The kernel command line, collected in one pass over the storage plan. */
module KernelParams {
  import opened Options
  import opened Partitions
  import opened Text

  /** The partitions the loop looks for. */
  datatype Role = AnyRoot | LuksRoot | PlainSwap | LuksSwap

  predicate Plays(role: Role, p: Partition) {
    match role
    case AnyRoot => p.mountpoint == "/"
    case LuksRoot => p.mountpoint == "/" && p.luksMapperName.Some?
    case PlainSwap => p.fstype == "linuxswap" && p.luksMapperName.None?
    case LuksSwap => p.fstype == "linuxswap" && p.luksMapperName.Some?
  }

  function Those(role: Role, ps: seq<Partition>): (r: seq<Partition>)
    ensures forall p :: p in r ==> Plays(role, p) && p in ps
  {
    if ps == [] then []
    else if Plays(role, ps[|ps| - 1]) then Those(role, ps[..|ps| - 1]) + [ps[|ps| - 1]]
    else Those(role, ps[..|ps| - 1])
  }

  function Last(ps: seq<Partition>): Option<Partition> {
    if ps == [] then None else Some(ps[|ps| - 1])
  }

  predicate IsRootOnBtrfs(p: Partition) {
    p.mountpoint == "/" && p.fstype == "btrfs"
  }

  predicate IsRootOnZfs(p: Partition) {
    p.mountpoint == "/" && p.fstype == "zfs"
  }

  /** The words that a root partition adds by itself. */
  function Flags(roots: seq<Partition>, zfs: Option<string>): seq<string> {
    if roots == [] then []
    else Flags(roots[..|roots| - 1], zfs) + FlagsOf(roots[|roots| - 1], zfs)
  }

  function FlagsOf(p: Partition, zfs: Option<string>): seq<string> {
    if IsRootOnBtrfs(p) && p.subvolume.Some? then ["rootflags=subvol=" + p.subvolume.value]
    else if IsRootOnZfs(p) && zfs.Some? then ["root=ZFS=" + zfs.value]
    else []
  }

  predicate ZfsUnresolved(roots: seq<Partition>, zfs: Option<string>) {
    zfs.None? && exists p :: p in roots && IsRootOnZfs(p)
  }

  /** The words that open a LUKS root. That its uuid is known is a demand of the loop below. */
  function CryptWords(luksRoot: Option<Partition>): seq<string> {
    match luksRoot
    case Some(p) => ["cryptdevice=UUID=" + p.luksUuid.GetOr("") + ":" + p.luksMapperName.GetOr(""),
                     "root=/dev/mapper/" + p.luksMapperName.GetOr("")]
    case None => []
  }

  function RootWords(uuid: string, crypt: seq<string>): seq<string> {
    if crypt != [] then crypt else ["root=UUID=" + uuid]
  }

  function ResumeWords(prefix: string, value: Option<string>): seq<string> {
    if value.GetOr("") != "" then [prefix + value.value] else []
  }

  function UuidOf(p: Option<Partition>): Option<string> {
    if p.Some? then Some(p.value.uuidStr) else None
  }

  function MapperOf(p: Option<Partition>): Option<string> {
    if p.Some? then p.value.luksMapperName else None
  }

  /** The declarative reading: the command line is determined by the roots and
      the swaps of the plan. */
  function Params(ps: seq<Partition>, kernelParams: string, zfs: Option<string>): Option<seq<string>> {
    var roots := Those(AnyRoot, ps);
    var rootUuid := UuidOf(Last(roots)).GetOr("");
    if ZfsUnresolved(roots, zfs) || rootUuid == "" then None
    else Some(Fields(kernelParams, ' ') + ["rw"] + Flags(roots, zfs)
              + RootWords(rootUuid, CryptWords(Last(Those(LuksRoot, ps))))
              + ResumeWords("resume=UUID=", UuidOf(Last(Those(PlainSwap, ps))))
              + ResumeWords("resume=/dev/mapper/", MapperOf(Last(Those(LuksSwap, ps)))))
  }

  /** A mapped root partition has a LUKS uuid, which the loop reads unchecked. */
  predicate RootsHaveUuid(ps: seq<Partition>) {
    forall p :: p in ps && Plays(LuksRoot, p) ==> p.luksUuid.Some?
  }

  lemma {:induction false} ThoseInPrefix(role: Role, ps: seq<Partition>, i: nat)
    requires i < |ps|
    ensures Those(role, ps[..i + 1]) ==
            if Plays(role, ps[i]) then Those(role, ps[..i]) + [ps[i]] else Those(role, ps[..i])
  {
    assert ps[..i + 1][..i] == ps[..i];
  }

  lemma {:induction false} ThoseGrow(role: Role, ps: seq<Partition>, i: nat)
    requires i <= |ps|
    ensures forall p :: p in Those(role, ps[..i]) ==> p in Those(role, ps)
    decreases |ps| - i
  {
    if i < |ps| {
      ThoseInPrefix(role, ps, i);
      ThoseGrow(role, ps, i + 1);
    } else {
      assert ps[..i] == ps;
    }
  }

  /** How the last partition in a role changes by one more partition. */
  lemma {:induction false} LastInPrefix(role: Role, ps: seq<Partition>, i: nat)
    requires i < |ps|
    ensures Last(Those(role, ps[..i + 1])) == if Plays(role, ps[i]) then Some(ps[i]) else Last(Those(role, ps[..i]))
  {
    ThoseInPrefix(role, ps, i);
  }

  lemma {:induction false} FlagsInPrefix(ps: seq<Partition>, i: nat, zfs: Option<string>)
    requires i < |ps|
    ensures var before := Flags(Those(AnyRoot, ps[..i]), zfs);
            Flags(Those(AnyRoot, ps[..i + 1]), zfs) ==
            if Plays(AnyRoot, ps[i]) then before + FlagsOf(ps[i], zfs) else before
  {
    hide FlagsOf;
    ThoseInPrefix(AnyRoot, ps, i);
    var a := Those(AnyRoot, ps[..i]);
    assert (a + [ps[i]])[..|a|] == a;
  }

  lemma {:induction false} NothingYet(zfs: Option<string>)
    ensures forall role :: Those(role, []) == []
    ensures Flags([], zfs) == []
  {
  }

  /** What the loop has collected after some partitions. */
  datatype Collected = Collected(
    list: seq<string>,
    cryptdeviceParams: seq<string>,
    rootUuid: Option<string>,
    swapUuid: Option<string>,
    swapMappername: Option<string>)

  ghost predicate Reflects(c: Collected, ps: seq<Partition>, base: seq<string>, zfs: Option<string>) {
    && c.list == base + Flags(Those(AnyRoot, ps), zfs)
    && !ZfsUnresolved(Those(AnyRoot, ps), zfs)
    && c.cryptdeviceParams == CryptWords(Last(Those(LuksRoot, ps)))
    && c.rootUuid == UuidOf(Last(Those(AnyRoot, ps)))
    && c.swapUuid == UuidOf(Last(Those(PlainSwap, ps)))
    && c.swapMappername == MapperOf(Last(Those(LuksSwap, ps)))
  }

  /** What one more partition adds. */
  function Adding(c: Collected, p: Partition, zfs: Option<string>): Collected {
    Collected(
      if Plays(AnyRoot, p) then c.list + FlagsOf(p, zfs) else c.list,
      if Plays(LuksRoot, p) then CryptWords(Some(p)) else c.cryptdeviceParams,
      if Plays(AnyRoot, p) then Some(p.uuidStr) else c.rootUuid,
      if Plays(PlainSwap, p) then Some(p.uuidStr) else c.swapUuid,
      if Plays(LuksSwap, p) then p.luksMapperName else c.swapMappername)
  }

  /** The body of the loop. */
  method Collect(p: Partition, zfs: Option<string>, c0: Collected) returns (c: Option<Collected>)
    requires Plays(LuksRoot, p) ==> p.luksUuid.Some?
    ensures c == if zfs.None? && IsRootOnZfs(p) then None else Some(Adding(c0, p, zfs))
  {
    var r := c0;
    var hasLuks := p.luksMapperName.Some?;
    if p.fstype == "linuxswap" && !hasLuks {
      r := r.(swapUuid := Some(p.uuidStr));
    } else if p.fstype == "linuxswap" && hasLuks {
      r := r.(swapMappername := p.luksMapperName);
    }
    if p.mountpoint == "/" && hasLuks {
      r := r.(cryptdeviceParams := ["cryptdevice=UUID=" + p.luksUuid.value + ":" + p.luksMapperName.value]);
      r := r.(cryptdeviceParams := r.cryptdeviceParams + ["root=/dev/mapper/" + p.luksMapperName.value]);
    }
    if p.mountpoint == "/" {
      r := r.(rootUuid := Some(p.uuidStr));
    }
    if IsRootOnBtrfs(p) && p.subvolume.Some? {
      r := r.(list := r.list + ["rootflags=subvol=" + p.subvolume.value]);
    } else if IsRootOnZfs(p) {
      if zfs.None? {
        return None;
      }
      r := r.(list := r.list + ["root=ZFS=" + zfs.value]);
    }
    assert r.list == if Plays(AnyRoot, p) then c0.list + FlagsOf(p, zfs) else c0.list;
    assert r.cryptdeviceParams == if Plays(LuksRoot, p) then CryptWords(Some(p)) else c0.cryptdeviceParams;
    return Some(r);
  }

  lemma CollectReflects(c: Collected, ps: seq<Partition>, i: nat, base: seq<string>, zfs: Option<string>)
    requires i < |ps| && Reflects(c, ps[..i], base, zfs) && !(zfs.None? && IsRootOnZfs(ps[i]))
    ensures Reflects(Adding(c, ps[i], zfs), ps[..i + 1], base, zfs)
  {
    hide Those, Flags, FlagsOf, CryptWords;
    LastInPrefix(AnyRoot, ps, i);
    LastInPrefix(LuksRoot, ps, i);
    LastInPrefix(PlainSwap, ps, i);
    LastInPrefix(LuksSwap, ps, i);
    FlagsInPrefix(ps, i, zfs);
    ThoseInPrefix(AnyRoot, ps, i);
  }

  /** Behind the loop: what was collected is put together. */
  method Assemble(c: Collected) returns (params: Option<seq<string>>)
    ensures params == if c.rootUuid.GetOr("") == "" then None
                      else Some(c.list + RootWords(c.rootUuid.value, c.cryptdeviceParams)
                                + ResumeWords("resume=UUID=", c.swapUuid)
                                + ResumeWords("resume=/dev/mapper/", c.swapMappername))
  {
    if c.rootUuid == None || c.rootUuid.value == "" {
      return None;
    }
    var list := c.list;
    if c.cryptdeviceParams != [] {
      list := list + c.cryptdeviceParams;
    } else {
      list := list + ["root=UUID=" + c.rootUuid.value];
    }
    ghost var rooted := list;
    assert rooted == c.list + RootWords(c.rootUuid.value, c.cryptdeviceParams);
    if c.swapUuid.Some? && c.swapUuid.value != "" {
      list := list + ["resume=UUID=" + c.swapUuid.value];
    }
    ghost var resumed := list;
    assert resumed == rooted + ResumeWords("resume=UUID=", c.swapUuid);
    if c.swapMappername.Some? && c.swapMappername.value != "" {
      list := list + ["resume=/dev/mapper/" + c.swapMappername.value];
    }
    assert list == resumed + ResumeWords("resume=/dev/mapper/", c.swapMappername);
    return Some(list);
  }

  /** get_kernel_params. */
  method GetKernelParams(partitions: seq<Partition>, kernelParams: string, zfsRootDataset: Option<string>)
    returns (params: Option<seq<string>>)
    requires RootsHaveUuid(partitions)
    ensures params == Params(partitions, kernelParams, zfsRootDataset)
  {
    hide Those, Flags, Fields, FlagsOf, CryptWords, Adding, RootWords, ResumeWords;
    var list := MakeMultiline(kernelParams, false, ' ');
    list := list + ["rw"];
    var c := Collected(list, [], None, None, None);
    NothingYet(zfsRootDataset);
    NoCryptWords();
    assert partitions[..0] == [];
    for i := 0 to |partitions|
      invariant Reflects(c, partitions[..i], list, zfsRootDataset)
    {
      var p := partitions[i];
      var next := Collect(p, zfsRootDataset, c);
      if next.None? {
        RootIsUnresolved(partitions, i, zfsRootDataset);
        return None;
      }
      CollectReflects(c, partitions, i, list, zfsRootDataset);
      c := next.value;
    }
    assert partitions[..|partitions|] == partitions;
    params := Assemble(c);
  }

  lemma {:induction false} RootIsUnresolved(ps: seq<Partition>, i: nat, zfs: Option<string>)
    requires i < |ps| && zfs.None? && IsRootOnZfs(ps[i])
    ensures ZfsUnresolved(Those(AnyRoot, ps), zfs)
  {
    hide Those;
    ThoseInPrefix(AnyRoot, ps, i);
    ThoseGrow(AnyRoot, ps, i + 1);
    assert ps[i] in Those(AnyRoot, ps[..i + 1]);
  }

  lemma NoCryptWords()
    ensures CryptWords(None) == []
  {
  }

  // ----- how often a parameter is given -----

  function CountPrefix(words: seq<string>, prefix: string): nat {
    if words == [] then 0
    else (if prefix <= words[0] then 1 else 0) + CountPrefix(words[1..], prefix)
  }

  lemma {:induction false} CountPrefixConcat(a: seq<string>, b: seq<string>, prefix: string)
    ensures CountPrefix(a + b, prefix) == CountPrefix(a, prefix) + CountPrefix(b, prefix)
  {
    if a == [] {
      assert a + b == b;
    } else {
      assert (a + b)[1..] == a[1..] + b;
      CountPrefixConcat(a[1..], b, prefix);
    }
  }

  lemma {:induction false} CountPrefixOne(w: string, prefix: string)
    ensures CountPrefix([w], prefix) == if prefix <= w then 1 else 0
  {
    assert [w][1..] == [];
  }

  function ZfsRoots(roots: seq<Partition>): nat {
    if roots == [] then 0
    else ZfsRoots(roots[..|roots| - 1]) + (if IsRootOnZfs(roots[|roots| - 1]) then 1 else 0)
  }

  lemma FlagsOfCount(p: Partition, zfs: Option<string>)
    requires IsRootOnZfs(p) ==> zfs.Some?
    ensures CountPrefix(FlagsOf(p, zfs), "root=") == if IsRootOnZfs(p) then 1 else 0
    ensures CountPrefix(FlagsOf(p, zfs), "cryptdevice=") == 0
  {
    if IsRootOnBtrfs(p) && p.subvolume.Some? {
      var w := "rootflags=subvol=" + p.subvolume.value;
      assert w[4] == 'f' && w[0] == 'r';
      CountPrefixOne(w, "root=");
      CountPrefixOne(w, "cryptdevice=");
    } else if IsRootOnZfs(p) {
      var w := "root=ZFS=" + zfs.value;
      assert w[..5] == "root=" && w[0] == 'r';
      CountPrefixOne(w, "root=");
      CountPrefixOne(w, "cryptdevice=");
    }
  }

  lemma {:induction false} FlagsCount(roots: seq<Partition>, zfs: Option<string>)
    requires !ZfsUnresolved(roots, zfs)
    ensures CountPrefix(Flags(roots, zfs), "root=") == ZfsRoots(roots)
    ensures CountPrefix(Flags(roots, zfs), "cryptdevice=") == 0
  {
    if roots != [] {
      hide FlagsOf;
      var init, p := roots[..|roots| - 1], roots[|roots| - 1];
      assert p in roots;
      FlagsCount(init, zfs);
      FlagsOfCount(p, zfs);
      CountPrefixConcat(Flags(init, zfs), FlagsOf(p, zfs), "root=");
      CountPrefixConcat(Flags(init, zfs), FlagsOf(p, zfs), "cryptdevice=");
    }
  }

  lemma RootWordsCount(uuid: string, luksRoot: Option<Partition>)
    ensures var ws := RootWords(uuid, CryptWords(luksRoot));
            && CountPrefix(ws, "root=") == 1
            && CountPrefix(ws, "cryptdevice=") == if luksRoot.Some? then 1 else 0
  {
    if luksRoot.Some? {
      var p := luksRoot.value;
      var c := "cryptdevice=UUID=" + p.luksUuid.GetOr("") + ":" + p.luksMapperName.GetOr("");
      var w := "root=/dev/mapper/" + p.luksMapperName.GetOr("");
      assert c[0] == 'c' && w[0] == 'r';
      assert c[..12] == "cryptdevice=" && w[..5] == "root=";
      CountPrefixOne(c, "root=");
      CountPrefixOne(w, "root=");
      CountPrefixOne(c, "cryptdevice=");
      CountPrefixOne(w, "cryptdevice=");
      CountPrefixConcat([c], [w], "root=");
      CountPrefixConcat([c], [w], "cryptdevice=");
      assert [c] + [w] == [c, w];
    } else {
      var w := "root=UUID=" + uuid;
      assert w[..5] == "root=" && w[0] == 'r';
      CountPrefixOne(w, "root=");
      CountPrefixOne(w, "cryptdevice=");
    }
  }

  lemma ResumeWordsCount(prefix: string, value: Option<string>)
    requires "resume=" <= prefix
    ensures CountPrefix(ResumeWords(prefix, value), "root=") == 0
    ensures CountPrefix(ResumeWords(prefix, value), "cryptdevice=") == 0
  {
    if value.GetOr("") != "" {
      var w := prefix + value.value;
      assert w[0] == "resume="[0] && w[1] == "resume="[1];
      assert "root="[1] == 'o' && "cryptdevice="[0] == 'c';
      CountPrefixOne(w, "root=");
      CountPrefixOne(w, "cryptdevice=");
    }
  }

  /** A command line names the root device once, besides what the configured words
      and ZFS roots name, and opens a LUKS device exactly if some root is mapped. */
  lemma {:induction false} RootIsNamedOnce(ps: seq<Partition>, kernelParams: string, zfs: Option<string>)
    requires Params(ps, kernelParams, zfs).Some?
    ensures var words, given := Params(ps, kernelParams, zfs).value, Fields(kernelParams, ' ');
            && CountPrefix(words, "root=") == CountPrefix(given, "root=") + ZfsRoots(Those(AnyRoot, ps)) + 1
            && CountPrefix(words, "cryptdevice=") ==
               CountPrefix(given, "cryptdevice=") + (if Those(LuksRoot, ps) != [] then 1 else 0)
  {
    hide Flags, CryptWords, RootWords, ResumeWords, FlagsOf, Fields, Those, CountPrefix;
    var roots := Those(AnyRoot, ps);
    var given, flags := Fields(kernelParams, ' '), Flags(roots, zfs);
    var uuid := UuidOf(Last(roots)).GetOr("");
    var luksRoot := Last(Those(LuksRoot, ps));
    var named := RootWords(uuid, CryptWords(luksRoot));
    var r1 := ResumeWords("resume=UUID=", UuidOf(Last(Those(PlainSwap, ps))));
    var r2 := ResumeWords("resume=/dev/mapper/", MapperOf(Last(Those(LuksSwap, ps))));
    FlagsCount(roots, zfs);
    RootWordsCount(uuid, luksRoot);
    ResumeWordsCount("resume=UUID=", UuidOf(Last(Those(PlainSwap, ps))));
    ResumeWordsCount("resume=/dev/mapper/", MapperOf(Last(Those(LuksSwap, ps))));
    CountByParts(given, flags, named, r1, r2, "root=");
    CountByParts(given, flags, named, r1, r2, "cryptdevice=");
  }

  lemma {:induction false} CountByParts(given: seq<string>, flags: seq<string>, named: seq<string>,
                     r1: seq<string>, r2: seq<string>, prefix: string)
    requires prefix == "root=" || prefix == "cryptdevice="
    ensures CountPrefix(given + ["rw"] + flags + named + r1 + r2, prefix) ==
            CountPrefix(given, prefix) + CountPrefix(flags, prefix) + CountPrefix(named, prefix)
            + CountPrefix(r1, prefix) + CountPrefix(r2, prefix)
  {
    CountPrefixConcat(given + ["rw"] + flags + named + r1, r2, prefix);
    CountPrefixConcat(given + ["rw"] + flags + named, r1, prefix);
    CountPrefixConcat(given + ["rw"] + flags, named, prefix);
    CountPrefixConcat(given + ["rw"], flags, prefix);
    CountPrefixConcat(given, ["rw"], prefix);
    CountPrefixOne("rw", prefix);
  }

  ghost predicate NothingResumes(words: seq<string>) {
    forall w :: w in words ==> !("resume=" <= w)
  }

  lemma NoResumeAt(w: string, i: nat)
    requires i < |w| && i < |"resume="| && w[i] != "resume="[i]
    ensures !("resume=" <= w)
  {
  }

  lemma {:induction false} FlagsDoNotResume(roots: seq<Partition>, zfs: Option<string>)
    ensures NothingResumes(Flags(roots, zfs))
  {
    if roots != [] {
      var p := roots[|roots| - 1];
      FlagsDoNotResume(roots[..|roots| - 1], zfs);
      forall w | w in FlagsOf(p, zfs)
        ensures !("resume=" <= w)
      {
        NoResumeAt(w, 1);
      }
    }
  }

  lemma RootWordsDoNotResume(uuid: string, luksRoot: Option<Partition>)
    ensures NothingResumes(RootWords(uuid, CryptWords(luksRoot)))
  {
    forall w | w in RootWords(uuid, CryptWords(luksRoot))
      ensures !("resume=" <= w)
    {
      NoResumeAt(w, if w[0] == 'r' then 1 else 0);
    }
  }

  /** The system resumes from the last swap of each kind that has a name, and from what
      the configured words say, and from nothing else. */
  lemma {:induction false} ResumesExactly(ps: seq<Partition>, kernelParams: string, zfs: Option<string>, w: string)
    requires Params(ps, kernelParams, zfs).Some? && "resume=" <= w
    ensures var plain, luks := Those(PlainSwap, ps), Those(LuksSwap, ps);
            w in Params(ps, kernelParams, zfs).value <==>
            || w in Fields(kernelParams, ' ')
            || (plain != [] && plain[|plain| - 1].uuidStr != "" && w == "resume=UUID=" + plain[|plain| - 1].uuidStr)
            || (luks != [] && luks[|luks| - 1].luksMapperName.GetOr("") != ""
                && w == "resume=/dev/mapper/" + luks[|luks| - 1].luksMapperName.value)
  {
    hide Flags, CryptWords, RootWords, Fields, Those, ZfsUnresolved;
    var roots := Those(AnyRoot, ps);
    var uuid := UuidOf(Last(roots)).GetOr("");
    var luksRoot := Last(Those(LuksRoot, ps));
    FlagsDoNotResume(roots, zfs);
    RootWordsDoNotResume(uuid, luksRoot);
    NoResumeAt("rw", 1);
    var given, flags, named := Fields(kernelParams, ' '), Flags(roots, zfs), RootWords(uuid, CryptWords(luksRoot));
    assert w !in ["rw"] && w !in flags && w !in named;
  }

  // ----- every word, and where it comes from -----

  predicate MappedRoot(p: Partition) {
    p.mountpoint == "/" && p.luksMapperName.Some?
  }

  predicate SwapWithout(p: Partition) {
    p.fstype == "linuxswap" && p.luksMapperName.None?
  }

  predicate SwapBehind(p: Partition) {
    p.fstype == "linuxswap" && p.luksMapperName.Some?
  }

  ghost predicate LastRootAt(ps: seq<Partition>, i: int) {
    0 <= i < |ps| && ps[i].mountpoint == "/" && forall j :: i < j < |ps| ==> ps[j].mountpoint != "/"
  }

  ghost predicate LastMappedRootAt(ps: seq<Partition>, i: int) {
    0 <= i < |ps| && MappedRoot(ps[i]) && forall j :: i < j < |ps| ==> !MappedRoot(ps[j])
  }

  ghost predicate LastSwapAt(ps: seq<Partition>, i: int) {
    0 <= i < |ps| && SwapWithout(ps[i]) && forall j :: i < j < |ps| ==> !SwapWithout(ps[j])
  }

  ghost predicate LastMappedSwapAt(ps: seq<Partition>, i: int) {
    0 <= i < |ps| && SwapBehind(ps[i]) && forall j :: i < j < |ps| ==> !SwapBehind(ps[j])
  }

  /** The i-th partition is the last in its role. */
  ghost predicate LastAt(role: Role, ps: seq<Partition>, i: int) {
    0 <= i < |ps| && Plays(role, ps[i]) && forall j :: i < j < |ps| ==> !Plays(role, ps[j])
  }

  lemma {:induction false} LastByPosition(role: Role, ps: seq<Partition>)
    ensures Last(Those(role, ps)).None? ==> forall p :: p in ps ==> !Plays(role, p)
    ensures Last(Those(role, ps)).Some? ==> exists i :: LastAt(role, ps, i)
    ensures forall i :: LastAt(role, ps, i) ==> Last(Those(role, ps)) == Some(ps[i])
  {
    hide Plays;
    if ps != [] {
      var n := |ps| - 1;
      var init := ps[..n];
      LastByPosition(role, init);
      assert ps == init + [ps[n]];
      if Plays(role, ps[n]) {
        assert LastAt(role, ps, n);
      } else {
        forall i
          ensures LastAt(role, ps, i) <==> LastAt(role, init, i)
        {
          LastInFront(role, ps, i);
        }
      }
    }
  }

  lemma LastInFront(role: Role, ps: seq<Partition>, i: int)
    requires ps != [] && !Plays(role, ps[|ps| - 1])
    ensures LastAt(role, ps, i) <==> LastAt(role, ps[..|ps| - 1], i)
  {
    hide Plays;
    var init := ps[..|ps| - 1];
    assert forall j :: 0 <= j < |init| ==> init[j] == ps[j];
  }

  lemma {:induction false} FlagsMember(roots: seq<Partition>, zfs: Option<string>, w: string)
    ensures w in Flags(roots, zfs) <==> exists p :: p in roots && w in FlagsOf(p, zfs)
  {
    hide FlagsOf;
    if roots != [] {
      FlagsMember(roots[..|roots| - 1], zfs, w);
      assert roots == roots[..|roots| - 1] + [roots[|roots| - 1]];
    }
  }

  /** A root mounts its subvolume, or is the dataset. */
  ghost predicate IsFlag(w: string, p: Partition, zfs: Option<string>) {
    && p.mountpoint == "/"
    && ((p.fstype == "btrfs" && p.subvolume.Some? && w == "rootflags=subvol=" + p.subvolume.value)
        || (p.fstype == "zfs" && zfs.Some? && w == "root=ZFS=" + zfs.value))
  }

  lemma {:induction false} FlagsByPartition(ps: seq<Partition>, zfs: Option<string>, w: string)
    ensures w in Flags(Those(AnyRoot, ps), zfs) <==> exists p :: p in ps && IsFlag(w, p, zfs)
  {
    hide Those, Flags;
    FlagsMember(Those(AnyRoot, ps), zfs, w);
    forall p
      ensures p in Those(AnyRoot, ps) && w in FlagsOf(p, zfs) <==> p in ps && IsFlag(w, p, zfs)
    {
      ThoseMember(AnyRoot, ps, p);
    }
  }

  /** What names the root, and what opens it if it is mapped. */
  ghost predicate NamesRoot(w: string, ps: seq<Partition>) {
    || (exists i :: LastMappedRootAt(ps, i)
                    && (w == "cryptdevice=UUID=" + ps[i].luksUuid.GetOr("") + ":" + ps[i].luksMapperName.value
                        || w == "root=/dev/mapper/" + ps[i].luksMapperName.value))
    || ((forall p :: p in ps ==> !MappedRoot(p)) && exists i :: LastRootAt(ps, i) && w == "root=UUID=" + ps[i].uuidStr)
  }

  ghost predicate NamesSwap(w: string, ps: seq<Partition>) {
    || (exists i :: LastSwapAt(ps, i) && ps[i].uuidStr != "" && w == "resume=UUID=" + ps[i].uuidStr)
    || (exists i :: LastMappedSwapAt(ps, i) && ps[i].luksMapperName.value != ""
                    && w == "resume=/dev/mapper/" + ps[i].luksMapperName.value)
  }

  lemma {:induction false} RootWordsByPosition(ps: seq<Partition>, w: string)
    requires Last(Those(AnyRoot, ps)).Some?
    ensures w in RootWords(UuidOf(Last(Those(AnyRoot, ps))).value, CryptWords(Last(Those(LuksRoot, ps)))) <==>
            NamesRoot(w, ps)
  {
    hide Those, Last;
    LastByPosition(AnyRoot, ps);
    LastByPosition(LuksRoot, ps);
    forall i
      ensures LastAt(LuksRoot, ps, i) <==> LastMappedRootAt(ps, i)
      ensures LastAt(AnyRoot, ps, i) <==> LastRootAt(ps, i)
    {
      RolesOfRoots(ps);
    }
    RolesOfRoots(ps);
    if Last(Those(LuksRoot, ps)).Some? {
      var i :| LastAt(LuksRoot, ps, i);
      assert LastMappedRootAt(ps, i) && ps[i] in ps;
    } else {
      var i :| LastAt(AnyRoot, ps, i);
      assert LastRootAt(ps, i);
    }
  }

  lemma RolesOfRoots(ps: seq<Partition>)
    ensures forall p :: p in ps ==> (Plays(LuksRoot, p) <==> MappedRoot(p))
    ensures forall p :: p in ps ==> (Plays(AnyRoot, p) <==> p.mountpoint == "/")
  {
  }

  lemma {:induction false} ResumeWordsByPosition(ps: seq<Partition>, w: string)
    ensures w in ResumeWords("resume=UUID=", UuidOf(Last(Those(PlainSwap, ps))))
              || w in ResumeWords("resume=/dev/mapper/", MapperOf(Last(Those(LuksSwap, ps)))) <==>
            NamesSwap(w, ps)
  {
    hide Those, Last;
    LastByPosition(PlainSwap, ps);
    LastByPosition(LuksSwap, ps);
    forall i
      ensures LastAt(PlainSwap, ps, i) <==> LastSwapAt(ps, i)
      ensures LastAt(LuksSwap, ps, i) <==> LastMappedSwapAt(ps, i)
    {
    }
    if Last(Those(PlainSwap, ps)).Some? {
      var i :| LastAt(PlainSwap, ps, i);
      assert LastSwapAt(ps, i);
    }
    if Last(Those(LuksSwap, ps)).Some? {
      var i :| LastAt(LuksSwap, ps, i);
      assert LastMappedSwapAt(ps, i);
    }
  }

  /** The command line consists of the given words, "rw", what the roots say about their
      subvolume or dataset, what opens and names the last root, and where to resume from. */
  lemma WordsExactly(ps: seq<Partition>, kernelParams: string, zfs: Option<string>, w: string)
    requires Params(ps, kernelParams, zfs).Some?
    ensures w in Params(ps, kernelParams, zfs).value <==>
            || w in Fields(kernelParams, ' ')
            || w == "rw"
            || (exists p :: p in ps && IsFlag(w, p, zfs))
            || NamesRoot(w, ps)
            || NamesSwap(w, ps)
  {
    hide Flags, CryptWords, RootWords, ResumeWords, Fields, Those, NamesRoot, NamesSwap, IsFlag;
    var roots := Those(AnyRoot, ps);
    FlagsByPartition(ps, zfs, w);
    RootWordsByPosition(ps, w);
    ResumeWordsByPosition(ps, w);
    var uuid := UuidOf(Last(roots)).GetOr("");
    var given, flags := Fields(kernelParams, ' '), Flags(roots, zfs);
    var named := RootWords(uuid, CryptWords(Last(Those(LuksRoot, ps))));
    var r1 := ResumeWords("resume=UUID=", UuidOf(Last(Those(PlainSwap, ps))));
    var r2 := ResumeWords("resume=/dev/mapper/", MapperOf(Last(Those(LuksSwap, ps))));
    assert Params(ps, kernelParams, zfs).value == given + ["rw"] + flags + named + r1 + r2;
    InSixParts(w, given, flags, named, r1, r2);
  }

  lemma InSixParts(w: string, given: seq<string>, flags: seq<string>, named: seq<string>,
                   r1: seq<string>, r2: seq<string>)
    ensures w in given + ["rw"] + flags + named + r1 + r2 <==>
            w in given || w == "rw" || w in flags || w in named || w in r1 || w in r2
  {
  }

  /** The given words come first and in their order, then "rw"; and what opens a mapped root
      stands directly before what names it. */
  lemma WordsInOrder(ps: seq<Partition>, kernelParams: string, zfs: Option<string>)
    requires Params(ps, kernelParams, zfs).Some?
    ensures var words, given := Params(ps, kernelParams, zfs).value, Fields(kernelParams, ' ');
            && |given| < |words| && words[..|given|] == given && words[|given|] == "rw"
            && forall i :: LastMappedRootAt(ps, i) ==>
                 exists k :: 0 <= k < |words| - 1
                             && words[k] == "cryptdevice=UUID=" + ps[i].luksUuid.GetOr("") + ":"
                                            + ps[i].luksMapperName.value
                             && words[k + 1] == "root=/dev/mapper/" + ps[i].luksMapperName.value
  {
    hide Flags, ResumeWords, Fields, Those, Last;
    var roots := Those(AnyRoot, ps);
    var given, flags := Fields(kernelParams, ' '), Flags(roots, zfs);
    var crypt := CryptWords(Last(Those(LuksRoot, ps)));
    var named := RootWords(UuidOf(Last(roots)).GetOr(""), crypt);
    var r1 := ResumeWords("resume=UUID=", UuidOf(Last(Those(PlainSwap, ps))));
    var r2 := ResumeWords("resume=/dev/mapper/", MapperOf(Last(Those(LuksSwap, ps))));
    var words := Params(ps, kernelParams, zfs).value;
    assert words == given + ["rw"] + flags + named + r1 + r2;
    LastByPosition(LuksRoot, ps);
    forall i | LastMappedRootAt(ps, i)
      ensures Last(Those(LuksRoot, ps)) == Some(ps[i])
    {
      assert LastAt(LuksRoot, ps, i);
    }
    if |named| == 2 {
      var k := |given| + 1 + |flags|;
      assert words[k] == named[0] && words[k + 1] == named[1];
    }
  }

  /** A command line is produced exactly if the last root has a uuid and a ZFS
      root can be named. */
  lemma SucceedsExactly(ps: seq<Partition>, kernelParams: string, zfs: Option<string>)
    ensures Params(ps, kernelParams, zfs).Some? <==>
            && (zfs.Some? || forall p :: p in ps ==> !IsRootOnZfs(p))
            && exists i :: 0 <= i < |ps| && ps[i].mountpoint == "/" && ps[i].uuidStr != ""
                           && forall j :: i < j < |ps| ==> ps[j].mountpoint != "/"
  {
    LastRoot(ps);
    forall p | p in ps && IsRootOnZfs(p) ensures p in Those(AnyRoot, ps) {
      ThoseMember(AnyRoot, ps, p);
    }
  }

  lemma {:induction false} ThoseMember(role: Role, ps: seq<Partition>, p: Partition)
    ensures p in Those(role, ps) <==> p in ps && Plays(role, p)
  {
    if ps != [] {
      ThoseMember(role, ps[..|ps| - 1], p);
      assert ps == ps[..|ps| - 1] + [ps[|ps| - 1]];
    }
  }

  lemma {:induction false} LastRoot(ps: seq<Partition>)
    ensures match Last(Those(AnyRoot, ps))
            case None => forall p :: p in ps ==> p.mountpoint != "/"
            case Some(r) => exists i :: 0 <= i < |ps| && ps[i] == r && r.mountpoint == "/"
                                        && forall j :: i < j < |ps| ==> ps[j].mountpoint != "/"
  {
    if ps != [] {
      LastRoot(ps[..|ps| - 1]);
      assert ps == ps[..|ps| - 1] + [ps[|ps| - 1]];
    }
  }

  // ----- independence of the order -----

  lemma {:induction false} ThoseOfMultiset(role: Role, ps: seq<Partition>, p: Partition)
    ensures multiset(Those(role, ps))[p] == if Plays(role, p) then multiset(ps)[p] else 0
  {
    if ps != [] {
      ThoseOfMultiset(role, ps[..|ps| - 1], p);
      assert ps == ps[..|ps| - 1] + [ps[|ps| - 1]];
    }
  }

  lemma {:induction false} SameThose(role: Role, ps: seq<Partition>, qs: seq<Partition>)
    requires multiset(ps) == multiset(qs) && |Those(role, ps)| <= 1
    ensures Those(role, ps) == Those(role, qs)
  {
    var a, b := Those(role, ps), Those(role, qs);
    forall p ensures multiset(a)[p] == multiset(b)[p] {
      ThoseOfMultiset(role, ps, p);
      ThoseOfMultiset(role, qs, p);
    }
    assert multiset(a) == multiset(b);
    assert |a| == |multiset(a)| && |b| == |multiset(b)|;
    if |a| == 1 {
      assert a == [a[0]] && b == [b[0]];
      assert b[0] in multiset(a);
    }
  }

  /** At most one root, and at most one swap of each kind. */
  ghost predicate Unambiguous(ps: seq<Partition>) {
    forall role: Role :: |Those(role, ps)| <= 1
  }

  /** The order of an unambiguous plan is irrelevant. */
  lemma ParamsIgnoreOrder(ps: seq<Partition>, qs: seq<Partition>, kernelParams: string, zfs: Option<string>)
    requires multiset(ps) == multiset(qs) && Unambiguous(ps)
    ensures Params(ps, kernelParams, zfs) == Params(qs, kernelParams, zfs)
  {
    forall role: Role ensures Those(role, ps) == Those(role, qs) {
      SameThose(role, ps, qs);
    }
  }
}
