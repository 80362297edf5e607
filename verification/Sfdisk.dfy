/** The sfdisk script that creates the partitions of a storage plan. */
module Sfdisk {
  import opened Options
  import opened Multiline
  import opened Partitions
  import opened Text

  function ConvertFsname(fsname: string): string {
    if fsname == "fat16" || fsname == "fat32" then "vfat"
    else if fsname == "linuxswap" then "swap"
    else fsname
  }

  function PartTypeAlias(fsname: string): string {
    if fsname == "vfat" then "U" else if fsname == "swap" then "S" else "L"
  }

  /** One line of the script. */
  function Line(p: Partition): string {
    var fsname := ConvertFsname(p.fstype);
    "type=" + PartTypeAlias(fsname)
    + (if p.size != "" then ",size=" + p.size else "")
    + (if fsname == "vfat" then ",bootable" else "")
    + "\n"
  }

  function Lines(ps: seq<Partition>): string {
    if ps == [] then "" else Line(ps[0]) + Lines(ps[1..])
  }

  /** The partitions that get a line: sorted by size, then device, then
      mountpoint, and without neighbours on the same device. */
  function Scripted(ps: seq<Partition>): seq<Partition> {
    UniqueByDevice(StableSort([SizeDescending], StableSort([Device], StableSort([Mountpoint], ps))))
  }

  function Script(ps: seq<Partition>, isEfi: bool): string {
    (if isEfi then "label: gpt\n" else "label: dos\n") + Lines(Scripted(ps))
  }

  lemma {:induction false} LinesGrow(ps: seq<Partition>, p: Partition)
    ensures Lines(ps + [p]) == Lines(ps) + Line(p)
  {
    hide Line;
    if ps == [] {
      assert ps + [p] == [p] && Lines([p][1..]) == "";
    } else {
      assert (ps + [p])[1..] == ps[1..] + [p];
      LinesGrow(ps[1..], p);
    }
  }

  /** gen_sfdisk_command. */
  method GenSfdiskCommand(partitions: seq<Partition>, isEfi: bool) returns (commands: string)
    ensures commands == Script(partitions, isEfi)
  {
    hide StableSort, UniqueByDevice, Line;
    commands := "label: gpt\n";
    if !isEfi {
      commands := "label: dos\n";
    }
    var sorted := StableSort([Mountpoint], partitions);
    sorted := StableSort([Device], sorted);
    sorted := StableSort([SizeDescending], sorted);
    var filtered := UniqueByDevice(sorted);
    ghost var label_ := commands;
    for i := 0 to |filtered|
      invariant commands == label_ + Lines(filtered[..i])
    {
      LinesGrow(filtered[..i], filtered[i]);
      assert filtered[..i] + [filtered[i]] == filtered[..i + 1];
      var line := GenLine(filtered[i]);
      commands := commands + line;
    }
    assert filtered[..|filtered|] == filtered;
  }

  /** The body of the loop, which appends its parts one after the other. */
  method GenLine(part: Partition) returns (line: string)
    ensures line == Line(part)
  {
    hide ConvertFsname, PartTypeAlias;
    var fsname := ConvertFsname(part.fstype);
    line := "type=" + PartTypeAlias(fsname);
    if part.size != "" {
      line := line + (",size=" + part.size);
    }
    if fsname == "vfat" {
      line := line + ",bootable";
    }
    line := line + "\n";
  }

  // ----- what the order of the script is -----

  lemma {:induction false} ScriptedBySingleSort(ps: seq<Partition>)
    ensures Scripted(ps) == UniqueByDevice(StableSort([SizeDescending, Device, Mountpoint], ps))
  {
    SortAfterSort(Device, [Mountpoint], ps);
    SortAfterSort(SizeDescending, [Device] + [Mountpoint], ps);
    assert [SizeDescending] + ([Device] + [Mountpoint]) == [SizeDescending, Device, Mountpoint];
  }

  /** The script does not depend on the order of the plan. */
  lemma ScriptIgnoresOrder(ps: seq<Partition>, qs: seq<Partition>, isEfi: bool)
    requires multiset(ps) == multiset(qs) && DistinctKeys([Device, Mountpoint], ps)
    ensures Script(ps, isEfi) == Script(qs, isEfi)
  {
    var o := [SizeDescending, Device, Mountpoint];
    ScriptedBySingleSort(ps);
    ScriptedBySingleSort(qs);
    assert o[1..] == [Device, Mountpoint];
    SortIgnoresOrder(o, ps, qs);
  }

  lemma {:induction false} SizeOrder(p: Partition, q: Partition)
    requires Le([SizeDescending, Device, Mountpoint], p, q)
    ensures StringLe(q.size, p.size)
    ensures p.size == q.size ==> Le([Device, Mountpoint], p, q)
  {
    StringLeTotal(p.size, q.size);
    assert [SizeDescending, Device, Mountpoint][1..] == [Device, Mountpoint];
  }

  lemma {:induction false} UniqueMember(prev: Option<string>, ys: seq<Partition>, r: Partition)
    requires r in UniqueAfter(prev, ys)
    ensures r in ys
    decreases ys
  {
    if r in UniqueAfter(Some(ys[0].device), ys[1..]) {
      UniqueMember(Some(ys[0].device), ys[1..], r);
    }
  }

  lemma {:induction false} UniqueKeepsOrder(o: Order, prev: Option<string>, ys: seq<Partition>, i: nat, j: nat)
    requires Sorted(o, ys) && i < j < |UniqueAfter(prev, ys)|
    ensures Le(o, UniqueAfter(prev, ys)[i], UniqueAfter(prev, ys)[j])
    decreases ys
  {
    var d, rest := Some(ys[0].device), ys[1..];
    var us := UniqueAfter(d, rest);
    if prev == d {
      UniqueKeepsOrder(o, d, rest, i, j);
    } else if i > 0 {
      UniqueKeepsOrder(o, d, rest, i - 1, j - 1);
    } else {
      assert us[j - 1] in us;
      UniqueMember(d, rest, us[j - 1]);
    }
  }

  /** A partition that takes the remaining space comes after every sized one. */
  lemma UnsizedComeLast(ps: seq<Partition>, i: nat, j: nat)
    requires i < j < |Scripted(ps)| && Scripted(ps)[i].size == ""
    ensures Scripted(ps)[j].size == ""
  {
    var o := [SizeDescending, Device, Mountpoint];
    ScriptedBySingleSort(ps);
    StableSortIsStableSort(o, ps);
    UniqueKeepsOrder(o, None, StableSort(o, ps), i, j);
    SizeOrder(Scripted(ps)[i], Scripted(ps)[j]);
  }

  // ----- one line for each device -----

  const BY_SIZE_DEVICE_MOUNTPOINT: Order := [SizeDescending, Device, Mountpoint]

  ghost predicate OneLinePerDevice(rs: seq<Partition>) {
    forall i, j :: 0 <= i < j < |rs| ==> rs[i].device != rs[j].device
  }

  /** In size order, r lies between two partitions of another device. */
  ghost predicate Separates(p: Partition, r: Partition, q: Partition) {
    && p.device == q.device && r.device != p.device
    && Le(BY_SIZE_DEVICE_MOUNTPOINT, p, r) && Le(BY_SIZE_DEVICE_MOUNTPOINT, r, q)
  }

  ghost predicate NothingInterleaves(ps: seq<Partition>) {
    forall p, r, q :: p in ps && r in ps && q in ps ==> !Separates(p, r, q)
  }

  /** A device can only come up again after another one. */
  lemma {:induction false} ComesUpAgain(d: string, ys: seq<Partition>, u: Partition) returns (z: Partition)
    requires Sorted(BY_SIZE_DEVICE_MOUNTPOINT, ys)
    requires u in UniqueAfter(Some(d), ys) && u.device == d
    ensures z in ys && z.device != d && Le(BY_SIZE_DEVICE_MOUNTPOINT, z, u)
    decreases ys
  {
    var y, rest := ys[0], ys[1..];
    if y.device == d {
      z := ComesUpAgain(d, rest, u);
    } else {
      z := y;
      UniqueMember(Some(d), ys, u);
      SameReflexive(BY_SIZE_DEVICE_MOUNTPOINT, y);
    }
  }

  lemma {:induction false} TwiceMeansInterleaved(prev: Option<string>, ys: seq<Partition>, i: nat, j: nat)
    requires Sorted(BY_SIZE_DEVICE_MOUNTPOINT, ys) && i < j < |UniqueAfter(prev, ys)|
    requires UniqueAfter(prev, ys)[i].device == UniqueAfter(prev, ys)[j].device
    ensures !NothingInterleaves(ys)
    decreases ys
  {
    var y, rest := ys[0], ys[1..];
    var d := Some(y.device);
    var us := UniqueAfter(d, rest);
    if prev == d {
      TwiceMeansInterleaved(d, rest, i, j);
    } else if i > 0 {
      TwiceMeansInterleaved(d, rest, i - 1, j - 1);
    } else {
      var u := us[j - 1];
      assert u in us;
      UniqueMember(d, rest, u);
      var z := ComesUpAgain(y.device, rest, u);
      assert y in ys && z in ys && u in ys;
      assert Separates(y, z, u);
    }
  }

  /** Every partition is on the device of a line at or before its own place. */
  lemma {:induction false} LineBefore(prev: Option<string>, ys: seq<Partition>, p: Partition) returns (u: Partition)
    requires Sorted(BY_SIZE_DEVICE_MOUNTPOINT, ys) && p in ys && prev != Some(p.device)
    ensures u in UniqueAfter(prev, ys) && u.device == p.device && Le(BY_SIZE_DEVICE_MOUNTPOINT, u, p)
    decreases ys
  {
    var y, rest := ys[0], ys[1..];
    SameReflexive(BY_SIZE_DEVICE_MOUNTPOINT, y);
    if y.device == p.device {
      u := y;
      assert UniqueAfter(prev, ys)[0] == y;
    } else {
      u := LineBefore(Some(y.device), rest, p);
      assert u in UniqueAfter(Some(y.device), rest);
    }
  }

  /** After a partition on another device, there is a line for the device later on. */
  lemma {:induction false} LineAfter(prev: Option<string>, ys: seq<Partition>, r: Partition, q: Partition)
    returns (u: Partition)
    requires Sorted(BY_SIZE_DEVICE_MOUNTPOINT, ys) && r in ys && q in ys
    requires r.device != q.device && Le(BY_SIZE_DEVICE_MOUNTPOINT, r, q)
    ensures u in UniqueAfter(prev, ys) && u.device == q.device && Le(BY_SIZE_DEVICE_MOUNTPOINT, r, u)
    decreases ys
  {
    var y, rest := ys[0], ys[1..];
    if y == r {
      u := LineBefore(Some(y.device), rest, q);
      assert u in UniqueAfter(Some(y.device), rest);
      UniqueMember(Some(y.device), rest, u);
    } else {
      if y == q {
        DifferentDevices(q, r);
      }
      u := LineAfter(Some(y.device), rest, r, q);
      assert u in UniqueAfter(Some(y.device), rest);
    }
  }

  lemma {:induction false} DifferentDevices(p: Partition, q: Partition)
    requires p.device != q.device
    ensures !(Le(BY_SIZE_DEVICE_MOUNTPOINT, p, q) && Le(BY_SIZE_DEVICE_MOUNTPOINT, q, p))
  {
    LeTotal(BY_SIZE_DEVICE_MOUNTPOINT, p, q);
    SameByColumns(BY_SIZE_DEVICE_MOUNTPOINT, p, q);
    assert Key(Device, p) != Key(Device, q) && Device in BY_SIZE_DEVICE_MOUNTPOINT;
  }

  lemma {:induction false} InterleavedMeansTwice(ys: seq<Partition>, p: Partition, r: Partition, q: Partition)
    requires Sorted(BY_SIZE_DEVICE_MOUNTPOINT, ys) && p in ys && r in ys && q in ys && Separates(p, r, q)
    ensures !OneLinePerDevice(UniqueByDevice(ys))
  {
    hide Le, Sorted, UniqueAfter;
    var a := LineBefore(None, ys, p);
    var b := LineAfter(None, ys, r, q);
    if a == b {
      LeTransitive(BY_SIZE_DEVICE_MOUNTPOINT, a, p, r);
      DifferentDevices(a, r);
    }
    var rs := UniqueByDevice(ys);
    var i :| 0 <= i < |rs| && rs[i] == a;
    var j :| 0 <= j < |rs| && rs[j] == b;
  }

  /** The script has one line for each device exactly when, in size order, the
      partitions of a device are not separated by others. */
  lemma OneLinePerDeviceExactly(ps: seq<Partition>)
    ensures OneLinePerDevice(Scripted(ps)) <==> NothingInterleaves(ps)
    ensures forall p :: p in ps ==> exists r :: r in Scripted(ps) && r.device == p.device
  {
    hide Le, Separates, UniqueAfter;
    var o := BY_SIZE_DEVICE_MOUNTPOINT;
    var ys := StableSort(o, ps);
    ScriptedBySingleSort(ps);
    StableSortIsStableSort(o, ps);
    SameClassesSameMembers(o, ps, ys);
    var rs := UniqueByDevice(ys);
    if !OneLinePerDevice(rs) {
      var i, j :| 0 <= i < j < |rs| && rs[i].device == rs[j].device;
      TwiceMeansInterleaved(None, ys, i, j);
      var p, r, q :| p in ys && r in ys && q in ys && Separates(p, r, q);
    }
    if !NothingInterleaves(ps) {
      var p, r, q :| p in ps && r in ps && q in ps && Separates(p, r, q);
      InterleavedMeansTwice(ys, p, r, q);
    }
    forall p | p in ps ensures exists r :: r in rs && r.device == p.device {
      UniqueCovers(None, ys, p);
    }
  }

  /** In particular when each device has one size, as in a plan where only copies
      of a partition share its device. */
  lemma EqualSizesDoNotInterleave(ps: seq<Partition>)
    requires forall p, q :: p in ps && q in ps && p.device == q.device ==> p.size == q.size
    ensures NothingInterleaves(ps)
  {
    hide Le;
    forall p, r, q | p in ps && r in ps && q in ps ensures !Separates(p, r, q) {
      if Separates(p, r, q) {
        SizeOrder(p, r);
        SizeOrder(r, q);
        StringLeTotal(p.size, r.size);
        LeByDevice(p, r);
        LeByDevice(r, q);
        StringLeTotal(p.device, r.device);
      }
    }
  }

  // ----- reading the script back -----

  /** What sfdisk reads in a line: the type, the size of a sized partition, and whether
      the partition is bootable. */
  function Columns(p: Partition): seq<string> {
    if IsVfat(p) then
      if p.size == "" then [TypeColumn(p), "bootable"] else [TypeColumn(p), "size=" + p.size, "bootable"]
    else
      if p.size == "" then [TypeColumn(p)] else [TypeColumn(p), "size=" + p.size]
  }

  predicate IsVfat(p: Partition) {
    p.fstype in ["vfat", "fat16", "fat32"]
  }

  function TypeColumn(p: Partition): string {
    if IsVfat(p) then "type=U" else if p.fstype in ["swap", "linuxswap"] then "type=S" else "type=L"
  }

  function ColumnsOf(ps: seq<Partition>): (r: seq<seq<string>>)
    ensures |r| == |ps| && forall i :: 0 <= i < |ps| ==> r[i] == Columns(ps[i])
  {
    seq(|ps|, i requires 0 <= i < |ps| => Columns(ps[i]))
  }

  function CutAll(lines: seq<string>): (r: seq<seq<string>>)
    ensures |r| == |lines| && forall i :: 0 <= i < |lines| ==> r[i] == Pieces(lines[i], ',')
  {
    seq(|lines|, i requires 0 <= i < |lines| => Pieces(lines[i], ','))
  }

  /** The lines between the label and the end of the text, cut at commas. */
  function ReadScript(script: string): seq<seq<string>> {
    var lines := Pieces(script, '\n');
    if |lines| < 2 then [] else CutAll(lines[1..|lines| - 1])
  }

  predicate PlainSize(p: Partition) {
    ',' !in p.size && '\n' !in p.size
  }

  lemma LineIsColumns(p: Partition)
    ensures Line(p) == Joined(Columns(p), ',') + "\n"
  {
    hide Joined;
    var kind, size := TypeColumn(p), "size=" + p.size;
    JoinedThree(kind, size, "bootable");
    JoinedTwo(kind, size);
    JoinedTwo(kind, "bootable");
    JoinedOne(kind);
    assert "type=" + PartTypeAlias(ConvertFsname(p.fstype)) == kind;
    assert ",size=" + p.size == "," + size;
    assert ",bootable" == "," + "bootable";
  }

  lemma JoinedOne(a: string)
    ensures Joined([a], ',') == a
  {
  }

  lemma JoinedTwo(a: string, b: string)
    ensures Joined([a, b], ',') == a + "," + b
  {
    assert [a, b][1..] == [b];
  }

  lemma JoinedThree(a: string, b: string, c: string)
    ensures Joined([a, b, c], ',') == a + "," + b + "," + c
  {
    assert [a, b, c][1..] == [b, c];
    JoinedTwo(b, c);
    assert a + "," + (b + "," + c) == a + "," + b + "," + c;
  }

  lemma ColumnsFreeOf(p: Partition, c: char)
    requires c == ',' || c == '\n'
    ensures FreeOf(Columns(p), c) <==> c !in p.size
  {
    var columns := Columns(p);
    assert c !in "size=" && c !in "bootable" && c !in "type=U" && c !in "type=S" && c !in "type=L";
    if p.size != "" {
      assert columns[1] == "size=" + p.size;
    }
  }

  /** A line cut at commas gives its columns, exactly if the size has no comma. */
  lemma LineReadsBackExactly(p: Partition)
    ensures var line := Line(p);
            line[|line| - 1] == '\n' && (Pieces(line[..|line| - 1], ',') == Columns(p) <==> ',' !in p.size)
  {
    hide Line, Columns, Joined, Pieces;
    LineIsColumns(p);
    var body := Joined(Columns(p), ',');
    assert Line(p)[..|Line(p)| - 1] == body;
    ColumnsFreeOf(p, ',');
    PiecesAreFree(body, ',');
    ColumnsAreThere(p);
    if ',' !in p.size {
      PiecesOfJoined(Columns(p), ',');
    }
  }

  lemma ColumnsAreThere(p: Partition)
    ensures Columns(p) != []
  {
  }

  function Bodies(ps: seq<Partition>): (r: seq<string>)
    ensures |r| == |ps| && forall i :: 0 <= i < |ps| ==> r[i] == Joined(Columns(ps[i]), ',')
  {
    seq(|ps|, i requires 0 <= i < |ps| => Joined(Columns(ps[i]), ','))
  }

  lemma {:induction false} LinesAreTerminated(ps: seq<Partition>)
    ensures Lines(ps) == Terminated(Bodies(ps), "\n")
  {
    hide Line, Columns, Joined;
    if ps != [] {
      LineIsColumns(ps[0]);
      LinesAreTerminated(ps[1..]);
      assert Bodies(ps)[1..] == Bodies(ps[1..]);
    }
  }

  lemma CutBodies(ps: seq<Partition>)
    requires forall p :: p in ps ==> ',' !in p.size
    ensures CutAll(Bodies(ps)) == ColumnsOf(ps)
  {
    hide Columns, Joined, Pieces, CutAll, Bodies, ColumnsOf;
    forall i | 0 <= i < |ps|
      ensures Pieces(Bodies(ps)[i], ',') == Columns(ps[i])
    {
      ColumnsFreeOf(ps[i], ',');
      ColumnsAreThere(ps[i]);
      PiecesOfJoined(Columns(ps[i]), ',');
    }
  }

  /** The script is read back as type, size and boot flag of the partitions that it was
      written for, in order, exactly if no size contains a comma or a line break. */
  lemma ScriptReadsBackExactly(ps: seq<Partition>, isEfi: bool)
    ensures ReadScript(Script(ps, isEfi)) == ColumnsOf(Scripted(ps)) <==> forall p :: p in Scripted(ps) ==> PlainSize(p)
    ensures FirstLine(Script(ps, isEfi)) == if isEfi then "label: gpt" else "label: dos"
  {
    hide Scripted, Columns, Joined, Pieces, CutAll, Bodies, ColumnsOf, Lines;
    var rs := Scripted(ps);
    StartsWithLabel(ps, isEfi);
    if forall p :: p in rs ==> PlainSize(p) {
      ScriptReadsBack(ps, isEfi);
    }
    var lines := Pieces(Script(ps, isEfi), '\n');
    PiecesAreFree(Script(ps, isEfi), '\n');
    if ReadScript(Script(ps, isEfi)) == ColumnsOf(rs) && |lines| >= 2 {
      forall i | 0 <= i < |rs|
        ensures PlainSize(rs[i])
      {
        assert CutAll(lines[1..|lines| - 1])[i] == Pieces(lines[i + 1], ',');
        PiecesAreFree(lines[i + 1], ',');
        PiecesStayFree(lines[i + 1], ',', '\n');
        ColumnsFreeOf(rs[i], ',');
        ColumnsFreeOf(rs[i], '\n');
      }
    }
  }

  lemma StartsWithLabel(ps: seq<Partition>, isEfi: bool)
    ensures FirstLine(Script(ps, isEfi)) == if isEfi then "label: gpt" else "label: dos"
  {
    hide Lines, Scripted, Pieces;
    var label_ := if isEfi then "label: gpt" else "label: dos";
    assert '\n' !in label_;
    assert Script(ps, isEfi) == label_ + ['\n'] + Lines(Scripted(ps));
    PiecesOfOne(label_, '\n');
    PiecesConcat(label_, Lines(Scripted(ps)), '\n');
  }

  lemma ScriptReadsBack(ps: seq<Partition>, isEfi: bool)
    requires forall p :: p in Scripted(ps) ==> PlainSize(p)
    ensures ReadScript(Script(ps, isEfi)) == ColumnsOf(Scripted(ps))
  {
    hide Scripted, Columns, Joined, Pieces, CutAll, ColumnsOf, Lines, Terminated;
    var rs, label_ := Scripted(ps), if isEfi then "label: gpt" else "label: dos";
    assert '\n' !in label_;
    LinesAreTerminated(rs);
    assert Script(ps, isEfi) == label_ + ['\n'] + Terminated(Bodies(rs), ['\n']);
    forall i | 0 <= i < |rs|
      ensures '\n' !in Bodies(rs)[i]
    {
      assert PlainSize(rs[i]);
      ColumnsFreeOf(rs[i], '\n');
      JoinedFreeOf(Columns(rs[i]), ',', '\n');
    }
    PiecesOfTerminated(Bodies(rs), '\n');
    PiecesOfOne(label_, '\n');
    PiecesConcat(label_, Terminated(Bodies(rs), ['\n']), '\n');
    var lines := Pieces(Script(ps, isEfi), '\n');
    assert lines == [label_] + (Bodies(rs) + [""]);
    assert lines[1..|lines| - 1] == Bodies(rs);
    CutBodies(rs);
  }

  // ----- the default plan -----

  /** generate_default_partition_schema. */
  function DefaultSchema(device: string, bootMountpoint: string, isEfi: bool): seq<Partition> {
    var root := Partition("btrfs", "/", "", device + "1", "", "", None, None, None, None);
    if isEfi then
      [Partition("vfat", bootMountpoint, "", root.device, "2GiB", "", None, None, None, None),
       root.(device := device + "2")]
    else [root]
  }

  lemma {:induction false} DistinctDevicesAllStay(prev: Option<string>, ps: seq<Partition>)
    requires OneLinePerDevice(ps) && forall p :: p in ps ==> prev != Some(p.device)
    ensures UniqueAfter(prev, ps) == ps
    decreases ps
  {
    if ps != [] {
      assert ps == [ps[0]] + ps[1..];
      forall p | p in ps[1..]
        ensures p.device != ps[0].device
      {
        var j :| 0 <= j < |ps[1..]| && ps[1..][j] == p;
        assert ps[j + 1] == p;
      }
      DistinctDevicesAllStay(Some(ps[0].device), ps[1..]);
    }
  }

  /** The default plan is partitioned as it is written down: every partition has its
      line, in this order, and only the last takes the remaining space. */
  lemma DefaultSchemaIsScriptedInOrder(device: string, bootMountpoint: string, isEfi: bool)
    ensures var ps := DefaultSchema(device, bootMountpoint, isEfi);
            && Scripted(ps) == ps
            && ps[|ps| - 1].mountpoint == "/" && ps[|ps| - 1].size == "" && ps[|ps| - 1].fstype == "btrfs"
            && (if isEfi then
                  |ps| == 2 && ps[0].mountpoint == bootMountpoint && ps[0].size == "2GiB" && ps[0].fstype == "vfat"
                  && ps[0].device == device + "1" && ps[1].device == device + "2"
                else |ps| == 1 && ps[0].device == device + "1")
  {
    var ps := DefaultSchema(device, bootMountpoint, isEfi);
    ScriptedBySingleSort(ps);
    DefaultSchemaIsSorted(device, bootMountpoint, isEfi);
    SortedIsItsOwnSort(BY_SIZE_DEVICE_MOUNTPOINT, ps);
    if isEfi {
      assert ps[0].device[|device|] != ps[1].device[|device|];
    }
    DistinctDevicesAllStay(None, ps);
  }

  lemma DefaultSchemaIsSorted(device: string, bootMountpoint: string, isEfi: bool)
    ensures Sorted(BY_SIZE_DEVICE_MOUNTPOINT, DefaultSchema(device, bootMountpoint, isEfi))
  {
    var ps := DefaultSchema(device, bootMountpoint, isEfi);
    if isEfi {
      var esp, root := ps[0], ps[1];
      assert Key(SizeDescending, esp) != Key(SizeDescending, root);
      assert Le(BY_SIZE_DEVICE_MOUNTPOINT, esp, root);
      assert ps[1..] == [root];
      assert ps[1..][1..] == [];
    } else {
      assert ps[1..] == [];
    }
  }

  /** The default script: on UEFI a bootable EFI partition of two gibibytes, and behind it the
      root on what is left; otherwise the root alone. */
  lemma DefaultScript(device: string, bootMountpoint: string)
    ensures Script(DefaultSchema(device, bootMountpoint, true), true) ==
            "label: gpt\n" + ("type=U,size=2GiB,bootable\n" + "type=L\n")
    ensures Script(DefaultSchema(device, bootMountpoint, false), false) == "label: dos\n" + "type=L\n"
  {
    hide Scripted, Line;
    DefaultSchemaIsScriptedInOrder(device, bootMountpoint, true);
    DefaultSchemaIsScriptedInOrder(device, bootMountpoint, false);
    var efi, bios := DefaultSchema(device, bootMountpoint, true), DefaultSchema(device, bootMountpoint, false);
    DefaultLines(efi[0], efi[1]);
    DefaultLines(efi[0], bios[0]);
    LinesOfTwo(efi[0], efi[1]);
    LinesOfTwo(efi[0], bios[0]);
    assert efi == [efi[0], efi[1]] && bios == [bios[0]];
  }

  lemma DefaultLines(esp: Partition, root: Partition)
    requires esp.fstype == "vfat" && esp.size == "2GiB" && root.fstype == "btrfs" && root.size == ""
    ensures Line(esp) == "type=U,size=2GiB,bootable\n" && Line(root) == "type=L\n"
  {
  }

  lemma LinesOfTwo(p: Partition, q: Partition)
    ensures Lines([p, q]) == Line(p) + Line(q) && Lines([q]) == Line(q)
  {
    hide Line;
    assert [p, q][1..] == [q] && [q][1..] == [] && Line(q) + Lines([]) == Line(q);
  }
}
