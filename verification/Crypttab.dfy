/** /etc/crypttab, generated from the storage plan. */
module Crypttab {
  import opened Options
  import opened Partitions
  import opened Text

  /** The partition has what an entry needs; empty names are invalid. */
  predicate Encrypted(p: Partition) {
    && p.luksMapperName.Some? && p.luksUuid.Some?
    && p.luksMapperName.value != "" && p.luksUuid.value != ""
  }

  function GenCrypttabEntry(p: Partition, opts: string, isRootEncrypted: bool, isBootEncrypted: bool): Option<string> {
    if !Encrypted(p) then None
    else
      var noKeyfile := !isRootEncrypted || (p.mountpoint == "/" && !isBootEncrypted);
      var password := if noKeyfile then "none" else "/crypto_keyfile.bin";
      var options := if noKeyfile then "" else " " + opts;
      Some(Padded(p.luksMapperName.value, 21) + " " + Padded("UUID=" + p.luksUuid.value, 45) + " "
           + password + options + "\n")
  }

  /** What unlocks a partition: the key file once root is encrypted, except for root
      itself while boot is not. */
  function UnlockedBy(p: Partition, isRootEncrypted: bool, isBootEncrypted: bool): string {
    if isRootEncrypted && (p.mountpoint == "/" ==> isBootEncrypted) then "/crypto_keyfile.bin" else "none"
  }

  /** Read by its columns, an entry names the mapping, the LUKS device and the key, exactly
      if the names are single words. */
  lemma EntryReadsBackExactly(p: Partition, opts: string, r: bool, b: bool)
    requires Encrypted(p)
    ensures var e := GenCrypttabEntry(p, opts, r, b).value;
            var columns := Fields(e[..|e| - 1], ' ');
            && e[|e| - 1] == '\n'
            && (|columns| >= 3
                && columns[..3] == [p.luksMapperName.value, "UUID=" + p.luksUuid.value, UnlockedBy(p, r, b)]
                <==> ' ' !in p.luksMapperName.value && ' ' !in p.luksUuid.value)
  {
    var mapper, uuid, key := p.luksMapperName.value, p.luksUuid.value, UnlockedBy(p, r, b);
    var e := GenCrypttabEntry(p, opts, r, b).value;
    var more := if key == "none" then key else key + " " + opts;
    assert e[..|e| - 1] == Padded(mapper, 21) + " " + (Padded("UUID=" + uuid, 45) + " " + more);
    ColumnsOfEntry(mapper, uuid, key, more, opts);
  }

  lemma ColumnsOfEntry(mapper: string, uuid: string, key: string, more: string, opts: string)
    requires mapper != "" && uuid != "" && Word(key) && (more == key || more == key + " " + opts)
    ensures var columns := Fields(Padded(mapper, 21) + " " + (Padded("UUID=" + uuid, 45) + " " + more), ' ');
            (|columns| >= 3 && columns[..3] == [mapper, "UUID=" + uuid, key]) <==> (' ' !in mapper && ' ' !in uuid)
  {
    hide Fields, Padded;
    var device := "UUID=" + uuid;
    var text := Padded(mapper, 21) + " " + (Padded(device, 45) + " " + more);
    FieldsConcat(Padded(mapper, 21), Padded(device, 45) + " " + more, ' ');
    FieldsConcat(Padded(device, 45), more, ' ');
    FieldsOfPadded(mapper, 21);
    FieldsOfPadded(device, 45);
    FieldsOfOne(key, ' ');
    FieldsConcat(key, opts, ' ');
    FieldsAreWords(text);
    assert ' ' !in "UUID=" && (' ' in uuid ==> ' ' in device);
    var columns := Fields(text, ' ');
    if Word(mapper) && Word(device) {
      FieldsOfOne(mapper, ' ');
      FieldsOfOne(device, ' ');
      assert columns[..3] == [mapper, device, key];
    }
    if |columns| >= 3 && columns[..3] == [mapper, device, key] {
      assert columns[..3][0] == columns[0] && columns[..3][1] == columns[1];
    }
  }

  /** There is an entry exactly for a partition with a mapping and a LUKS uuid. Behind the mapping
      and the device stand the key file and the options, or just "none" where root is not
      encrypted, and for a root whose boot partition is not. */
  lemma ColumnsOfCrypttab(p: Partition, opts: string, r: bool, b: bool)
    ensures GenCrypttabEntry(p, opts, r, b).Some? <==> p.luksMapperName.GetOr("") != "" && p.luksUuid.GetOr("") != ""
    ensures GenCrypttabEntry(p, opts, r, b).Some? ==>
              var e := GenCrypttabEntry(p, opts, r, b).value;
              var named := Fields(p.luksMapperName.value, ' ') + Fields("UUID=" + p.luksUuid.value, ' ');
              && e != "" && e[|e| - 1] == '\n'
              && (!r ==> Fields(e[..|e| - 1], ' ') == named + ["none"])
              && (r && p.mountpoint == "/" && !b ==> Fields(e[..|e| - 1], ' ') == named + ["none"])
              && (r && (p.mountpoint != "/" || b) ==>
                    Fields(e[..|e| - 1], ' ') == named + (["/crypto_keyfile.bin"] + Fields(opts, ' ')))
  {
    hide Fields, Padded;
    if Encrypted(p) {
      var mapper, uuid, key := p.luksMapperName.value, "UUID=" + p.luksUuid.value, UnlockedBy(p, r, b);
      var e := GenCrypttabEntry(p, opts, r, b).value;
      var more := if key == "none" then key else key + " " + opts;
      assert e[..|e| - 1] == Padded(mapper, 21) + " " + (Padded(uuid, 45) + " " + more);
      FieldsConcat(Padded(mapper, 21), Padded(uuid, 45) + " " + more, ' ');
      FieldsConcat(Padded(uuid, 45), more, ' ');
      FieldsOfPadded(mapper, 21);
      FieldsOfPadded(uuid, 45);
      FieldsConcat(key, opts, ' ');
      FieldsOfOne(key, ' ');
      var named := Fields(mapper, ' ') + Fields(uuid, ' ');
      assert Fields(mapper, ' ') + (Fields(uuid, ' ') + Fields(more, ' ')) == named + Fields(more, ' ');
    }
  }

  /** Names that fit their columns stand in columns 0, 22 and 68. */
  lemma EntryIsAligned(p: Partition, opts: string, r: bool, b: bool)
    requires Encrypted(p) && |p.luksMapperName.value| <= 21 && |p.luksUuid.value| <= 40
    ensures var e := GenCrypttabEntry(p, opts, r, b).value;
            && |e| > 68
            && e[..|p.luksMapperName.value|] == p.luksMapperName.value
            && e[22..27 + |p.luksUuid.value|] == "UUID=" + p.luksUuid.value
            && e[68..] == if r && (p.mountpoint != "/" || b) then "/crypto_keyfile.bin " + opts + "\n" else "none\n"
  {
    hide Padded;
    var mapper, uuid := p.luksMapperName.value, "UUID=" + p.luksUuid.value;
    var e := GenCrypttabEntry(p, opts, r, b).value;
    var key := if r && (p.mountpoint != "/" || b) then "/crypto_keyfile.bin " + opts else "none";
    assert "/crypto_keyfile.bin" + " " == "/crypto_keyfile.bin " && "none" + "" == "none";
    assert e == Padded(mapper, 21) + " " + (Padded(uuid, 45) + " " + (key + "\n"));
    assert "none" + "\n" == "none\n";
    TwoPaddedFit(mapper, 21, uuid, 45, key + "\n");
  }

  /** The list that entries are made from: one partition for each device. */
  function Representatives(ps: seq<Partition>): seq<Partition> {
    UniqueByDevice(StableSort([Device], StableSort([Mountpoint], ps)))
  }

  predicate HasMapperAt(ps: seq<Partition>, mountpoint: string) {
    exists p :: p in ps && p.mountpoint == mountpoint && p.luksMapperName.Some?
  }

  function Entries(ps: seq<Partition>, opts: string, rootEnc: bool, bootEnc: bool): string {
    if ps == [] then ""
    else GenCrypttabEntry(ps[0], opts, rootEnc, bootEnc).GetOr("") + Entries(ps[1..], opts, rootEnc, bootEnc)
  }

  /** The text of the file; whether boot is encrypted is looked up at "/bool". */
  function Content(header: string, ps: seq<Partition>, opts: string): string {
    header + Entries(Representatives(ps), opts, HasMapperAt(ps, "/"), HasMapperAt(ps, "/bool"))
  }

  lemma {:induction false} EntriesGrow(ps: seq<Partition>, p: Partition, opts: string, r: bool, b: bool)
    ensures Entries(ps + [p], opts, r, b) == Entries(ps, opts, r, b) + GenCrypttabEntry(p, opts, r, b).GetOr("")
  {
    hide GenCrypttabEntry;
    if ps == [] {
      assert ps + [p] == [p] && Entries([p][1..], opts, r, b) == "";
    } else {
      assert (ps + [p])[1..] == ps[1..] + [p];
      EntriesGrow(ps[1..], p, opts, r, b);
    }
  }

  /** generate_crypttab_content. */
  method GenerateCrypttabContent(header: string, partitions: seq<Partition>, opts: string) returns (content: string)
    ensures content == Content(header, partitions, opts)
  {
    hide GenCrypttabEntry, StableSort, UniqueByDevice, HasMapperAt;
    content := header;
    var sorted := StableSort([Mountpoint], partitions);
    sorted := StableSort([Device], sorted);
    var filtered := UniqueByDevice(sorted);
    var isRootEncrypted := HasMapperAt(partitions, "/");
    var isBootEncrypted := HasMapperAt(partitions, "/bool");
    for i := 0 to |filtered|
      invariant content == header + Entries(filtered[..i], opts, isRootEncrypted, isBootEncrypted)
    {
      EntriesGrow(filtered[..i], filtered[i], opts, isRootEncrypted, isBootEncrypted);
      assert filtered[..i] + [filtered[i]] == filtered[..i + 1];
      var entry := GenCrypttabEntry(filtered[i], opts, isRootEncrypted, isBootEncrypted);
      if entry.Some? {
        content := content + entry.value;
      }
    }
    assert filtered[..|filtered|] == filtered;
  }

  // ----- which partition speaks for a device -----

  lemma {:induction false} RepresentativesBySingleSort(ps: seq<Partition>)
    ensures Representatives(ps) == UniqueByDevice(StableSort([Device, Mountpoint], ps))
  {
    SortAfterSort(Device, [Mountpoint], ps);
    assert [Device] + [Mountpoint] == [Device, Mountpoint];
  }

  /** The table does not depend on the order of the plan. */
  lemma ContentIgnoresOrder(header: string, ps: seq<Partition>, qs: seq<Partition>, opts: string)
    requires multiset(ps) == multiset(qs) && DistinctKeys([Device, Mountpoint], ps)
    ensures Content(header, ps, opts) == Content(header, qs, opts)
  {
    RepresentativesBySingleSort(ps);
    RepresentativesBySingleSort(qs);
    SortIgnoresOrder([Device, Mountpoint], ps, qs);
    forall p ensures p in ps <==> p in qs {
      assert p in multiset(ps) <==> p in multiset(qs);
    }
    assert HasMapperAt(ps, "/") == HasMapperAt(qs, "/");
    assert HasMapperAt(ps, "/bool") == HasMapperAt(qs, "/bool");
  }

  /** r comes from ps and no partition of its device has a smaller mountpoint. */
  ghost predicate Leads(r: Partition, ps: seq<Partition>) {
    r in ps && forall q :: q in ps && q.device == r.device ==> StringLe(r.mountpoint, q.mountpoint)
  }

  lemma {:induction false} UniqueLeads(prev: Option<string>, ys: seq<Partition>, r: Partition)
    requires Sorted([Device, Mountpoint], ys)
    requires prev.Some? ==> forall y :: y in ys ==> StringLe(prev.value, y.device)
    requires r in UniqueAfter(prev, ys)
    ensures Leads(r, ys) && prev != Some(r.device)
    decreases ys
  {
    var y, rest := ys[0], ys[1..];
    forall z | z in rest
      ensures StringLe(y.device, z.device) && (y.device == z.device ==> StringLe(y.mountpoint, z.mountpoint))
    {
      LeByDevice(y, z);
      StringLeTotal(y.device, z.device);
    }
    StringLeTotal(y.mountpoint, y.mountpoint);
    if r in UniqueAfter(Some(y.device), rest) {
      UniqueLeads(Some(y.device), rest, r);
      assert r in rest && r in ys;
      if prev.Some? {
        assert y in ys;
        StringLeTotal(prev.value, r.device);
        if prev.value == r.device { StringLeTotal(y.device, r.device); assert false; }
      }
    } else {
      assert r == y && prev != Some(y.device);
    }
  }

  lemma {:induction false} UniqueIsDistinct(prev: Option<string>, ys: seq<Partition>, i: nat, j: nat)
    requires Sorted([Device, Mountpoint], ys)
    requires prev.Some? ==> forall y :: y in ys ==> StringLe(prev.value, y.device)
    requires i < j < |UniqueAfter(prev, ys)|
    ensures UniqueAfter(prev, ys)[i].device != UniqueAfter(prev, ys)[j].device
    decreases ys
  {
    var y, rest := ys[0], ys[1..];
    var us := UniqueAfter(Some(y.device), rest);
    forall z | z in rest ensures StringLe(y.device, z.device) {
      LeByDevice(y, z);
      StringLeTotal(y.device, z.device);
    }
    if prev == Some(y.device) {
      UniqueIsDistinct(Some(y.device), rest, i, j);
    } else if i > 0 {
      UniqueIsDistinct(Some(y.device), rest, i - 1, j - 1);
    } else {
      assert us[j - 1] in us;
      UniqueLeads(Some(y.device), rest, us[j - 1]);
    }
  }

  /** Every device has exactly one representative, and it is the partition with
      the least mountpoint. */
  lemma OneRepresentativePerDevice(ps: seq<Partition>)
    ensures var rs := Representatives(ps);
            && (forall r :: r in rs ==> Leads(r, ps))
            && (forall i, j :: 0 <= i < j < |rs| ==> rs[i].device != rs[j].device)
            && (forall p :: p in ps ==> exists r :: r in rs && r.device == p.device)
  {
    var o := [Device, Mountpoint];
    var ys := StableSort(o, ps);
    RepresentativesBySingleSort(ps);
    StableSortIsStableSort(o, ps);
    SameClassesSameMembers(o, ps, ys);
    forall r | r in UniqueByDevice(ys) ensures Leads(r, ps) {
      UniqueLeads(None, ys, r);
    }
    var rs := UniqueByDevice(ys);
    forall i, j | 0 <= i < j < |rs| ensures rs[i].device != rs[j].device {
      UniqueIsDistinct(None, ys, i, j);
    }
    forall p | p in ps ensures exists r :: r in rs && r.device == p.device {
      UniqueCovers(None, ys, p);
    }
  }

  predicate IsAbsolute(mountpoint: string) {
    mountpoint != "" && mountpoint[0] == '/'
  }

  lemma {:induction false} RootComesFirst(m: string)
    requires IsAbsolute(m)
    ensures StringLe("/", m) && (StringLe(m, "/") ==> m == "/")
  {
    assert "/"[1..] == "";
    if StringLe(m, "/") {
      assert StringLe(m[1..], "");
      assert m == ['/'] + m[1..];
    }
  }

  /** So where mountpoints are absolute, the root speaks for its device. */
  lemma RootRepresentsItsDevice(ps: seq<Partition>, root: Partition, r: Partition)
    requires root in ps && root.mountpoint == "/"
    requires forall p :: p in ps && p.device == root.device ==> IsAbsolute(p.mountpoint)
    requires r in Representatives(ps) && r.device == root.device
    ensures r.mountpoint == "/"
  {
    OneRepresentativePerDevice(ps);
    RootComesFirst(r.mountpoint);
  }

  // ----- what copies of the root and new subvolume names do to the table -----

  lemma {:induction false} EntriesOfAlike(ps: seq<Partition>, qs: seq<Partition>, opts: string, r: bool, b: bool)
    requires AllAlike(ps, qs)
    ensures Entries(ps, opts, r, b) == Entries(qs, opts, r, b)
  {
    if ps != [] {
      EntriesOfAlike(ps[1..], qs[1..], opts, r, b);
    }
  }

  lemma RepresentativesOfAlike(ps: seq<Partition>, qs: seq<Partition>)
    requires AllAlike(ps, qs)
    ensures AllAlike(Representatives(ps), Representatives(qs))
  {
    SortOfAlike([Mountpoint], ps, qs);
    SortOfAlike([Device], StableSort([Mountpoint], ps), StableSort([Mountpoint], qs));
    UniqueOfAlike(None, StableSort([Device], StableSort([Mountpoint], ps)),
                  StableSort([Device], StableSort([Mountpoint], qs)));
  }

  lemma RepresentativesOfCopied(ps: seq<Partition>, root: Partition, n: Partition)
    requires root in ps && root.device == n.device && StringLe(root.mountpoint, n.mountpoint)
    ensures Representatives(ps + [n]) == Representatives(ps)
  {
    var o := [Device] + [Mountpoint];
    assert o == [Device, Mountpoint];
    var ys := StableSort(o, ps);
    RepresentativesBySingleSort(ps);
    RepresentativesBySingleSort(ps + [n]);
    SortOfAppended(o, ps, n);
    StableSortIsStableSort(o, ps);
    SameClassesSameMembers(o, ps, ys);
    LeByDevice(root, n);
    assert [Device][1..] == [];
    CopyIsNoRepresentative([Device], [Mountpoint], None, ys, root, n);
  }

  lemma {:induction false} RepresentativesOfSorted(ps: seq<Partition>)
    ensures Representatives(StableSort([Device], ps)) == Representatives(ps)
  {
    RepresentativesBySingleSort(ps);
    RepresentativesBySingleSort(StableSort([Device], ps));
    SortForgetsSort(Device, [Device, Mountpoint], ps);
  }

  /** The only entries that depend on boot are those of an encrypted root. */
  lemma {:induction false} BootFlagMatters(ps: seq<Partition>, opts: string, rootEnc: bool)
    ensures var off, on := Entries(ps, opts, rootEnc, false), Entries(ps, opts, rootEnc, true);
            if rootEnc && exists p :: p in ps && p.mountpoint == "/" && Encrypted(p)
            then |off| < |on| else off == on
  {
    if ps != [] {
      BootFlagMatters(ps[1..], opts, rootEnc);
      var p, rest := ps[0], ps[1..];
      assert (exists q :: q in ps && q.mountpoint == "/" && Encrypted(q)) <==>
             (p.mountpoint == "/" && Encrypted(p)) || (exists q :: q in rest && q.mountpoint == "/" && Encrypted(q));
      EntryByBootFlag(p, opts, rootEnc);
    }
  }

  lemma EntryByBootFlag(p: Partition, opts: string, rootEnc: bool)
    ensures var off, on := GenCrypttabEntry(p, opts, rootEnc, false), GenCrypttabEntry(p, opts, rootEnc, true);
            if rootEnc && p.mountpoint == "/" && Encrypted(p)
            then off.Some? && on.Some? && |off.value| < |on.value| else off == on
  {
  }

  // ----- an encrypted boot partition -----

  /** The text with the encrypted boot partition looked up where boot is mounted. */
  function IntendedContent(header: string, ps: seq<Partition>, opts: string): string {
    header + Entries(Representatives(ps), opts, HasMapperAt(ps, "/"), HasMapperAt(ps, "/boot"))
  }

  /** The text is the intended one exactly if "/bool" and "/boot" agree on being encrypted,
      or no encrypted root has an entry. */
  lemma IntendedExactly(header: string, ps: seq<Partition>, opts: string)
    ensures Content(header, ps, opts) == IntendedContent(header, ps, opts) <==>
            || HasMapperAt(ps, "/bool") == HasMapperAt(ps, "/boot")
            || !exists p :: p in Representatives(ps) && p.mountpoint == "/" && Encrypted(p)
  {
    hide Entries, Representatives, HasMapperAt, Encrypted;
    var rs, rootEnc := Representatives(ps), HasMapperAt(ps, "/");
    BootFlagMatters(rs, opts, rootEnc);
    if p :| p in rs && p.mountpoint == "/" && Encrypted(p) {
      EncryptedRootIsMapped(ps, p);
    }
    assert Content(header, ps, opts)[|header|..] == Entries(rs, opts, rootEnc, HasMapperAt(ps, "/bool"));
    assert IntendedContent(header, ps, opts)[|header|..] == Entries(rs, opts, rootEnc, HasMapperAt(ps, "/boot"));
  }

  lemma EncryptedRootIsMapped(ps: seq<Partition>, p: Partition)
    requires p in Representatives(ps) && p.mountpoint == "/" && Encrypted(p)
    ensures HasMapperAt(ps, "/")
  {
    hide Representatives;
    OneRepresentativePerDevice(ps);
    assert Leads(p, ps);
  }

  /** In a plan with absolute mountpoints and no pair of device and mountpoint twice,
      every root has an entry. */
  lemma RootsAreRepresentatives(ps: seq<Partition>)
    requires DistinctKeys([Device, Mountpoint], ps)
    requires forall p :: p in ps ==> IsAbsolute(p.mountpoint)
    ensures forall p: Partition :: p.mountpoint == "/" ==> (p in Representatives(ps) <==> p in ps)
  {
    hide Representatives;
    OneRepresentativePerDevice(ps);
    forall p | p in ps && p.mountpoint == "/"
      ensures p in Representatives(ps)
    {
      var r :| r in Representatives(ps) && r.device == p.device;
      RootRepresentsItsDevice(ps, p, r);
      OneInItsPlace(ps, p, r);
    }
    forall r | r in Representatives(ps)
      ensures r in ps
    {
      assert Leads(r, ps);
    }
  }

  lemma OneInItsPlace(ps: seq<Partition>, p: Partition, q: Partition)
    requires DistinctKeys([Device, Mountpoint], ps) && p in ps && q in ps
    requires p.device == q.device && p.mountpoint == q.mountpoint
    ensures p == q
  {
    SameByColumns([Device, Mountpoint], p, q);
    SameByColumns([Device, Mountpoint], q, p);
    var i, j :| 0 <= i < |ps| && 0 <= j < |ps| && ps[i] == p && ps[j] == q;
  }

  /** In terms of the plan alone. */
  lemma IntendedByPlan(header: string, ps: seq<Partition>, opts: string)
    requires DistinctKeys([Device, Mountpoint], ps)
    requires forall p :: p in ps ==> IsAbsolute(p.mountpoint)
    ensures Content(header, ps, opts) == IntendedContent(header, ps, opts) <==>
            || HasMapperAt(ps, "/bool") == HasMapperAt(ps, "/boot")
            || !exists p :: p in ps && p.mountpoint == "/" && Encrypted(p)
  {
    hide Content, IntendedContent, Representatives, HasMapperAt, Encrypted;
    IntendedExactly(header, ps, opts);
    RootsAreRepresentatives(ps);
  }

  /** For instance: with root and boot encrypted on two devices, the text is not the intended one. */
  lemma EncryptedBootIsMissed(header: string, opts: string)
    ensures var root := Partition("ext4", "/", "", "/dev/sda2", "", "", None, Some("root"), Some("2"), None);
            var boot := Partition("ext4", "/boot", "", "/dev/sda1", "", "", None, Some("boot"), Some("1"), None);
            && Encrypted(root) && Encrypted(boot)
            && Content(header, [boot, root], opts) != IntendedContent(header, [boot, root], opts)
  {
    var root := Partition("ext4", "/", "", "/dev/sda2", "", "", None, Some("root"), Some("2"), None);
    var boot := Partition("ext4", "/boot", "", "/dev/sda1", "", "", None, Some("boot"), Some("1"), None);
    var ps := [boot, root];
    hide Content, IntendedContent;
    assert |"/"| == 1 && |"/bool"| == 5 && "/bool"[4] != "/boot"[4];
    assert boot in ps && root in ps;
    assert HasMapperAt(ps, "/boot") && !HasMapperAt(ps, "/bool");
    SameByColumns([Device, Mountpoint], boot, root);
    assert Key(Mountpoint, boot) != Key(Mountpoint, root) && Mountpoint in [Device, Mountpoint];
    IntendedByPlan(header, ps, opts);
  }
}
