/** How the installer configures the initramfs: one run of initcpio calls that
    depends on the root filesystem, RAID, LVM and LUKS. */
module InstallBase {
  import opened Options
  import opened Initcpio
  import opened InitcpioLaws

  const BASE_HOOKS: seq<string> := ["base", "udev", "autodetect", "modconf", "block", "filesystems", "keyboard", "fsck"]

  /** What the installer knows when it configures the initramfs. */
  datatype Setup = Setup(filesystemType: string, raidUsed: bool, lvm: int, luks: int)

  function FilesystemEdits(fs: string): seq<Edit> {
    if fs == "btrfs" then [RemoveHook("fsck"), AppendModule("btrfs")]
    else if fs == "zfs" then
      [RemoveHook("fsck"), InsertHook("filesystems", "zfs"), AppendFile("\"/usr/lib/libgcc_s.so.1\"")]
    else []
  }

  function RaidEdits(raidUsed: bool): seq<Edit> {
    if raidUsed then [InsertHook("block", "mdadm_udev"), AppendModule("raid0"), AppendModule("raid1")] else []
  }

  function CryptEdits(lvm: int, luks: int): seq<Edit> {
    if lvm == 1 && luks == 0 then [InsertHook("filesystems", "lvm2")]
    else if lvm == 0 && luks == 1 then
      [InsertHooks("keyboard", ["consolefont", "keymap"]), InsertHook("filesystems", "encrypt")]
    else if lvm == 1 && luks == 1 then
      [InsertHooks("keyboard", ["consolefont", "keymap"]), InsertHooks("filesystems", ["encrypt", "lvm2"])]
    else []
  }

  /** The calls of the run, in order. */
  function Plan(s: Setup): seq<Edit> {
    [AppendHooks(BASE_HOOKS)] + FilesystemEdits(s.filesystemType) + RaidEdits(s.raidUsed) + CryptEdits(s.lvm, s.luks)
  }

  /** The explicit flush at the end. */
  function Flush(st: State, writable: bool): State {
    if !Readable(st.content) then st
    else
      var l := Parse(st.content.value, st.lists);
      State(if writable then Some(Write(st.content.value, l)) else st.content, l)
  }

  lemma {:induction false} RunInTwo(a: seq<Edit>, b: seq<Edit>, st: State, w: bool)
    ensures Run(a + b, st, w) == Run(b, Run(a, st, w), w)
  {
    hide After;
    if a == [] {
      assert a + b == b;
    } else {
      assert (a + b)[1..] == a[1..] + b;
      RunInTwo(a[1..], b, After(a[0], st, w), w);
    }
  }

  lemma {:induction false} RunGrows(a: seq<Edit>, e: Edit, st: State, w: bool)
    ensures Run(a + [e], st, w) == After(e, Run(a, st, w), w)
  {
    hide After;
    RunInTwo(a, [e], st, w);
    assert [e][1..] == [];
  }

  /** The initcpio part of install_base, after the file name was chosen. */
  method ConfigureInitramfs(initcpio: Initcpio, s: Setup)
    modifies initcpio
    ensures initcpio.Abstract() == Flush(Run(Plan(s), old(initcpio.Abstract()), initcpio.writable), initcpio.writable)
  {
    hide After, Run, Parse, Write;
    ghost var start, w := initcpio.Abstract(), initcpio.writable;
    ghost var done: seq<Edit> := [];
    RunNothing(start, w);
    var _ := initcpio.AppendHooks(BASE_HOOKS);
    RunGrows(done, AppendHooks(BASE_HOOKS), start, w);
    done := done + [AppendHooks(BASE_HOOKS)];
    ConfigureFilesystem(initcpio, s.filesystemType);
    RunInTwo(done, FilesystemEdits(s.filesystemType), start, w);
    done := done + FilesystemEdits(s.filesystemType);
    ConfigureRaid(initcpio, s.raidUsed);
    RunInTwo(done, RaidEdits(s.raidUsed), start, w);
    done := done + RaidEdits(s.raidUsed);
    ConfigureCrypt(initcpio, s.lvm, s.luks);
    RunInTwo(done, CryptEdits(s.lvm, s.luks), start, w);
    done := done + CryptEdits(s.lvm, s.luks);
    assert done == Plan(s);
    var parsed := initcpio.ParseFile();
    if parsed {
      var _ := initcpio.WriteFile();
    }
  }

  lemma {:induction false} RunNothing(st: State, w: bool)
    ensures Run([], st, w) == st
  {
  }

  method ConfigureFilesystem(initcpio: Initcpio, fs: string)
    modifies initcpio
    ensures initcpio.Abstract() == Run(FilesystemEdits(fs), old(initcpio.Abstract()), initcpio.writable)
  {
    hide After, Run;
    ghost var start, w := initcpio.Abstract(), initcpio.writable;
    RunNothing(start, w);
    if fs == "btrfs" {
      var _ := initcpio.RemoveHook("fsck");
      var _ := initcpio.AppendModule("btrfs");
      RunTwo(RemoveHook("fsck"), AppendModule("btrfs"), start, w);
    } else if fs == "zfs" {
      var _ := initcpio.RemoveHook("fsck");
      var _ := initcpio.InsertHook("filesystems", "zfs");
      var _ := initcpio.AppendFile("\"/usr/lib/libgcc_s.so.1\"");
      RunThree(RemoveHook("fsck"), InsertHook("filesystems", "zfs"), AppendFile("\"/usr/lib/libgcc_s.so.1\""),
               start, w);
    }
  }

  method ConfigureRaid(initcpio: Initcpio, raidUsed: bool)
    modifies initcpio
    ensures initcpio.Abstract() == Run(RaidEdits(raidUsed), old(initcpio.Abstract()), initcpio.writable)
  {
    hide After, Run;
    ghost var start, w := initcpio.Abstract(), initcpio.writable;
    RunNothing(start, w);
    if raidUsed {
      var _ := initcpio.InsertHook("block", "mdadm_udev");
      var _ := initcpio.AppendModule("raid0");
      var _ := initcpio.AppendModule("raid1");
      RunThree(InsertHook("block", "mdadm_udev"), AppendModule("raid0"), AppendModule("raid1"), start, w);
    }
  }

  method ConfigureCrypt(initcpio: Initcpio, lvm: int, luks: int)
    modifies initcpio
    ensures initcpio.Abstract() == Run(CryptEdits(lvm, luks), old(initcpio.Abstract()), initcpio.writable)
  {
    hide After, Run;
    ghost var start, w := initcpio.Abstract(), initcpio.writable;
    RunNothing(start, w);
    if lvm == 1 && luks == 0 {
      var _ := initcpio.InsertHook("filesystems", "lvm2");
      RunGrows([], InsertHook("filesystems", "lvm2"), start, w);
      assert [] + [InsertHook("filesystems", "lvm2")] == [InsertHook("filesystems", "lvm2")];
    } else if lvm == 0 && luks == 1 {
      var _ := initcpio.InsertHooks("keyboard", ["consolefont", "keymap"]);
      var _ := initcpio.InsertHook("filesystems", "encrypt");
      RunTwo(InsertHooks("keyboard", ["consolefont", "keymap"]), InsertHook("filesystems", "encrypt"), start, w);
    } else if lvm == 1 && luks == 1 {
      var _ := initcpio.InsertHooks("keyboard", ["consolefont", "keymap"]);
      var _ := initcpio.InsertHooks("filesystems", ["encrypt", "lvm2"]);
      RunTwo(InsertHooks("keyboard", ["consolefont", "keymap"]), InsertHooks("filesystems", ["encrypt", "lvm2"]),
             start, w);
    }
  }

  lemma {:induction false} RunTwo(a: Edit, b: Edit, st: State, w: bool)
    ensures Run([a, b], st, w) == After(b, After(a, st, w), w)
  {
    hide After;
    RunNothing(st, w);
    assert [] + [a] == [a] && [a] + [b] == [a, b];
    RunGrows([], a, st, w);
    RunGrows([a], b, st, w);
  }

  lemma {:induction false} RunThree(a: Edit, b: Edit, c: Edit, st: State, w: bool)
    ensures Run([a, b, c], st, w) == After(c, After(b, After(a, st, w), w), w)
  {
    hide After;
    RunTwo(a, b, st, w);
    RunGrows([a, b], c, st, w);
    assert [a, b] + [c] == [a, b, c];
  }
}
