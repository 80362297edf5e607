/** The order of hooks that the install run leaves behind, for every
    combination of root filesystem, RAID, LVM and LUKS. */
module HookOrder {
  import opened Options
  import opened Text
  import opened Initcpio
  import opened InitcpioLaws
  import opened InstallBase

  // ----- the hooks, without modules and files -----

  /** What an edit does to the hooks. */
  function EditHooks(e: Edit, h: seq<string>): seq<string> {
    match e
    case AppendHook(x) => if x in h then h else h + [x]
    case AppendHooks(xs) => h + Without(xs, h)
    case InsertHook(needle, x) => if x in h then h else InsertAt(h, Position(h, needle), [x])
    case InsertHooks(needle, xs) => InsertAt(h, Position(h, needle), Without(xs, h))
    case RemoveHook(x) => if Position(h, x) == |h| then h else EraseAt(h, Position(h, x))
    case _ => h
  }

  function EditAllHooks(es: seq<Edit>, h: seq<string>): seq<string> {
    if es == [] then h else EditAllHooks(es[1..], EditHooks(es[0], h))
  }

  lemma HooksOfApply(e: Edit, l: Lists)
    ensures Edited(e, l).hooks == EditHooks(e, l.hooks)
  {
    hide Without, Position;
    var h := l.hooks;
    match e
    case AppendHooks(xs) => assert h + [] == h;
    case InsertHooks(needle, xs) => assert InsertAt(h, Position(h, needle), []) == h;
    case _ =>
  }

  lemma {:induction false} HooksOfEditAll(es: seq<Edit>, l: Lists)
    ensures EditAll(es, l).hooks == EditAllHooks(es, l.hooks)
  {
    hide Apply, EditHooks;
    if es != [] {
      HooksOfApply(es[0], l);
      HooksOfEditAll(es[1..], Edited(es[0], l));
    }
  }

  lemma {:induction false} EditHooksInTwo(a: seq<Edit>, b: seq<Edit>, h: seq<string>)
    ensures EditAllHooks(a + b, h) == EditAllHooks(b, EditAllHooks(a, h))
  {
    hide EditHooks;
    if a == [] {
      assert a + b == b;
    } else {
      assert (a + b)[1..] == a[1..] + b;
      EditHooksInTwo(a[1..], b, EditHooks(a[0], h));
    }
  }

  // ----- hooks that the run adds on demand -----

  const CONDITIONAL: seq<string> := ["zfs", "mdadm_udev", "consolefont", "keymap", "encrypt", "lvm2"]

  /** The items stand in h directly before the needle. */
  ghost predicate Immediately(h: seq<string>, items: seq<string>, needle: string) {
    exists i :: StandsAt(h, items, needle, i)
  }

  ghost predicate StandsAt(h: seq<string>, items: seq<string>, needle: string, i: int) {
    && 0 <= i && i + |items| < |h| && h[i + |items|] == needle
    && forall k :: 0 <= k < |items| ==> h[i + k] == items[k]
  }

  lemma {:induction false} WithoutConcat(a: seq<string>, b: seq<string>, s: seq<string>)
    ensures Without(a + b, s) == Without(a, s) + Without(b, s)
  {
    if a == [] {
      assert a + b == b;
    } else {
      assert (a + b)[1..] == a[1..] + b;
      WithoutConcat(a[1..], b, s);
    }
  }

  lemma {:induction false} WithoutMember(a: seq<string>, s: seq<string>)
    ensures forall x :: x in Without(a, s) <==> x in a && x !in s
  {
    if a != [] {
      WithoutMember(a[1..], s);
    }
  }

  lemma {:induction false} WithoutAll(a: seq<string>, s: seq<string>)
    ensures (forall x :: x in a ==> x in s) ==> Without(a, s) == []
    ensures Disjoint(a, s) ==> Without(a, s) == a
  {
    if a != [] {
      WithoutAll(a[1..], s);
      assert a == [a[0]] + a[1..];
    }
  }

  lemma {:induction false} WithoutMore(a: seq<string>, s: seq<string>, t: seq<string>)
    requires Disjoint(t, a)
    ensures Without(a, s + t) == Without(a, s)
  {
    if a != [] {
      assert a == [a[0]] + a[1..];
      assert Disjoint(t, a[1..]);
      WithoutMore(a[1..], s, t);
    }
  }

  lemma {:induction false} WithoutSame(a: seq<string>, s: seq<string>, t: seq<string>)
    requires forall x :: x in a ==> (x in s <==> x in t)
    ensures Without(a, s) == Without(a, t)
  {
    if a != [] {
      WithoutSame(a[1..], s, t);
    }
  }

  lemma {:induction false} WithoutKeepsDistinct(a: seq<string>, s: seq<string>)
    requires NoDuplicates(a)
    ensures NoDuplicates(Without(a, s))
  {
    if a != [] {
      WithoutKeepsDistinct(a[1..], s);
      WithoutMember(a[1..], s);
    }
  }

  lemma EraseCons(y: string, h: seq<string>, i: nat)
    requires i < |h|
    ensures EraseAt([y] + h, i + 1) == [y] + EraseAt(h, i)
  {
  }

  lemma {:induction false} PositionCons(y: string, h: seq<string>, x: string)
    ensures Position([y] + h, x) == if y == x then 0 else 1 + Position(h, x)
  {
    assert ([y] + h)[1..] == h;
  }

  lemma {:induction false} EraseIsWithout(h: seq<string>, x: string)
    requires NoDuplicates(h)
    ensures Without(h, [x]) == if x in h then EraseAt(h, Position(h, x)) else h
    ensures x in h <==> Position(h, x) < |h|
  {
    hide EraseAt, Position;
    if h != [] {
      var rest := h[1..];
      assert h == [h[0]] + rest;
      PositionCons(h[0], rest, x);
      EraseIsWithout(rest, x);
      if h[0] == x {
        assert x !in rest;
        EraseHead(h);
      } else if x in rest {
        EraseCons(h[0], rest, Position(rest, x));
      }
    } else {
      PositionInEmpty(x);
    }
  }

  lemma {:induction false} PositionInEmpty(x: string)
    ensures Position([], x) == 0
  {
  }

  lemma EraseHead(h: seq<string>)
    requires h != []
    ensures EraseAt(h, 0) == h[1..]
  {
  }

  /** In a list without duplicates, removing an item is filtering it out. */
  lemma {:induction false} RemoveIsWithout(h: seq<string>, x: string)
    requires NoDuplicates(h)
    ensures EditHooks(RemoveHook(x), h) == Without(h, [x])
  {
    EraseIsWithout(h, x);
  }

  /** Inserting new items before a needle: they stand there, no duplicates arise,
      and no other block of hooks is torn apart. */
  lemma {:induction false} InsertBefore(h: seq<string>, needle: string, items: seq<string>)
    requires NoDuplicates(h) && NoDuplicates(items) && Disjoint(items, h) && needle in h
    ensures var h' := InsertAt(h, Position(h, needle), items);
            NoDuplicates(h') && Immediately(h', items, needle)
  {
    var i := Position(h, needle);
    var h' := InsertAt(h, i, items);
    assert i < |h|;
    DistinctConcat(items, h[i..]);
    assert h' == h[..i] + (items + h[i..]);
    assert Disjoint(h[..i], items + h[i..]) by {
      forall x | x in h[..i] ensures x !in items + h[i..] {
        assert x in h;
      }
    }
    DistinctConcat(h[..i], items + h[i..]);
    assert StandsAt(h', items, needle, i);
  }

  lemma ApartFromBlock(h: seq<string>, block: seq<string>, other: string, i: nat, p: nat)
    requires StandsAt(h, block, other, i)
    ensures p < i || i + |block| < p || h[p] == other || h[p] in block
  {
    if i <= p < i + |block| {
      assert h[i + (p - i)] == block[p - i];
    }
  }

  lemma {:induction false} InsertKeepsBlock(h: seq<string>, needle: string, items: seq<string>, block: seq<string>,
                                            other: string)
    requires Immediately(h, block, other) && other != needle && needle !in block
    ensures Immediately(InsertAt(h, Position(h, needle), items), block, other)
  {
    var i :| StandsAt(h, block, other, i);
    var p, n := Position(h, needle), |items|;
    var h' := InsertAt(h, p, items);
    ApartFromBlock(h, block, other, i, p);
    if p <= i {
      assert forall q :: i <= q < |h| ==> h'[q + n] == h[q];
      assert StandsAt(h', block, other, i + n);
    } else {
      assert forall q :: 0 <= q < p ==> h'[q] == h[q];
      assert StandsAt(h', block, other, i);
    }
  }

  /** Items inserted before a needle go between it and the block before it. */
  lemma {:induction false} InsertExtendsBlock(h: seq<string>, needle: string, items: seq<string>, block: seq<string>)
    requires NoDuplicates(h) && Immediately(h, block, needle)
    ensures Immediately(InsertAt(h, Position(h, needle), items), block + items, needle)
  {
    var i :| StandsAt(h, block, needle, i);
    var p, n := Position(h, needle), |items|;
    assert p == i + |block|;
    var h' := InsertAt(h, p, items);
    assert h'[p + n] == needle;
    forall k | 0 <= k < |block + items| ensures h'[i + k] == (block + items)[k] {
      assert k < |block| ==> h[i + k] == block[k];
    }
    assert StandsAt(h', block + items, needle, i);
  }

  lemma {:induction false} InsertKeepsRest(h: seq<string>, needle: string, items: seq<string>, s: seq<string>)
    requires forall x :: x in items ==> x in s
    ensures Without(InsertAt(h, Position(h, needle), items), s) == Without(h, s)
    ensures forall x :: x in InsertAt(h, Position(h, needle), items) <==> x in h || x in items
  {
    var p := Position(h, needle);
    WithoutConcat(h[..p] + items, h[p..], s);
    WithoutConcat(h[..p], items, s);
    WithoutConcat(h[..p], h[p..], s);
    WithoutAll(items, s);
    assert h == h[..p] + h[p..];
  }

  /** A single insertion leaves a hook directly before its needle exactly if the
      hook was new or stood there already: an existing hook is never moved. */
  lemma InsertHookExactly(h: seq<string>, needle: string, x: string)
    requires NoDuplicates(h) && needle in h
    ensures Immediately(EditHooks(InsertHook(needle, x), h), [x], needle) <==> x !in h || Immediately(h, [x], needle)
  {
    if x !in h {
      InsertBefore(h, needle, [x]);
    }
  }

  // ----- the whole run -----

  predicate LuksUsed(s: Setup) {
    s.luks == 1 && (s.lvm == 0 || s.lvm == 1)
  }

  /** What opens the root filesystem, in the order it has to happen. */
  function BeforeFilesystems(s: Setup): seq<string> {
    ZfsHook(s) + CryptHooks(s)
  }

  function CryptHooks(s: Setup): seq<string> {
    if s.lvm == 1 && s.luks == 0 then ["lvm2"]
    else if s.lvm == 0 && s.luks == 1 then ["encrypt"]
    else if s.lvm == 1 && s.luks == 1 then ["encrypt", "lvm2"]
    else []
  }

  /** The hooks that were there or are always needed, without fsck where the
      filesystem has none. */
  function KeptHooks(h: seq<string>, s: Setup): seq<string> {
    var all := h + Without(BASE_HOOKS, h);
    if HasNoFsck(s) then Without(all, ["fsck"]) else all
  }

  predicate HasNoFsck(s: Setup) {
    s.filesystemType == "btrfs" || s.filesystemType == "zfs"
  }

  /** What is known between the steps of the run on the hooks h0: no duplicates, the kept
      hooks in their order, the needles in place, and which conditional hooks were added. */
  ghost predicate Stage(h: seq<string>, h0: seq<string>, kept: seq<string>, added: seq<string>) {
    && NoDuplicates(h) && Without(h, added) == kept
    && "block" in h && "filesystems" in h && "keyboard" in h
    && (forall x :: x in added ==> x in CONDITIONAL)
    && forall x :: x in CONDITIONAL ==> (x in h <==> x in h0 || x in added)
  }

  /** Length and first letter tell all hook names of the run apart. */
  ghost predicate Looks(name: string, length: nat, first: char) {
    |name| == length && length > 0 && name[0] == first
  }

  lemma BaseNames()
    ensures var b := BASE_HOOKS;
            && Looks(b[0], 4, 'b') && Looks(b[1], 4, 'u') && Looks(b[2], 10, 'a') && Looks(b[3], 7, 'm')
            && Looks(b[4], 5, 'b') && Looks(b[5], 11, 'f') && Looks(b[6], 8, 'k') && Looks(b[7], 4, 'f')
  {
  }

  lemma ConditionalNames()
    ensures var c := CONDITIONAL;
            && Looks(c[0], 3, 'z') && Looks(c[1], 10, 'm') && Looks(c[2], 11, 'c')
            && Looks(c[3], 6, 'k') && Looks(c[4], 7, 'e') && Looks(c[5], 4, 'l')
  {
  }

  lemma BaseIsDistinct(b: seq<string>)
    requires |b| == 8
    requires Looks(b[0], 4, 'b') && Looks(b[1], 4, 'u') && Looks(b[2], 10, 'a') && Looks(b[3], 7, 'm')
    requires Looks(b[4], 5, 'b') && Looks(b[5], 11, 'f') && Looks(b[6], 8, 'k') && Looks(b[7], 4, 'f')
    ensures NoDuplicates(b)
  {
    assert |b[5]| == 11 && |b[6]| == 8;
  }

  lemma BaseIsNotConditional(b: seq<string>, c: seq<string>)
    requires |b| == 8 && |c| == 6
    requires Looks(b[0], 4, 'b') && Looks(b[1], 4, 'u') && Looks(b[2], 10, 'a') && Looks(b[3], 7, 'm')
    requires Looks(b[4], 5, 'b') && Looks(b[5], 11, 'f') && Looks(b[6], 8, 'k') && Looks(b[7], 4, 'f')
    requires Looks(c[0], 3, 'z') && Looks(c[1], 10, 'm') && Looks(c[2], 11, 'c')
    requires Looks(c[3], 6, 'k') && Looks(c[4], 7, 'e') && Looks(c[5], 4, 'l')
    ensures Disjoint(b, c) && NoDuplicates(c)
  {
  }

  lemma Names()
    ensures NoDuplicates(BASE_HOOKS) && NoDuplicates(CONDITIONAL) && Disjoint(BASE_HOOKS, CONDITIONAL)
    ensures "block" in BASE_HOOKS && "filesystems" in BASE_HOOKS && "keyboard" in BASE_HOOKS && "fsck" in BASE_HOOKS
  {
    hide Looks;
    BaseNames();
    ConditionalNames();
    BaseIsDistinct(BASE_HOOKS);
    BaseIsNotConditional(BASE_HOOKS, CONDITIONAL);
    assert BASE_HOOKS[4] == "block" && BASE_HOOKS[5] == "filesystems";
    assert BASE_HOOKS[6] == "keyboard" && BASE_HOOKS[7] == "fsck";
  }

  lemma FsckIsNoNeedle()
    ensures "fsck" != "block" && "fsck" != "filesystems" && "fsck" != "keyboard"
    ensures "block" != "filesystems" && "filesystems" != "keyboard" && "block" != "keyboard"
  {
    assert |"fsck"| == 4 && |"block"| == 5 && |"filesystems"| == 11 && |"keyboard"| == 8;
  }

  lemma {:induction false} StageStart(h: seq<string>, base: seq<string>)
    requires NoDuplicates(h)
    requires NoDuplicates(base) && Disjoint(base, CONDITIONAL)
    requires "block" in base && "filesystems" in base && "keyboard" in base
    ensures Stage(h + Without(base, h), h, h + Without(base, h), [])
  {
    hide Without;
    var all := h + Without(base, h);
    WithoutKeepsDistinct(base, h);
    WithoutMember(base, h);
    DistinctConcat(h, Without(base, h));
    WithoutAll(all, []);
  }

  lemma {:induction false} StageWithoutFsck(h: seq<string>, h0: seq<string>)
    requires Stage(h, h0, h, [])
    ensures var kept := Without(h, ["fsck"]);
            Stage(kept, h0, kept, []) && EditHooks(RemoveHook("fsck"), h) == kept
  {
    hide Without, EditHooks;
    FsckIsNoNeedle();
    FsckIsKept();
    RemoveIsWithout(h, "fsck");
    WithoutKeepsDistinct(h, ["fsck"]);
    WithoutMember(h, ["fsck"]);
    WithoutAll(Without(h, ["fsck"]), []);
  }

  lemma FsckIsKept()
    ensures "fsck" in BASE_HOOKS && "fsck" !in CONDITIONAL
  {
    Names();
  }

  /** Of the items, those that were not there from the start are inserted. */
  lemma {:induction false} StageInsert(h: seq<string>, h0: seq<string>, kept: seq<string>, added: seq<string>,
                    needle: string, items: seq<string>)
    requires Stage(h, h0, kept, added) && needle in h
    requires NoDuplicates(items) && (forall x :: x in items ==> x in CONDITIONAL) && Disjoint(items, added)
    ensures var missing := Without(items, h0);
            var h' := InsertAt(h, Position(h, needle), missing);
            && Stage(h', h0, kept, added + missing) && Immediately(h', missing, needle)
            && EditHooks(InsertHooks(needle, items), h) == h'
            && (|items| == 1 ==> EditHooks(InsertHook(needle, items[0]), h) == h')
  {
    hide Without, Position, Immediately, InsertAt;
    var missing := Without(items, h0);
    WithoutMember(items, h0);
    WithoutSame(items, h, h0);
    WithoutKeepsDistinct(items, h0);
    assert Disjoint(missing, h);
    InsertBefore(h, needle, missing);
    InsertKeepsRest(h, needle, missing, added + missing);
    WithoutMore(h, added, missing);
    if |items| == 1 {
      InsertOne(h, needle, items[0]);
      assert items == [items[0]];
    }
  }

  lemma InsertOne(h: seq<string>, needle: string, x: string)
    ensures EditHooks(InsertHook(needle, x), h) == EditHooks(InsertHooks(needle, [x]), h)
  {
    hide Position;
    assert [x][1..] == [] && [x] + [] == [x];
    assert Without([x], h) == if x in h then [] else [x];
    assert InsertAt(h, Position(h, needle), []) == h;
  }

  lemma NamesInPlay()
    ensures forall x :: x in ["zfs", "mdadm_udev", "consolefont", "keymap", "encrypt", "lvm2"] ==> x in CONDITIONAL
    ensures var c := CONDITIONAL;
            && c[0] == "zfs" && c[1] == "mdadm_udev" && c[2] == "consolefont"
            && c[3] == "keymap" && c[4] == "encrypt" && c[5] == "lvm2"
  {
  }

  lemma {:induction false} EditOne(a: Edit, h: seq<string>)
    ensures EditAllHooks([a], h) == EditHooks(a, h)
  {
    hide EditHooks;
    assert [a][1..] == [];
  }

  lemma {:induction false} EditTwo(a: Edit, b: Edit, h: seq<string>)
    ensures EditAllHooks([a, b], h) == EditHooks(b, EditHooks(a, h))
  {
    hide EditHooks;
    assert [a, b] == [a] + [b];
    EditHooksInTwo([a], [b], h);
    EditOne(a, h);
    EditOne(b, EditHooks(a, h));
  }

  lemma {:induction false} EditThree(a: Edit, b: Edit, c: Edit, h: seq<string>)
    ensures EditAllHooks([a, b, c], h) == EditHooks(c, EditHooks(b, EditHooks(a, h)))
  {
    hide EditHooks;
    assert [a, b, c] == [a, b] + [c];
    EditHooksInTwo([a, b], [c], h);
    EditTwo(a, b, h);
    EditOne(c, EditHooks(b, EditHooks(a, h)));
  }

  lemma OtherListsKeepHooks(m: string, h: seq<string>)
    ensures EditHooks(AppendModule(m), h) == h && EditHooks(AppendFile(m), h) == h
  {
  }

  function ZfsHook(s: Setup): seq<string> {
    if s.filesystemType == "zfs" then ["zfs"] else []
  }

  function RaidHook(s: Setup): seq<string> {
    if s.raidUsed then ["mdadm_udev"] else []
  }

  function KeyboardHooks(s: Setup): seq<string> {
    if LuksUsed(s) then ["consolefont", "keymap"] else []
  }

  /** Everything that the setup asks for besides the base hooks. */
  function Demanded(s: Setup): seq<string> {
    ZfsHook(s) + RaidHook(s) + KeyboardHooks(s) + CryptHooks(s)
  }

  lemma {:induction false} StageHasNothing(h: seq<string>, h0: seq<string>, kept: seq<string>, added: seq<string>,
                                           needle: string)
    requires Stage(h, h0, kept, added) && needle in h
    ensures Immediately(h, Without([], h0), needle) && added + Without([], h0) == added
  {
    var i :| 0 <= i < |h| && h[i] == needle;
    assert StandsAt(h, [], needle, i);
  }

  lemma {:induction false} AfterFilesystem(all: seq<string>, h0: seq<string>, s: Setup)
    requires Stage(all, h0, all, [])
    ensures var h, kept, zfs := EditAllHooks(FilesystemEdits(s.filesystemType), all),
                                (if HasNoFsck(s) then Without(all, ["fsck"]) else all), Without(ZfsHook(s), h0);
            Stage(h, h0, kept, zfs) && Immediately(h, zfs, "filesystems")
  {
    hide EditHooks, Stage, Immediately, Without, InsertAt, Position;
    StageNeedles(all, h0, all, []);
    StageWithoutFsck(all, h0);
    var kept := Without(all, ["fsck"]);
    if s.filesystemType == "btrfs" {
      EditTwo(RemoveHook("fsck"), AppendModule("btrfs"), all);
      OtherListsKeepHooks("btrfs", kept);
      StageNeedles(kept, h0, kept, []);
      StageHasNothing(kept, h0, kept, [], "filesystems");
      assert [] + Without([], h0) == Without([], h0);
    } else if s.filesystemType == "zfs" {
      var lib := "\"/usr/lib/libgcc_s.so.1\"";
      EditThree(RemoveHook("fsck"), InsertHook("filesystems", "zfs"), AppendFile(lib), all);
      NamesInPlay();
      StageNeedles(kept, h0, kept, []);
      StageInsert(kept, h0, kept, [], "filesystems", ["zfs"]);
      var zfs := Without(["zfs"], h0);
      assert [] + zfs == zfs;
      OtherListsKeepHooks(lib, InsertAt(kept, Position(kept, "filesystems"), zfs));
    } else {
      EditNone(all);
      StageHasNothing(all, h0, all, [], "filesystems");
      assert [] + Without([], h0) == Without([], h0);
    }
  }

  lemma {:induction false} EditNone(h: seq<string>)
    ensures EditAllHooks([], h) == h
  {
  }

  lemma StageNeedles(h: seq<string>, h0: seq<string>, kept: seq<string>, added: seq<string>)
    requires Stage(h, h0, kept, added)
    ensures "block" in h && "filesystems" in h && "keyboard" in h
  {
  }

  lemma {:induction false} AfterRaid(h: seq<string>, h0: seq<string>, kept: seq<string>, s: Setup)
    requires Stage(h, h0, kept, Without(ZfsHook(s), h0)) && Immediately(h, Without(ZfsHook(s), h0), "filesystems")
    ensures var h' := EditAllHooks(RaidEdits(s.raidUsed), h);
            var zfs, raid := Without(ZfsHook(s), h0), Without(RaidHook(s), h0);
            && Stage(h', h0, kept, zfs + raid)
            && Immediately(h', zfs, "filesystems")
            && Immediately(h', raid, "block")
  {
    hide EditHooks, Stage, Immediately, Without, InsertAt, Position;
    var zfs := Without(ZfsHook(s), h0);
    StageNeedles(h, h0, kept, zfs);
    if s.raidUsed {
      EditThree(InsertHook("block", "mdadm_udev"), AppendModule("raid0"), AppendModule("raid1"), h);
      NamesInPlay();
      FsckIsNoNeedle();
      ApartFrom();
      WithoutMember(ZfsHook(s), h0);
      StageInsert(h, h0, kept, zfs, "block", ["mdadm_udev"]);
      var raid := Without(["mdadm_udev"], h0);
      var h' := InsertAt(h, Position(h, "block"), raid);
      OtherListsKeepHooks("raid0", h');
      OtherListsKeepHooks("raid1", h');
      InsertKeepsBlock(h, "block", raid, zfs, "filesystems");
    } else {
      EditNone(h);
      StageHasNothing(h, h0, kept, zfs, "block");
    }
  }

  /** The names that matter differ from each other and from the needles. */
  lemma ApartFrom()
    ensures forall x :: x in CONDITIONAL ==> x != "block" && x != "filesystems" && x != "keyboard"
    ensures "zfs" != "mdadm_udev" && "consolefont" != "keymap" && "encrypt" != "lvm2"
    ensures forall x :: x in ["zfs", "mdadm_udev"] ==>
              x != "consolefont" && x != "keymap" && x != "encrypt" && x != "lvm2"
    ensures forall x :: x in ["consolefont", "keymap"] ==> x != "encrypt" && x != "lvm2"
  {
    Names();
    var c := CONDITIONAL;
    NamesInPlay();
    assert forall i, j :: 0 <= i < j < 6 ==> c[i] != c[j];
    assert c[0] != c[1] && c[0] != c[2] && c[0] != c[3] && c[0] != c[4] && c[0] != c[5];
    assert c[1] != c[2] && c[1] != c[3] && c[1] != c[4] && c[1] != c[5];
    assert c[2] != c[3] && c[2] != c[4] && c[2] != c[5] && c[3] != c[4] && c[3] != c[5] && c[4] != c[5];
  }

  lemma {:induction false} AfterCrypt(h: seq<string>, h0: seq<string>, kept: seq<string>, s: Setup)
    requires Stage(h, h0, kept, Without(ZfsHook(s), h0) + Without(RaidHook(s), h0))
    requires Immediately(h, Without(ZfsHook(s), h0), "filesystems") && Immediately(h, Without(RaidHook(s), h0), "block")
    ensures var h' := EditAllHooks(CryptEdits(s.lvm, s.luks), h);
            var zfs, raid := Without(ZfsHook(s), h0), Without(RaidHook(s), h0);
            var keyboard, crypt := Without(KeyboardHooks(s), h0), Without(CryptHooks(s), h0);
            && Stage(h', h0, kept, zfs + raid + keyboard + crypt)
            && Immediately(h', zfs + crypt, "filesystems")
            && Immediately(h', raid, "block")
            && Immediately(h', keyboard, "keyboard")
  {
    hide EditHooks, Stage, Immediately, Without, InsertAt, Position;
    var zfs, raid := Without(ZfsHook(s), h0), Without(RaidHook(s), h0);
    var added := zfs + raid;
    StageNeedles(h, h0, kept, added);
    NamesInPlay();
    FsckIsNoNeedle();
    ApartFrom();
    WithoutMember(ZfsHook(s), h0);
    WithoutMember(RaidHook(s), h0);
    assert Disjoint(["consolefont", "keymap"] + ["encrypt", "lvm2"], added);
    if LuksUsed(s) {
      var group := CryptHooks(s);
      if s.lvm == 0 {
        EditTwo(InsertHooks("keyboard", ["consolefont", "keymap"]), InsertHook("filesystems", "encrypt"), h);
      } else {
        EditTwo(InsertHooks("keyboard", ["consolefont", "keymap"]), InsertHooks("filesystems", ["encrypt", "lvm2"]), h);
      }
      KeyboardThenCrypt(h, h0, kept, added, zfs, raid, group);
    } else if s.lvm == 1 && s.luks == 0 {
      EditOne(InsertHook("filesystems", "lvm2"), h);
      StageHasNothing(h, h0, kept, added, "keyboard");
      WithoutNothing(h0);
      CryptInsert(h, h0, kept, added, zfs, raid, [], ["lvm2"]);
      assert added + [] + Without(["lvm2"], h0) == added + Without(["lvm2"], h0);
    } else {
      EditNone(h);
      StageHasNothing(h, h0, kept, added, "keyboard");
      WithoutNothing(h0);
      assert added + [] + [] == added;
      assert zfs + [] == zfs;
    }
  }

  lemma {:induction false} WithoutNothing(s: seq<string>)
    ensures Without([], s) == []
  {
  }

  /** Inserting before "filesystems" extends the block there and keeps the others. */
  lemma {:induction false} CryptInsert(h: seq<string>, h0: seq<string>, kept: seq<string>, added: seq<string>,
                    zfs: seq<string>, raid: seq<string>, keyboard: seq<string>, group: seq<string>)
    requires Stage(h, h0, kept, added) && (forall x :: x in group ==> x in CONDITIONAL) && NoDuplicates(group)
    requires Disjoint(group, added) && "filesystems" !in raid && "filesystems" !in keyboard
    requires Immediately(h, zfs, "filesystems") && Immediately(h, raid, "block")
    ensures var missing := Without(group, h0);
            var h' := InsertAt(h, Position(h, "filesystems"), missing);
            && Stage(h', h0, kept, added + missing)
            && Immediately(h', zfs + missing, "filesystems") && Immediately(h', raid, "block")
            && (Immediately(h, keyboard, "keyboard") ==> Immediately(h', keyboard, "keyboard"))
            && EditHooks(InsertHooks("filesystems", group), h) == h'
            && (|group| == 1 ==> EditHooks(InsertHook("filesystems", group[0]), h) == h')
  {
    hide EditHooks, Immediately, Without, InsertAt, Position;
    var missing := Without(group, h0);
    FsckIsNoNeedle();
    StageInsert(h, h0, kept, added, "filesystems", group);
    InsertExtendsBlock(h, "filesystems", missing, zfs);
    InsertKeepsBlock(h, "filesystems", missing, raid, "block");
    if Immediately(h, keyboard, "keyboard") {
      InsertKeepsBlock(h, "filesystems", missing, keyboard, "keyboard");
    }
  }

  lemma {:induction false} KeyboardThenCrypt(h: seq<string>, h0: seq<string>, kept: seq<string>, added: seq<string>,
                          zfs: seq<string>, raid: seq<string>, group: seq<string>)
    requires Stage(h, h0, kept, added) && (group == ["encrypt"] || group == ["encrypt", "lvm2"])
    requires Disjoint(["consolefont", "keymap"] + ["encrypt", "lvm2"], added)
    requires forall x :: x in zfs || x in raid ==> x in CONDITIONAL
    requires Immediately(h, zfs, "filesystems") && Immediately(h, raid, "block")
    ensures var items := Without(["consolefont", "keymap"], h0);
            var missing := Without(group, h0);
            var h1 := EditHooks(InsertHooks("keyboard", ["consolefont", "keymap"]), h);
            var h' := InsertAt(h1, Position(h1, "filesystems"), missing);
            && Stage(h', h0, kept, added + items + missing)
            && Immediately(h', zfs + missing, "filesystems") && Immediately(h', raid, "block")
            && Immediately(h', items, "keyboard")
            && EditHooks(InsertHooks("filesystems", group), h1) == h'
            && (|group| == 1 ==> EditHooks(InsertHook("filesystems", group[0]), h1) == h')
  {
    hide EditHooks, Stage, Immediately, Without, InsertAt, Position;
    var names := ["consolefont", "keymap"];
    var items := Without(names, h0);
    StageNeedles(h, h0, kept, added);
    NamesInPlay();
    FsckIsNoNeedle();
    ApartFrom();
    WithoutMember(names, h0);
    StageInsert(h, h0, kept, added, "keyboard", names);
    var h1 := InsertAt(h, Position(h, "keyboard"), items);
    InsertKeepsBlock(h, "keyboard", items, zfs, "filesystems");
    InsertKeepsBlock(h, "keyboard", items, raid, "block");
    assert Disjoint(group, added + items);
    CryptInsert(h1, h0, kept, added + items, zfs, raid, items, group);
  }

  /** From any hooks without duplicates, every combination ends without duplicates, keeps
      the hooks that were there in their order (with the base hooks completed, and without
      fsck on btrfs and zfs), and puts each hook that the setup asks for and that was
      missing where it has to run. A hook that was there already is not moved. */
  lemma {:induction false} HooksOfRun(h: seq<string>, s: Setup)
    requires NoDuplicates(h)
    ensures var end := EditAllHooks(Plan(s), h);
            && NoDuplicates(end)
            && Without(end, Without(Demanded(s), h)) == KeptHooks(h, s)
            && Immediately(end, Without(BeforeFilesystems(s), h), "filesystems")
            && Immediately(end, Without(RaidHook(s), h), "block")
            && Immediately(end, Without(KeyboardHooks(s), h), "keyboard")
            && forall x :: x in CONDITIONAL ==> (x in end <==> x in h || x in Demanded(s))
  {
    hide EditHooks, Immediately, Without, CryptEdits, RaidEdits, FilesystemEdits;
    hide ZfsHook, RaidHook, KeyboardHooks, CryptHooks;
    var first := [AppendHooks(BASE_HOOKS)];
    var all := h + Without(BASE_HOOKS, h);
    Names();
    StageStart(h, BASE_HOOKS);
    EditOne(first[0], h);
    BaseAppended(h);
    EditHooksInTwo(first + FilesystemEdits(s.filesystemType) + RaidEdits(s.raidUsed), CryptEdits(s.lvm, s.luks), h);
    EditHooksInTwo(first + FilesystemEdits(s.filesystemType), RaidEdits(s.raidUsed), h);
    EditHooksInTwo(first, FilesystemEdits(s.filesystemType), h);
    var h1 := EditAllHooks(FilesystemEdits(s.filesystemType), all);
    AfterFilesystem(all, h, s);
    AfterRaid(h1, h, KeptHooks(h, s), s);
    AfterCrypt(EditAllHooks(RaidEdits(s.raidUsed), h1), h, KeptHooks(h, s), s);
    WithoutConcat(ZfsHook(s) + RaidHook(s) + KeyboardHooks(s), CryptHooks(s), h);
    WithoutConcat(ZfsHook(s) + RaidHook(s), KeyboardHooks(s), h);
    WithoutConcat(ZfsHook(s), RaidHook(s), h);
    WithoutConcat(ZfsHook(s), CryptHooks(s), h);
    WithoutMember(Demanded(s), h);
  }

  /** Where nothing of what the setup asks for was there, all of it is put in its place. */
  lemma {:induction false} HooksOfFirstRun(h: seq<string>, s: Setup)
    requires NoDuplicates(h) && Disjoint(Demanded(s), h)
    ensures var end := EditAllHooks(Plan(s), h);
            && NoDuplicates(end)
            && Without(end, Demanded(s)) == KeptHooks(h, s)
            && Immediately(end, BeforeFilesystems(s), "filesystems")
            && Immediately(end, RaidHook(s), "block")
            && Immediately(end, KeyboardHooks(s), "keyboard")
  {
    hide EditAllHooks, Immediately, Without, Plan, ZfsHook, RaidHook, KeyboardHooks, CryptHooks, KeptHooks;
    HooksOfRun(h, s);
    WithoutAll(Demanded(s), h);
    WithoutAll(BeforeFilesystems(s), h);
    WithoutAll(RaidHook(s), h);
    WithoutAll(KeyboardHooks(s), h);
  }

  /** A plain installation on an empty list of hooks leaves the base hooks. */
  lemma PlainInstallation(s: Setup)
    requires s.filesystemType != "btrfs" && s.filesystemType != "zfs" && !s.raidUsed && s.lvm == 0 && s.luks == 0
    ensures EditAllHooks(Plan(s), []) ==
            ["base", "udev", "autodetect", "modconf", "block", "filesystems", "keyboard", "fsck"]
  {
    hide Without;
    WithoutAll(BASE_HOOKS, []);
    assert Plan(s) == [AppendHooks(BASE_HOOKS)];
    EditOne(AppendHooks(BASE_HOOKS), []);
  }

  lemma DemandedIsConditional(s: Setup)
    ensures forall x :: x in Demanded(s) ==> x in CONDITIONAL
  {
    NamesInPlay();
  }

  /** Running the installation again changes nothing. */
  lemma {:induction false} SecondRunChangesNothing(h: seq<string>, s: Setup)
    requires NoDuplicates(h)
    ensures var end := EditAllHooks(Plan(s), h);
            EditAllHooks(Plan(s), end) == end
  {
    hide EditAllHooks, Immediately, Without, Plan, Demanded;
    var end := EditAllHooks(Plan(s), h);
    var missing := Without(Demanded(s), h);
    HooksOfRun(h, s);
    HooksOfRun(end, s);
    DemandedIsConditional(s);
    WithoutMember(Demanded(s), h);
    WithoutAll(Demanded(s), end);
    WithoutMember(end, missing);
    WithoutAll(EditAllHooks(Plan(s), end), []);
    KeptOfEnd(h, end, missing, s);
  }

  lemma KeptOfEnd(h: seq<string>, end: seq<string>, missing: seq<string>, s: Setup)
    requires forall x :: x in KeptHooks(h, s) <==> x in end && x !in missing
    requires forall x :: x in missing ==> x in CONDITIONAL
    ensures KeptHooks(end, s) == end
  {
    hide Without;
    FsckIsKept();
    var all := h + Without(BASE_HOOKS, h);
    WithoutMember(BASE_HOOKS, h);
    if HasNoFsck(s) {
      WithoutMember(all, ["fsck"]);
      OnlyFsckMissing(end);
    } else {
      WithoutAll(BASE_HOOKS, end);
      assert end + [] == end;
    }
  }

  lemma {:induction false} OnlyFsckMissing(end: seq<string>)
    requires "fsck" !in end && forall x :: x in BASE_HOOKS && x != "fsck" ==> x in end
    ensures Without(end + Without(BASE_HOOKS, end), ["fsck"]) == end
  {
    hide Without;
    WithoutMember(BASE_HOOKS, end);
    WithoutConcat(end, Without(BASE_HOOKS, end), ["fsck"]);
    WithoutAll(end, ["fsck"]);
    WithoutAll(Without(BASE_HOOKS, end), ["fsck"]);
    assert end + [] == end;
  }

  lemma {:induction false} BaseAppended(h: seq<string>)
    ensures EditHooks(AppendHooks(BASE_HOOKS), h) == h + Without(BASE_HOOKS, h)
  {
    hide Without;
  }

  // ----- the modules and files of the run -----

  /** What the setup needs as modules: its filesystem, then the RAID levels. */
  function NeededModules(s: Setup): seq<string> {
    if s.filesystemType == "btrfs" then (if s.raidUsed then ["btrfs", "raid0", "raid1"] else ["btrfs"])
    else if s.raidUsed then ["raid0", "raid1"]
    else []
  }

  function NeededFiles(s: Setup): seq<string> {
    if s.filesystemType == "zfs" then ["\"/usr/lib/libgcc_s.so.1\""] else []
  }

  lemma {:induction false} EditAllInTwo(a: seq<Edit>, b: seq<Edit>, l: Lists)
    ensures EditAll(a + b, l) == EditAll(b, EditAll(a, l))
  {
    hide Apply;
    if a == [] {
      assert a + b == b;
    } else {
      assert (a + b)[1..] == a[1..] + b;
      EditAllInTwo(a[1..], b, Edited(a[0], l));
    }
  }

  predicate OnlyHooks(e: Edit) {
    e.AppendHook? || e.AppendHooks? || e.InsertHook? || e.InsertHooks? || e.RemoveHook?
  }

  lemma {:induction false} HookEditsKeepTheRest(es: seq<Edit>, l: Lists)
    requires forall e :: e in es ==> OnlyHooks(e)
    ensures EditAll(es, l).modules == l.modules && EditAll(es, l).files == l.files
  {
    if es != [] {
      assert OnlyHooks(es[0]);
      HookEditsKeepTheRest(es[1..], Edited(es[0], l));
    }
  }

  lemma {:induction false} EditAllFrom(e: Edit, es: seq<Edit>, l: Lists)
    ensures EditAll([e] + es, l) == EditAll(es, Edited(e, l))
  {
    assert ([e] + es)[1..] == es;
  }

  lemma {:induction false} EditAllThree(a: Edit, b: Edit, c: Edit, l: Lists)
    ensures EditAll([a, b], l) == Edited(b, Edited(a, l))
    ensures EditAll([a, b, c], l) == Edited(c, Edited(b, Edited(a, l)))
  {
    hide EditAll, Edited;
    assert [a] + [b, c] == [a, b, c] && [a] + [b] == [a, b] && [b] + [c] == [b, c];
    assert [b] + [] == [b] && [c] + [] == [c];
    EditAllFrom(a, [b, c], l);
    EditAllFrom(a, [b], l);
    EditAllFrom(b, [c], Edited(a, l));
    EditAllFrom(b, [], Edited(a, l));
    EditAllFrom(c, [], Edited(b, Edited(a, l)));
    EditAllNone(Edited(b, Edited(a, l)));
    EditAllNone(Edited(c, Edited(b, Edited(a, l))));
  }

  lemma {:induction false} FilesystemModules(fs: string, l: Lists)
    ensures var l' := EditAll(FilesystemEdits(fs), l);
            && l'.modules == (if fs == "btrfs" then l.modules + Without(["btrfs"], l.modules) else l.modules)
            && l'.files == if fs == "zfs" then l.files + Without(["\"/usr/lib/libgcc_s.so.1\""], l.files) else l.files
  {
    hide EditAll, InsertAt, EraseAt, Position;
    if fs == "btrfs" {
      EditAllThree(RemoveHook("fsck"), AppendModule("btrfs"), AppendModule("btrfs"), l);
      WithoutOne("btrfs", l.modules);
    } else if fs == "zfs" {
      var lib := "\"/usr/lib/libgcc_s.so.1\"";
      EditAllThree(RemoveHook("fsck"), InsertHook("filesystems", "zfs"), AppendFile(lib), l);
      WithoutOne(lib, l.files);
    } else {
      EditAllNone(l);
    }
  }

  lemma {:induction false} EditAllNone(l: Lists)
    ensures EditAll([], l) == l
  {
  }

  lemma {:induction false} WithoutOne(x: string, present: seq<string>)
    ensures present + Without([x], present) == if x in present then present else present + [x]
  {
    assert [x][1..] == [] && Without([], present) == [];
  }

  lemma {:induction false} RaidModules(l: Lists)
    ensures var l' := EditAll(RaidEdits(true), l);
            l'.modules == l.modules + Without(["raid0", "raid1"], l.modules) && l'.files == l.files
  {
    hide EditAll, InsertAt, Position, Without;
    EditAllThree(InsertHook("block", "mdadm_udev"), AppendModule("raid0"), AppendModule("raid1"), l);
    WithoutOne("raid0", l.modules);
    var m := l.modules + Without(["raid0"], l.modules);
    WithoutOne("raid1", m);
    WithoutConcat(["raid0"], ["raid1"], l.modules);
    assert ["raid0"] + ["raid1"] == ["raid0", "raid1"] && "raid0"[4] != "raid1"[4];
    WithoutMember(["raid0"], l.modules);
    WithoutMore(["raid1"], l.modules, Without(["raid0"], l.modules));
    var missing := Without(["raid0"], l.modules);
    assert m + Without(["raid1"], l.modules) == l.modules + (missing + Without(["raid1"], l.modules));
  }

  /** Behind the modules and files that were there come those that the setup needs and
      that were missing, and nothing else. */
  lemma {:induction false} ModulesAndFilesOfRun(l: Lists, s: Setup)
    ensures EditAll(Plan(s), l).modules == l.modules + Without(NeededModules(s), l.modules)
    ensures EditAll(Plan(s), l).files == l.files + Without(NeededFiles(s), l.files)
  {
    hide EditAll, Without, Apply;
    var base, fs, raid := [AppendHooks(BASE_HOOKS)], FilesystemEdits(s.filesystemType), RaidEdits(s.raidUsed);
    EditAllInTwo(base + fs + raid, CryptEdits(s.lvm, s.luks), l);
    EditAllInTwo(base + fs, raid, l);
    EditAllInTwo(base, fs, l);
    var l1 := EditAll(base, l);
    var l2 := EditAll(fs, l1);
    var l3 := EditAll(raid, l2);
    HookEditsKeepTheRest(base, l);
    FilesystemModules(s.filesystemType, l1);
    HookEditsKeepTheRest(CryptEdits(s.lvm, s.luks), l3);
    WithoutNothing(l.modules);
    WithoutNothing(l.files);
    assert l.modules + [] == l.modules && l.files + [] == l.files;
    if s.raidUsed {
      RaidModules(l2);
      if s.filesystemType == "btrfs" {
        BtrfsThenRaid(l.modules);
      }
    } else {
      EditAllNone(l2);
    }
  }

  lemma {:induction false} BtrfsThenRaid(modules: seq<string>)
    ensures var m := modules + Without(["btrfs"], modules);
            m + Without(["raid0", "raid1"], m) == modules + Without(["btrfs", "raid0", "raid1"], modules)
  {
    hide Without;
    var raid := ["raid0", "raid1"];
    assert ["btrfs"] + raid == ["btrfs", "raid0", "raid1"];
    assert "btrfs"[0] == 'b' && "raid0"[0] == 'r' && "raid1"[0] == 'r';
    WithoutConcat(["btrfs"], raid, modules);
    WithoutMember(["btrfs"], modules);
    WithoutMore(raid, modules, Without(["btrfs"], modules));
  }

  // ----- from the file that is there to the file that is left -----

  lemma PlanIsClean(s: Setup)
    ensures forall e :: e in Plan(s) ==> CleanEdit(e)
  {
    hide CleanItem;
    CleanNames();
    CleanLibrary();
  }

  lemma CleanLibrary()
    ensures CleanItem("\"/usr/lib/libgcc_s.so.1\"")
  {
  }

  lemma CleanNames()
    ensures Tidy(BASE_HOOKS) && Tidy(["consolefont", "keymap"]) && Tidy(["encrypt", "lvm2"])
    ensures CleanItem("zfs") && CleanItem("btrfs") && CleanItem("mdadm_udev")
    ensures CleanItem("raid0") && CleanItem("raid1") && CleanItem("lvm2") && CleanItem("encrypt")
  {
    CleanBaseNames();
    CleanKeyboardNames();
  }

  lemma CleanBaseNames()
    ensures Tidy(BASE_HOOKS)
  {
  }

  lemma CleanKeyboardNames()
    ensures Tidy(["consolefont", "keymap"])
  {
  }

  lemma {:induction false} HasKeyAfterRun(es: seq<Edit>, st: State, k: Key)
    requires InOrder(st) && forall e :: e in es ==> CleanEdit(e)
    requires HasKey(LinesOf(st.content.value), k)
    ensures Run(es, st, true).content.Some?
    ensures HasKey(LinesOf(Run(es, st, true).content.value), k)
  {
    hide Run, KeyOf, CleanEdit, Pieces, WellFormed;
    var lines := LinesOf(st.content.value);
    var i :| 0 <= i < |lines| && KeyOf(lines[i]) == Some(k);
    RunsKeepOtherLines(es, st, i);
    assert KeyOf(LinesOf(Run(es, st, true).content.value)[i]) == Some(k);
  }

  /** The install run on a well-formed file: object and file agree in the end, and whoever
      reads the file afterwards, with whatever in mind, finds on each line that the file has
      a key for what the run is meant to produce. */
  lemma {:induction false} InstallRun(st: State, s: Setup, reader: Lists, k: Key)
    requires InOrder(st) && HasKey(LinesOf(st.content.value), k)
    ensures var start := Parse(st.content.value, st.lists);
            var end := Flush(Run(Plan(s), st, true), true);
            && Agrees(end)
            && end.lists.modules == start.modules + Without(NeededModules(s), start.modules)
            && end.lists.files == start.files + Without(NeededFiles(s), start.files)
            && end.lists.hooks == EditAllHooks(Plan(s), start.hooks)
            && Parse(end.content.value, reader).Get(k) == end.lists.Get(k)
  {
    hide Parse, Write, Run, Plan, EditAllHooks, EditAll, CleanEdit, ParseKey, LinesOf, Without;
    PlanIsClean(s);
    PlanIsNotEmpty(s);
    RunsAgree(Plan(s), st);
    HasKeyAfterRun(Plan(s), st, k);
    var mid := Run(Plan(s), st, true);
    AgreesMeaning(mid);
    ParseAgain(mid.content.value, mid.lists);
    WrittenIsInOrder(mid.content.value, mid.lists);
    HooksOfEditAll(Plan(s), Parse(st.content.value, st.lists));
    ModulesAndFilesOfRun(Parse(st.content.value, st.lists), s);
    LinesOfWritten(mid.content.value, mid.lists);
    KeysOfWritten(LinesOf(mid.content.value), mid.lists, k);
    var content := Write(mid.content.value, mid.lists);
    ParseByPieces(content, reader, k);
    ParseByPieces(content, mid.lists, k);
    assert LinesOf(content) == Pieces(content, '\n') by { LinesArePieces(content); }
    ParseKeyIgnoresOld(k, LinesOf(content), reader.Get(k), mid.lists.Get(k));
  }

  lemma {:induction false} LinesArePieces(content: string)
    ensures LinesOf(content) == Pieces(content, '\n')
  {
  }

  lemma PlanIsNotEmpty(s: Setup)
    ensures Plan(s) != []
  {
    hide FilesystemEdits, RaidEdits, CryptEdits;
  }
}
