# A verified model of the CachyOS installer's plan and file editors

The installer keeps a plan of partitions and turns it into files: crypttab, fstab, an sfdisk
script, a kernel command line. It also edits files that are already there, mkinitcpio.conf and
pacman.conf, several times in a row and possibly over several runs. This project models that
logic in Dafny, together with the algorithms of the two vendored sources that carry most of the
state: doctest's subcase exploration, wildcard matcher and small string, and the buffer
construction of subprocess.h. `dafny verify dfyconfig.toml` checks all of it.

Code that changes things in place is a class or a method with loops, proved against a
specification function; what the source promises is then proved about that function for all
inputs. Where a promise does not hold for all inputs, the lemma named "...Exactly" gives the
condition under which it does, in both directions.

| file | what it models |
|---|---|
| Subcases.dfy | exploring the tree of subcases of a test case by running it again and again |
| Glob.dfy | the wildcard matcher that backtracks only to the last star |
| SmallString.dfy | the string with an inline buffer |
| Partitions.dfy | the storage plan, stable sorting by columns, one partition for each device |
| Btrfs.dfy | expanding a btrfs root into its subvolumes |
| Crypttab.dfy, Sfdisk.dfy, KernelParams.dfy, Fstab.dfy, Mtab.dfy | what is generated from the plan, and reading a table of mounts |
| SubvolumeLaws.dfy, ScriptLaws.dfy, FstabLaws.dfy | what the expansion does to everything that is generated afterwards |
| Initcpio.dfy, InitcpioLaws.dfy | mkinitcpio.conf, parsed, edited and written back in every call |
| InstallBase.dfy, HookOrder.dfy | the calls that an installation makes, and the order of hooks they leave |
| PacmanConf.dfy, Repos.dfy | inserting repositories into pacman.conf, once and repeatedly |
| ReplaceAll.dfy, Subprocess.dfy, Text.dfy, Multiline.dfy, PartitionRecords.dfy | replacing, quoting, cutting and joining text |

Assumptions. `std::ranges::sort` is modelled as a stable sort, which the comments "sort by
mountpoint & device" and the shuffled test at gucc/tests/unit-crypttab_gen.cpp:107 intend and the
C++ call does not promise. Hashes of subcase paths are taken to be injective. Strings are
sequences of characters, case is folded as in the C locale, and sizes do not wrap around. A file
is a string held in the state.

Where Dafny would add an induction hypothesis of its own, the lemma carries `{:induction false}`:
every proof stands on what it calls.

Where the code differs from its documentation or its apparent intent, the model follows the code:
an encrypted boot partition is looked up at "/bool" (gucc/src/crypttab.cpp:72), so crypttab is the
intended one only under the condition of Crypttab.IntendedExactly;
`make_multiline` for a list of lines is documented to reverse the lines and reverses the
characters (gucc/src/string_utils.cpp:33); the note that the btrfs root need not be looked for
again (gucc/src/btrfs.cpp:139) holds under a condition; `remove_all` can leave occurrences behind;
a partition without a mount point is printed into fstab with a hole that shifts the columns.

## Model

| member | source | states |
|---|---|---|
| Subcases.ContextState.RunTest | subprojects/doctest-2.4.11/doctest/parts/doctest.cpp:3890-3941 | the re-execution loop terminates, and its runs are the root-to-leaf paths of the tree, each once, in depth-first textual order |
| Subcases.ContextState.EnterSubcase | subprojects/doctest-2.4.11/doctest/parts/doctest.cpp:1117-1147 | when a subcase is entered, and what is noted for the next run, on the way down and behind the leaf |
| Subcases.ContextState.LeaveSubcase | subprojects/doctest-2.4.11/doctest/parts/doctest.cpp:1153-1165 | the first exit marks the leaf and every exit without work left marks the path as traversed |
| Subcases.ContextState.ExecuteBody | subprojects/doctest-2.4.11/doctest/parts/doctest.cpp:1117-1165 | one execution reaches the leaf its directive leads to, leaves the directive for the next, and enters nothing behind the leaf |
| Subcases.ContextState.VisitSubcase | subprojects/doctest-2.4.11/doctest/parts/doctest.cpp:1117-1165 | one SUBCASE statement: skipped when another sibling is directed to, run through with its leaf recorded when it is selected, and only noted behind the leaf |
| Subcases.ContextState.RunOnce | subprojects/doctest-2.4.11/doctest/parts/doctest.cpp:3898-3917 | one round of the loop runs one path and records it |
| Subcases.LeavesAreTheLeafPaths | subprojects/doctest-2.4.11/doctest/parts/doctest.cpp:1117-1165 | the enumeration contains a path if and only if the path leads to a leaf of the tree |
| Subcases.LeavesInOrder | subprojects/doctest-2.4.11/doctest/parts/doctest.cpp:1136-1145 | the enumeration follows the textual order of siblings at the place where two paths part |
| Subcases.LeavesAreDistinct | subprojects/doctest-2.4.11/doctest/parts/doctest.cpp:3937-3941 | with distinct siblings no path is enumerated twice |
| Subcases.ExecuteAdvances | subprojects/doctest-2.4.11/doctest/parts/doctest.cpp:1130-1145 | an execution takes the first of the remaining leaves, and the stack it leaves stands for exactly the others |
| Subcases.ExecuteKeepsFresh | subprojects/doctest-2.4.11/doctest/parts/doctest.cpp:1136-1138 | the set of traversed paths never excludes a subcase that has leaves left |
| Subcases.ExploringAdvances | subprojects/doctest-2.4.11/doctest/parts/doctest.cpp:3937-3941 | the invariant of the loop: runs made and runs left are the whole enumeration, and at the end nothing is left |
| Glob.WildCmp | subprojects/doctest-2.4.11/doctest/parts/doctest.cpp:1023-1057 | the greedy matcher terminates and answers yes if and only if the pattern matches by its declarative meaning, in both case modes |
| Glob.PlainMatchesItself | subprojects/doctest-2.4.11/doctest/parts/doctest.cpp:1023-1057 | a pattern without wildcards matches itself and nothing else |
| Glob.CaseIsIgnored | subprojects/doctest-2.4.11/doctest/parts/doctest.cpp:1026-1029 | without case sensitivity name and pattern are compared as if every letter A to Z were replaced by its small one |
| Glob.QuestionMarksCount | subprojects/doctest-2.4.11/doctest/parts/doctest.cpp:1027-1030 | a pattern of question marks matches exactly the strings of its length |
| Glob.StarsSearch | subprojects/doctest-2.4.11/doctest/parts/doctest.cpp:1036-1051 | between two stars a plain text is found anywhere in the string, and nowhere else |
| Glob.SearchAfterStar | subprojects/doctest-2.4.11/doctest/parts/doctest.cpp:1036-1051 | the backtracking loop loses no match although it forgets all stars but the last |
| Glob.PositionsAgree | subprojects/doctest-2.4.11/doctest/parts/doctest.cpp:1023-1026 | walking positions and cutting strings give the same meaning |
| Glob.MatchesAny | subprojects/doctest-2.4.11/doctest/parts/doctest.cpp:1060-1068 | a filter list accepts a name if and only if some filter matches, or it is empty and may |
| SmallString.String.FromBytes | subprojects/doctest-2.4.11/doctest/parts/doctest.cpp:551-553 | a constructed string satisfies the representation invariant and holds the given bytes |
| SmallString.String.constructor | subprojects/doctest-2.4.11/doctest/parts/doctest.cpp:538-541 | the default string is valid, empty and inline |
| SmallString.String.CopyOf | subprojects/doctest-2.4.11/doctest/parts/doctest.cpp:559-559 | a copy has the same value and shares no memory with the original |
| SmallString.String.Allocate | subprojects/doctest-2.4.11/doctest/parts/doctest.cpp:508-520 | room for the size asked for, inline exactly up to 23 bytes, terminated |
| SmallString.String.Copy | subprojects/doctest-2.4.11/doctest/parts/doctest.cpp:530-536 | copying keeps the value for inline and heap strings alike |
| SmallString.String.Size | subprojects/doctest-2.4.11/doctest/parts/doctest.cpp:650-654 | the size decoded from the last byte, or kept in the view, is the length of the value |
| SmallString.String.Bytes | subprojects/doctest-2.4.11/doctest/parts/doctest_fwd.h:638-644 | the bytes are the value followed by a terminator |
| SmallString.String.Assign | subprojects/doctest-2.4.11/doctest/parts/doctest.cpp:561-570 | assignment copies the value, shares no memory, and self-assignment is harmless |
| SmallString.String.Append | subprojects/doctest-2.4.11/doctest/parts/doctest.cpp:572-620 | in all branches the value is the concatenation, the invariant is kept, the other string is untouched, and a string stays inline exactly while it fits |
| SmallString.String.AppendInline | subprojects/doctest-2.4.11/doctest/parts/doctest.cpp:577-581 | appending within the inline buffer, up to the byte that is flag and terminator at once |
| SmallString.String.MoveToHeap | subprojects/doctest-2.4.11/doctest/parts/doctest.cpp:582-594 | the inline bytes survive the move although the new view overwrites them |
| SmallString.String.AppendInBlock | subprojects/doctest-2.4.11/doctest/parts/doctest.cpp:596-599 | appending within the block keeps the block |
| SmallString.String.Grow | subprojects/doctest-2.4.11/doctest/parts/doctest.cpp:600-616 | the new block is at least twice as large and holds the whole value |
| SmallString.String.MoveAssign | subprojects/doctest-2.4.11/doctest/parts/doctest.cpp:628-637 | the value and the block move over, and the source is left as a valid empty string without one |
| SmallString.Concat | subprojects/doctest-2.4.11/doctest/parts/doctest.cpp:703-703 | the sum is a new string in memory of its own with the concatenation, and the operands are unchanged |
| Partitions.StableSortIsStableSort | gucc/src/crypttab.cpp:59-62 | the sort orders by the key and moves nothing past its equals |
| Partitions.StableSortIsUnique | gucc/src/crypttab.cpp:61-62 | being sorted and stable determines the result, so any stable sort gives the same |
| Partitions.SortAfterSort | gucc/src/crypttab.cpp:59-62 | sorting by one key and then stably by another is a single sort with the later key first |
| Partitions.SortIgnoresOrder | gucc/src/crypttab.cpp:59-62 | with distinct keys the sorted list is the same for every permutation |
| Partitions.CopyIsNoRepresentative | gucc/src/crypttab.cpp:64-69 | a copy that sorts behind its original never survives the removal of duplicates |
| Btrfs.StoragePlan.AppendSubvolumes | gucc/src/btrfs.cpp:114-159 | the loop over the vector computes the upsert of all subvolumes, sorted by device, and fails without a root |
| Btrfs.AppendFailsExactly | gucc/src/btrfs.cpp:123-154 | from any plan, the loop reads through the end iterator if and only if some subvolume finds no unclaimed partition of the original plan while no root is left to copy; otherwise each claimed partition takes its subvolume's place and name, the others stay, and for each unmet subvolume, in order, a copy follows with all the data of the partition that was the first root in its round |
| Btrfs.RootIsNeverLost | gucc/src/btrfs.cpp:139-141 | for distinct subvolumes the root is found in every round unless the list moves its own subvolume elsewhere |
| Btrfs.RootIsLostExactly | gucc/src/btrfs.cpp:139-141 | where nothing else is mounted at "/" and listed subvolumes that exist are at their places, the loop reads through the end iterator if and only if the list moves the root, unshielded, away from "/" and later needs a copy of it |
| Btrfs.RootIsLostForInstance | gucc/src/btrfs.cpp:139-141 | a root and two subvolumes for which it happens |
| Btrfs.Expansion | gucc/src/btrfs.cpp:123-154 | every partition stays; every one that is added has no size, the place of a listed subvolume, and file system, uuid, device, mount options and LUKS data of the root; and the plan grows by the number of missing subvolumes |
| Btrfs.EverySubvolumeOnce | gucc/src/btrfs.cpp:123-154 | afterwards every listed subvolume is mounted exactly once, under its own name |
| Btrfs.AppendIsIdempotent | gucc/src/btrfs.cpp:114-159 | a second application changes nothing |
| Crypttab.GenerateCrypttabContent | gucc/src/crypttab.cpp:56-83 | two sorts, unique by device, and a loop over the entries compute the specified text |
| Crypttab.ContentIgnoresOrder | gucc/src/crypttab.cpp:59-80 | with distinct device and mountpoint pairs the text is the same for every order of the plan |
| Crypttab.OneRepresentativePerDevice | gucc/src/crypttab.cpp:64-69 | every device has exactly one entry candidate, the partition with the least mountpoint |
| Crypttab.RootRepresentsItsDevice | gucc/src/crypttab.cpp:59-69 | among absolute mountpoints the root speaks for its device |
| Crypttab.EntryReadsBackExactly | gucc/src/crypttab.cpp:42-53 | by its columns an entry names the mapping, the device and the right key if and only if the names are single words |
| Crypttab.ColumnsOfCrypttab | gucc/src/crypttab.cpp:32-53 | an entry is there exactly for a mapping and a uuid; for any names it says mapping, device, and then the key file with the options, or nothing but "none" where root is not encrypted and for a root whose boot is not |
| Crypttab.EntryIsAligned | gucc/src/crypttab.cpp:51-52 | names that fit their columns stand in columns 0, 22 and 68, to the last character |
| Crypttab.BootFlagMatters | gucc/src/crypttab.cpp:42-53 | telling the generator that boot is encrypted lengthens the text if and only if root is encrypted and has an entry |
| Crypttab.IntendedExactly | gucc/src/crypttab.cpp:56-83 | the text is the one that looks for boot at "/boot" if and only if "/bool" and "/boot" agree on being encrypted or no encrypted root has an entry |
| Crypttab.IntendedByPlan | gucc/src/crypttab.cpp:56-83 | the same in terms of the plan alone, for absolute mountpoints and distinct device and mountpoint pairs |
| Crypttab.EncryptedBootIsMissed | gucc/src/crypttab.cpp:72-72 | a plan with root and boot encrypted on two devices for which the text is not the intended one |
| SubvolumeLaws.CrypttabUnchangedExactly | gucc/src/crypttab.cpp:56-83 | expanding the root leaves the text byte for byte as it was, except if and only if the expansion mounts a copy of an encrypted root at "/bool" and the root has an entry |
| SubvolumeLaws.CrypttabUnchangedByPlan | gucc/src/crypttab.cpp:56-83 | the same in terms of the plan alone, for absolute mountpoints and distinct device and mountpoint pairs |
| SubvolumeLaws.CrypttabChangesForInstance | gucc/src/crypttab.cpp:72-72 | a plan and a subvolume at "/bool" for which the text changes |
| SubvolumeLaws.ScriptUnchanged | gucc/src/partitioning.cpp:47-60 | expanding a root without a size leaves the sfdisk script as it was |
| ScriptLaws.ScriptUnchangedExactly | gucc/src/partitioning.cpp:47-60 | for a root of any size and any plan that the list moves nothing of, the script survives the expansion if and only if nothing is missing, or the first copy follows a partition of its device in size order or stands in for one with an equal line |
| ScriptLaws.OneCopyUnchangedExactly | gucc/src/partitioning.cpp:47-60 | the same for any one partition appended to any plan |
| ScriptLaws.ScriptChangesForInstance | gucc/src/partitioning.cpp:47-60 | a sized root, a smaller partition of another device, and a subvolume for which the script changes |
| FstabLaws.TableGainsSubvolumes | gucc/src/fstab.cpp:96-116 | below any mount point, expanding the root adds to the table its device once for every listed mount point that was free, and nothing else |
| FstabLaws.ReadingGainsSubvolumes | gucc/src/mtab.cpp:40-61 | and whoever reads the printed tables finds exactly that, where the columns are single words and nothing breaks a line |
| SubvolumeLaws.SubvolumeAtRootAddsOneFlag | gucc/src/kernel_params.cpp:62-66 | mounting a subvolume at "/" adds one rootflags word behind "rw" and nothing else |
| Sfdisk.GenSfdiskCommand | gucc/src/partitioning.cpp:40-96 | three sorts, unique by device, and a loop compute the specified script |
| Sfdisk.LineReadsBackExactly | gucc/src/partitioning.cpp:62-93 | cut at commas, a line is the type for the file system, the size exactly of a sized partition and the boot flag exactly of a FAT one, if and only if the size contains no comma |
| Sfdisk.ScriptReadsBackExactly | gucc/src/partitioning.cpp:40-96 | the first line is the label for EFI or not; the others read back as the columns of the partitions they were written for, in order, if and only if no size contains a comma or a line break |
| Sfdisk.ScriptIgnoresOrder | gucc/src/partitioning.cpp:47-60 | with distinct device and mountpoint pairs the script is the same for every order of the plan |
| Sfdisk.UnsizedComeLast | gucc/src/partitioning.cpp:52-53 | no sized partition comes behind one that takes the remaining space |
| Sfdisk.OneLinePerDeviceExactly | gucc/src/partitioning.cpp:55-60 | every device has a line, and only one if and only if no partition of another device sorts between two of its own |
| Sfdisk.EqualSizesDoNotInterleave | gucc/src/partitioning.cpp:52-60 | that is the case when each device has one size |
| Sfdisk.DefaultSchemaIsScriptedInOrder | gucc/src/partitioning.cpp:130-161 | the default plan, an EFI partition of 2GiB in front of a btrfs root or the root alone, is scripted as it stands, with only the root taking the remaining space |
| Sfdisk.DefaultScript | gucc/src/partitioning.cpp:130-161 | the whole text of the script for the default plan, with and without EFI |
| KernelParams.GetKernelParams | gucc/src/kernel_params.cpp:33-97 | the loop with its optionals and early return refines the declarative reading of the plan |
| KernelParams.Collect | gucc/src/kernel_params.cpp:43-75 | what one partition adds to what was collected, or the early return |
| KernelParams.Assemble | gucc/src/kernel_params.cpp:77-96 | no command line without a root uuid; otherwise root and resume words in this order |
| KernelParams.WordsExactly | gucc/src/kernel_params.cpp:33-97 | a word is on the command line if and only if it was given, or is "rw", or names a root's subvolume or dataset, or opens or names the last mapped root, or names the last root by uuid where none is mapped, or names the last swap of a kind |
| KernelParams.WordsInOrder | gucc/src/kernel_params.cpp:34-88 | the given words come first, then "rw", and what opens a mapped root stands directly before what names it |
| KernelParams.RootIsNamedOnce | gucc/src/kernel_params.cpp:82-86 | one root= word besides the given ones and those of ZFS roots, and one cryptdevice= word exactly if a root is mapped |
| KernelParams.ResumesExactly | gucc/src/kernel_params.cpp:88-94 | a resume= word is there if and only if it was given or names the last swap of its kind |
| KernelParams.SucceedsExactly | gucc/src/kernel_params.cpp:69-80 | a command line is produced if and only if the last root has a uuid and every ZFS root can be named |
| KernelParams.ParamsIgnoreOrder | gucc/src/kernel_params.cpp:43-75 | with one root and at most one swap of each kind the order of the plan does not matter |
| Fstab.GenFstabEntry | gucc/src/fstab.cpp:70-94 | swap gets no entry; any other partition gets the specified comment and row |
| Fstab.GenerateFstabContent | gucc/src/fstab.cpp:96-116 | the loop writes the header and the entries of all partitions but zfs and swap, in order |
| Fstab.RowReadsBack | gucc/src/fstab.cpp:93-93 | despite padding, a row gives device and mount point if and only if both are single words and the device is no comment |
| Fstab.ColumnsOfRow | gucc/src/fstab.cpp:39-93 | all six columns for a btrfs subvolume, btrfs without one, FAT, swap, and any other file system, by mount point and in the name the table knows |
| Fstab.RowIsAligned | gucc/src/fstab.cpp:93-93 | names that fit their columns stand in columns 0, 42, 57, 65 and 76 |
| Fstab.EntryLineByLine | gucc/src/fstab.cpp:93-93 | an entry is the device path as a comment, the row, and an empty line |
| Fstab.LeftOutExactly | gucc/src/fstab.cpp:80-103 | left out are zfs and swap under either of its names, and nothing else |
| Fstab.HeaderLineByLine | gucc/src/fstab.cpp:22-27 | the lines that every table starts with |
| Fstab.EntryReadsBackExactly | gucc/src/mtab.cpp:43-59 | line breaks in any field or not, an entry with a third column on its line gives the partition's device and mount point, at every root, if and only if both are single words on one line, the device starts with no hash sign, and nothing that line breaks elsewhere push onto another line is taken for an entry |
| Fstab.RoundTripExactly | gucc/src/mtab.cpp:40-61 | reading the printed table at every root gives the devices and mount points printed, in order, if and only if that is so for every partition |
| Fstab.TableReadsPartByPart | gucc/src/fstab.cpp:96-116 | whatever the fields contain, the table gives what the entries of its partitions give one by one |
| Fstab.UnmountedIsMisread | gucc/src/fstab.cpp:93-93 | of a partition without a mount point, the file system is read as the mount point |
| Mtab.ParseMtabContent | gucc/src/mtab.cpp:40-61 | the loop returns the entries of all lines, skipping comments, short lines and mount points elsewhere |
| Mtab.ParseConcat | gucc/src/mtab.cpp:43-59 | a table is read line by line: what two texts give together is what each gives |
| Initcpio.Initcpio.ParseFile | gucc/src/initcpio.cpp:68-108 | the three lists are those of the last line with each key, and stay if there is none or the file cannot be read |
| Initcpio.Initcpio.WriteFile | gucc/src/initcpio.cpp:49-66 | the file gets the lists on its key lines, or stays as it is on failure |
| Initcpio.Initcpio.AppendModule | gucc/include/gucc/initcpio.hpp:19-27 | parse, refuse a module that is there, append, write |
| Initcpio.Initcpio.AppendFile | gucc/include/gucc/initcpio.hpp:28-36 | parse, refuse a file that is there, append, write |
| Initcpio.Initcpio.AppendHook | gucc/include/gucc/initcpio.hpp:37-45 | parse, refuse a hook that is there, append, write |
| Initcpio.Initcpio.AppendHooks | gucc/include/gucc/initcpio.hpp:46-57 | parse, append the hooks that are missing, write if there are any |
| Initcpio.Initcpio.InsertHook | gucc/include/gucc/initcpio.hpp:58-67 | parse, refuse a hook that is there, insert before the needle or at the end, write |
| Initcpio.Initcpio.InsertHooks | gucc/include/gucc/initcpio.hpp:68-81 | parse, insert the hooks that are missing before the needle, write if there are any |
| Initcpio.Initcpio.RemoveModule | gucc/include/gucc/initcpio.hpp:83-92 | parse, remove the first occurrence, write, or report that there is none |
| Initcpio.Initcpio.RemoveHook | gucc/include/gucc/initcpio.hpp:93-102 | parse, remove the first occurrence, write, or report that there is none |
| Initcpio.ParseOfRender | gucc/src/initcpio.cpp:80-94 | a written list reads back if and only if no item has a space or a closing bracket and it is not one empty item |
| Initcpio.ParseLineByCase | gucc/src/initcpio.cpp:80-94 | on any line the items are those between the first brackets of each kind, or behind the opening one if the closing one comes first, and none without both |
| InitcpioLaws.RoundTripExactly | gucc/src/initcpio.cpp:49-108 | parsing what was written gives the object's lists if and only if each list that the file has a line for fits on one |
| InitcpioLaws.ThreeLines | gucc/src/initcpio.cpp:16-108 | a file of a MODULES, a FILES and a HOOKS line is read as these lists and written with others |
| InitcpioLaws.WriteKeepsOtherLines | gucc/src/initcpio.cpp:16-43 | writing keeps the number of lines, puts each list on the lines that start with its name, and keeps every other line at its index |
| InitcpioLaws.WriteIsIdempotent | gucc/src/initcpio.cpp:49-66 | writing the same lists again changes nothing |
| InitcpioLaws.OneListChanges | gucc/include/gucc/initcpio.hpp:19-102 | each call changes the list of its name, by appending what is missing, inserting it before the first needle or at the end, or taking out the first occurrence, and leaves the other two lists alone |
| InitcpioLaws.AppliesExactly | gucc/include/gucc/initcpio.hpp:19-102 | a call finds something to do if and only if it changes a list |
| InitcpioLaws.AgreesExactly | gucc/include/gucc/initcpio.hpp:19-102 | after one call object and file agree if and only if the edited lists fit on their lines |
| InitcpioLaws.StrayBlankBreaksAgreement | gucc/src/initcpio.cpp:87-91 | a file with a stray blank in HOOKS for which removing a hook leaves them in disagreement |
| InitcpioLaws.RunsAgree | gucc/include/gucc/initcpio.hpp:19-102 | after any run of calls on a well-formed file, file and object agree and are what the edits alone make of the first reading |
| InitcpioLaws.RunsKeepOtherLines | gucc/src/initcpio.cpp:24-24 | no run changes a line without a key |
| InstallBase.ConfigureInitramfs | src/utils.cpp:706-804 | the conditional calls of the installation, in order, and the final flush |
| InstallBase.ConfigureFilesystem | src/utils.cpp:724-733 | the calls for a btrfs or zfs root |
| InstallBase.ConfigureRaid | src/utils.cpp:753-757 | the calls for RAID |
| InstallBase.ConfigureCrypt | src/utils.cpp:779-790 | the calls for the combinations of LVM and LUKS |
| HookOrder.HooksOfRun | src/utils.cpp:708-790 | from any hooks without duplicates and for every combination of root filesystem, RAID, LVM and LUKS: no duplicates, each hook that was missing directly before its needle and encrypt before lvm2, no fsck on btrfs and zfs, and all other hooks in their order |
| HookOrder.HooksOfFirstRun | src/utils.cpp:708-790 | where nothing that the setup asks for was there, all of it is put in its place |
| HookOrder.PlainInstallation | src/utils.cpp:708-722 | without hooks to begin with, a plain installation leaves exactly the eight base hooks |
| HookOrder.ModulesAndFilesOfRun | src/utils.cpp:724-757 | behind the modules that were there come those of btrfs, raid0 and raid1 that the setup needs and that were missing, behind the files the library that zfs needs, and nothing else |
| HookOrder.SecondRunChangesNothing | src/utils.cpp:708-790 | running the same installation again changes no hook |
| HookOrder.InstallRun | src/utils.cpp:708-804 | the same from file to file: whoever reads the file afterwards finds these hooks, modules and files on every line that is there for them |
| HookOrder.InsertHookExactly | gucc/include/gucc/initcpio.hpp:58-67 | a hook ends up directly before its needle if and only if it was new or stood there already |
| PacmanConf.ConfigFile.PushReposFront | gucc/src/pacmanconf_repo.cpp:14-46 | searching the lines and inserting in place is the specified push |
| PacmanConf.PushedExactly | gucc/src/pacmanconf_repo.cpp:14-39 | something is inserted if and only if there is a repository and the file does not open with its text, in which case the process ends |
| PacmanConf.ReposOfPushed | gucc/src/pacmanconf_repo.cpp:37-39 | whatever the file, a push keeps all repositories; the halves of the line it cuts may appear as well |
| PacmanConf.PushIsPrepend | gucc/src/pacmanconf_repo.cpp:37-39 | the list of repositories becomes new ++ old if and only if no half of the cut line reads as a repository |
| PacmanConf.CutLineForInstance | gucc/src/pacmanconf_repo.cpp:37-39 | a file that is cut uncleanly, and what the push makes of it |
| PacmanConf.AtLineStartIsClean | gucc/src/pacmanconf_repo.cpp:38-39 | that is the case if the first repository's text first occurs at the start of a line |
| PacmanConf.RemovingGivesBack | gucc/src/pacmanconf_repo.cpp:39-39 | what is inserted is the value between two line breaks, and cutting it out gives back the file |
| PacmanConf.RepoListConcat | gucc/src/pacmanconf_repo.cpp:56-64 | the repositories of two texts, one behind the other, are those of each |
| Repos.Installer.AddArchSpecificRepo | gucc/src/repos.cpp:52-97 | the guards by CPU level and first section, the replacement of the file, and the backup of the old one |
| Repos.Installer.InstallCachyosRepos | gucc/src/repos.cpp:119-156 | the order of decisions of a run, and file and backup at its end or where the process ended |
| Repos.ReposOfBlock | gucc/src/repos.cpp:23-50 | the inserted text contains exactly the named sections |
| Repos.AddKeepsRepos | gucc/src/repos.cpp:60-78 | from any file, the old repositories stay together at the end and the added family is there |
| Repos.UnchangedExactly | gucc/src/repos.cpp:119-156 | a run leaves the file alone if and only if nothing is left to do for the machine |
| Repos.HistoryIsIdempotent | gucc/src/repos.cpp:119-156 | after any history of runs, on any machines and from any file, repeating any of them changes nothing |
| Repos.HistoryNeverDuplicates | gucc/src/repos.cpp:119-156 | from an ordinary file in which no repository is there twice and no family without its first section, every history of runs, on any machines, returns, and no repository is ever there twice |
| Repos.BackupIsEarlier | gucc/src/repos.cpp:80-95 | even where the process ends early, the file has kept its repositories, and the backup is the untouched old one or a version that the file extends |
| Repos.FirstRun | gucc/src/repos.cpp:119-156 | on an ordinary file: the family for the CPU, then [cachyos], then what was there |
| Repos.FirstRunByMachine | gucc/src/repos.cpp:119-156 | the same by the facts of the machine and with the names of the sections: Oracle VM, Zen 4 and 5 with and without support for the fourth level, fourth level, third level, neither |
| Repos.BackupOfFirstRun | gucc/src/repos.cpp:80-95 | the copy left by the first run is the file before its last change, or the old copy if nothing changed |
| Repos.BlocksLineByLine | gucc/src/repos.cpp:23-50 | the four inserted texts, each section followed by its mirror list |
| ReplaceAll.Replace | src/utils.hpp:124-132 | the loop with a moving position gives the leftmost non-overlapping replacement of the original text and counts it |
| ReplaceAll.UpToFirst | src/utils.hpp:124-132 | what is in front of the first occurrence stays, the occurrence is exchanged, and the same is done with what is behind it |
| ReplaceAll.RemoveAll | src/utils.hpp:138-140 | the case of an empty replacement |
| ReplaceAll.LengthOfReplaced | src/utils.hpp:124-132 | the length changes by the number of replacements times the difference in length |
| ReplaceAll.ReplacedByItself | src/utils.hpp:124-132 | replacing the needle by itself is the identity |
| ReplaceAll.RemovesAllExactly | src/utils.hpp:134-140 | removal leaves no occurrence in any text if and only if the needle repeats one character |
| Subprocess.CommandLine | src/subprocess.h:605-664 | for any non-empty list every write is in bounds and the buffer is filled exactly, terminator included |
| Subprocess.SizeOfCommand | src/subprocess.h:605-629 | the first pass counts what the second writes if and only if there is an argument |
| Subprocess.MeasureCommand | src/subprocess.h:606-627 | the first pass adds up quotes, blanks and escapes |
| Subprocess.WriteArgument | src/subprocess.h:644-660 | the second pass writes an argument with a backslash before every quote and before a backslash in front of one |
| Subprocess.QuoteIsEscaped | src/subprocess.h:644-660 | an argument without quotes stays as it is; a quote gets a backslash in front, and one more if a backslash stands directly before it |
| Subprocess.CommandIsJoined | src/subprocess.h:638-664 | the command line is the arguments, each escaped and between quotes, with blanks between them |
| Subprocess.CommandIsInjective | src/subprocess.h:638-664 | different lists of arguments give different command lines |
| Subprocess.EnvironmentBlock | src/subprocess.h:477-504 | every write is in bounds and the block is filled exactly, both final terminators included |
| Subprocess.MeasureEnvironment | src/subprocess.h:477-487 | the first pass counts every entry with its terminator, and the two at the end |
| Subprocess.EnvironmentReadsBackExactly | src/subprocess.h:494-504 | every entry is terminated and two terminators follow; the block reads back as the environment if and only if no entry is empty |
| Text.MakeMultiline | gucc/src/string_utils.cpp:5-12 | the non-empty pieces in order, or in reverse order |
| Text.Join | gucc/src/string_utils.cpp:38-47 | a delimiter between any two lines and nowhere else |
| Text.FieldsOfJoined | gucc/include/gucc/string_utils.hpp:44-54 | joined fields read back if and only if none is empty or contains the delimiter |
| Text.SplitOfJoined | gucc/src/initcpio.cpp:87-91 | splitting that keeps empty pieces loses only a list of one empty piece |
| Text.NormalForm | gucc/include/gucc/string_utils.hpp:44-54 | joining what was cut is a normal form |
| Text.FieldsConcat | gucc/include/gucc/string_utils.hpp:44-54 | a delimiter cuts a text into independent halves |
| Multiline.MakeMultiline | gucc/src/string_utils.cpp:23-36 | every line with its delimiter, and backwards, character by character, if reversed |
| Multiline.ReversesLinesExactly | gucc/include/gucc/string_utils.hpp:27-32 | for any delimiter that shares no character with the lines, the documented reversal of lines is what comes out if and only if there are no lines, or all are empty and the delimiter is a palindrome |
| PartitionRecords.RecordReadsBackExactly | src/utils.cpp:1626-1627 | name, mount point, size, file system and type are printed in this order; the record is read back by src/simple_tui.cpp:197-203 if and only if no field is empty or contains a tab; of the tab-free ones exactly those with an empty field make the reader look behind the last |

## Left out

- Command execution, TUI, logging, network access, TOML and JSON parsing, CPU detection: what they return is a parameter where it matters.
- Failures of copying and renaming files around pacman.conf: every file operation there succeeds.
- Subcase filters, exceptions and abort_after in doctest's loop, and siblings with the same signature.
- Btrfs.StoragePlan.AppendSubvolumes: asks that no round needs a root that is not there, since the source then dereferences an end iterator; Btrfs.AppendFailsExactly says when that is so.
- Btrfs.RootIsLostExactly: covers plans in which no other partition is at "/" and none is moved by the list; Btrfs.AppendFailsExactly covers all plans.
- Btrfs.AppendFailsExactly: the subvolumes of the list are distinct in name and in mount point; a list that names one twice finds its own copies again.
- Btrfs.Expansion: needs listed subvolumes that exist already to be at their listed mountpoints, since otherwise partitions are moved.
- KernelParams.GetKernelParams: asks for a LUKS uuid on every mapped root, which the source reads unchecked.
- PacmanConf.ConfigFile.PushReposFront: excludes a file that opens with the text of its first repository, for which the call ends the process; Repos models that as a run that never returns.
- ReplaceAll.Replace: excludes the empty needle, for which the source does not terminate.
- Subprocess.CommandLine: excludes the empty list, for which the terminator is written outside the buffer.
- How Windows takes a command line apart: it does not undo this quoting for trailing or repeated backslashes.
- SmallString.String.Append: excludes appending a string to itself, where the source copies between overlapping memory.
- SmallString: the bytes of the view are not laid out over the inline buffer; writing the view leaves the inline bytes unspecified, up to the flag. Giving back memory, substr, and searching are not modelled.
- Mtab.ParseMtabContent: a line of nothing but spaces contributes nothing; the source reads its missing first field.
- Initcpio.Initcpio.ParseFile: the file is a string held in the object; reading and writing it cannot fail half-way.
- Multiline.ReversesLinesExactly: excludes the empty delimiter and lines that contain characters of the delimiter, which can come out right by chance (Multiline.RightByChanceForInstance).
- Fstab.EntryReadsBackExactly: asks that a third column stands on the line of the first two.
- Fstab.RoundTripExactly: asks that a third column stands on the line of the first two, as it does unless a line break comes before anything printed of file system and options; without it another entry's line break can supply the missing line. Widths of characters wider than one column are not modelled.
- Crypttab: the header of the file is a parameter.
- The order of unmounting, ZFS and LUKS setup, boot loader configuration files and the other generators without state.
