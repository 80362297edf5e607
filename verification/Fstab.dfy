/** Printing the table of filesystems, and reading it back as a table of mounts. */
module Fstab {
  import opened Options
  import opened Text
  import opened Partitions
  import opened Mtab
  import Sfdisk

  // ----- printing -----

  function ConvertedFs(fstype: string): string {
    Sfdisk.ConvertFsname(Lowered(fstype))
  }

  function CheckNumber(mountpoint: string, fstype: string): string {
    if mountpoint == "/" && fstype != "btrfs" then "1"
    else if mountpoint != "swap" && fstype != "btrfs" then "2"
    else "0"
  }

  function MountOptions(p: Partition): string {
    if ConvertedFs(p.fstype) == "btrfs" && p.subvolume.GetOr("") != ""
    then "subvol=" + p.subvolume.GetOr("") + "," + p.mountOpts
    else p.mountOpts
  }

  /** How the table names the device: the opened LUKS device, else the UUID, else the path. */
  function Spec(p: Partition): string {
    if p.luksMapperName.Some? then "/dev/mapper/" + p.luksMapperName.value
    else if p.uuidStr != "" then "UUID=" + p.uuidStr
    else p.device
  }

  /** A row behind its first two columns. */
  function OtherColumns(p: Partition): string {
    var fstype := ConvertedFs(p.fstype);
    Padded(fstype, 7) + " " + (Padded(MountOptions(p), 10) + " " + ("0" + " " + CheckNumber(p.mountpoint, fstype)))
  }

  function Row(p: Partition): string {
    Padded(Spec(p), 41) + " " + (Padded(p.mountpoint, 14) + " " + OtherColumns(p))
  }

  function Entry(p: Partition): string {
    "# " + p.device + "\n" + (Row(p) + "\n" + "\n")
  }

  /** ZFS mounts its own datasets, and swap is left alone. The first test looks at the
      name as it is, the second at the converted one. */
  predicate Written(p: Partition) {
    p.fstype != "zfs" && ConvertedFs(p.fstype) != "swap"
  }

  function Entries(ps: seq<Partition>): string {
    if ps == [] then "" else if Written(ps[0]) then Entry(ps[0]) + Entries(ps[1..]) else Entries(ps[1..])
  }

  const HEADER := "# Static information about the filesystems." + "\n"
                  + ("# See fstab(5) for details." + "\n"
                  + ("" + "\n"
                  + (("# <file system> <dir> <type> " + "<options> <dump> <pass>") + "\n")))

  function Content(ps: seq<Partition>): string {
    HEADER + Entries(ps)
  }

  method GenFstabEntry(p: Partition) returns (entry: Option<string>)
    ensures entry == if ConvertedFs(p.fstype) == "swap" then None else Some(Entry(p))
  {
    hide ConvertedFs, Padded;
    var fstype := ConvertedFs(p.fstype);
    if fstype == "swap" {
      return None;
    }
    var device := p.device;
    if p.luksMapperName.Some? {
      device := "/dev/mapper/" + p.luksMapperName.value;
    } else if p.uuidStr != "" {
      device := "UUID=" + p.uuidStr;
    }
    var row := Padded(device, 41) + " " + (Padded(p.mountpoint, 14) + " " + (Padded(fstype, 7) + " " +
      (Padded(MountOptions(p), 10) + " " + ("0" + " " + CheckNumber(p.mountpoint, fstype)))));
    return Some("# " + p.device + "\n" + (row + "\n" + "\n"));
  }

  lemma {:induction false} EntriesGrow(ps: seq<Partition>, p: Partition)
    ensures Entries(ps + [p]) == if Written(p) then Entries(ps) + Entry(p) else Entries(ps)
  {
    hide Entry, Written;
    if ps == [] {
      assert ps + [p] == [p] && Entries([p][1..]) == "";
    } else {
      assert (ps + [p])[1..] == ps[1..] + [p];
      EntriesGrow(ps[1..], p);
    }
  }

  /** generate_fstab_content. */
  method GenerateFstabContent(partitions: seq<Partition>) returns (content: string)
    ensures content == Content(partitions)
  {
    hide Entry, Entries, ConvertedFs;
    content := HEADER;
    NoEntries();
    assert partitions[..0] == [] && HEADER + "" == HEADER;
    for i := 0 to |partitions|
      invariant content == HEADER + Entries(partitions[..i])
    {
      var p := partitions[i];
      ghost var before := Entries(partitions[..i]);
      EntriesGrow(partitions[..i], p);
      assert partitions[..i + 1] == partitions[..i] + [p];
      if p.fstype == "zfs" {
        continue;
      }
      var entry := GenFstabEntry(p);
      if entry.None? {
        continue;
      }
      content := content + entry.value;
      assert content == HEADER + (before + Entry(p));
    }
    assert partitions[..|partitions|] == partitions;
  }

  lemma NoEntries()
    ensures Entries([]) == ""
  {
  }

  // ----- the fields of a row -----

  lemma FieldsOfRow(p: Partition)
    ensures Fields(Row(p), ' ') ==
            Fields(Spec(p), ' ') + (Fields(p.mountpoint, ' ') + (Fields(ConvertedFs(p.fstype), ' ') +
            (Fields(MountOptions(p), ' ') + ["0", CheckNumber(p.mountpoint, ConvertedFs(p.fstype))])))
  {
    hide Fields, Padded, Spec, MountOptions, ConvertedFs;
    var fstype := ConvertedFs(p.fstype);
    var check := CheckNumber(p.mountpoint, fstype);
    var tail1 := "0" + " " + check;
    var tail2 := Padded(MountOptions(p), 10) + " " + tail1;
    var tail3 := Padded(fstype, 7) + " " + tail2;
    var tail4 := Padded(p.mountpoint, 14) + " " + tail3;
    FieldsOfOne("0", ' ');
    FieldsOfOne(check, ' ');
    FieldsConcat("0", check, ' ');
    FieldsConcat(Padded(MountOptions(p), 10), tail1, ' ');
    FieldsConcat(Padded(fstype, 7), tail2, ' ');
    FieldsConcat(Padded(p.mountpoint, 14), tail3, ' ');
    FieldsConcat(Padded(Spec(p), 41), tail4, ' ');
    FieldsOfPadded(MountOptions(p), 10);
    FieldsOfPadded(fstype, 7);
    FieldsOfPadded(p.mountpoint, 14);
    FieldsOfPadded(Spec(p), 41);
    assert ["0"] + [check] == ["0", check];
  }

  /** What each of the six columns contains, read by words. */
  ghost predicate PrintsAs(p: Partition, fstype: string, options: string, check: string) {
    Fields(Row(p), ' ') ==
    (if p.luksMapperName.Some? then Fields("/dev/mapper/" + p.luksMapperName.value, ' ')
     else if p.uuidStr != "" then Fields("UUID=" + p.uuidStr, ' ')
     else Fields(p.device, ' '))
    + (Fields(p.mountpoint, ' ') + (Fields(fstype, ' ') + (Fields(options, ' ') + ["0", check])))
  }

  /** A mapped device goes by its mapping, any other by its UUID if it has one. A btrfs subvolume
      is named in front of the options, and btrfs is never checked; a root on anything else is
      checked first, whatever is not mounted at "swap" second. FAT and swap get the names that
      the table knows, all other file systems their own in lower case. */
  lemma ColumnsOfRow(p: Partition)
    ensures var fs, sub := Lowered(p.fstype), p.subvolume.GetOr("");
            var check := if p.mountpoint == "/" then "1" else if p.mountpoint == "swap" then "0" else "2";
            && (fs == "btrfs" && sub == "" ==> PrintsAs(p, "btrfs", p.mountOpts, "0"))
            && (fs == "btrfs" && sub != "" ==> PrintsAs(p, "btrfs", "subvol=" + sub + "," + p.mountOpts, "0"))
            && (fs in ["fat16", "fat32", "vfat"] ==> PrintsAs(p, "vfat", p.mountOpts, check))
            && (fs in ["linuxswap", "swap"] ==> PrintsAs(p, "swap", p.mountOpts, check))
            && (fs !in ["btrfs", "fat16", "fat32", "vfat", "linuxswap", "swap"] ==>
                  PrintsAs(p, fs, p.mountOpts, check))
  {
    hide Fields, Row;
    FieldsOfRow(p);
  }

  /** Names that fit their columns stand in columns 0, 42, 57, 65 and 76. */
  lemma RowIsAligned(p: Partition)
    requires |Spec(p)| <= 41 && |p.mountpoint| <= 14 && |ConvertedFs(p.fstype)| <= 7 && |MountOptions(p)| <= 10
    ensures var row, fs, options := Row(p), ConvertedFs(p.fstype), MountOptions(p);
            && |row| == 79 && row[..|Spec(p)|] == Spec(p)
            && row[42..][..|p.mountpoint|] == p.mountpoint
            && row[57..][..|fs|] == fs
            && row[65..][..|options|] == options
            && row[76..] == "0 " + CheckNumber(p.mountpoint, fs)
  {
    hide Spec, MountOptions, ConvertedFs, Padded;
    var row, fs, options := Row(p), ConvertedFs(p.fstype), MountOptions(p);
    var last := "0" + " " + CheckNumber(p.mountpoint, fs);
    var other, third := Padded(options, 10) + " " + last, OtherColumns(p);
    var second := Padded(p.mountpoint, 14) + " " + third;
    PaddedFits(options, 10, last);
    PaddedFits(fs, 7, other);
    PaddedFits(p.mountpoint, 14, third);
    PaddedFits(Spec(p), 41, second);
    assert row[57..] == row[42..][15..] && row[65..] == row[57..][8..] && row[76..] == row[65..][11..];
    assert "0" + " " == "0 ";
  }

  /** An entry is a comment with the device path, the row, and an empty line. */
  lemma EntryLineByLine(p: Partition)
    requires '\n' !in p.device && '\n' !in Row(p)
    ensures Pieces(Entry(p), '\n') == ["# " + p.device, Row(p), "", ""]
  {
    hide Row, Pieces;
    var comment := "# " + p.device;
    assert Entry(p) == comment + "\n" + (Row(p) + "\n" + ("" + "\n" + ""));
    PiecesConcat(comment, Row(p) + "\n" + ("" + "\n" + ""), '\n');
    PiecesConcat(Row(p), "" + "\n" + "", '\n');
    PiecesConcat("", "", '\n');
    PiecesOfOne(comment, '\n');
    PiecesOfOne(Row(p), '\n');
    PiecesOfOne("", '\n');
  }

  /** ZFS and swap under either name are left out. */
  lemma LeftOutExactly(p: Partition)
    ensures !Written(p) <==> p.fstype == "zfs" || Lowered(p.fstype) == "swap" || Lowered(p.fstype) == "linuxswap"
  {
  }

  /** The table can be read back: the device and the mount point are single words. */
  predicate Readable(p: Partition) {
    Word(Spec(p)) && Word(p.mountpoint) && !("#" <= Spec(p))
  }

  lemma RowStart(p: Partition)
    ensures "#" <= Row(p) <==> "#" <= Spec(p)
  {
    hide ConvertedFs, MountOptions, Spec;
    var row, spec := Row(p), Spec(p);
    if spec != "" {
      assert row[0] == spec[0];
    } else {
      assert row[0] == Padded(spec, 41)[0] == ' ';
    }
  }

  /** A row gives the device and the mount point, exactly if both are single words. */
  lemma RowReadsBack(p: Partition)
    ensures LineEntries(Row(p), "") == [MTabEntry(Spec(p), p.mountpoint)] <==> Readable(p)
    ensures forall root :: Readable(p) ==>
              LineEntries(Row(p), root) == if root <= p.mountpoint then [MTabEntry(Spec(p), p.mountpoint)] else []
  {
    hide Fields, Spec, MountOptions, ConvertedFs, Row;
    FieldsOfRow(p);
    RowStart(p);
    FieldsAreWords(Row(p));
    if Readable(p) {
      FieldsOfOne(Spec(p), ' ');
      FieldsOfOne(p.mountpoint, ' ');
      assert Fields(Row(p), ' ')[0] == Spec(p) && Fields(Row(p), ' ')[1] == p.mountpoint;
    }
  }

  // ----- the whole table -----

  lemma FirstHeaderLine()
    ensures OneLine("# Static information about the filesystems.")
  {
  }

  lemma SecondHeaderLine()
    ensures OneLine("# See fstab(5) for details.")
  {
  }

  lemma LastHeaderLine()
    ensures "#" <= ("# <file system> <dir> <type> " + "<options> <dump> <pass>")
    ensures OneLine("# <file system> <dir> <type> " + "<options> <dump> <pass>")
  {
  }

  /** The four lines that every table starts with. */
  lemma HeaderLineByLine()
    ensures Pieces(HEADER, '\n') == ["# Static information about the filesystems.", "# See fstab(5) for details.", "",
                                     "# <file system> <dir> <type> " + "<options> <dump> <pass>", ""]
  {
    hide Pieces, OneLine;
    var a, b := "# Static information about the filesystems.", "# See fstab(5) for details.";
    var c := "# <file system> <dir> <type> " + "<options> <dump> <pass>";
    FirstHeaderLine();
    SecondHeaderLine();
    LastHeaderLine();
    LinesOfFour(a, b, c);
    assert HEADER == a + "\n" + (b + "\n" + ("" + "\n" + (c + "\n" + "")));
  }

  lemma {:induction false} LinesOfFour(a: string, b: string, d: string)
    requires OneLine(a) && OneLine(b) && OneLine(d)
    ensures Pieces(a + "\n" + (b + "\n" + ("" + "\n" + (d + "\n" + ""))), '\n') == [a, b, "", d, ""]
  {
    hide Pieces;
    PiecesConcat(a, b + "\n" + ("" + "\n" + (d + "\n" + "")), '\n');
    PiecesConcat(b, "" + "\n" + (d + "\n" + ""), '\n');
    PiecesConcat("", d + "\n" + "", '\n');
    PiecesConcat(d, "", '\n');
    PiecesOfOne(a, '\n');
    PiecesOfOne(b, '\n');
    PiecesOfOne(d, '\n');
    PiecesOfOne("", '\n');
  }

  lemma HeaderIsIgnored(rest: string, root: string)
    ensures Parse(HEADER + rest, root) == Parse(rest, root)
  {
    hide Parse, OneLine;
    FirstHeaderLine();
    SecondHeaderLine();
    LastHeaderLine();
    HeaderLinesAreIgnored("# Static information about the filesystems.", "# See fstab(5) for details.",
                          "# <file system> <dir> <type> " + "<options> <dump> <pass>", rest, root);
  }

  lemma HeaderLinesAreIgnored(a: string, b: string, c: string, rest: string, root: string)
    requires OneLine(a) && OneLine(b) && OneLine(c) && "#" <= a && "#" <= b && "#" <= c
    ensures Parse(a + "\n" + (b + "\n" + ("" + "\n" + (c + "\n"))) + rest, root) == Parse(rest, root)
  {
    hide Parse;
    assert a + "\n" + (b + "\n" + ("" + "\n" + (c + "\n"))) + rest
        == a + "\n" + (b + "\n" + ("" + "\n" + (c + "\n" + rest)));
    ParseConcat(a, b + "\n" + ("" + "\n" + (c + "\n" + rest)), root);
    ParseConcat(b, "" + "\n" + (c + "\n" + rest), root);
    ParseConcat("", c + "\n" + rest, root);
    ParseConcat(c, rest, root);
    CommentIsIgnored(a, root);
    CommentIsIgnored(b, root);
    CommentIsIgnored("", root);
    CommentIsIgnored(c, root);
  }

  /** The devices and mount points below root that the table should mention, in order. */
  function Expected(ps: seq<Partition>, root: string): seq<MTabEntry> {
    if ps == [] then []
    else if Written(ps[0]) && root <= ps[0].mountpoint
    then [MTabEntry(Spec(ps[0]), ps[0].mountpoint)] + Expected(ps[1..], root)
    else Expected(ps[1..], root)
  }

  /** What the entries of the partitions give, one after the other. */
  function EachRead(ps: seq<Partition>, root: string): seq<MTabEntry> {
    if ps == [] then []
    else if Written(ps[0]) then Parse(Entry(ps[0]), root) + EachRead(ps[1..], root)
    else EachRead(ps[1..], root)
  }

  lemma EntryEndsItsLine(p: Partition, rest: string, root: string)
    ensures Parse(Entry(p) + rest, root) == Parse(Entry(p), root) + Parse(rest, root)
  {
    hide Parse, Row;
    var body := "# " + p.device + "\n" + Row(p) + "\n";
    assert Entry(p) + rest == body + "\n" + rest && Entry(p) == body + "\n" + "";
    ParseConcat(body, rest, root);
    ParseConcat(body, "", root);
    CommentIsIgnored("", root);
  }

  /** Whatever the fields contain, line breaks included, no partition's text runs into
      another's: the table gives what each entry gives by itself. */
  lemma {:induction false} TableReadsPartByPart(ps: seq<Partition>, root: string)
    ensures Parse(Content(ps), root) == EachRead(ps, root)
  {
    hide Parse, Entry, Written;
    HeaderIsIgnored(Entries(ps), root);
    if ps == [] {
      CommentIsIgnored("", root);
    } else {
      TableReadsPartByPart(ps[1..], root);
      HeaderIsIgnored(Entries(ps[1..]), root);
      EntryEndsItsLine(ps[0], Entries(ps[1..]), root);
    }
  }

  // ----- line breaks inside the fields -----

  function OtherLines(s: string): seq<string> {
    Pieces(s, '\n')[1..]
  }

  /** A line that is a comment or too short. */
  predicate Ignored(line: string) {
    var fields := Fields(line, ' ');
    "#" <= line || |fields| < 3 || "#" <= fields[0]
  }

  /** The first two columns are single words on one line, and no comment. */
  predicate Named(p: Partition) {
    Readable(p) && '\n' !in Spec(p) && '\n' !in p.mountpoint
  }

  /** A third column stands on the line of the first two. */
  predicate Typed(p: Partition) {
    Fields(FirstLine(OtherColumns(p)), ' ') != []
  }

  /** What line breaks in the device path, the file system or the options push onto lines
      of its own is ignored. */
  predicate Contained(p: Partition) {
    && (forall line :: line in OtherLines(p.device) ==> Ignored(line))
    && (forall line :: line in OtherLines(OtherColumns(p)) ==> Ignored(line))
  }

  lemma {:induction false} PiecesOfPrefixed(a: string, s: string, d: char)
    requires d !in a
    ensures Pieces(a + s, d) == [a + Pieces(s, d)[0]] + Pieces(s, d)[1..]
  {
    if a == [] {
      var pieces := Pieces(s, d);
      assert a + s == s && a + pieces[0] == pieces[0] && pieces == [pieces[0]] + pieces[1..];
    } else {
      assert (a + s)[1..] == a[1..] + s;
      PiecesOfPrefixed(a[1..], s, d);
      var first := Pieces(s, d)[0];
      assert [a[0]] + (a[1..] + first) == a + first;
    }
  }

  lemma {:induction false} IgnoredExactly(lines: seq<string>)
    ensures LinesEntries(lines, "") == [] <==> forall line :: line in lines ==> Ignored(line)
    ensures (forall line :: line in lines ==> Ignored(line)) ==> forall root :: LinesEntries(lines, root) == []
  {
    if lines != [] {
      hide LineEntries, Ignored;
      IgnoredExactly(lines[1..]);
      LineIgnoredExactly(lines[0]);
      assert lines == [lines[0]] + lines[1..];
    }
  }

  lemma LineIgnoredExactly(line: string)
    ensures LineEntries(line, "") == [] <==> Ignored(line)
    ensures Ignored(line) ==> forall root :: LineEntries(line, root) == []
  {
    hide Fields;
  }

  lemma {:induction false} NonEmptyLines(lines: seq<string>, root: string)
    ensures LinesEntries(NonEmpty(lines), root) == LinesEntries(lines, root)
  {
    if lines != [] {
      hide LineEntries, Fields;
      NonEmptyLines(lines[1..], root);
      if lines[0] == [] {
        NothingOnEmptyLine(root);
        assert lines[0] == "" && [] + NonEmpty(lines[1..]) == NonEmpty(lines[1..]);
      } else {
        assert ([lines[0]] + NonEmpty(lines[1..]))[1..] == NonEmpty(lines[1..]);
      }
    }
  }

  lemma NothingOnEmptyLine(root: string)
    ensures LineEntries("", root) == []
  {
    FieldsOfNothing(' ');
  }

  /** Text that starts with a on one line, and goes on with s. */
  lemma {:induction false} ParsePrefixed(a: string, s: string, root: string)
    requires '\n' !in a
    ensures Parse(a + s, root) == LineEntries(a + FirstLine(s), root) + LinesEntries(OtherLines(s), root)
  {
    hide Fields, LineEntries, Pieces;
    FieldsAreNonEmptyPieces(a + s, '\n');
    NonEmptyLines(Pieces(a + s, '\n'), root);
    PiecesOfPrefixed(a, s, '\n');
    LinesEntriesConcat([a + FirstLine(s)], OtherLines(s), root);
    LinesEntriesGrow([], a + FirstLine(s), root);
    assert [] + [a + FirstLine(s)] == [a + FirstLine(s)];
  }

  lemma {:induction false} EntryInThree(p: Partition, root: string)
    ensures Parse(Entry(p), root) == LinesEntries(OtherLines(p.device), root) + Parse(Row(p), root)
  {
    hide Parse, Row, OtherLines, FirstLine, LineEntries;
    var comment := "# " + p.device;
    assert Entry(p) == comment + "\n" + (Row(p) + "\n" + "\n");
    assert Row(p) + "\n" + "\n" == Row(p) + "\n" + ("" + "\n" + "");
    ParseConcat(comment, Row(p) + "\n" + "\n", root);
    ParseConcat(Row(p), "" + "\n" + "", root);
    ParseConcat("", "", root);
    CommentIsIgnored("", root);
    ParsePrefixed("# ", p.device, root);
    CommentHasNoEntry("# " + FirstLine(p.device), root);
  }

  lemma CommentHasNoEntry(line: string, root: string)
    requires "#" <= line
    ensures LineEntries(line, root) == []
  {
  }

  /** The entry that p should give. */
  function Own(p: Partition, root: string): seq<MTabEntry> {
    if root <= p.mountpoint then [MTabEntry(Spec(p), p.mountpoint)] else []
  }

  lemma {:induction false} NamedRow(p: Partition, root: string)
    requires Named(p) && Typed(p)
    ensures Parse(Row(p), root) == Own(p, root) + LinesEntries(OtherLines(OtherColumns(p)), root)
  {
    hide Parse, Fields, Spec, OtherColumns, FirstLine, OtherLines;
    var a := Padded(Spec(p), 41) + " " + (Padded(p.mountpoint, 14) + " ");
    var line := FirstLine(OtherColumns(p));
    assert Row(p) == a + OtherColumns(p);
    ParsePrefixed(a, OtherColumns(p), root);
    assert a + line == Padded(Spec(p), 41) + " " + (Padded(p.mountpoint, 14) + " " + line);
    FieldsConcat(Padded(Spec(p), 41), Padded(p.mountpoint, 14) + " " + line, ' ');
    FieldsConcat(Padded(p.mountpoint, 14), line, ' ');
    FieldsOfPadded(Spec(p), 41);
    FieldsOfPadded(p.mountpoint, 14);
    FieldsOfOne(Spec(p), ' ');
    FieldsOfOne(p.mountpoint, ' ');
    assert Fields(a + line, ' ') == [Spec(p), p.mountpoint] + Fields(line, ' ');
    assert (a + line)[0] == Spec(p)[0];
  }

  /** No text gives anything but words on one line. */
  lemma EntriesAreWords(content: string, root: string)
    ensures forall e :: e in Parse(content, root) ==> WellNamed(e)
  {
    hide Fields;
    var lines := Fields(content, '\n');
    PiecesAreFree(content, '\n');
    NonEmptyKeeps(Pieces(content, '\n'), '\n');
    FieldsAreNonEmptyPieces(content, '\n');
    LinesGiveWords(lines, root);
  }

  predicate WellNamed(e: MTabEntry) {
    && Word(e.device) && '\n' !in e.device && !("#" <= e.device)
    && Word(e.mountpoint) && '\n' !in e.mountpoint
  }

  lemma {:induction false} LinesGiveWords(lines: seq<string>, root: string)
    requires FreeOf(lines, '\n')
    ensures forall e :: e in LinesEntries(lines, root) ==> WellNamed(e)
  {
    if lines != [] {
      hide Fields;
      LinesGiveWords(lines[1..], root);
      var line := lines[0];
      FieldsAreWords(line);
      PiecesStayFree(line, ' ', '\n');
      NonEmptyKeeps(Pieces(line, ' '), '\n');
      FieldsAreNonEmptyPieces(line, ' ');
      assert LinesEntries(lines, root) == LineEntries(line, root) + LinesEntries(lines[1..], root);
    }
  }

  // ----- when the table reads back -----

  /** Read by itself, the entry of a partition gives its device and mount point, exactly if
      both are single words on one line and nothing that line breaks push onto other lines is
      taken for an entry. */
  lemma EntryReadsBackExactly(p: Partition)
    requires Typed(p)
    ensures (forall root :: Parse(Entry(p), root) == Own(p, root)) <==> Named(p) && Contained(p)
  {
    hide Parse, Entry, Spec, Row, Typed, OtherLines, LinesEntries, Ignored;
    if Named(p) {
      NamedEntryExactly(p);
    } else if forall root :: Parse(Entry(p), root) == Own(p, root) {
      assert Parse(Entry(p), "") == Own(p, "");
      EntriesAreWords(Entry(p), "");
      OwnIsWellNamed(p, Parse(Entry(p), ""));
    }
  }

  lemma OwnIsWellNamed(p: Partition, es: seq<MTabEntry>)
    requires MTabEntry(Spec(p), p.mountpoint) in es && forall e :: e in es ==> WellNamed(e)
    ensures Named(p)
  {
  }

  lemma NamedEntryExactly(p: Partition)
    requires Named(p) && Typed(p)
    ensures (forall root :: Parse(Entry(p), root) == Own(p, root)) <==> Contained(p)
    ensures |Parse(Entry(p), "")| >= 1
    ensures |Parse(Entry(p), "")| == 1 <==> Contained(p)
  {
    hide Parse, Entry, Spec, Row, Typed, Named, Fields, LineEntries, OtherColumns, OtherLines, LinesEntries, Ignored;
    var before, behind := OtherLines(p.device), OtherLines(OtherColumns(p));
    IgnoredExactly(before);
    IgnoredExactly(behind);
    forall root
      ensures Parse(Entry(p), root) ==
              LinesEntries(before, root)
              + (Own(p, root) + LinesEntries(behind, root))
    {
      EntryInThree(p, root);
      NamedRow(p, root);
    }
    assert |Own(p, "")| == 1;
  }

  /** Where nothing else breaks the line, nothing has to be contained. */
  lemma OneLineIsContained(p: Partition)
    requires '\n' !in p.device && '\n' !in ConvertedFs(p.fstype) && '\n' !in MountOptions(p)
    ensures Typed(p) && Contained(p)
  {
    hide Fields, ConvertedFs, MountOptions;
    var columns := OtherColumns(p);
    var check := CheckNumber(p.mountpoint, ConvertedFs(p.fstype));
    var left := Padded(ConvertedFs(p.fstype), 7) + " " + Padded(MountOptions(p), 10);
    PiecesOfOne(p.device, '\n');
    PiecesOfOne(columns, '\n');
    assert columns == left + " " + ("0" + " " + check);
    FieldsConcat(left, "0" + " " + check, ' ');
    FieldsConcat("0", check, ' ');
    FieldsOfOne("0", ' ');
  }

  predicate AllReadBack(ps: seq<Partition>) {
    forall p :: p in ps && Written(p) ==> Named(p) && Contained(p)
  }

  lemma {:induction false} ReadBackInOrder(ps: seq<Partition>, root: string)
    requires forall p :: p in ps && Written(p) ==> Named(p) && Typed(p) && Contained(p)
    ensures EachRead(ps, root) == Expected(ps, root)
  {
    hide Parse, Entry, Spec, Written, Named, Typed, Contained;
    if ps != [] {
      assert ps == [ps[0]] + ps[1..];
      ReadBackInOrder(ps[1..], root);
      if Written(ps[0]) {
        EntryReadsBackExactly(ps[0]);
        assert Parse(Entry(ps[0]), root) == Own(ps[0], root);
      }
    }
  }

  /** No entry gives too little, so one that gives too much spoils the whole list. */
  lemma {:induction false} NoneGivesMore(ps: seq<Partition>)
    requires forall p :: p in ps && Written(p) ==> Named(p) && Typed(p)
    ensures |EachRead(ps, "")| >= |Expected(ps, "")|
    ensures |EachRead(ps, "")| == |Expected(ps, "")| ==> AllReadBack(ps)
  {
    hide Parse, Entry, Spec, Written, Named, Typed, Contained;
    if ps != [] {
      assert ps == [ps[0]] + ps[1..];
      NoneGivesMore(ps[1..]);
      if Written(ps[0]) {
        NamedEntryExactly(ps[0]);
      }
    }
  }

  lemma {:induction false} ExpectedMember(ps: seq<Partition>, p: Partition)
    requires p in ps && Written(p)
    ensures MTabEntry(Spec(p), p.mountpoint) in Expected(ps, "")
  {
    hide Spec, Written;
    if p != ps[0] {
      ExpectedMember(ps[1..], p);
    }
  }

  /** The table read back at any root is the list of devices and mount points that was
      printed, in order, exactly if every printed device and mount point is a single word
      on one line, no device starts with a hash sign, and nothing that line breaks elsewhere
      push onto a line of its own is taken for an entry. */
  lemma {:induction false} RoundTripExactly(ps: seq<Partition>)
    requires forall p :: p in ps && Written(p) ==> Typed(p)
    ensures (forall root :: Parse(Content(ps), root) == Expected(ps, root)) <==> AllReadBack(ps)
  {
    hide Parse, Content, EachRead, Expected, Written, Named, Typed, Contained, Spec;
    forall root
      ensures Parse(Content(ps), root) == EachRead(ps, root)
      ensures AllReadBack(ps) ==> EachRead(ps, root) == Expected(ps, root)
    {
      TableReadsPartByPart(ps, root);
      if AllReadBack(ps) {
        ReadBackInOrder(ps, root);
      }
    }
    if EachRead(ps, "") == Expected(ps, "") {
      EntriesAreWords(Content(ps), "");
      forall p | p in ps && Written(p)
        ensures Named(p)
      {
        ExpectedMember(ps, p);
        OwnIsWellNamed(p, Expected(ps, ""));
      }
      NoneGivesMore(ps);
    }
  }

  /** In particular, of an unmounted partition the file system is read as the mount point. */
  lemma UnmountedIsMisread(p: Partition)
    requires p.mountpoint == "" && Word(Spec(p)) && !("#" <= Spec(p)) && Word(ConvertedFs(p.fstype))
    ensures !Readable(p)
    ensures LineEntries(Row(p), "") == [MTabEntry(Spec(p), ConvertedFs(p.fstype))]
  {
    hide Fields, Spec, MountOptions, ConvertedFs, Row;
    FieldsOfRow(p);
    RowStart(p);
    FieldsOfNothing(' ');
    FieldsOfOne(Spec(p), ' ');
    FieldsOfOne(ConvertedFs(p.fstype), ' ');
    var fields := Fields(Row(p), ' ');
    assert |fields| >= 4 && fields[0] == Spec(p) && fields[1] == ConvertedFs(p.fstype);
  }
}
