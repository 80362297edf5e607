/** Reading a table of mounts. */
module Mtab {
  import opened Text

  datatype MTabEntry = MTabEntry(device: string, mountpoint: string)

  /** What one line contributes: at most one entry, and only for a mount point below root.
      A line of nothing but spaces contributes none. */
  function LineEntries(line: string, root: string): (r: seq<MTabEntry>)
    ensures |r| <= 1
  {
    var fields := Fields(line, ' ');
    if "#" <= line || |fields| < 3 || "#" <= fields[0] || !(root <= fields[1]) then []
    else [MTabEntry(fields[0], fields[1])]
  }

  function LinesEntries(lines: seq<string>, root: string): seq<MTabEntry> {
    if lines == [] then [] else LineEntries(lines[0], root) + LinesEntries(lines[1..], root)
  }

  function Parse(content: string, root: string): seq<MTabEntry> {
    LinesEntries(Fields(content, '\n'), root)
  }

  lemma {:induction false} LinesEntriesConcat(a: seq<string>, b: seq<string>, root: string)
    ensures LinesEntries(a + b, root) == LinesEntries(a, root) + LinesEntries(b, root)
  {
    hide LineEntries;
    if a == [] {
      assert a + b == b;
    } else {
      assert (a + b)[1..] == a[1..] + b;
      LinesEntriesConcat(a[1..], b, root);
    }
  }

  lemma {:induction false} LinesEntriesGrow(lines: seq<string>, line: string, root: string)
    ensures LinesEntries(lines + [line], root) == LinesEntries(lines, root) + LineEntries(line, root)
  {
    hide LineEntries;
    LinesEntriesConcat(lines, [line], root);
    assert [line][1..] == [] && LineEntries(line, root) + [] == LineEntries(line, root);
  }

  /** parse_mtab_content. */
  method ParseMtabContent(content: string, root: string) returns (entries: seq<MTabEntry>)
    ensures entries == Parse(content, root)
  {
    hide Fields;
    entries := [];
    var lines := Fields(content, '\n');
    for i := 0 to |lines|
      invariant entries == LinesEntries(lines[..i], root)
    {
      hide LinesEntries;
      var line := lines[i];
      LinesEntriesGrow(lines[..i], line, root);
      assert lines[..i + 1] == lines[..i] + [line];
      if "#" <= line {
        continue;
      }
      var split := Fields(line, ' ');
      if |split| >= 3 && !("#" <= split[0]) {
        if root <= split[1] {
          entries := entries + [MTabEntry(split[0], split[1])];
        }
      }
    }
    assert lines[..|lines|] == lines;
  }

  /** A text that ends a line before the next begins is read in two parts. */
  lemma ParseConcat(a: string, b: string, root: string)
    ensures Parse(a + ['\n'] + b, root) == Parse(a, root) + Parse(b, root)
  {
    FieldsConcat(a, b, '\n');
    LinesEntriesConcat(Fields(a, '\n'), Fields(b, '\n'), root);
  }

  lemma ParseOneLine(line: string, root: string)
    requires '\n' !in line
    ensures Parse(line, root) == LineEntries(line, root)
  {
    hide Fields;
    if line == "" {
      FieldsOfNothing('\n');
      FieldsOfNothing(' ');
    } else {
      FieldsOfOne(line, '\n');
      LinesEntriesGrow([], line, root);
      assert [] + [line] == [line];
    }
  }

  lemma CommentIsIgnored(line: string, root: string)
    requires '\n' !in line && (line == "" || "#" <= line)
    ensures Parse(line, root) == []
  {
    hide Fields;
    ParseOneLine(line, root);
    if line == "" {
      FieldsOfNothing(' ');
    }
  }
}
