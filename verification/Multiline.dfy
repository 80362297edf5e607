/** Putting lines together again, each with a delimiter behind it. */
module Multiline {
  import opened Text

  function Terminated(lines: seq<string>, delim: string): string {
    if lines == [] then "" else lines[0] + delim + Terminated(lines[1..], delim)
  }

  lemma {:induction false} TerminatedGrows(lines: seq<string>, line: string, delim: string)
    ensures Terminated(lines + [line], delim) == Terminated(lines, delim) + line + delim
  {
    if lines == [] {
      assert lines + [line] == [line] && [line][1..] == [];
    } else {
      assert (lines + [line])[1..] == lines[1..] + [line];
      TerminatedGrows(lines[1..], line, delim);
    }
  }

  /** make_multiline, putting lines together. */
  method MakeMultiline(multiline: seq<string>, reverse: bool, delim: string) returns (res: string)
    ensures res == if reverse then Reversed(Terminated(multiline, delim)) else Terminated(multiline, delim)
  {
    res := "";
    for i := 0 to |multiline|
      invariant res == Terminated(multiline[..i], delim)
    {
      TerminatedGrows(multiline[..i], multiline[i], delim);
      assert multiline[..i + 1] == multiline[..i] + [multiline[i]];
      res := res + multiline[i];
      res := res + delim;
    }
    assert multiline[..|multiline|] == multiline;
    if reverse {
      res := Reversed(res);
    }
  }

  lemma {:induction false} PiecesOfTerminated(lines: seq<string>, d: char)
    requires FreeOf(lines, d)
    ensures Pieces(Terminated(lines, [d]), d) == lines + [""]
  {
    if lines != [] {
      PiecesOfTerminated(lines[1..], d);
      PiecesOfOne(lines[0], d);
      PiecesConcat(lines[0], Terminated(lines[1..], [d]), d);
      assert lines == [lines[0]] + lines[1..];
    }
  }

  // ----- reversing is promised for the lines, and done to the characters -----

  predicate AllEmpty(lines: seq<string>) {
    forall i :: 0 <= i < |lines| ==> lines[i] == ""
  }

  /** No line shares a character with the delimiter. */
  predicate Separable(lines: seq<string>, delim: string) {
    delim != "" && forall i, j :: 0 <= i < |lines| && 0 <= j < |lines[i]| ==> lines[i][j] !in delim
  }

  lemma ReversedConcat<T>(xs: seq<T>, ys: seq<T>)
    ensures Reversed(xs + ys) == Reversed(ys) + Reversed(xs)
  {
  }

  lemma EqualInHalves(a: string, b: string, x: string, y: string)
    requires |a| == |b|
    ensures a + x == b + y <==> a == b && x == y
  {
    if a + x == b + y {
      assert a == (a + x)[..|a|] && b == (b + y)[..|a|];
      assert x == (a + x)[|a|..] && y == (b + y)[|a|..];
    }
  }

  lemma StartsDiffer(line: string, delim: string, x: string, y: string)
    requires line != "" && delim != "" && line[0] !in delim
    ensures Reversed(delim) + x != line + y
  {
    assert (Reversed(delim) + x)[0] == delim[|delim| - 1] && (line + y)[0] == line[0];
  }

  /** The documentation promises the lines in reverse order. For a delimiter that shares no
      character with the lines, that is what comes out exactly if there are no lines, or all
      are empty and the delimiter is its own mirror image. */
  lemma {:induction false} ReversesLinesExactly(lines: seq<string>, delim: string)
    requires Separable(lines, delim)
    ensures Reversed(Terminated(lines, delim)) == Terminated(Reversed(lines), delim) <==>
            lines == [] || (AllEmpty(lines) && Reversed(delim) == delim)
    decreases |lines|
  {
    if lines != [] {
      hide Reversed, Terminated;
      var front, last := lines[..|lines| - 1], lines[|lines| - 1];
      assert lines == front + [last];
      ReversesLinesExactly(front, delim);
      LastLineApart(front, last, delim);
      var x, y := Reversed(Terminated(front, delim)), Terminated(Reversed(front), delim);
      if last == "" {
        assert Reversed(last) + x == x && last + (delim + y) == delim + y;
        EqualInHalves(Reversed(delim), delim, x, y);
        assert AllEmpty(lines) <==> AllEmpty(front);
      } else {
        StartsDiffer(last, delim, Reversed(last) + x, delim + y);
      }
    }
  }

  lemma {:induction false} LastLineApart(front: seq<string>, last: string, delim: string)
    ensures Reversed(Terminated(front + [last], delim))
         == Reversed(delim) + (Reversed(last) + Reversed(Terminated(front, delim)))
    ensures Terminated(Reversed(front + [last]), delim) == last + (delim + Terminated(Reversed(front), delim))
  {
    hide Reversed, Terminated;
    var text, rest := Terminated(front, delim), Terminated(Reversed(front), delim);
    TerminatedGrows(front, last, delim);
    assert text + last + delim == text + (last + delim);
    ReversedConcat(text, last + delim);
    ReversedConcat(last, delim);
    var d, l, t := Reversed(delim), Reversed(last), Reversed(text);
    assert d + l + t == d + (l + t);
    ReversedConcat(front, [last]);
    assert Reversed([last]) == [last];
    TerminatedFrom(last, Reversed(front), delim);
    assert last + delim + rest == last + (delim + rest);
  }

  /** Lines that contain the delimiter can come out right by chance. */
  lemma RightByChanceForInstance()
    ensures var lines := ["\na"];
            Reversed(Terminated(lines, "\n")) == Terminated(Reversed(lines), "\n") && !AllEmpty(lines)
  {
    TerminatedFrom("\na", [], "\n");
    assert Reversed(["\na"]) == ["\na"];
    assert Reversed("\na\n") == "\na\n";
  }

  lemma {:induction false} TerminatedFrom(line: string, lines: seq<string>, delim: string)
    ensures Terminated([line] + lines, delim) == line + delim + Terminated(lines, delim)
  {
    assert ([line] + lines)[1..] == lines;
  }
}
