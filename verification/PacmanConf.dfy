/** Editing the repositories of pacman.conf. */
module PacmanConf {
  import opened Text

  /** A line that opens a repository section. */
  predicate IsRepo(line: string) {
    line != "" && !("#" <= line) && "[" <= line && !("[options]" <= line)
  }

  function ReposIn(lines: seq<string>): (r: seq<string>)
    ensures forall l :: l in r <==> l in lines && IsRepo(l)
  {
    if lines == [] then []
    else if IsRepo(lines[0]) then [lines[0]] + ReposIn(lines[1..])
    else ReposIn(lines[1..])
  }

  /** get_repo_list. */
  function RepoList(content: string): seq<string> {
    ReposIn(Split(content, '\n'))
  }

  datatype PushResult =
    | Pushed(content: string)
    | NothingToEdit   // the file is empty or unreadable
    | NoRepository    // there is no section to insert before
    | Aborted         // the insertion position would lie before the file

  /** push_repos_front: inserts a block one character before the first occurrence
      of the text of the first repository line. */
  function Push(content: string, value: string): PushResult {
    if content == "" then NothingToEdit
    else if RepoList(content) == [] then NoRepository
    else
      var pos := Find(content, RepoList(content)[0]);
      if pos == 0 then Aborted
      else if pos > |content| then NoRepository
      else Pushed(content[..pos - 1] + ("\n" + value + "\n") + content[pos - 1..])
  }

  /** Deleting the inserted block gives back the file. */
  lemma RemovingGivesBack(content: string, value: string)
    requires Push(content, value).Pushed?
    ensures HasPlace(content)
    ensures var after, at := Push(content, value).content, Place(content);
            && |after| == |content| + |value| + 2 && after[..at] + after[at + |value| + 2..] == content
            && after[at..at + |value| + 2] == "\n" + value + "\n"
  {
    hide Find, RepoList;
    var at := Find(content, RepoList(content)[0]) - 1;
    assert Push(content, value).content == (content[..at] + ("\n" + value + "\n")) + content[at..];
  }

  class ConfigFile {
    var content: string

    constructor (content: string)
      ensures this.content == content
    {
      this.content := content;
    }

    /** The call never returns when the position is out of range, so that is excluded. */
    method PushReposFront(value: string) returns (ok: bool)
      requires Push(content, value) != Aborted
      modifies this
      ensures ok == Push(old(content), value).Pushed?
      ensures content == if ok then Push(old(content), value).content else old(content)
    {
      hide Fields, Split, ReposIn, IsRepo, Find;
      if content == "" {
        return false;
      }
      var lines := Fields(content, '\n');
      ghost var repos := RepoList(content);
      FieldsHaveTheRepos(content);
      assert lines[0..] == lines;
      var i := 0;
      while i < |lines| && !IsRepo(lines[i])
        invariant 0 <= i <= |lines| && content == old(content)
        invariant ReposIn(lines[i..]) == repos
      {
        ReposStep(lines, i);
        i := i + 1;
      }
      if i == |lines| {
        assert lines[i..] == [];
        NoReposInNothing();
        return false;
      }
      ReposStep(lines, i);
      var line := lines[i];
      var pos := Find(content, line);
      FirstRepoOccurs(content);
      content := content[..pos - 1] + ("\n" + value + "\n") + content[pos - 1..];
      return true;
    }
  }

  lemma NoReposInNothing()
    ensures ReposIn([]) == []
  {
  }

  lemma ReposStep(lines: seq<string>, i: nat)
    requires i < |lines|
    ensures ReposIn(lines[i..]) ==
            if IsRepo(lines[i]) then [lines[i]] + ReposIn(lines[i + 1..]) else ReposIn(lines[i + 1..])
  {
    assert lines[i..][1..] == lines[i + 1..];
  }

  // ----- repositories line by line -----

  lemma {:induction false} ReposConcat(a: seq<string>, b: seq<string>)
    ensures ReposIn(a + b) == ReposIn(a) + ReposIn(b)
  {
    if a == [] {
      assert a + b == b;
    } else {
      assert (a + b)[1..] == a[1..] + b;
      ReposConcat(a[1..], b);
    }
  }

  lemma {:induction false} ReposSkipEmpty(lines: seq<string>)
    ensures ReposIn(NonEmpty(lines)) == ReposIn(lines)
  {
    if lines != [] {
      hide IsRepo;
      ReposSkipEmpty(lines[1..]);
      EmptyIsNoRepo();
      if lines[0] != "" {
        assert ([lines[0]] + NonEmpty(lines[1..]))[1..] == NonEmpty(lines[1..]);
      } else {
        assert [] + NonEmpty(lines[1..]) == NonEmpty(lines[1..]);
      }
    }
  }

  lemma EmptyIsNoRepo()
    ensures !IsRepo("")
  {
  }

  lemma FieldsHaveTheRepos(content: string)
    ensures ReposIn(Fields(content, '\n')) == RepoList(content)
  {
    ReposSkipEmpty(Split(content, '\n'));
  }

  lemma {:induction false} RepoListByPieces(content: string)
    ensures RepoList(content) == ReposIn(Pieces(content, '\n'))
  {
    if content == "" {
      EmptyIsNoRepo();
      assert Pieces("", '\n') == [""] && [""][1..] == [];
    }
  }

  lemma RepoListConcat(a: string, b: string)
    ensures RepoList(a + ['\n'] + b) == RepoList(a) + RepoList(b)
  {
    PiecesConcat(a, b, '\n');
    ReposConcat(Pieces(a, '\n'), Pieces(b, '\n'));
    RepoListByPieces(a);
    RepoListByPieces(b);
    RepoListByPieces(a + ['\n'] + b);
  }

  lemma {:induction false} FirstPieceIsPrefix(s: string, d: char)
    ensures Pieces(s, d)[0] <= s
  {
    if s != [] && s[0] != d {
      FirstPieceIsPrefix(s[1..], d);
    }
  }

  lemma {:induction false} JoinedConcat(a: seq<string>, b: seq<string>, d: char)
    requires a != [] && b != []
    ensures Joined(a + b, d) == Joined(a, d) + [d] + Joined(b, d)
  {
    assert a == [a[0]] + a[1..] && a + b == [a[0]] + (a[1..] + b);
    JoinedCons(a[0], a[1..] + b, d);
    JoinedCons(a[0], a[1..], d);
    if |a| > 1 {
      JoinedConcat(a[1..], b, d);
    } else {
      assert a[1..] + b == b;
    }
  }

  /** A file with repositories either opens with one, or splits at the newline
      before the first one. */
  lemma BeforeFirstRepo(content: string) returns (pre: string, post: string)
    requires RepoList(content) != []
    ensures RepoList(content)[0] <= content ||
            (content == pre + ['\n'] + post && RepoList(pre) == [] && RepoList(post) == RepoList(content)
             && RepoList(content)[0] <= post)
  {
    hide Pieces, Joined, IsRepo, RepoList;
    pre, post := "", "";
    var lines := Pieces(content, '\n');
    RepoListByPieces(content);
    JoinedPieces(content, '\n');
    var m := FirstRepoIndex(lines);
    if m == 0 {
      FirstPieceIsPrefix(content, '\n');
    } else {
      pre, post := Joined(lines[..m], '\n'), Joined(lines[m..], '\n');
      assert lines == lines[..m] + lines[m..];
      JoinedConcat(lines[..m], lines[m..], '\n');
      PiecesAreFree(content, '\n');
      PiecesOfJoined(lines[..m], '\n');
      PiecesOfJoined(lines[m..], '\n');
      RepoListByPieces(pre);
      RepoListByPieces(post);
      ReposConcat(lines[..m], lines[m..]);
      FirstPieceIsPrefix(post, '\n');
    }
  }

  lemma {:induction false} FirstRepoIndex(lines: seq<string>) returns (m: nat)
    requires ReposIn(lines) != []
    ensures m < |lines| && lines[m] == ReposIn(lines)[0] && ReposIn(lines[..m]) == []
  {
    hide IsRepo;
    if IsRepo(lines[0]) {
      m := 0;
    } else {
      m := FirstRepoIndex(lines[1..]);
      m := m + 1;
      assert lines[..m] == [lines[0]] + lines[1..][..m - 1];
      ReposConcat([lines[0]], lines[1..][..m - 1]);
      assert [lines[0]][1..] == [];
    }
  }

  predicate OccursIn(s: string, t: string) {
    Find(s, t) <= |s|
  }

  /** The text of the first repository line does occur in the file. */
  lemma FirstRepoOccurs(content: string)
    requires RepoList(content) != []
    ensures OccursIn(content, RepoList(content)[0])
  {
    hide RepoList, IsRepo;
    var pre, post := BeforeFirstRepo(content);
    var line := RepoList(content)[0];
    if line <= content {
      assert content[0..] == content;
    } else {
      assert content[|pre| + 1..] == post;
    }
  }

  /** A push does something exactly if there is a repository and the file does not open with
      its text; an empty file and one without repositories are left alone. */
  lemma PushedExactly(content: string, value: string)
    ensures Push(content, value).Pushed? <==> RepoList(content) != [] && !(RepoList(content)[0] <= content)
    ensures Push(content, value).Aborted? <==> RepoList(content) != [] && RepoList(content)[0] <= content
    ensures Push(content, value).NothingToEdit? <==> content == ""
  {
    hide RepoList, Find;
    EmptyHasNoRepos();
    if RepoList(content) != [] {
      FirstRepoOccurs(content);
      FoundAtStart(content, RepoList(content)[0]);
    }
  }

  lemma EmptyHasNoRepos()
    ensures RepoList("") == []
  {
  }

  lemma {:induction false} FoundAtStart(s: string, t: string)
    ensures Find(s, t) == 0 <==> t <= s
  {
    assert s[0..] == s;
  }

  // ----- what pushing does to the list of repositories -----

  function LastLine(s: string): string {
    Pieces(s, '\n')[|Pieces(s, '\n')| - 1]
  }

  function Fragment(line: string): seq<string> {
    if IsRepo(line) then [line] else []
  }

  lemma ReposOfLine(line: string)
    requires '\n' !in line
    ensures RepoList(line) == Fragment(line)
  {
    hide IsRepo;
    RepoListByPieces(line);
    PiecesOfOne(line, '\n');
    assert [line][1..] == [];
  }

  lemma SplitOffLast(s: string) returns (x: string)
    ensures '\n' !in LastLine(s)
    ensures s == LastLine(s) || s == x + ['\n'] + LastLine(s)
  {
    hide Pieces, Joined;
    var p := Pieces(s, '\n');
    var n := |p| - 1;
    PiecesAreFree(s, '\n');
    JoinedPieces(s, '\n');
    assert p == p[..n] + [p[n]];
    JoinedCons(p[n], [], '\n');
    assert [p[n]] + [] == [p[n]];
    x := Joined(p[..n], '\n');
    if n > 0 {
      JoinedConcat(p[..n], [p[n]], '\n');
    } else {
      assert p == [p[n]];
    }
  }

  lemma SplitOffFirst(s: string) returns (y: string)
    ensures '\n' !in FirstLine(s)
    ensures s == FirstLine(s) || s == FirstLine(s) + ['\n'] + y
  {
    hide Pieces, Joined;
    var p := Pieces(s, '\n');
    PiecesAreFree(s, '\n');
    JoinedPieces(s, '\n');
    assert p == [p[0]] + p[1..];
    JoinedCons(p[0], p[1..], '\n');
    y := Joined(p[1..], '\n');
  }

  /** A text without repositories, cut anywhere, has at most the two halves of the
      cut line as repositories. */
  lemma CutTextFragments(left: string, z: string)
    requires RepoList(left + z) == []
    ensures RepoList(left) == Fragment(LastLine(left)) && RepoList(z) == Fragment(FirstLine(z))
  {
    hide Pieces, IsRepo, RepoList, Fragment;
    var x := SplitOffLast(left);
    var last := LastLine(left);
    ReposOfLine(last);
    if left != last {
      assert left + z == x + ['\n'] + (last + z);
      RepoListConcat(x, last + z);
      RepoListConcat(x, last);
    }
    var y := SplitOffFirst(z);
    var first := FirstLine(z);
    ReposOfLine(first);
    if z != first {
      assert left + z == (left + first) + ['\n'] + y;
      RepoListConcat(left + first, y);
      RepoListConcat(first, y);
    }
  }

  /** There is a repository, and the file does not open with its text. */
  predicate HasPlace(content: string) {
    RepoList(content) != [] && 0 < Find(content, RepoList(content)[0]) <= |content|
  }

  /** Where a block is inserted. */
  function Place(content: string): (at: nat)
    requires HasPlace(content)
    ensures at < |content|
  {
    Find(content, RepoList(content)[0]) - 1
  }

  /** Where the block is inserted, the line that is cut has no half that reads as
      a repository. A line that is not cut at all has none. */
  ghost predicate CutsCleanly(content: string)
    requires HasPlace(content)
  {
    var at := Place(content);
    !IsRepo(LastLine(content[..at])) && !IsRepo(FirstLine(content[at..]))
  }

  /** What the two halves of the cut line add to the repositories. */
  function CutInFront(content: string): seq<string>
    requires HasPlace(content)
  {
    Fragment(LastLine(content[..Place(content)]))
  }

  function CutBehind(content: string): seq<string>
    requires HasPlace(content)
  {
    Fragment(FirstLine(content[Place(content)..]))
  }

  /** Everything that a push does to the repositories: the new ones come first, the
      old ones stay, and the halves of a cut line may appear before and behind the new. */
  lemma ReposOfPushed(content: string, value: string)
    requires Push(content, value).Pushed?
    ensures HasPlace(content)
    ensures RepoList(Push(content, value).content) ==
            CutInFront(content) + RepoList(value) + CutBehind(content) + RepoList(content)
  {
    hide RepoList, IsRepo, Pieces, Fragment, FirstLine, LastLine, Find;
    var at := Place(content);
    var left, right := content[..at], content[at..];
    var z, post := CutBeforeRepo(content);
    assert Push(content, value).content == left + ("\n" + value + "\n") + right;
    CutTextFragments(left, z);
    FirstLineOfLonger(z, post);
    ReposOfFour(left, value, z, post);
  }

  lemma ReposOfFour(left: string, value: string, z: string, post: string)
    ensures RepoList(left + ("\n" + value + "\n") + (z + ['\n'] + post)) ==
            RepoList(left) + RepoList(value) + RepoList(z) + RepoList(post)
  {
    hide RepoList;
    var right := z + ['\n'] + post;
    assert left + ("\n" + value + "\n") + right == left + ['\n'] + (value + ['\n'] + right);
    RepoListConcat(left, value + ['\n'] + right);
    RepoListConcat(value, right);
    RepoListConcat(z, post);
  }

  /** The insertion position is not behind the newline before the first repository. */
  lemma CutBeforeRepo(content: string) returns (z: string, post: string)
    requires HasPlace(content)
    ensures RepoList(content[..Place(content)] + z) == [] && RepoList(post) == RepoList(content)
    ensures content[Place(content)..] == z + ['\n'] + post
  {
    hide Find, RepoList, IsRepo;
    var at := Place(content);
    var pre;
    pre, post := BeforeFirstRepo(content);
    var line := RepoList(content)[0];
    assert content[0..] == content;
    assert content == pre + ['\n'] + post;
    assert content[|pre| + 1..] == post;
    assert at <= |pre|;
    z := pre[at..];
    assert content[..at] + z == pre;
  }

  lemma FirstLineOfLonger(a: string, b: string)
    ensures FirstLine(a + ['\n'] + b) == FirstLine(a)
  {
    PiecesConcat(a, b, '\n');
  }

  /** The new repositories go in front of the old ones, and nothing else changes,
      exactly if the cut is clean. */
  lemma PushIsPrepend(content: string, value: string)
    requires Push(content, value).Pushed?
    ensures RepoList(Push(content, value).content) == RepoList(value) + RepoList(content) <==> CutsCleanly(content)
  {
    hide RepoList, IsRepo, Pieces, Find;
    ReposOfPushed(content, value);
    var a, b := CutInFront(content), CutBehind(content);
    if a == [] && b == [] {
      assert a + RepoList(value) + b + RepoList(content) == RepoList(value) + RepoList(content);
    } else {
      assert |a + RepoList(value) + b + RepoList(content)| > |RepoList(value) + RepoList(content)|;
    }
  }

  /** For instance: behind an empty section of options on the same line, the text of the first
      repository is cut off, and what is left in front reads as a repository. */
  lemma CutLineForInstance(value: string)
    ensures var content := "[options][core]\n[core]";
            && Push(content, value).Pushed? && !CutsCleanly(content)
            && RepoList(Push(content, value).content) == ["[options"] + RepoList(value) + RepoList(content)
  {
    var content := "[options][core]\n[core]";
    hide RepoList, Fragment, Find, CutsCleanly;
    ReposForInstance();
    CutForInstance();
    ReposOfPushed(content, value);
    assert Push(content, value).Pushed?;
  }

  lemma ReposForInstance()
    ensures RepoList("[options][core]\n[core]") == ["[core]"]
    ensures HasPlace("[options][core]\n[core]") && Place("[options][core]\n[core]") == 8
  {
    hide Find, RepoList, IsRepo;
    LinesForInstance();
    assert "[options][core]\n[core]" == "[options][core]" + ['\n'] + "[core]";
    RepoListConcat("[options][core]", "[core]");
    ReposOfLine("[options][core]");
    ReposOfLine("[core]");
    CoreIsAtNine();
  }

  lemma CutForInstance()
    ensures HasPlace("[options][core]\n[core]") && !CutsCleanly("[options][core]\n[core]")
    ensures CutInFront("[options][core]\n[core]") == ["[options"] && CutBehind("[options][core]\n[core]") == []
  {
    hide RepoList, IsRepo, Pieces, Find, HasPlace, Place;
    ReposForInstance();
    LinesForInstance();
    var content := "[options][core]\n[core]";
    assert content[..8] == "[options" && content[8..] == "][core]" + ['\n'] + "[core]";
    PiecesOfOne("[options", '\n');
    PiecesOfOne("][core]", '\n');
    FirstLineOfLonger("][core]", "[core]");
  }

  lemma LinesForInstance()
    ensures IsRepo("[core]") && !IsRepo("[options][core]") && IsRepo("[options") && !IsRepo("][core]")
  {
    assert "[options][core]" == "[options]" + "[core]";
    assert "[core]"[0] == "[options"[0] == '[' && "][core]"[0] == ']';
  }

  lemma CoreIsAtNine()
    ensures Find("[options][core]\n[core]", "[core]") == 9
  {
    var content := "[options][core]\n[core]";
    assert content[9..] == "[core]" + "\n[core]";
    forall j | 0 <= j < 9
      ensures !("[core]" <= content[j..])
    {
      StartOfCore(content, j);
    }
  }

  lemma StartOfCore(s: string, j: nat)
    requires j <= |s|
    ensures "[core]" <= s[j..] ==> j + 1 < |s| && s[j] == '[' && s[j + 1] == 'c'
  {
    if "[core]" <= s[j..] {
      assert s[j] == s[j..][0] == "[core]"[0];
      assert s[j + 1] == s[j..][1] == "[core]"[1];
    }
  }

  /** In the usual case the text of the first repository line first occurs at the
      start of a line, and then the cut is clean. */
  lemma AtLineStartIsClean(content: string)
    requires HasPlace(content) && content[Place(content)] == '\n'
    ensures CutsCleanly(content)
  {
    hide RepoList, Find, IsRepo, Pieces, FirstLine, LastLine;
    var at := Place(content);
    var left, right := content[..at], content[at..];
    var z, post := CutBeforeRepo(content);
    assert right[0] == '\n';
    FirstLineAtNewline(right);
    assert z == "" || z[0] == right[0];
    LineBeforeNewline(left, z);
  }

  lemma FirstLineAtNewline(s: string)
    requires s != "" && s[0] == '\n'
    ensures !IsRepo(FirstLine(s))
  {
    hide Pieces;
    assert s == [] + ['\n'] + s[1..];
    FirstLineOfLonger([], s[1..]);
    FirstLineOfNothing();
  }

  lemma FirstLineOfNothing()
    ensures FirstLine([]) == ""
  {
  }

  /** A line that ends where a newline follows is a line of the whole text. */
  lemma LineBeforeNewline(left: string, z: string)
    requires RepoList(left + z) == [] && (z == "" || z[0] == '\n')
    ensures !IsRepo(LastLine(left))
  {
    hide IsRepo, RepoList, Pieces;
    if z == "" {
      assert left + z == left;
    } else {
      assert left + z == left + ['\n'] + z[1..];
      RepoListConcat(left, z[1..]);
    }
    RepoListByPieces(left);
    assert LastLine(left) in Pieces(left, '\n');
  }
}
