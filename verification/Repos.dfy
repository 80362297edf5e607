/** Adding the CachyOS repositories to pacman.conf. */
module Repos {
  import opened Options
  import opened Text
  import opened PacmanConf

  /** One call of add_arch_specific_repo: the sections, their mirror list below /etc/pacman.d
      and the CPU level they need.
      Whether they are there already is decided by the first section alone. */
  datatype Addition = Addition(isaLevel: string, name: string, others: seq<string>, mirrors: string)

  /** What one run of the installer finds out about the machine. */
  datatype Machine = Machine(isaLevels: seq<string>, oracleVm: bool, znver45: bool)

  const BASE := Addition("x86_64", "cachyos", [], "cachyos-mirrorlist")
  const V3 := Addition("x86_64_v3", "cachyos-v3", ["cachyos-core-v3", "cachyos-extra-v3"], "cachyos-v3-mirrorlist")
  const V4 := Addition("x86_64_v4", "cachyos-v4", ["cachyos-core-v4", "cachyos-extra-v4"], "cachyos-v4-mirrorlist")
  const ZNVER4 := Addition("x86_64_v4", "cachyos-znver4", ["cachyos-core-znver4", "cachyos-extra-znver4"],
                           "cachyos-v4-mirrorlist")

  function Header(name: string): string {
    "[" + name + "]"
  }

  function Headers(names: seq<string>): (r: seq<string>)
    ensures |r| == |names| && forall i :: 0 <= i < |names| ==> r[i] == Header(names[i])
  {
    if names == [] then [] else [Header(names[0])] + Headers(names[1..])
  }

  function Include(mirrors: string): string {
    "Include = /etc/pacman.d/" + mirrors
  }

  function SectionLines(names: seq<string>, mirrors: string): seq<string> {
    if names == [] then [""]
    else [Header(names[0]), Include(mirrors)] + SectionLines(names[1..], mirrors)
  }

  /** The text of the sections: an empty line, then a header and a mirror list each. */
  function Block(a: Addition): string {
    Joined([""] + SectionLines(Names(a), a.mirrors), '\n')
  }

  function Names(a: Addition): seq<string> {
    [a.name] + a.others
  }

  /** The headers in the block must read as repositories. */
  predicate Proper(a: Addition) {
    && '\n' !in a.mirrors
    && forall n :: n in Names(a) ==> '\n' !in n && IsRepo(Header(n))
  }

  predicate Wanted(conf: string, a: Addition, isaLevels: seq<string>)
  {
    a.isaLevel in isaLevels && Header(a.name) !in RepoList(conf)
  }

  /** add_arch_specific_repo. The result of the push is not looked at, so a file
      without repositories is left as it is; None if the push never returns. */
  function Add(conf: string, a: Addition, isaLevels: seq<string>): Option<string>
  {
    if !Wanted(conf, a, isaLevels) then Some(conf)
    else
      match Push(conf, Block(a))
      case Pushed(content) => Some(content)
      case NothingToEdit => Some(conf)
      case NoRepository => Some(conf)
      case Aborted => None
  }

  /** The one family of repositories for this CPU, if any. */
  function Family(m: Machine): Option<Addition> {
    if m.oracleVm then None
    else if m.znver45 then Some(ZNVER4)
    else if "x86_64_v4" in m.isaLevels then Some(V4)
    else if "x86_64_v3" in m.isaLevels then Some(V3)
    else None
  }

  function Additions(m: Machine): seq<Addition> {
    match Family(m)
    case None => [BASE]
    case Some(family) => [BASE, family]
  }

  function AddAll(conf: string, todo: seq<Addition>, isaLevels: seq<string>): Option<string>
    decreases |todo|
  {
    if todo == [] then Some(conf)
    else
      match Add(conf, todo[0], isaLevels)
      case None => None
      case Some(next) => AddAll(next, todo[1..], isaLevels)
  }

  /** One run of install_cachyos_repos; None if it never returns. */
  function Install(conf: string, m: Machine): Option<string> {
    AddAll(conf, Additions(m), m.isaLevels)
  }

  /** The file at the end, or where the process ended. */
  function Reached(conf: string, todo: seq<Addition>, isaLevels: seq<string>): string
    decreases |todo|
  {
    if todo == [] then conf
    else
      match Add(conf, todo[0], isaLevels)
      case None => conf
      case Some(next) => Reached(next, todo[1..], isaLevels)
  }

  /** The copy left by the last replacement, if there was one. */
  function Backup(conf: string, backup: string, todo: seq<Addition>, isaLevels: seq<string>): string
    decreases |todo|
  {
    if todo == [] then backup
    else
      match Add(conf, todo[0], isaLevels)
      case None => backup
      case Some(next) => Backup(next, if Wanted(conf, todo[0], isaLevels) then conf else backup, todo[1..], isaLevels)
  }

  /** The configuration and the copy that each replacement of it leaves behind. */
  class Installer {
    var conf: string
    var backup: string

    constructor (conf: string, backup: string)
      ensures this.conf == conf && this.backup == backup
    {
      this.conf, this.backup := conf, backup;
    }

    /** ok is false if the process ends inside the push. */
    method AddArchSpecificRepo(a: Addition, isaLevels: seq<string>) returns (ok: bool)
      modifies this
      ensures ok == Add(old(conf), a, isaLevels).Some?
      ensures conf == if ok then Add(old(conf), a, isaLevels).value else old(conf)
      ensures backup == if ok && Wanted(old(conf), a, isaLevels) then old(conf) else old(backup)
    {
      hide RepoList, Block;
      if a.isaLevel !in isaLevels {
        return true;
      }
      if Header(a.name) in RepoList(conf) {
        return true;
      }
      if Push(conf, Block(a)) == Aborted {
        return false;
      }
      var copy := new ConfigFile(conf);
      var _ := copy.PushReposFront(Block(a));
      backup := conf;
      conf := copy.content;
      return true;
    }

    method InstallCachyosRepos(m: Machine) returns (ok: bool)
      modifies this
      ensures ok == Install(old(conf), m).Some?
      ensures conf == Reached(old(conf), Additions(m), m.isaLevels)
      ensures backup == Backup(old(conf), old(backup), Additions(m), m.isaLevels)
    {
      hide Add, Wanted;
      ReachedByOne(conf, backup, BASE, m.isaLevels);
      ok := AddArchSpecificRepo(BASE, m.isaLevels);
      if Family(m).Some? {
        ReachedByTwo(old(conf), old(backup), BASE, Family(m).value, m.isaLevels);
      }
      if !ok {
        return;
      }
      if m.oracleVm {
        return true;
      }
      if m.znver45 {
        ok := AddArchSpecificRepo(ZNVER4, m.isaLevels);
        return;
      }
      if "x86_64_v4" in m.isaLevels {
        ok := AddArchSpecificRepo(V4, m.isaLevels);
        return;
      }
      if "x86_64_v3" in m.isaLevels {
        ok := AddArchSpecificRepo(V3, m.isaLevels);
        return;
      }
      return true;
    }
  }

  lemma {:induction false} AddAllOne(conf: string, a: Addition, isaLevels: seq<string>)
    ensures AddAll(conf, [a], isaLevels) == Add(conf, a, isaLevels)
  {
    hide Add;
    assert [a][1..] == [];
  }

  lemma {:induction false} AddAllTwo(conf: string, a: Addition, b: Addition, isaLevels: seq<string>)
    ensures AddAll(conf, [a, b], isaLevels) ==
            if Add(conf, a, isaLevels).None? then None else Add(Add(conf, a, isaLevels).value, b, isaLevels)
  {
    hide Add;
    assert [a, b][1..] == [b];
    if Add(conf, a, isaLevels).Some? {
      AddAllOne(Add(conf, a, isaLevels).value, b, isaLevels);
    }
  }

  lemma {:induction false} ReachedByOne(conf: string, backup: string, a: Addition, isaLevels: seq<string>)
    ensures AddAll(conf, [a], isaLevels) == Add(conf, a, isaLevels)
    ensures Reached(conf, [a], isaLevels) == Add(conf, a, isaLevels).GetOr(conf)
    ensures Backup(conf, backup, [a], isaLevels) ==
            if Add(conf, a, isaLevels).Some? && Wanted(conf, a, isaLevels) then conf else backup
  {
    hide Add, Wanted;
    assert [a][1..] == [];
  }

  lemma {:induction false} ReachedByTwo(conf: string, backup: string, a: Addition, b: Addition, isaLevels: seq<string>)
    ensures AddAll(conf, [a, b], isaLevels) ==
            if Add(conf, a, isaLevels).None? then None else Add(Add(conf, a, isaLevels).value, b, isaLevels)
    ensures var first := Add(conf, a, isaLevels);
            Reached(conf, [a, b], isaLevels) ==
            if first.None? then conf else Add(first.value, b, isaLevels).GetOr(first.value)
    ensures var first := Add(conf, a, isaLevels);
            Backup(conf, backup, [a, b], isaLevels) ==
            if first.None? then backup
            else if Add(first.value, b, isaLevels).Some? && Wanted(first.value, b, isaLevels) then first.value
            else if Wanted(conf, a, isaLevels) then conf
            else backup
  {
    hide Add, Wanted;
    assert [a, b][1..] == [b];
    if Add(conf, a, isaLevels).Some? {
      var next := if Wanted(conf, a, isaLevels) then conf else backup;
      ReachedByOne(Add(conf, a, isaLevels).value, next, b, isaLevels);
    }
  }

  // ----- what a block adds -----

  predicate Plain(name: string) {
    name != "" && name[0] != 'o' && OneLine(name)
  }

  lemma HeaderIsRepo(name: string)
    requires Plain(name)
    ensures IsRepo(Header(name))
  {
    var line := Header(name);
    assert line[0] == '[' && line[1] == name[0];
    assert "#"[0] == '#' && "[options]"[1] == 'o';
  }

  lemma ProperWhenPlain(a: Addition)
    requires OneLine(a.mirrors) && Plain(a.name) && forall n :: n in a.others ==> Plain(n)
    ensures Proper(a)
  {
    hide IsRepo, Header;
    forall n | n in Names(a)
      ensures Plain(n) && IsRepo(Header(n))
    {
      HeaderIsRepo(n);
    }
  }

  lemma BaseIsProper()
    ensures Proper(BASE)
  {
    hide Proper;
    assert OneLine("cachyos-mirrorlist");
    assert Plain("cachyos");
    hide Plain, OneLine;
    ProperWhenPlain(BASE);
  }

  lemma V3IsProper()
    ensures Proper(V3)
  {
    hide Proper;
    assert OneLine("cachyos-v3-mirrorlist");
    assert Plain("cachyos-v3");
    assert Plain("cachyos-core-v3");
    assert Plain("cachyos-extra-v3");
    hide Plain, OneLine;
    ProperWhenPlain(V3);
  }

  lemma V4IsProper()
    ensures Proper(V4)
  {
    hide Proper;
    assert OneLine("cachyos-v4-mirrorlist");
    assert Plain("cachyos-v4");
    assert Plain("cachyos-core-v4");
    assert Plain("cachyos-extra-v4");
    hide Plain, OneLine;
    ProperWhenPlain(V4);
  }

  lemma Znver4IsProper()
    ensures Proper(ZNVER4)
  {
    hide Proper;
    assert OneLine("cachyos-v4-mirrorlist");
    assert Plain("cachyos-znver4");
    assert Plain("cachyos-core-znver4");
    assert Plain("cachyos-extra-znver4");
    hide Plain, OneLine;
    ProperWhenPlain(ZNVER4);
  }

  lemma AdditionsAreProper(m: Machine)
    ensures forall a :: a in Additions(m) ==> Proper(a)
  {
    hide Proper;
    BaseIsProper();
    V3IsProper();
    V4IsProper();
    Znver4IsProper();
  }

  lemma IncludeIsNoRepo(mirrors: string)
    requires '\n' !in mirrors
    ensures '\n' !in Include(mirrors) && !IsRepo(Include(mirrors))
  {
    var prefix := "Include = /etc/pacman.d/";
    assert OneLine(prefix);
    OneLineHasNoNewline(prefix);
    assert Include(mirrors)[0] == 'I';
  }

  lemma {:induction false} ReposOfSections(names: seq<string>, mirrors: string)
    requires '\n' !in mirrors
    requires forall i :: 0 <= i < |names| ==> '\n' !in names[i] && IsRepo(Header(names[i]))
    ensures FreeOf(SectionLines(names, mirrors), '\n')
    ensures ReposIn(SectionLines(names, mirrors)) == Headers(names)
  {
    if names == [] {
      assert [""][1..] == [];
    } else {
      hide IsRepo, Include, Header;
      var rest := SectionLines(names[1..], mirrors);
      ReposOfSections(names[1..], mirrors);
      var header, mirror := Header(names[0]), Include(mirrors);
      IncludeIsNoRepo(mirrors);
      ReposConcat([header, mirror], rest);
      assert [header, mirror][1..] == [mirror];
      assert [mirror] == [mirror] + [];
    }
  }

  lemma ReposOfBlock(a: Addition)
    requires Proper(a)
    ensures RepoList(Block(a)) == Headers(Names(a))
  {
    hide Pieces, Joined, IsRepo, Headers, Include, Header, SectionLines;
    var sections := SectionLines(Names(a), a.mirrors);
    ReposOfSections(Names(a), a.mirrors);
    PiecesOfJoined([""] + sections, '\n');
    RepoListByPieces(Block(a));
    EmptyIsNoRepo();
    assert ([""] + sections)[1..] == sections;
  }

  /** Whatever the file looks like, adding keeps every repository in place behind
      the new ones, and the added family is there afterwards. */
  lemma AddKeepsRepos(conf: string, a: Addition, isaLevels: seq<string>)
    requires Proper(a) && Add(conf, a, isaLevels).Some?
    ensures var after := RepoList(Add(conf, a, isaLevels).value);
            && |RepoList(conf)| <= |after|
            && after[|after| - |RepoList(conf)|..] == RepoList(conf)
            && (a.isaLevel in isaLevels && RepoList(conf) != [] ==> Header(a.name) in after)
  {
    hide RepoList, IsRepo, Block, CutsCleanly, Find;
    if Push(conf, Block(a)).Pushed? {
      ReposOfPushed(conf, Block(a));
      ReposOfBlock(a);
      assert Headers(Names(a))[0] == Header(a.name);
    }
    if RepoList(conf) != [] {
      FirstRepoOccurs(conf);
      NoReposInNothing();
      EmptyHasNoRepos();
    }
  }

  // ----- running the installer again and again -----

  /** Nothing is left to do: without repositories nothing can be, otherwise the family is
      there or not supported. */
  predicate Done(conf: string, a: Addition, isaLevels: seq<string>) {
    RepoList(conf) == [] || !Wanted(conf, a, isaLevels)
  }

  predicate AllDone(conf: string, todo: seq<Addition>, isaLevels: seq<string>) {
    forall a :: a in todo ==> Done(conf, a, isaLevels)
  }

  predicate Settled(conf: string, m: Machine) {
    AllDone(conf, Additions(m), m.isaLevels)
  }

  predicate Extends(conf: string, before: string) {
    var now, was := RepoList(conf), RepoList(before);
    && |was| <= |now|
    && now[|now| - |was|..] == was
    && (was == [] ==> conf == before)
  }

  lemma ExtendsIsTransitive(a: string, b: string, c: string)
    requires Extends(b, a) && Extends(c, b)
    ensures Extends(c, a)
  {
    hide RepoList;
    var x, y, z := RepoList(a), RepoList(b), RepoList(c);
    assert z[|z| - |x|..] == z[|z| - |y|..][|y| - |x|..];
  }

  lemma DoneStays(before: string, conf: string, a: Addition, isaLevels: seq<string>)
    requires Done(before, a, isaLevels) && Extends(conf, before)
    ensures Done(conf, a, isaLevels)
  {
    hide RepoList;
    var now, was := RepoList(conf), RepoList(before);
    assert forall h :: h in was ==> h in now[|now| - |was|..];
  }

  lemma SettledStays(before: string, conf: string, m: Machine)
    requires Settled(before, m) && Extends(conf, before)
    ensures Settled(conf, m)
  {
    hide RepoList, Additions, Extends, Done;
    forall a | a in Additions(m)
      ensures Done(conf, a, m.isaLevels)
    {
      DoneStays(before, conf, a, m.isaLevels);
    }
  }

  lemma AddExtends(conf: string, a: Addition, isaLevels: seq<string>)
    requires Proper(a) && Add(conf, a, isaLevels).Some?
    ensures Extends(Add(conf, a, isaLevels).value, conf)
    ensures Done(Add(conf, a, isaLevels).value, a, isaLevels)
  {
    hide RepoList, Block, Find, IsRepo;
    AddKeepsRepos(conf, a, isaLevels);
    if RepoList(conf) == [] {
      EmptyHasNoRepos();
    }
  }

  lemma {:induction false} AddAllExtends(conf: string, todo: seq<Addition>, isaLevels: seq<string>)
    requires forall a :: a in todo ==> Proper(a)
    requires AddAll(conf, todo, isaLevels).Some?
    ensures var after := AddAll(conf, todo, isaLevels).value;
            Extends(after, conf) && AllDone(after, todo, isaLevels)
    decreases |todo|
  {
    hide RepoList, Add, Proper, Done;
    if todo == [] {
      assert RepoList(conf)[0..] == RepoList(conf);
    } else {
      hide Extends;
      var next := Add(conf, todo[0], isaLevels).value;
      var after := AddAll(conf, todo, isaLevels).value;
      assert todo == [todo[0]] + todo[1..];
      AddExtends(conf, todo[0], isaLevels);
      AddAllExtends(next, todo[1..], isaLevels);
      ExtendsIsTransitive(conf, next, after);
      DoneStays(next, after, todo[0], isaLevels);
    }
  }

  /** A run keeps all repositories that were there and leaves nothing to do. */
  lemma InstallSettles(conf: string, m: Machine)
    requires Install(conf, m).Some?
    ensures Extends(Install(conf, m).value, conf) && Settled(Install(conf, m).value, m)
  {
    hide RepoList, AddAll, Additions, Wanted, Done, AllDone;
    AdditionsAreProper(m);
    AddAllExtends(conf, Additions(m), m.isaLevels);
  }

  /** A single addition either is done, or makes the file longer. */
  lemma AddNothing(conf: string, a: Addition, isaLevels: seq<string>)
    ensures Done(conf, a, isaLevels) ==> Add(conf, a, isaLevels) == Some(conf)
    ensures !Done(conf, a, isaLevels) && Add(conf, a, isaLevels).Some? ==> |conf| < |Add(conf, a, isaLevels).value|
  {
    hide RepoList, Find, Block;
    EmptyHasNoRepos();
    if RepoList(conf) != [] {
      FirstRepoOccurs(conf);
    }
  }

  lemma {:induction false} AddAllNothing(conf: string, todo: seq<Addition>, isaLevels: seq<string>)
    ensures AddAll(conf, todo, isaLevels) == Some(conf) <==> AllDone(conf, todo, isaLevels)
    decreases |todo|
  {
    hide Add, Done;
    if todo != [] {
      var a := todo[0];
      assert todo == [a] + todo[1..];
      AddNothing(conf, a, isaLevels);
      if Done(conf, a, isaLevels) {
        AddAllNothing(conf, todo[1..], isaLevels);
      } else if AddAll(conf, todo, isaLevels).Some? {
        AddAllGrows(Add(conf, a, isaLevels).value, todo[1..], isaLevels);
      }
    }
  }

  lemma {:induction false} AddAllGrows(conf: string, todo: seq<Addition>, isaLevels: seq<string>)
    requires AddAll(conf, todo, isaLevels).Some?
    ensures |conf| <= |AddAll(conf, todo, isaLevels).value|
    decreases |todo|
  {
    hide RepoList, Proper, Find, Block;
    if todo != [] {
      AddAllGrows(Add(conf, todo[0], isaLevels).value, todo[1..], isaLevels);
    }
  }

  /** A run leaves the file unchanged exactly if it is settled for the machine. */
  lemma UnchangedExactly(conf: string, m: Machine)
    ensures Install(conf, m) == Some(conf) <==> Settled(conf, m)
  {
    hide RepoList, AddAll, Additions, Wanted, Done, AllDone;
    AddAllNothing(conf, Additions(m), m.isaLevels);
  }

  function InstallAll(conf: string, runs: seq<Machine>): Option<string>
    decreases |runs|
  {
    if runs == [] then Some(conf)
    else
      match Install(conf, runs[0])
      case None => None
      case Some(next) => InstallAll(next, runs[1..])
  }

  /** Over any history of runs, on any machines and from any file: the repositories
      of the original stay together at the end of the list, and repeating any run of
      the history changes nothing. */
  lemma {:induction false} HistoryIsIdempotent(conf: string, runs: seq<Machine>)
    requires InstallAll(conf, runs).Some?
    ensures var after := InstallAll(conf, runs).value;
            Extends(after, conf) && forall m :: m in runs ==> Install(after, m) == Some(after)
    decreases |runs|
  {
    hide RepoList, Install, Settled;
    if runs == [] {
      assert RepoList(conf)[0..] == RepoList(conf);
    } else {
      var next := Install(conf, runs[0]).value;
      var after := InstallAll(conf, runs).value;
      InstallSettles(conf, runs[0]);
      HistoryIsIdempotent(next, runs[1..]);
      ExtendsIsTransitive(conf, next, after);
      SettledStays(next, after, runs[0]);
      UnchangedExactly(after, runs[0]);
      assert runs == [runs[0]] + runs[1..];
    }
  }

  lemma {:induction false} ReachedExtends(conf: string, todo: seq<Addition>, isaLevels: seq<string>)
    requires forall a :: a in todo ==> Proper(a)
    ensures Extends(Reached(conf, todo, isaLevels), conf)
    ensures AddAll(conf, todo, isaLevels).Some? ==>
              Reached(conf, todo, isaLevels) == AddAll(conf, todo, isaLevels).value
    decreases |todo|
  {
    hide RepoList, Add, Proper;
    assert RepoList(conf)[0..] == RepoList(conf);
    if todo != [] && Add(conf, todo[0], isaLevels).Some? {
      var next := Add(conf, todo[0], isaLevels).value;
      assert todo == [todo[0]] + todo[1..];
      AddExtends(conf, todo[0], isaLevels);
      ReachedExtends(next, todo[1..], isaLevels);
      ExtendsIsTransitive(conf, next, Reached(conf, todo, isaLevels));
    }
  }

  /** Even where the process ends early, the file has kept its repositories, and the
      backup is the one from before, of a file that was not replaced, or a version that the
      file extends. */
  lemma {:induction false} BackupIsEarlier(conf: string, backup: string, todo: seq<Addition>, isaLevels: seq<string>)
    requires forall a :: a in todo ==> Proper(a)
    ensures Extends(Reached(conf, todo, isaLevels), conf)
    ensures var after, copy := Reached(conf, todo, isaLevels), Backup(conf, backup, todo, isaLevels);
            (after == conf && copy == backup) || Extends(after, copy)
    decreases |todo|
  {
    ReachedExtends(conf, todo, isaLevels);
    hide RepoList, Proper, Extends, Push, Block;
    if todo != [] && Add(conf, todo[0], isaLevels).Some? {
      var next := Add(conf, todo[0], isaLevels).value;
      var copy := if Wanted(conf, todo[0], isaLevels) then conf else backup;
      assert todo == [todo[0]] + todo[1..];
      BackupIsEarlier(next, copy, todo[1..], isaLevels);
      AddExtends(conf, todo[0], isaLevels);
    }
  }

  // ----- the first run on an ordinary file -----

  /** The text in front of the place where a push would insert. */
  function Head(conf: string): string
    requires HasPlace(conf)
  {
    conf[..Place(conf)]
  }

  /** A file that has a repository, not on its very first line, which a push does not
      cut apart, and whose head nowhere mentions the given section. */
  ghost predicate Ordinary(conf: string, header: string) {
    && HasPlace(conf)
    && CutsCleanly(conf)
    && !OccursIn(Head(conf), header)
  }

  lemma {:induction false} FindAt(s: string, t: string, i: nat)
    requires i <= |s| && t <= s[i..]
    requires forall j :: 0 <= j < i ==> !(t <= s[j..])
    ensures Find(s, t) == i
  {
  }

  lemma NotAcrossNewline(s: string, t: string, j: nat, k: nat)
    requires j <= k < j + |t| && k < |s| && s[k] == '\n' && '\n' !in t
    ensures !(t <= s[j..])
  {
    assert t[k - j] != '\n' && s[j..][k - j] == '\n';
  }

  lemma NotInLonger(s: string, more: string, t: string, j: nat)
    requires j + |t| <= |s| && !(t <= s[j..])
    ensures !(t <= (s + more)[j..])
  {
    assert (s + more)[j..][..|t|] == s[j..][..|t|];
  }

  /** Behind the head, an empty line and the header: that is where the header is found. */
  lemma {:induction false} HeaderIsFound(head: string, header: string, rest: string)
    requires !OccursIn(head, header) && header != "" && '\n' !in header
    ensures Find(head + "\n\n" + header + rest, header) == |head| + 2
  {
    hide Find;
    var more := "\n\n" + header + rest;
    var s := head + more;
    assert s == head + "\n\n" + header + rest;
    forall j | 0 <= j < |head| + 2
      ensures !(header <= s[j..])
    {
      if j + |header| <= |head| {
        NotInLonger(head, more, header, j);
      } else if j <= |head| {
        NotAcrossNewline(s, header, j, |head|);
      } else {
        NotAcrossNewline(s, header, j, |head| + 1);
      }
    }
    assert s[|head| + 2..] == header + rest;
    FindAt(s, header, |head| + 2);
  }

  lemma BlockStarts(a: Addition) returns (rest: string)
    ensures Block(a) == "\n" + Header(a.name) + rest
  {
    hide Joined;
    var header := Header(a.name);
    var more := [Include(a.mirrors)] + SectionLines(a.others, a.mirrors);
    assert Names(a)[0] == a.name && Names(a)[1..] == a.others;
    assert SectionLines(Names(a), a.mirrors) == [header] + more;
    JoinedCons("", [header] + more, '\n');
    JoinedCons(header, more, '\n');
    rest := ['\n'] + Joined(more, '\n');
  }

  lemma HeaderHasNoNewline(a: Addition)
    requires Proper(a)
    ensures '\n' !in Header(a.name) && Header(a.name) != ""
  {
    hide IsRepo;
    assert a.name in Names(a);
  }

  /** Adding a family to an ordinary file puts exactly its sections in front, and a
      further family can be put in front of those. */
  lemma AddToOrdinary(conf: string, a: Addition, isaLevels: seq<string>)
    requires Proper(a) && a.isaLevel in isaLevels && Header(a.name) !in RepoList(conf)
    requires HasPlace(conf) && CutsCleanly(conf)
    ensures Add(conf, a, isaLevels).Some?
    ensures RepoList(Add(conf, a, isaLevels).value) == Headers(Names(a)) + RepoList(conf)
    ensures Ordinary(conf, Header(a.name)) ==>
            var after := Add(conf, a, isaLevels).value;
            && HasPlace(after) && CutsCleanly(after)
            && Head(after) == Head(conf) + "\n"
  {
    hide RepoList, IsRepo, Block, Find, CutsCleanly, Proper;
    EmptyHasNoRepos();
    PushIsPrepend(conf, Block(a));
    ReposOfBlock(a);
    var header := Header(a.name);
    if Ordinary(conf, header) {
      var head, behind := Head(conf), conf[|Head(conf)|..];
      var rest := BlockStarts(a);
      HeaderHasNoNewline(a);
      Regrouped(head, header, rest, behind);
      var text := header + (rest + "\n" + behind);
      assert Headers(Names(a))[0] == header;
      PushedStaysClean(conf, header, text, Add(conf, a, isaLevels).value);
    }
  }

  /** The first section of what was pushed is found where it was pushed. */
  lemma PushedStaysClean(conf: string, header: string, text: string, after: string)
    requires Ordinary(conf, header) && header != "" && '\n' !in header
    requires header <= text && after == Head(conf) + "\n\n" + text
    requires RepoList(after) != [] && RepoList(after)[0] == header
    ensures HasPlace(after) && CutsCleanly(after)
    ensures Head(after) == Head(conf) + "\n"
  {
    hide RepoList, IsRepo, Find, CutsCleanly;
    var head, rest := Head(conf), text[|header|..];
    assert text == header + rest;
    assert head + "\n\n" + text == head + "\n\n" + header + rest;
    HeaderIsFound(head, header, rest);
    TwoNewlines(head, text);
    AtLineStartIsClean(after);
  }

  lemma TwoNewlines(head: string, text: string)
    ensures var s := head + "\n\n" + text;
            |s| >= |head| + 2 && s[|head| + 1] == '\n' && s[..|head| + 1] == head + "\n"
  {
  }

  lemma Regrouped(head: string, header: string, rest: string, behind: string)
    ensures head + ("\n" + ("\n" + header + rest) + "\n") + behind == head + "\n\n" + header + (rest + "\n" + behind)
    ensures head + "\n\n" + header + (rest + "\n" + behind) == head + "\n\n" + (header + (rest + "\n" + behind))
  {
  }

  /** What an addition contributes on this machine. */
  function Added(a: Addition, isaLevels: seq<string>): seq<string> {
    if a.isaLevel in isaLevels then Headers(Names(a)) else []
  }

  lemma AddOneToOrdinary(conf: string, a: Addition, isaLevels: seq<string>)
    requires Proper(a) && Header(a.name) !in RepoList(conf)
    requires HasPlace(conf) && CutsCleanly(conf)
    ensures Add(conf, a, isaLevels).Some?
    ensures RepoList(Add(conf, a, isaLevels).value) == Added(a, isaLevels) + RepoList(conf)
    ensures Ordinary(conf, Header(a.name)) ==>
            var after := Add(conf, a, isaLevels).value;
            HasPlace(after) && CutsCleanly(after)
  {
    hide RepoList, IsRepo, Find, CutsCleanly, Push, Block, Ordinary, Headers, Names;
    if a.isaLevel in isaLevels {
      hide Add;
      AddToOrdinary(conf, a, isaLevels);
    } else {
      assert [] + RepoList(conf) == RepoList(conf);
    }
  }

  lemma {:induction false} AddTwoToOrdinary(conf: string, a: Addition, b: Addition, isaLevels: seq<string>)
    requires Proper(a) && Header(a.name) !in RepoList(conf)
    requires Proper(b) && Header(b.name) !in RepoList(conf)
    requires Ordinary(conf, Header(a.name)) && Header(b.name) !in Headers(Names(a))
    ensures AddAll(conf, [a, b], isaLevels).Some?
    ensures RepoList(AddAll(conf, [a, b], isaLevels).value) ==
            Added(b, isaLevels) + Added(a, isaLevels) + RepoList(conf)
  {
    hide RepoList, Find, CutsCleanly, Block, Add, IsRepo, Header, AddAll;
    AddOneToOrdinary(conf, a, isaLevels);
    AddAllTwo(conf, a, b, isaLevels);
    var next := Add(conf, a, isaLevels).value;
    AddOneToOrdinary(next, b, isaLevels);
    assert Added(b, isaLevels) + (Added(a, isaLevels) + RepoList(conf))
        == Added(b, isaLevels) + Added(a, isaLevels) + RepoList(conf);
  }

  lemma FamilyIsNotBase(m: Machine)
    requires Family(m).Some?
    ensures Header(Family(m).value.name) !in Headers(Names(BASE)) && Additions(m) == [BASE, Family(m).value]
  {
    var name := Family(m).value.name;
    assert |Header(name)| != |Header("cachyos")|;
    assert Names(BASE) == ["cachyos"];
  }

  /** The first run on an ordinary file: the family for the CPU, the base section, and
      then what was there, in that order. */
  lemma FirstRun(conf: string, m: Machine)
    requires Ordinary(conf, Header(BASE.name)) && Header(BASE.name) !in RepoList(conf)
    requires Family(m).Some? ==> Header(Family(m).value.name) !in RepoList(conf)
    ensures Install(conf, m).Some?
    ensures RepoList(Install(conf, m).value) ==
            if Family(m).Some? then Added(Family(m).value, m.isaLevels) + Added(BASE, m.isaLevels) + RepoList(conf)
            else Added(BASE, m.isaLevels) + RepoList(conf)
  {
    hide RepoList, Find, CutsCleanly, Block, Add, AddAll, IsRepo, Header, Proper, Names, Headers, Added, OccursIn;
    AdditionsAreProper(m);
    assert BASE in Additions(m);
    if Family(m).Some? {
      hide Ordinary;
      FamilyIsNotBase(m);
      assert Family(m).value in Additions(m);
      AddTwoToOrdinary(conf, BASE, Family(m).value, m.isaLevels);
    } else {
      AddOneToOrdinary(conf, BASE, m.isaLevels);
      AddAllOne(conf, BASE, m.isaLevels);
    }
  }

  // ----- which machine gets which sections -----

  lemma HeadersOfOne(a: string)
    ensures Headers([a]) == ["[" + a + "]"]
  {
  }

  lemma HeadersOfThree(a: string, b: string, c: string)
    ensures Headers([a] + [b, c]) == ["[" + a + "]", "[" + b + "]", "[" + c + "]"]
  {
  }

  lemma BaseSections()
    ensures BASE.isaLevel == "x86_64" && Header(BASE.name) == "[cachyos]" && Headers(Names(BASE)) == ["[cachyos]"]
  {
    HeadersOfOne("cachyos");
    assert ["cachyos"] + [] == ["cachyos"];
    assert "[" + "cachyos" + "]" == "[cachyos]";
  }

  lemma V3Sections()
    ensures V3.isaLevel == "x86_64_v3" && Header(V3.name) == "[cachyos-v3]"
    ensures Headers(Names(V3)) == ["[cachyos-v3]", "[cachyos-core-v3]", "[cachyos-extra-v3]"]
  {
    HeadersOfThree("cachyos-v3", "cachyos-core-v3", "cachyos-extra-v3");
    assert "[" + "cachyos-v3" + "]" == "[cachyos-v3]";
    assert "[" + "cachyos-core-v3" + "]" == "[cachyos-core-v3]";
    assert "[" + "cachyos-extra-v3" + "]" == "[cachyos-extra-v3]";
  }

  lemma V4Sections()
    ensures V4.isaLevel == "x86_64_v4" && Header(V4.name) == "[cachyos-v4]"
    ensures Headers(Names(V4)) == ["[cachyos-v4]", "[cachyos-core-v4]", "[cachyos-extra-v4]"]
  {
    HeadersOfThree("cachyos-v4", "cachyos-core-v4", "cachyos-extra-v4");
    assert "[" + "cachyos-v4" + "]" == "[cachyos-v4]";
    assert "[" + "cachyos-core-v4" + "]" == "[cachyos-core-v4]";
    assert "[" + "cachyos-extra-v4" + "]" == "[cachyos-extra-v4]";
  }

  lemma Znver4Sections()
    ensures ZNVER4.isaLevel == "x86_64_v4" && Header(ZNVER4.name) == "[cachyos-znver4]"
    ensures Headers(Names(ZNVER4)) == ["[cachyos-znver4]", "[cachyos-core-znver4]", "[cachyos-extra-znver4]"]
  {
    HeadersOfThree("cachyos-znver4", "cachyos-core-znver4", "cachyos-extra-znver4");
    assert "[" + "cachyos-znver4" + "]" == "[cachyos-znver4]";
    assert "[" + "cachyos-core-znver4" + "]" == "[cachyos-core-znver4]";
    assert "[" + "cachyos-extra-znver4" + "]" == "[cachyos-extra-znver4]";
  }

  /** An ordinary file without any of the sections that a run looks for. */
  ghost predicate Untouched(conf: string) {
    && Ordinary(conf, "[cachyos]")
    && "[cachyos]" !in RepoList(conf) && "[cachyos-v3]" !in RepoList(conf)
    && "[cachyos-v4]" !in RepoList(conf) && "[cachyos-znver4]" !in RepoList(conf)
  }

  /** What the first run puts in front of the repositories, by the facts of the machine: nothing
      for the CPU on an Oracle VM; on Zen 4 and 5 their own sections, or none if their level is
      not supported; elsewhere the sections of the highest level. */
  lemma FirstRunByMachine(conf: string, m: Machine)
    requires Untouched(conf)
    ensures Install(conf, m).Some?
    ensures var repos := RepoList(Install(conf, m).value);
            var base := if "x86_64" in m.isaLevels then ["[cachyos]"] else [];
            var v3, v4 := "x86_64_v3" in m.isaLevels, "x86_64_v4" in m.isaLevels;
            && (m.oracleVm ==> repos == base + RepoList(conf))
            && (!m.oracleVm && m.znver45 && v4 ==>
                  repos == ["[cachyos-znver4]", "[cachyos-core-znver4]", "[cachyos-extra-znver4]"]
                           + base + RepoList(conf))
            && (!m.oracleVm && m.znver45 && !v4 ==> repos == base + RepoList(conf))
            && (!m.oracleVm && !m.znver45 && v4 ==>
                  repos == ["[cachyos-v4]", "[cachyos-core-v4]", "[cachyos-extra-v4]"] + base + RepoList(conf))
            && (!m.oracleVm && !m.znver45 && !v4 && v3 ==>
                  repos == ["[cachyos-v3]", "[cachyos-core-v3]", "[cachyos-extra-v3]"] + base + RepoList(conf))
            && (!m.oracleVm && !m.znver45 && !v4 && !v3 ==> repos == base + RepoList(conf))
  {
    hide RepoList, Install, Header, Headers, Names, Ordinary;
    BaseSections();
    V3Sections();
    V4Sections();
    Znver4Sections();
    FirstRun(conf, m);
  }

  /** The copy that the first run leaves: the file before the last change to it, which has the
      base section already if the sections for the CPU came after it. */
  lemma {:induction false} BackupOfFirstRun(conf: string, backup: string, m: Machine)
    requires Untouched(conf)
    ensures var base := "x86_64" in m.isaLevels;
            var cpu := !m.oracleVm && ("x86_64_v4" in m.isaLevels || (!m.znver45 && "x86_64_v3" in m.isaLevels));
            var copy := Backup(conf, backup, Additions(m), m.isaLevels);
            && (!base && !cpu ==> copy == backup)
            && (base != cpu ==> copy == conf)
            && (base && cpu ==> copy != conf && RepoList(copy) == ["[cachyos]"] + RepoList(conf))
  {
    hide RepoList, Header, Headers, Names, Proper, HasPlace, CutsCleanly, OccursIn, Add, AddAll, Reached, Backup;
    BaseSections();
    V3Sections();
    V4Sections();
    Znver4Sections();
    AdditionsAreProper(m);
    ReachedByOne(conf, backup, BASE, m.isaLevels);
    assert BASE in Additions(m);
    AddNothing(conf, BASE, m.isaLevels);
    AddOneToOrdinary(conf, BASE, m.isaLevels);
    if Family(m).Some? {
      FamilyIsNotBase(m);
      assert Family(m).value in Additions(m);
      ReachedByTwo(conf, backup, BASE, Family(m).value, m.isaLevels);
      AddOneToOrdinary(Add(conf, BASE, m.isaLevels).value, Family(m).value, m.isaLevels);
    }
  }

  /** The text that is inserted, line by line. */
  lemma BlockOfOne(a: Addition)
    requires a.others == []
    ensures Block(a) == Joined(["", "[" + a.name + "]", "Include = /etc/pacman.d/" + a.mirrors, ""], '\n')
  {
    hide Joined;
    assert Names(a) == [a.name];
    SectionsFrom(a.name, [], a.mirrors);
    assert [a.name] + [] == [a.name];
    assert [""] + SectionLines([a.name], a.mirrors)
        == ["", "[" + a.name + "]", "Include = /etc/pacman.d/" + a.mirrors, ""];
  }

  lemma BlockOfThree(a: Addition)
    requires |a.others| == 2
    ensures var mirror := "Include = /etc/pacman.d/" + a.mirrors;
            Block(a) == Joined(["", "[" + a.name + "]", mirror, "[" + a.others[0] + "]", mirror,
                                "[" + a.others[1] + "]", mirror, ""], '\n')
  {
    hide Joined;
    var x, y := a.others[0], a.others[1];
    var mirror := "Include = /etc/pacman.d/" + a.mirrors;
    assert Names(a) == [a.name] + ([x] + ([y] + []));
    SectionsFrom(a.name, [x] + ([y] + []), a.mirrors);
    SectionsFrom(x, [y] + [], a.mirrors);
    SectionsFrom(y, [], a.mirrors);
    assert [""] + SectionLines(Names(a), a.mirrors)
        == ["", "[" + a.name + "]", mirror, "[" + x + "]", mirror, "[" + y + "]", mirror, ""];
  }

  lemma {:induction false} SectionsFrom(name: string, names: seq<string>, mirrors: string)
    ensures SectionLines([name] + names, mirrors) ==
            ["[" + name + "]", "Include = /etc/pacman.d/" + mirrors] + SectionLines(names, mirrors)
    ensures SectionLines([], mirrors) == [""]
  {
    assert ([name] + names)[1..] == names;
  }

  /** The four blocks: every section is followed by its mirror list, and Zen 4 uses the one of
      the fourth level. */
  lemma BlocksLineByLine()
    ensures Block(BASE) == Joined(["", "[cachyos]", "Include = /etc/pacman.d/" + "cachyos-mirrorlist", ""], '\n')
    ensures var mirror := "Include = /etc/pacman.d/" + "cachyos-v3-mirrorlist";
            Block(V3) == Joined(["", "[cachyos-v3]", mirror, "[cachyos-core-v3]", mirror,
                                 "[cachyos-extra-v3]", mirror, ""], '\n')
    ensures var mirror := "Include = /etc/pacman.d/" + "cachyos-v4-mirrorlist";
            && Block(V4) == Joined(["", "[cachyos-v4]", mirror, "[cachyos-core-v4]", mirror,
                                    "[cachyos-extra-v4]", mirror, ""], '\n')
            && Block(ZNVER4) == Joined(["", "[cachyos-znver4]", mirror, "[cachyos-core-znver4]", mirror,
                                        "[cachyos-extra-znver4]", mirror, ""], '\n')
  {
    hide Block, Joined;
    BlockOfOne(BASE);
    BlockOfThree(V3);
    BlockOfThree(V4);
    BlockOfThree(ZNVER4);
    BracketedNames(BASE);
    BracketedNames(V3);
    BracketedNames(V4);
    BracketedNames(ZNVER4);
    BaseSections();
    V3Sections();
    V4Sections();
    Znver4Sections();
  }

  lemma BracketedNames(a: Addition)
    ensures Headers(Names(a))[0] == "[" + a.name + "]"
    ensures |a.others| == 2 ==>
              Headers(Names(a))[1] == "[" + a.others[0] + "]" && Headers(Names(a))[2] == "[" + a.others[1] + "]"
  {
  }

  // ----- no section is ever there twice -----

  const FAMILIES: seq<Addition> := [BASE, V3, V4, ZNVER4]

  /** No section is in two families or twice in one. */
  ghost predicate Apart(fs: seq<Addition>) {
    forall a, b :: a in fs && b in fs ==> Proper(a) && NoDuplicates(Headers(Names(a))) && (a == b || NoneShared(a, b))
  }

  ghost predicate NoneShared(a: Addition, b: Addition) {
    forall n :: n in Names(a) ==> Header(n) !in Headers(Names(b))
  }

  /** No repository is there twice, and no family is there in part without its first section. */
  ghost predicate Whole(fs: seq<Addition>, repos: seq<string>) {
    && NoDuplicates(repos)
    && forall a :: a in fs && Header(a.name) !in repos ==> NoneOf(a, repos)
  }

  ghost predicate NoneOf(a: Addition, repos: seq<string>) {
    forall n :: n in Names(a) ==> Header(n) !in repos
  }

  /** The file is ordinary for all the families, and whole. */
  ghost predicate SoundIn(fs: seq<Addition>, conf: string) {
    OrdinaryForAll(fs, conf) && Whole(fs, RepoList(conf))
  }

  ghost predicate OrdinaryForAll(fs: seq<Addition>, conf: string) {
    forall a :: a in fs ==> Ordinary(conf, Header(a.name))
  }

  /** Length and last letter tell all section names apart. */
  ghost predicate Ends(name: string, length: nat, last: char) {
    |name| == length && length > 0 && name[length - 1] == last
  }

  lemma NamesEnd()
    ensures Names(BASE) == [BASE.name] && Ends(BASE.name, 7, 's')
    ensures |Names(V3)| == |Names(V4)| == |Names(ZNVER4)| == 3
    ensures Ends(Names(V3)[0], 10, '3') && Ends(Names(V3)[1], 15, '3') && Ends(Names(V3)[2], 16, '3')
    ensures Ends(Names(V4)[0], 10, '4') && Ends(Names(V4)[1], 15, '4') && Ends(Names(V4)[2], 16, '4')
    ensures Ends(Names(ZNVER4)[0], 14, '4') && Ends(Names(ZNVER4)[1], 19, '4') && Ends(Names(ZNVER4)[2], 20, '4')
  {
  }

  ghost predicate AllApart(xss: seq<seq<string>>) {
    forall i, j :: 0 <= i < |xss| && 0 <= j < |xss| ==>
      NoDuplicates(xss[i]) && (i == j || forall n :: n in xss[i] ==> n !in xss[j])
  }

  lemma ApartByEnds(base: seq<string>, v3: seq<string>, v4: seq<string>, znver4: seq<string>)
    requires |base| == 1 && |v3| == |v4| == |znver4| == 3 && Ends(base[0], 7, 's')
    requires Ends(v3[0], 10, '3') && Ends(v3[1], 15, '3') && Ends(v3[2], 16, '3')
    requires Ends(v4[0], 10, '4') && Ends(v4[1], 15, '4') && Ends(v4[2], 16, '4')
    requires Ends(znver4[0], 14, '4') && Ends(znver4[1], 19, '4') && Ends(znver4[2], 20, '4')
    ensures AllApart([base, v3, v4, znver4])
  {
  }

  lemma NamesAreApart()
    ensures forall a :: a in FAMILIES ==> NoDuplicates(Names(a))
    ensures forall a, b, n :: a in FAMILIES && b in FAMILIES && a != b && n in Names(a) ==> n !in Names(b)
  {
    hide Names, Ends, NoDuplicates;
    NamesEnd();
    ApartByEnds(Names(BASE), Names(V3), Names(V4), Names(ZNVER4));
    var xss := [Names(BASE), Names(V3), Names(V4), Names(ZNVER4)];
    assert forall i :: 0 <= i < 4 ==> xss[i] == Names(FAMILIES[i]);
    hide BASE, V3, V4, ZNVER4;
    forall a, b, n | a in FAMILIES && b in FAMILIES && a != b && n in Names(a)
      ensures n !in Names(b)
    {
      var i, j :| 0 <= i < 4 && 0 <= j < 4 && FAMILIES[i] == a && FAMILIES[j] == b;
      assert n in xss[i] && n !in xss[j];
    }
    forall a | a in FAMILIES
      ensures NoDuplicates(Names(a))
    {
      var i :| 0 <= i < 4 && FAMILIES[i] == a;
      assert NoDuplicates(xss[i]);
    }
  }

  lemma HeaderIsInjective(n: string, m: string)
    requires Header(n) == Header(m)
    ensures n == m
  {
    assert Header(n)[1..|n| + 1] == n && Header(m)[1..|m| + 1] == m;
  }

  lemma {:induction false} HeadersAreApart(xs: seq<string>, ys: seq<string>)
    ensures NoDuplicates(xs) ==> NoDuplicates(Headers(xs))
    ensures forall n :: n !in ys ==> Header(n) !in Headers(ys)
  {
    hide Header, Headers;
    forall i, j | 0 <= i < j < |xs| && xs[i] != xs[j]
      ensures Header(xs[i]) != Header(xs[j])
    {
      if Header(xs[i]) == Header(xs[j]) {
        HeaderIsInjective(xs[i], xs[j]);
      }
    }
    forall n, m | m in ys && n != m
      ensures Header(n) != Header(m)
    {
      if Header(n) == Header(m) {
        HeaderIsInjective(n, m);
      }
    }
  }

  lemma FamiliesAreApart()
    ensures Apart(FAMILIES)
  {
    hide Header, Headers, Names, Proper, NoDuplicates;
    NamesAreApart();
    BaseIsProper();
    V3IsProper();
    V4IsProper();
    Znver4IsProper();
    forall a, b | a in FAMILIES && b in FAMILIES
      ensures Proper(a) && NoDuplicates(Headers(Names(a))) && (a == b || NoneShared(a, b))
    {
      HeadersAreApart(Names(a), Names(b));
    }
  }

  lemma NoOccurrenceBehindNewline(s: string, t: string)
    requires !OccursIn(s, t) && t != "" && '\n' !in t
    ensures !OccursIn(s + "\n", t)
  {
    hide Find;
    forall j | 0 <= j <= |s| + 1
      ensures !(t <= (s + "\n")[j..])
    {
      if j + |t| <= |s| {
        NotInLonger(s, "\n", t, j);
      } else if j <= |s| {
        NotAcrossNewline(s + "\n", t, j, |s|);
      }
    }
  }

  lemma AddKeepsWhole(fs: seq<Addition>, conf: string, a: Addition, isaLevels: seq<string>)
    requires Apart(fs) && a in fs && SoundIn(fs, conf)
    ensures Add(conf, a, isaLevels).Some?
    ensures SoundIn(fs, Add(conf, a, isaLevels).value)
  {
    hide RepoList, Find, IsRepo, Block, CutsCleanly, Push, Header, Names, Headers, Proper, OccursIn;
    if Wanted(conf, a, isaLevels) {
      hide Add;
      var header := Header(a.name);
      assert Ordinary(conf, header);
      AddToOrdinary(conf, a, isaLevels);
      var after := Add(conf, a, isaLevels).value;
      forall b | b in fs
        ensures Ordinary(after, Header(b.name))
      {
        HeaderHasNoNewline(b);
        assert Ordinary(conf, Header(b.name));
        NoOccurrenceBehindNewline(Head(conf), Header(b.name));
      }
      StillWhole(fs, RepoList(conf), a);
    }
  }

  lemma StillWhole(fs: seq<Addition>, repos: seq<string>, a: Addition)
    requires Apart(fs) && a in fs && Whole(fs, repos) && Header(a.name) !in repos
    ensures Whole(fs, Headers(Names(a)) + repos)
  {
    hide Header, Proper;
    var after := Headers(Names(a)) + repos;
    assert NoneOf(a, repos);
    DistinctConcat(Headers(Names(a)), repos);
    forall b | b in fs && Header(b.name) !in after
      ensures NoneOf(b, after)
    {
      assert a != b by { assert Headers(Names(a))[0] == Header(a.name); }
      assert NoneShared(b, a) && NoneOf(b, repos);
    }
  }

  lemma {:induction false} AddAllKeepsWhole(fs: seq<Addition>, conf: string, todo: seq<Addition>,
                                            isaLevels: seq<string>)
    requires Apart(fs) && SoundIn(fs, conf) && forall a :: a in todo ==> a in fs
    ensures AddAll(conf, todo, isaLevels).Some?
    ensures SoundIn(fs, AddAll(conf, todo, isaLevels).value)
    decreases |todo|
  {
    hide Add, SoundIn, Apart;
    if todo != [] {
      AddKeepsWhole(fs, conf, todo[0], isaLevels);
      AddAllKeepsWhole(fs, Add(conf, todo[0], isaLevels).value, todo[1..], isaLevels);
    }
  }

  /** All that a run on this machine can add belongs to the families. */
  ghost predicate Within(m: Machine, fs: seq<Addition>) {
    forall a :: a in Additions(m) ==> a in fs
  }

  lemma {:induction false} HistoryKeepsWhole(fs: seq<Addition>, conf: string, runs: seq<Machine>)
    requires Apart(fs) && SoundIn(fs, conf)
    requires forall m :: m in runs ==> Within(m, fs)
    ensures InstallAll(conf, runs).Some?
    ensures SoundIn(fs, InstallAll(conf, runs).value)
    decreases |runs|
  {
    hide RepoList, SoundIn, Apart, AddAll, Additions;
    if runs != [] {
      var m := runs[0];
      assert m in runs && Within(m, fs);
      AddAllKeepsWhole(fs, conf, Additions(m), m.isaLevels);
      HistoryKeepsWhole(fs, Install(conf, m).value, runs[1..]);
    }
  }

  lemma AdditionsAreFamilies(m: Machine)
    ensures Within(m, FAMILIES)
  {
  }

  /** From a sound file, every history of runs, on whatever machines, returns and leaves a
      sound file: no repository is ever there twice. */
  lemma {:induction false} HistoryNeverDuplicates(conf: string, runs: seq<Machine>)
    requires SoundIn(FAMILIES, conf)
    ensures InstallAll(conf, runs).Some? && SoundIn(FAMILIES, InstallAll(conf, runs).value)
    ensures NoDuplicates(RepoList(InstallAll(conf, runs).value))
  {
    hide RepoList, OrdinaryForAll, NoDuplicates, Apart, Additions, FAMILIES;
    FamiliesAreApart();
    forall m | m in runs
      ensures Within(m, FAMILIES)
    {
      AdditionsAreFamilies(m);
    }
    HistoryKeepsWhole(FAMILIES, conf, runs);
  }
}
